/** Which walk entries, sub-directories and files the profile grabber copies,
    and where the copies go. */
module Selection {
  import opened Text
  import opened Paths

  /** The keywords that exclude a root, a sub-directory or a file. */
  const ExclusionKeywords: seq<string> := ["not_used", "not used", "old"]

  /** The lower-cased name or path contains one of the exclusion keywords,
      anywhere, even inside a word. */
  function Excluded(s: string): (b: bool)
    ensures b <==> exists k, i: nat :: k in ExclusionKeywords && OccursAt(Lower(s), k, i)
  {
    KeywordOccurs(s);
    var l := Lower(s);
    Contains(l, "not_used") || Contains(l, "not used") || Contains(l, "old")
  }

  /** Some keyword is in the lower-cased `s` exactly when one occurs in it
      at some offset. */
  lemma KeywordOccurs(s: string)
    ensures (exists k, i: nat :: k in ExclusionKeywords && OccursAt(Lower(s), k, i)) <==>
      Contains(Lower(s), "not_used") || Contains(Lower(s), "not used") || Contains(Lower(s), "old")
  {
    var l := Lower(s);
    ContainsIff(l, "not_used");
    ContainsIff(l, "not used");
    ContainsIff(l, "old");
    if exists k, i: nat :: k in ExclusionKeywords && OccursAt(l, k, i) {
      var k, i: nat :| k in ExclusionKeywords && OccursAt(l, k, i);
      assert k == "not_used" || k == "not used" || k == "old";
    }
    if Contains(l, "not_used") {
      var i: nat :| OccursAt(l, "not_used", i);
      assert "not_used" in ExclusionKeywords;
    } else if Contains(l, "not used") {
      var i: nat :| OccursAt(l, "not used", i);
      assert "not used" in ExclusionKeywords;
    } else if Contains(l, "old") {
      var i: nat :| OccursAt(l, "old", i);
      assert "old" in ExclusionKeywords;
    }
  }

  /** A walk root is a profiles directory when one of the pieces of
      `root.split(os.sep)` is exactly `profiles` and none is exactly
      `test_profile`; both comparisons are case-sensitive. Equivalently,
      `profiles` occurs as a whole piece, between backslashes or the ends,
      and `test_profile` does not. */
  function Qualifies(root: string): (b: bool)
    ensures b <==>
      && (exists i: nat :: PieceAt(root, Sep, "profiles", i))
      && !(exists i: nat :: PieceAt(root, Sep, "test_profile", i))
  {
    PieceIn(root, Sep, "profiles");
    PieceIn(root, Sep, "test_profile");
    var pieces := Split(root, Sep);
    "profiles" in pieces && "test_profile" !in pieces
  }

  /** `filtered_dirs`: the sub-directories without an exclusion keyword, in
      walk order. */
  function FilteredDirs(dirs: seq<string>): (r: seq<string>)
    ensures IsSubsequence(r, dirs)
    ensures forall d :: d in r <==> d in dirs && !Excluded(d)
    ensures forall d :: multiset(r)[d] == if !Excluded(d) then multiset(dirs)[d] else 0
  {
    Filter(dirs, d => !Excluded(d))
  }

  /** `filtered_files`: the files other than `test_profile.xml` (in any case)
      without an exclusion keyword, in walk order. */
  function FilteredFiles(files: seq<string>): (r: seq<string>)
    ensures IsSubsequence(r, files)
    ensures forall f :: f in r <==> f in files && Lower(f) != "test_profile.xml" && !Excluded(f)
    ensures forall f :: multiset(r)[f] ==
                        if Lower(f) != "test_profile.xml" && !Excluded(f) then multiset(files)[f] else 0
  {
    Filter(files, f => Lower(f) != "test_profile.xml" && !Excluded(f))
  }

  /** The configuration file copied from the parent of a profiles directory. */
  const ConfigName: string := "FraMES.Client.Shell.exe.config"

  /** `config_files`: the entries of the parent folder's listing named exactly
      like the configuration file. */
  function ConfigFiles(listing: seq<string>): (r: seq<string>)
    ensures forall f :: f in r ==> f == ConfigName
    ensures r != [] <==> ConfigName in listing
    ensures multiset(r)[ConfigName] == multiset(listing)[ConfigName]
  {
    Filter(listing, f => f == ConfigName)
  }

  /** A name is among the configuration files of a listing exactly when it
      is the configuration file's name and the listing holds it. */
  lemma ConfigFilesMember(listing: seq<string>, name: string)
    ensures name in ConfigFiles(listing) <==> name == ConfigName && ConfigName in listing
  {
    var r := ConfigFiles(listing);
    if r != [] {
      assert r[0] in r;
    }
  }

  /** `any(os.path.join(root, d) for d in dirs)`: some joined path is a
      non-empty, hence true, string. */
  predicate AnyJoinedPath(root: string, dirs: seq<string>) {
    exists i :: 0 <= i < |dirs| && Join(root, dirs[i]) != []
  }

  /** A walk entry gets a destination folder and copy actions: its root
      qualifies, the lower-cased root has no exclusion keyword, and the
      filtered files or the joined filtered directories are not all empty.
      Walk roots are never empty, and then the `any(...)` test only asks
      whether some filtered directory is left: an entry is skipped exactly
      when both filtered lists are empty. */
  function Selected(root: string, dirs: seq<string>, files: seq<string>): (b: bool)
    ensures root != [] ==>
      (b <==> Qualifies(root) && !Excluded(root) && (FilteredFiles(files) != [] || FilteredDirs(dirs) != []))
  {
    var fd := FilteredDirs(dirs);
    assert root != [] && fd != [] ==> Join(root, fd[0]) != [];
    && Qualifies(root)
    && !Excluded(root)
    && (FilteredFiles(files) != [] || AnyJoinedPath(root, fd))
  }

  /** `f"{parent_directory}_profile"`, where the parent directory is the base
      name of the root's directory name: one path piece, ending in
      `_profile`. */
  function ProfileFolderName(root: string): (r: string)
    ensures NoSep(r)
    ensures |r| >= 8 && r[|r| - 8..] == "_profile"
  {
    ProfileSuffix(Basename(Dirname(root)));
    Basename(Dirname(root)) + "_profile"
  }

  /** A name without separators stays one after `_profile` is appended. */
  lemma {:induction false} ProfileSuffix(parent: string)
    requires NoSep(parent)
    ensures NoSep(parent + "_profile")
    ensures (parent + "_profile")[|parent|..] == "_profile"
  {
    var r := parent + "_profile";
    forall i | 0 <= i < |r|
      ensures !IsSep(r[i])
    {
      if i >= |parent| {
        assert r[i] == "_profile"[i - |parent|];
      }
    }
  }

  /** `profiles_destination`: the profile folder's name joined onto the
      destination. */
  function ProfilesDestination(destination: string, root: string): string {
    Join(destination, ProfileFolderName(root))
  }

  /** For a destination folder inside a drive or share, the profiles
      destination is a sub-folder of it named after the profile folder. */
  lemma {:induction false} ProfilesDestinationInside(destination: string, root: string)
    requires BelowDrive(destination) && !IsSep(destination[|destination| - 1])
    ensures Dirname(ProfilesDestination(destination, root)) == destination
    ensures Basename(ProfilesDestination(destination, root)) == ProfileFolderName(root)
  {
    JoinThenSplit(destination, ProfileFolderName(root));
  }

  /** A profiles folder right at the root of a drive (`X:\profiles`) or of
      a share (`\\host\share\profiles`) has an empty parent name, so its
      copies go to the folder `_profile`. */
  lemma {:induction false} RootProfilesFolder(letter: char, host: string, share: string)
    requires host != [] && share != [] && NoSep(host) && NoSep(share)
    ensures ProfileFolderName([letter, ':', Sep] + "profiles") == "_profile"
    ensures ProfileFolderName([Sep, Sep] + host + [Sep] + share + [Sep] + "profiles") == "_profile"
  {
    assert NoSep("profiles");
    DriveRootFolder(letter, "profiles");
    ShareRootFolder(host, share, "profiles");
  }

  /** A keyword in any part of a name or path excludes the whole of it. */
  lemma ExcludedWithin(a: string, t: string, b: string)
    requires Excluded(t)
    ensures Excluded(a + t + b)
  {
    LowerConcat(a + t, b);
    LowerConcat(a, t);
    var l := Lower(t);
    if Contains(l, "not_used") {
      ContainsWithin(Lower(a), l, Lower(b), "not_used");
    } else if Contains(l, "not used") {
      ContainsWithin(Lower(a), l, Lower(b), "not used");
    } else {
      ContainsWithin(Lower(a), l, Lower(b), "old");
    }
  }

  /** `old` is matched inside words in any case: `folder`, `Golden`,
      `HOLDER` and every other name around `old` are excluded. */
  lemma OldInsideWords(a: string, b: string, o: string)
    requires Lower(o) == "old"
    ensures Excluded(a + o + b)
  {
    assert Contains("old", "old");
    ExcludedWithin(a, o, b);
  }

  /** A directory `drive\app\profiles` qualifies unless a piece is
      `test_profile`, and its copies go to the folder `app_profile`, when
      the drive part ends in an ordinary character and, if it starts like a
      UNC path, holds a whole `\\host\share`. */
  lemma {:induction false} ProfilesFolderOfApp(drive: string, app: string)
    requires drive != [] && !IsSep(drive[|drive| - 1]) && drive[|drive| - 1] != ':'
    requires UncStart(drive) ==> DriveLength(drive) > 0
    requires app != [] && NoSep(app)
    ensures Qualifies(Join(Join(drive, app), "profiles")) <==>
      "test_profile" !in Split(drive, Sep) && app != "test_profile"
    ensures ProfileFolderName(Join(Join(drive, app), "profiles")) == app + "_profile"
  {
    assert NoSep("profiles");
    AppSubfolder(drive, app, "profiles");
    QualifiesByPieces(Join(Join(drive, app), "profiles"), Split(drive, Sep), app, "profiles");
  }

  /** Whether a path whose pieces end with `app` and `last` qualifies. */
  lemma {:induction false} QualifiesByPieces(p: string, pieces: seq<string>, app: string, last: string)
    requires Split(p, Sep) == pieces + [app] + [last]
    ensures Qualifies(p) <==>
      && ("profiles" in pieces || app == "profiles" || last == "profiles")
      && !("test_profile" in pieces || app == "test_profile" || last == "test_profile")
  {
  }

  /** The path `drive\app\name` built by two joins: its pieces, its
      directory name and that directory's base name. */
  lemma {:induction false} AppSubfolder(drive: string, app: string, name: string)
    requires drive != [] && !IsSep(drive[|drive| - 1]) && drive[|drive| - 1] != ':'
    requires UncStart(drive) ==> DriveLength(drive) > 0
    requires app != [] && NoSep(app) && NoSep(name)
    ensures Split(Join(Join(drive, app), name), Sep) == Split(drive, Sep) + [app] + [name]
    ensures Basename(Dirname(Join(Join(drive, app), name))) == app
  {
    var dir := Join(drive, app);
    JoinInserts(drive, app);
    AppFolderBelowDrive(drive, app);
    JoinThenSplit(dir, name);
    AppPieces(drive, app, name);
    BasenameAfterSep(drive, app);
  }

  /** The pieces of `drive\app\name`. */
  lemma {:induction false} AppPieces(drive: string, app: string, name: string)
    requires NoSep(app) && NoSep(name)
    ensures Split(drive + [Sep] + app + [Sep] + name, Sep) == Split(drive, Sep) + [app] + [name]
  {
    SplitSnoc(drive, Sep, app);
    SplitSnoc(drive + [Sep] + app, Sep, name);
  }

  /** `drive\app` is a folder inside its drive or share, and ends with the
      last character of `app`. */
  lemma {:induction false} AppFolderBelowDrive(drive: string, app: string)
    requires drive != [] && !IsSep(drive[|drive| - 1])
    requires UncStart(drive) ==> DriveLength(drive) > 0
    requires app != []
    ensures var dir := drive + [Sep] + app;
      BelowDrive(dir) && dir[|dir| - 1] == app[|app| - 1] && DriveLength(dir) == DriveLength(drive)
  {
    var dir := drive + [Sep] + app;
    DriveLengthExtend(drive, app);
    if UncStart(dir) {
      assert |drive| >= 2 && dir[1] == drive[1] && dir[0] == drive[0];
    }
  }

  /** The `profiles` piece is matched case-sensitively: `drive\app\Profiles`
      does not qualify unless an outer piece is exactly `profiles`. */
  lemma {:induction false} ProfilesCaseSensitive(drive: string, app: string)
    requires drive != [] && !IsSep(drive[|drive| - 1]) && drive[|drive| - 1] != ':'
    requires UncStart(drive) ==> DriveLength(drive) > 0
    requires app != [] && NoSep(app) && app != "profiles"
    requires "profiles" !in Split(drive, Sep)
    ensures !Qualifies(Join(Join(drive, app), "Profiles"))
  {
    assert NoSep("Profiles");
    AppSubfolder(drive, app, "Profiles");
    QualifiesByPieces(Join(Join(drive, app), "Profiles"), Split(drive, Sep), app, "Profiles");
  }

  /** Every directory below a profiles directory qualifies too, and its
      copies go to a folder named after the profiles directory itself
      (`profiles_profile` below `...\profiles`). */
  lemma {:induction false} DescendantQualifies(root: string, name: string)
    requires Qualifies(root)
    requires BelowDrive(root) && !IsSep(root[|root| - 1])
    requires NoSep(name) && name != "test_profile"
    ensures Qualifies(Join(root, name))
    ensures ProfileFolderName(Join(root, name)) == Basename(root) + "_profile"
  {
    JoinThenSplit(root, name);
    SplitSnoc(root, Sep, name);
  }
}
