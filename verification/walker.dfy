/** `copy_profiles_folder`: one walk over a drive, with the copy actions it
    issues and the timeout that can stop it.

    The directory walk is an input sequence of entries, the listing of a
    folder is an input function, and the copies are emitted as action
    records. The timer thread is an oracle `fires`: just before the walk's
    p-th look at the flag, the timer callback has run when `fires(p)` holds.

    The walk is specified by a flat list of steps: a `Poll` for each look at
    the flag and an `Act` for each action. Without a timeout every step is
    taken; with one, the walk stops at the first poll that finds the flag
    set and takes no step after it. */
module Walker {
  import opened Text
  import opened Paths
  import opened Selection
  import opened Timeout

  /** One `(root, dirs, files)` triple of `os.walk(source)`. */
  datatype WalkEntry = WalkEntry(root: string, dirs: seq<string>, files: seq<string>)

  datatype Kind = ConfigFile | Directory | LooseFile

  datatype Action =
    /** Create the destination folder if it does not exist yet. */
    | MakeDirs(folder: string)
    /** Copy `fromDir\name` to `toDir\name`: `shutil.copy` for a config or
        loose file, `shutil.copytree(..., dirs_exist_ok=True)` for a
        directory. */
    | Copy(kind: Kind, fromDir: string, name: string, toDir: string)
  {
    predicate IsProfileCopy() {
      Copy? && kind != ConfigFile
    }

    predicate IsConfigCopy() {
      Copy? && kind == ConfigFile
    }
  }

  datatype Step = Poll | Act(action: Action)

  /** What one run reports: the actions taken, the lines appended to the
      marker file, the two flags, and whether "nothing found" was logged. */
  datatype Outcome = Outcome(
    actions: seq<Action>,
    marker: seq<string>,
    profilesFound: bool,
    configFilesCopied: bool,
    reportedNothing: bool)

  // ---------------------------------------------------------------------
  // The steps of a walk without a timeout

  /** One loop over `names`: a poll, then a copy, per name. */
  function CopySteps(kind: Kind, fromDir: string, names: seq<string>, toDir: string): seq<Step> {
    if names == [] then []
    else [Poll, Act(Copy(kind, fromDir, names[0], toDir))] + CopySteps(kind, fromDir, names[1..], toDir)
  }

  /** The steps for one entry after its opening poll. */
  function EntryBody(e: WalkEntry, listdir: string -> seq<string>, destination: string): seq<Step> {
    if Selected(e.root, e.dirs, e.files) then
      var folder := ProfilesDestination(destination, e.root);
      var parent := Dirname(e.root);
      [Act(MakeDirs(folder))]
      + CopySteps(ConfigFile, parent, ConfigFiles(listdir(parent)), folder)
      + CopySteps(Directory, e.root, FilteredDirs(e.dirs), folder)
      + CopySteps(LooseFile, e.root, FilteredFiles(e.files), folder)
    else []
  }

  /** All steps of a walk that no timeout interrupts. */
  function WalkSteps(walk: seq<WalkEntry>, listdir: string -> seq<string>, destination: string): seq<Step> {
    if walk == [] then []
    else [Poll] + EntryBody(walk[0], listdir, destination) + WalkSteps(walk[1..], listdir, destination)
  }

  function Actions(steps: seq<Step>): seq<Action> {
    if steps == [] then []
    else (if steps[0].Act? then [steps[0].action] else []) + Actions(steps[1..])
  }

  function Polls(steps: seq<Step>): nat {
    if steps == [] then 0
    else (if steps[0].Poll? then 1 else 0) + Polls(steps[1..])
  }

  /** The actions of a walk that no timeout interrupts. */
  function Plan(walk: seq<WalkEntry>, listdir: string -> seq<string>, destination: string): seq<Action> {
    Actions(WalkSteps(walk, listdir, destination))
  }

  // ---------------------------------------------------------------------
  // Where a timeout stops the walk

  /** The number of steps taken before the first poll that finds the flag
      set, when `p` polls have already been made. */
  function HaltFrom(steps: seq<Step>, fires: nat -> bool, p: nat): (k: nat)
    ensures k <= |steps|
  {
    if steps == [] then 0
    else if steps[0].Poll? && fires(p) then 0
    else 1 + HaltFrom(steps[1..], fires, if steps[0].Poll? then p + 1 else p)
  }

  function Halt(steps: seq<Step>, fires: nat -> bool): nat {
    HaltFrom(steps, fires, 0)
  }

  /** The actions one run of `copy_profiles_folder` takes: a beginning of
      the actions of a run that no timeout interrupts. */
  function Performed(walk: seq<WalkEntry>, listdir: string -> seq<string>, destination: string,
                     fires: nat -> bool): (r: seq<Action>)
    ensures r <= Plan(walk, listdir, destination)
  {
    var all := WalkSteps(walk, listdir, destination);
    var k := HaltFrom(all, fires, 0);
    ActionsPrefix(all, k);
    Actions(all[..k])
  }

  /** The actions of a prefix of the steps are a prefix of their actions. */
  lemma {:induction false} ActionsPrefix(steps: seq<Step>, k: nat)
    requires k <= |steps|
    ensures Actions(steps[..k]) <= Actions(steps)
  {
    assert steps == steps[..k] + steps[k..];
    ActionsAppend(steps[..k], steps[k..]);
  }

  /** No poll among the first `k` steps finds the flag set. */
  ghost predicate QuietFrom(steps: seq<Step>, k: nat, fires: nat -> bool, p: nat)
    requires k <= |steps|
  {
    forall j :: 0 <= j < k && steps[j].Poll? ==> !fires(p + Polls(steps[..j]))
  }

  /** Step `k` is a poll that finds the flag set. */
  ghost predicate HaltsAt(steps: seq<Step>, k: nat, fires: nat -> bool) {
    k < |steps| && steps[k].Poll? && fires(Polls(steps[..k]))
  }

  // ---------------------------------------------------------------------
  // Counting what was copied

  function ProfileCopies(acts: seq<Action>): nat {
    if acts == [] then 0
    else ProfileCopies(acts[..|acts| - 1]) + (if acts[|acts| - 1].IsProfileCopy() then 1 else 0)
  }

  function ConfigCopies(acts: seq<Action>): nat {
    if acts == [] then 0
    else ConfigCopies(acts[..|acts| - 1]) + (if acts[|acts| - 1].IsConfigCopy() then 1 else 0)
  }

  /** `n` copies of `x`. */
  function Repeat(x: string, n: nat): seq<string> {
    if n == 0 then [] else Repeat(x, n - 1) + [x]
  }

  // ---------------------------------------------------------------------
  // The walk

  /** `check_timeout`, the timer callback. */
  method CheckTimeout(flag: TimeoutFlag)
    modifies flag
    ensures flag.IsSet()
  {
    if !flag.IsSet() {
      flag.Set();
    }
  }

  /** The variables the walk updates as it goes: the actions taken, the
      marker-file lines, `profiles_found` and `config_files_copied`. */
  datatype Progress = Progress(
    actions: seq<Action>,
    marker: seq<string>,
    profilesFound: bool,
    configFilesCopied: bool)

  /** The walk's progress after `k` steps of `all` agrees with those steps. */
  ghost predicate Tracks(all: seq<Step>, k: nat, fires: nat -> bool, source: string, st: Progress) {
    && k <= |all|
    && QuietFrom(all, k, fires, 0)
    && st.actions == Actions(all[..k])
    && st.marker == Repeat(source, ProfileCopies(st.actions))
    && (st.profilesFound <==> ProfileCopies(st.actions) > 0)
    && (st.configFilesCopied <==> ConfigCopies(st.actions) > 0)
  }

  /** Either the walk is still running and the steps left are `todo`, or a
      poll found the flag set at step `k`. */
  ghost predicate At(all: seq<Step>, k: nat, fires: nat -> bool, flagSet: bool, polls: nat, todo: seq<Step>) {
    && (!flagSet ==> k <= |all| && polls == Polls(all[..k]) && all[k..] == todo)
    && (flagSet ==> HaltsAt(all, k, fires))
  }

  /** `copy_profiles_folder(source, destination)` over the walk `walk` of
      `source`: the actions taken are those of `Performed`, the marker file
      gets `source` once per directory or file copy, and each flag says
      whether a copy of its kind happened. */
  method CopyProfilesFolder(source: string, destination: string, walk: seq<WalkEntry>,
                            listdir: string -> seq<string>, fires: nat -> bool)
    returns (out: Outcome)
    ensures out.actions == Performed(walk, listdir, destination, fires)
    ensures out.marker == Repeat(source, ProfileCopies(out.actions))
    ensures out.profilesFound <==> exists a :: a in out.actions && a.IsProfileCopy()
    ensures out.configFilesCopied <==> exists a :: a in out.actions && a.IsConfigCopy()
    ensures out.reportedNothing <==> forall a :: a in out.actions ==> !a.Copy?
  {
    ghost var all := WalkSteps(walk, listdir, destination);
    ghost var k: nat := 0;
    var flag := new TimeoutFlag();
    var polls: nat := 0;
    var st := Progress([], [], false, false);
    assert all[..0] == [] && all[0..] == all && walk[0..] == walk;

    for i := 0 to |walk|
      invariant Tracks(all, k, fires, source, st)
      invariant At(all, k, fires, flag.flag, polls, WalkSteps(walk[i..], listdir, destination))
    {
      if fires(polls) {
        CheckTimeout(flag);
      }
      if flag.IsSet() {
        break;
      }
      ghost var rest := WalkSteps(walk[i + 1..], listdir, destination);
      ghost var body := EntryBody(walk[i], listdir, destination);
      WalkStepsAt(walk, i, listdir, destination);
      PollStep(all, k, fires, source, st, polls, body + rest);
      polls, k := polls + 1, k + 1;
      polls, st, k := VisitEntry(walk[i], source, destination, listdir, flag, fires, polls, st, all, k, rest);
    }

    if !flag.IsSet() {
      assert walk[|walk|..] == [];
    }
    Finish(all, k, fires, source, st, flag.flag, polls);
    out := Outcome(st.actions, st.marker, st.profilesFound, st.configFilesCopied,
                   !st.profilesFound && !st.configFilesCopied);
  }

  /** The body of the walk loop for one entry, after the poll that opens it:
      qualification, exclusion, filtering, the destination folder and the
      three copy loops. */
  method VisitEntry(e: WalkEntry, source: string, destination: string, listdir: string -> seq<string>,
                    flag: TimeoutFlag, fires: nat -> bool, polls: nat, st: Progress,
                    ghost all: seq<Step>, ghost k: nat, ghost rest: seq<Step>)
    returns (polls': nat, st': Progress, ghost k': nat)
    modifies flag
    requires Tracks(all, k, fires, source, st)
    requires !flag.flag
    requires At(all, k, fires, false, polls, EntryBody(e, listdir, destination) + rest)
    ensures Tracks(all, k', fires, source, st')
    ensures At(all, k', fires, flag.flag, polls', rest)
  {
    polls', st', k' := polls, st, k;
    EntryBodySplit(e, listdir, destination, rest);
    var root, dirs, files := e.root, e.dirs, e.files;
    if Qualifies(root) {
      if Excluded(root) {
        return;
      }
      var filteredDirs := FilteredDirs(dirs);
      var filteredFiles := FilteredFiles(files);
      if filteredFiles == [] && !AnyJoinedPath(root, filteredDirs) {
        return;
      }

      var parentDirectory := Basename(Dirname(root));
      var profilesDestination := Join(destination, parentDirectory + "_profile");
      var parentFolder := Dirname(root);
      var configFiles := ConfigFiles(listdir(parentFolder));
      ghost var tailFiles := CopySteps(LooseFile, root, filteredFiles, profilesDestination) + rest;
      ghost var tailDirs := CopySteps(Directory, root, filteredDirs, profilesDestination) + tailFiles;
      MakeDirsStep(all, k, fires, source, st, polls, profilesDestination,
                   CopySteps(ConfigFile, parentFolder, configFiles, profilesDestination) + tailDirs);
      st' := st'.(actions := st'.actions + [MakeDirs(profilesDestination)]);
      k' := k' + 1;

      polls', st', k' := CopyEach(ConfigFile, parentFolder, configFiles, profilesDestination, source,
                                  flag, fires, polls', st', all, k', tailDirs);
      polls', st', k' := CopyEach(Directory, root, filteredDirs, profilesDestination, source,
                                  flag, fires, polls', st', all, k', tailFiles);
      polls', st', k' := CopyEach(LooseFile, root, filteredFiles, profilesDestination, source,
                                  flag, fires, polls', st', all, k', rest);
    }
  }

  /** One of the three copy loops: before each copy the timer may fire and
      the flag is polled; a set flag ends the loop. A config copy sets
      `config_files_copied`; a directory or file copy sets `profiles_found`
      and appends `source` to the marker file. */
  method CopyEach(kind: Kind, fromDir: string, names: seq<string>, toDir: string, source: string,
                  flag: TimeoutFlag, fires: nat -> bool, polls: nat, st: Progress,
                  ghost all: seq<Step>, ghost k: nat, ghost tail: seq<Step>)
    returns (polls': nat, st': Progress, ghost k': nat)
    modifies flag
    requires Tracks(all, k, fires, source, st)
    requires At(all, k, fires, flag.flag, polls, CopySteps(kind, fromDir, names, toDir) + tail)
    ensures Tracks(all, k', fires, source, st')
    ensures At(all, k', fires, flag.flag, polls', tail)
  {
    polls', st', k' := polls, st, k;
    assert names[0..] == names;
    for j := 0 to |names|
      invariant Tracks(all, k', fires, source, st')
      invariant At(all, k', fires, flag.flag, polls', CopySteps(kind, fromDir, names[j..], toDir) + tail)
    {
      if fires(polls') {
        CheckTimeout(flag);
      }
      if flag.IsSet() {
        break;
      }
      var a := Copy(kind, fromDir, names[j], toDir);
      CopyStep(all, k', fires, source, st', polls', kind, fromDir, names, j, toDir, tail);
      polls', k' := polls' + 1, k' + 2;
      if kind == ConfigFile {
        st' := st'.(actions := st'.actions + [a], configFilesCopied := true);
      } else {
        st' := st'.(actions := st'.actions + [a], profilesFound := true, marker := st'.marker + [source]);
      }
    }
    if !flag.IsSet() {
      assert names[|names|..] == [];
    }
  }

  // ---------------------------------------------------------------------
  // Lemmas the walk's proof uses

  lemma {:induction false} ActionsAppend(a: seq<Step>, b: seq<Step>)
    ensures Actions(a + b) == Actions(a) + Actions(b)
    decreases |a|
  {
    if a == [] {
      assert a + b == b;
    } else {
      var h := if a[0].Act? then [a[0].action] else [];
      assert (a + b)[0] == a[0] && (a + b)[1..] == a[1..] + b;
      assert Actions(a + b) == h + Actions(a[1..] + b);
      ActionsAppend(a[1..], b);
    }
  }

  lemma {:induction false} PollsAppend(a: seq<Step>, b: seq<Step>)
    ensures Polls(a + b) == Polls(a) + Polls(b)
    decreases |a|
  {
    if a == [] {
      assert a + b == b;
    } else {
      assert (a + b)[0] == a[0] && (a + b)[1..] == a[1..] + b;
      PollsAppend(a[1..], b);
    }
  }

  /** The polls among the first `j` steps: the first step's, then those
      among the next `j - 1`. */
  lemma {:induction false} PollsPrefixCons(steps: seq<Step>, j: nat)
    requires 0 < j <= |steps|
    ensures Polls(steps[..j]) == (if steps[0].Poll? then 1 else 0) + Polls(steps[1..][..j - 1])
  {
    assert steps[..j][0] == steps[0];
    assert steps[..j][1..] == steps[1..][..j - 1];
  }

  /** Taking step `k` of `all`, a poll that does not find the flag set or
      an action, leaves `rest` to do and extends the quiet prefix, the
      actions and the poll count by that step. */
  lemma {:induction false} Take(all: seq<Step>, k: nat, fires: nat -> bool, x: Step, rest: seq<Step>)
    requires k <= |all| && all[k..] == [x] + rest
    requires QuietFrom(all, k, fires, 0)
    requires x.Poll? ==> !fires(Polls(all[..k]))
    ensures k < |all| && all[k] == x && all[k + 1..] == rest
    ensures QuietFrom(all, k + 1, fires, 0)
    ensures Actions(all[..k + 1]) == Actions(all[..k]) + (if x.Act? then [x.action] else [])
    ensures Polls(all[..k + 1]) == Polls(all[..k]) + (if x.Poll? then 1 else 0)
  {
    assert all[k..][0] == all[k];
    assert all[k + 1..] == all[k..][1..];
    assert all[..k + 1] == all[..k] + [all[k]];
    ActionsAppend(all[..k], [all[k]]);
    PollsAppend(all[..k], [all[k]]);
  }

  /** The walk from entry `i` on: its poll, its body, then the rest. */
  lemma {:induction false} WalkStepsAt(walk: seq<WalkEntry>, i: nat, listdir: string -> seq<string>, destination: string)
    requires i < |walk|
    ensures WalkSteps(walk[i..], listdir, destination) ==
      [Poll] + (EntryBody(walk[i], listdir, destination) + WalkSteps(walk[i + 1..], listdir, destination))
  {
    var w := walk[i..];
    assert w[0] == walk[i] && w[1..] == walk[i + 1..];
    var body := EntryBody(walk[i], listdir, destination);
    var rest := WalkSteps(walk[i + 1..], listdir, destination);
    assert WalkSteps(w, listdir, destination) == [Poll] + body + rest;
    Assoc([Poll], body, rest);
  }

  /** The body of an entry followed by `rest`, spelled out loop by loop. */
  lemma {:induction false} EntryBodySplit(e: WalkEntry, listdir: string -> seq<string>, destination: string, rest: seq<Step>)
    ensures !Selected(e.root, e.dirs, e.files) ==> EntryBody(e, listdir, destination) + rest == rest
    ensures Selected(e.root, e.dirs, e.files) ==>
      var folder := ProfilesDestination(destination, e.root);
      var parent := Dirname(e.root);
      EntryBody(e, listdir, destination) + rest ==
        [Act(MakeDirs(folder))]
        + (CopySteps(ConfigFile, parent, ConfigFiles(listdir(parent)), folder)
        + (CopySteps(Directory, e.root, FilteredDirs(e.dirs), folder)
        + (CopySteps(LooseFile, e.root, FilteredFiles(e.files), folder) + rest)))
  {
    if Selected(e.root, e.dirs, e.files) {
      var folder := ProfilesDestination(destination, e.root);
      var parent := Dirname(e.root);
      var m := [Act(MakeDirs(folder))];
      var c := CopySteps(ConfigFile, parent, ConfigFiles(listdir(parent)), folder);
      var d := CopySteps(Directory, e.root, FilteredDirs(e.dirs), folder);
      var f := CopySteps(LooseFile, e.root, FilteredFiles(e.files), folder);
      assert EntryBody(e, listdir, destination) == m + c + d + f;
      Assoc(m + c + d, f, rest);
      Assoc(m + c, d, f + rest);
      Assoc(m, c, d + (f + rest));
    } else {
      assert EntryBody(e, listdir, destination) == [];
      assert [] + rest == rest;
    }
  }

  lemma Assoc<T>(a: seq<T>, b: seq<T>, c: seq<T>)
    ensures a + b + c == a + (b + c)
  {
  }

  /** A poll that does not find the flag set is the next step. */
  lemma {:induction false} PollStep(all: seq<Step>, k: nat, fires: nat -> bool, source: string, st: Progress, polls: nat,
                 todo: seq<Step>)
    requires Tracks(all, k, fires, source, st)
    requires At(all, k, fires, false, polls, [Poll] + todo)
    requires !fires(polls)
    ensures Tracks(all, k + 1, fires, source, st)
    ensures At(all, k + 1, fires, false, polls + 1, todo)
  {
    Take(all, k, fires, Poll, todo);
  }

  /** Creating the destination folder is the next step. */
  lemma {:induction false} MakeDirsStep(all: seq<Step>, k: nat, fires: nat -> bool, source: string, st: Progress, polls: nat,
                     folder: string, todo: seq<Step>)
    requires Tracks(all, k, fires, source, st)
    requires At(all, k, fires, false, polls, [Act(MakeDirs(folder))] + todo)
    ensures Tracks(all, k + 1, fires, source, st.(actions := st.actions + [MakeDirs(folder)]))
    ensures At(all, k + 1, fires, false, polls, todo)
  {
    Take(all, k, fires, Act(MakeDirs(folder)), todo);
    var acts := st.actions + [MakeDirs(folder)];
    assert acts[..|acts| - 1] == st.actions;
  }

  /** One pass of a copy loop whose poll does not find the flag set: the
      poll and the copy of `names[j]` are the next two steps, and the
      progress records that copy. */
  lemma {:induction false} CopyStep(all: seq<Step>, k: nat, fires: nat -> bool, source: string, st: Progress, polls: nat,
                 kind: Kind, fromDir: string, names: seq<string>, j: nat, toDir: string, tail: seq<Step>)
    requires j < |names|
    requires Tracks(all, k, fires, source, st)
    requires At(all, k, fires, false, polls, CopySteps(kind, fromDir, names[j..], toDir) + tail)
    requires !fires(polls)
    ensures kind == ConfigFile ==> Tracks(all, k + 2, fires, source,
      st.(actions := st.actions + [Copy(kind, fromDir, names[j], toDir)], configFilesCopied := true))
    ensures kind != ConfigFile ==> Tracks(all, k + 2, fires, source,
      st.(actions := st.actions + [Copy(kind, fromDir, names[j], toDir)], profilesFound := true,
          marker := st.marker + [source]))
    ensures At(all, k + 2, fires, false, polls + 1, CopySteps(kind, fromDir, names[j + 1..], toDir) + tail)
  {
    var a := Copy(kind, fromDir, names[j], toDir);
    CopyStepsAt(kind, fromDir, names, j, toDir);
    var after := CopySteps(kind, fromDir, names[j + 1..], toDir) + tail;
    Take(all, k, fires, Poll, [Act(a)] + after);
    Take(all, k + 1, fires, Act(a), after);
    RecordCopy(all, k + 2, fires, source, st, a);
  }

  /** The progress after a copy: the action is recorded, the flag of its
      kind is set, and a directory or file copy adds a marker line. */
  lemma {:induction false} RecordCopy(all: seq<Step>, k: nat, fires: nat -> bool, source: string, st: Progress,
                                      a: Action)
    requires a.Copy?
    requires k <= |all| && QuietFrom(all, k, fires, 0)
    requires Actions(all[..k]) == st.actions + [a]
    requires st.marker == Repeat(source, ProfileCopies(st.actions))
    requires st.profilesFound <==> ProfileCopies(st.actions) > 0
    requires st.configFilesCopied <==> ConfigCopies(st.actions) > 0
    ensures a.kind == ConfigFile ==>
      Tracks(all, k, fires, source, st.(actions := st.actions + [a], configFilesCopied := true))
    ensures a.kind != ConfigFile ==>
      Tracks(all, k, fires, source, st.(actions := st.actions + [a], profilesFound := true,
                                        marker := st.marker + [source]))
  {
    var acts := st.actions + [a];
    assert acts[..|acts| - 1] == st.actions;
  }

  /** The copy loop at position `j` polls, then copies `names[j]`. */
  lemma {:induction false} CopyStepsAt(kind: Kind, fromDir: string, names: seq<string>, j: nat, toDir: string)
    requires j < |names|
    ensures CopySteps(kind, fromDir, names[j..], toDir) ==
      [Poll, Act(Copy(kind, fromDir, names[j], toDir))] + CopySteps(kind, fromDir, names[j + 1..], toDir)
  {
    assert names[j..][1..] == names[j + 1..];
  }

  /** When the walk ends, by running out of steps or at a poll that finds
      the flag set, its progress holds the actions of `Halt` and the flags
      say which kinds of copies are among them. */
  lemma {:induction false} Finish(all: seq<Step>, k: nat, fires: nat -> bool, source: string, st: Progress,
                                  flagSet: bool, polls: nat)
    requires Tracks(all, k, fires, source, st)
    requires At(all, k, fires, flagSet, polls, [])
    ensures st.actions == Actions(all[..Halt(all, fires)])
    ensures st.profilesFound <==> exists a :: a in st.actions && a.IsProfileCopy()
    ensures st.configFilesCopied <==> exists a :: a in st.actions && a.IsConfigCopy()
    ensures !st.profilesFound && !st.configFilesCopied <==> forall a :: a in st.actions ==> !a.Copy?
  {
    if !flagSet {
      assert |all[k..]| == 0;
    }
    HaltAt(all, k, fires, 0);
    CopyCounts(st.actions);
    assert forall a: Action :: a.Copy? ==> a.IsProfileCopy() || a.IsConfigCopy();
  }

  /** The walk stops exactly at the first poll that finds the flag set, or
      at the end when there is none. */
  lemma {:induction false} HaltAt(steps: seq<Step>, k: nat, fires: nat -> bool, p: nat)
    requires k <= |steps|
    requires QuietFrom(steps, k, fires, p)
    requires k == |steps| || (steps[k].Poll? && fires(p + Polls(steps[..k])))
    ensures HaltFrom(steps, fires, p) == k
    decreases k
  {
    if k > 0 {
      assert steps[0].Poll? ==> !fires(p + Polls(steps[..0]));
      var c := if steps[0].Poll? then 1 else 0;
      QuietTail(steps, k, fires, p);
      HaltAt(steps[1..], k - 1, fires, p + c);
    }
  }

  /** Past a first step that is not a halting poll, the quiet prefix and
      the halting poll carry over to the tail, one poll later if that
      first step was a poll. */
  lemma {:induction false} QuietTail(steps: seq<Step>, k: nat, fires: nat -> bool, p: nat)
    requires 0 < k <= |steps|
    requires QuietFrom(steps, k, fires, p)
    requires k == |steps| || (steps[k].Poll? && fires(p + Polls(steps[..k])))
    ensures var c := if steps[0].Poll? then 1 else 0;
      && QuietFrom(steps[1..], k - 1, fires, p + c)
      && (k - 1 == |steps[1..]| || (steps[1..][k - 1].Poll? && fires(p + c + Polls(steps[1..][..k - 1]))))
  {
    var c := if steps[0].Poll? then 1 else 0;
    var tail := steps[1..];
    forall j | 0 <= j <= k - 1
      ensures Polls(steps[..j + 1]) == c + Polls(tail[..j])
    {
      PollsPrefixCons(steps, j + 1);
    }
    forall j | 0 <= j < k - 1 && tail[j].Poll?
      ensures !fires(p + c + Polls(tail[..j]))
    {
      assert steps[j + 1].Poll?;
    }
  }

  /** The two counters are positive exactly when some copy of their kind is
      among the actions. */
  lemma {:induction false} CopyCounts(acts: seq<Action>)
    ensures ProfileCopies(acts) > 0 <==> exists a :: a in acts && a.IsProfileCopy()
    ensures ConfigCopies(acts) > 0 <==> exists a :: a in acts && a.IsConfigCopy()
    decreases |acts|
  {
    if acts != [] {
      var init := acts[..|acts| - 1];
      CopyCounts(init);
      assert acts == init + [acts[|acts| - 1]];
    }
  }
}
