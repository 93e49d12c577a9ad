/** What one run of `copy_profiles_folder` does, stated about the whole walk:
    which actions a walk without a timeout takes and why, and how a timeout
    cuts that list short. */
module WalkProperties {
  import opened Text
  import opened Paths
  import opened Selection
  import opened Walker

  /** Entry `e` of the walk accounts for action `a`: the entry is selected,
      the action targets the entry's destination folder, and it is the
      folder creation, the copy of a configuration file found in the
      parent folder, or the copy of one of the entry's own directories or
      files that the filters keep. */
  ghost predicate Explains(e: WalkEntry, a: Action, listdir: string -> seq<string>, destination: string) {
    var folder := ProfilesDestination(destination, e.root);
    var parent := Dirname(e.root);
    && Selected(e.root, e.dirs, e.files)
    && match a
       case MakeDirs(f) => f == folder
       case Copy(kind, fromDir, name, toDir) =>
         && toDir == folder
         && match kind
            case ConfigFile => fromDir == parent && name == ConfigName && ConfigName in listdir(parent)
            case Directory => fromDir == e.root && name in e.dirs && !Excluded(name)
            case LooseFile =>
              fromDir == e.root && name in e.files && Lower(name) != "test_profile.xml" && !Excluded(name)
  }

  /** The actions of one copy loop are the copies of its names. */
  lemma {:induction false} CopyStepsActions(kind: Kind, fromDir: string, names: seq<string>, toDir: string)
    ensures forall a :: a in Actions(CopySteps(kind, fromDir, names, toDir)) <==>
      a.Copy? && a.kind == kind && a.fromDir == fromDir && a.name in names && a.toDir == toDir
    decreases |names|
  {
    if names != [] {
      var c := Copy(kind, fromDir, names[0], toDir);
      var first := [Poll, Act(c)];
      CopyStepsActions(kind, fromDir, names[1..], toDir);
      ActionsAppend(first, CopySteps(kind, fromDir, names[1..], toDir));
      assert first[1..][1..] == [];
      assert Actions(first) == [c];
      assert names == [names[0]] + names[1..];
    }
  }

  /** The actions of a selected entry: the folder creation, then the three
      copy loops. */
  lemma {:induction false} EntryBodyActions(e: WalkEntry, listdir: string -> seq<string>, destination: string)
    requires Selected(e.root, e.dirs, e.files)
    ensures
      var folder := ProfilesDestination(destination, e.root);
      var parent := Dirname(e.root);
      Actions(EntryBody(e, listdir, destination)) ==
        [MakeDirs(folder)]
        + Actions(CopySteps(ConfigFile, parent, ConfigFiles(listdir(parent)), folder))
        + Actions(CopySteps(Directory, e.root, FilteredDirs(e.dirs), folder))
        + Actions(CopySteps(LooseFile, e.root, FilteredFiles(e.files), folder))
  {
    var folder := ProfilesDestination(destination, e.root);
    var parent := Dirname(e.root);
    var m := [Act(MakeDirs(folder))];
    var c := CopySteps(ConfigFile, parent, ConfigFiles(listdir(parent)), folder);
    var d := CopySteps(Directory, e.root, FilteredDirs(e.dirs), folder);
    var f := CopySteps(LooseFile, e.root, FilteredFiles(e.files), folder);
    assert EntryBody(e, listdir, destination) == m + c + d + f;
    ActionsOfParts(m, c, d, f, MakeDirs(folder));
  }

  /** The actions of an action step followed by three runs of steps. */
  lemma {:induction false} ActionsOfParts(m: seq<Step>, c: seq<Step>, d: seq<Step>, f: seq<Step>, x: Action)
    requires m == [Act(x)]
    ensures Actions(m + c + d + f) == [x] + Actions(c) + Actions(d) + Actions(f)
  {
    ActionsAppend(m + c + d, f);
    ActionsAppend(m + c, d);
    ActionsAppend(m, c);
    assert m[1..] == [];
    assert Actions(m) == [x] + Actions([]);
  }

  /** An entry's actions are exactly those it accounts for. */
  lemma {:induction false} EntryActions(e: WalkEntry, listdir: string -> seq<string>, destination: string, a: Action)
    ensures a in Actions(EntryBody(e, listdir, destination)) <==> Explains(e, a, listdir, destination)
  {
    if Selected(e.root, e.dirs, e.files) {
      var folder := ProfilesDestination(destination, e.root);
      var parent := Dirname(e.root);
      var configs := ConfigFiles(listdir(parent));
      var c := CopySteps(ConfigFile, parent, configs, folder);
      var d := CopySteps(Directory, e.root, FilteredDirs(e.dirs), folder);
      var f := CopySteps(LooseFile, e.root, FilteredFiles(e.files), folder);
      EntryBodyActions(e, listdir, destination);
      assert a in Actions(EntryBody(e, listdir, destination)) <==>
        a == MakeDirs(folder) || a in Actions(c) || a in Actions(d) || a in Actions(f);
      CopyStepsActions(ConfigFile, parent, configs, folder);
      CopyStepsActions(Directory, e.root, FilteredDirs(e.dirs), folder);
      CopyStepsActions(LooseFile, e.root, FilteredFiles(e.files), folder);
      if a.Copy? {
        match a.kind
        case ConfigFile => ConfigFilesMember(listdir(parent), a.name);
        case Directory =>
        case LooseFile =>
      }
    } else {
      assert EntryBody(e, listdir, destination) == [];
    }
  }

  /** An entry of the walk (whose root is never empty) gives no action at
      all, not even a folder creation or a configuration copy, exactly when
      its root does not qualify, is excluded, or keeps neither a directory
      nor a file. */
  lemma {:induction false} EntrySkipped(e: WalkEntry, listdir: string -> seq<string>, destination: string)
    requires e.root != []
    ensures Actions(EntryBody(e, listdir, destination)) == [] <==>
      !Qualifies(e.root) || Excluded(e.root) || (FilteredFiles(e.files) == [] && FilteredDirs(e.dirs) == [])
  {
    if Selected(e.root, e.dirs, e.files) {
      EntryBodyActions(e, listdir, destination);
    } else {
      assert EntryBody(e, listdir, destination) == [];
    }
  }

  /** The actions of a walk: those of its first entry, then the rest's. */
  lemma {:induction false} PlanCons(walk: seq<WalkEntry>, listdir: string -> seq<string>, destination: string)
    requires walk != []
    ensures Plan(walk, listdir, destination) ==
      Actions(EntryBody(walk[0], listdir, destination)) + Plan(walk[1..], listdir, destination)
  {
    var body := EntryBody(walk[0], listdir, destination);
    var rest := WalkSteps(walk[1..], listdir, destination);
    assert WalkSteps(walk, listdir, destination) == [Poll] + body + rest;
    ActionsAppend([Poll] + body, rest);
    ActionsAppend([Poll], body);
    assert [Poll][1..] == [];
    assert Actions([Poll]) == [];
    assert [] + Actions(body) == Actions(body);
  }

  /** Without a timeout, an action is taken exactly when some entry of the
      walk accounts for it. */
  lemma {:induction false} PlanExplained(walk: seq<WalkEntry>, listdir: string -> seq<string>, destination: string,
                                         a: Action)
    ensures a in Plan(walk, listdir, destination) <==>
      exists i :: 0 <= i < |walk| && Explains(walk[i], a, listdir, destination)
    decreases |walk|
  {
    if walk != [] {
      PlanCons(walk, listdir, destination);
      EntryActions(walk[0], listdir, destination, a);
      PlanExplained(walk[1..], listdir, destination, a);
      ExplainedCons(walk, listdir, destination, a);
    }
  }

  /** Some entry of a walk accounts for an action exactly when its first
      entry or some entry of the rest does. */
  lemma {:induction false} ExplainedCons(walk: seq<WalkEntry>, listdir: string -> seq<string>, destination: string,
                                         a: Action)
    requires walk != []
    ensures (exists i :: 0 <= i < |walk| && Explains(walk[i], a, listdir, destination)) <==>
      || Explains(walk[0], a, listdir, destination)
      || exists i :: 0 <= i < |walk[1..]| && Explains(walk[1..][i], a, listdir, destination)
  {
    var rest := walk[1..];
    if exists i :: 0 <= i < |walk| && Explains(walk[i], a, listdir, destination) {
      var i :| 0 <= i < |walk| && Explains(walk[i], a, listdir, destination);
      if i > 0 {
        assert rest[i - 1] == walk[i];
        assert 0 <= i - 1 < |rest| && Explains(rest[i - 1], a, listdir, destination);
      }
    }
    if exists i :: 0 <= i < |rest| && Explains(rest[i], a, listdir, destination) {
      var i :| 0 <= i < |rest| && Explains(rest[i], a, listdir, destination);
      assert walk[i + 1] == rest[i];
      assert 0 <= i + 1 < |walk| && Explains(walk[i + 1], a, listdir, destination);
    }
    if Explains(walk[0], a, listdir, destination) {
      assert 0 <= 0 < |walk| && Explains(walk[0], a, listdir, destination);
    }
  }

  /** Every copy comes after the creation of the folder it copies into. */
  ghost predicate FolderFirst(acts: seq<Action>) {
    forall i :: 0 <= i < |acts| && acts[i].Copy? ==> MakeDirs(acts[i].toDir) in acts[..i]
  }

  /** `FolderFirst` holds for two lists put one after the other. */
  lemma {:induction false} FolderFirstAppend(xs: seq<Action>, ys: seq<Action>)
    requires FolderFirst(xs) && FolderFirst(ys)
    ensures FolderFirst(xs + ys)
  {
    var zs := xs + ys;
    forall i | 0 <= i < |zs| && zs[i].Copy?
      ensures MakeDirs(zs[i].toDir) in zs[..i]
    {
      if i < |xs| {
        assert zs[..i] == xs[..i];
      } else {
        assert ys[i - |xs|] == zs[i];
        var j :| 0 <= j < i - |xs| && ys[..i - |xs|][j] == MakeDirs(zs[i].toDir);
        assert zs[..i][|xs| + j] == ys[j];
      }
    }
  }

  /** One entry creates its destination folder before it copies into it. */
  lemma {:induction false} EntryFolderFirst(e: WalkEntry, listdir: string -> seq<string>, destination: string)
    ensures FolderFirst(Actions(EntryBody(e, listdir, destination)))
  {
    var acts := Actions(EntryBody(e, listdir, destination));
    if Selected(e.root, e.dirs, e.files) {
      var folder := ProfilesDestination(destination, e.root);
      var parent := Dirname(e.root);
      var c := Actions(CopySteps(ConfigFile, parent, ConfigFiles(listdir(parent)), folder));
      var d := Actions(CopySteps(Directory, e.root, FilteredDirs(e.dirs), folder));
      var f := Actions(CopySteps(LooseFile, e.root, FilteredFiles(e.files), folder));
      EntryBodyActions(e, listdir, destination);
      CopyStepsActions(ConfigFile, parent, ConfigFiles(listdir(parent)), folder);
      CopyStepsActions(Directory, e.root, FilteredDirs(e.dirs), folder);
      CopyStepsActions(LooseFile, e.root, FilteredFiles(e.files), folder);
      Assoc([MakeDirs(folder)] + c, d, f);
      Assoc([MakeDirs(folder)], c, d + f);
      FolderThenCopies(folder, c + (d + f));
    } else {
      assert EntryBody(e, listdir, destination) == [];
    }
  }

  /** Creating a folder and then copying only into it keeps folders first. */
  lemma {:induction false} FolderThenCopies(folder: string, rest: seq<Action>)
    requires forall x :: x in rest && x.Copy? ==> x.toDir == folder
    ensures FolderFirst([MakeDirs(folder)] + rest)
  {
    var acts := [MakeDirs(folder)] + rest;
    forall i | 0 <= i < |acts| && acts[i].Copy?
      ensures MakeDirs(acts[i].toDir) in acts[..i]
    {
      assert acts[i] == rest[i - 1];
      assert acts[..i][0] == MakeDirs(folder);
    }
  }

  /** A walk, timeout or not, creates each destination folder before it
      copies anything into it. */
  lemma {:induction false} FolderBeforeCopies(walk: seq<WalkEntry>, listdir: string -> seq<string>,
                                              destination: string, fires: nat -> bool)
    ensures FolderFirst(Plan(walk, listdir, destination))
    ensures FolderFirst(Performed(walk, listdir, destination, fires))
    decreases |walk|
  {
    var plan := Plan(walk, listdir, destination);
    if walk != [] {
      PlanCons(walk, listdir, destination);
      EntryFolderFirst(walk[0], listdir, destination);
      FolderBeforeCopies(walk[1..], listdir, destination, fires);
      FolderFirstAppend(Actions(EntryBody(walk[0], listdir, destination)), Plan(walk[1..], listdir, destination));
    }
    var done := Performed(walk, listdir, destination, fires);
    forall i | 0 <= i < |done| && done[i].Copy?
      ensures MakeDirs(done[i].toDir) in done[..i]
    {
      assert done[i] == plan[i] && done[..i] == plan[..i];
    }
  }

  /** Every action a run takes, timeout or not, is accounted for by an entry
      of the walk. */
  lemma {:induction false} PerformedExplained(walk: seq<WalkEntry>, listdir: string -> seq<string>, destination: string,
                           fires: nat -> bool, a: Action)
    requires a in Performed(walk, listdir, destination, fires)
    ensures exists i :: 0 <= i < |walk| && Explains(walk[i], a, listdir, destination)
  {
    var done := Performed(walk, listdir, destination, fires);
    var plan := Plan(walk, listdir, destination);
    var j :| 0 <= j < |done| && done[j] == a;
    assert plan[j] == a;
    PlanExplained(walk, listdir, destination, a);
  }

  /** What a run copies, timeout or not: configuration files only under
      their exact name, directories and files only when they carry no
      exclusion keyword, and never a `test_profile.xml` in any case. */
  lemma {:induction false} PerformedCopiesKept(walk: seq<WalkEntry>, listdir: string -> seq<string>,
                                               destination: string, fires: nat -> bool, a: Action)
    requires a in Performed(walk, listdir, destination, fires)
    requires a.Copy?
    ensures a.kind == ConfigFile ==> a.name == ConfigName
    ensures a.kind != ConfigFile ==> !Excluded(a.name)
    ensures a.kind == LooseFile ==> Lower(a.name) != "test_profile.xml"
    ensures exists i :: 0 <= i < |walk| && Qualifies(walk[i].root) && !Excluded(walk[i].root)
              && a.toDir == ProfilesDestination(destination, walk[i].root)
  {
    PerformedExplained(walk, listdir, destination, fires, a);
    var i :| 0 <= i < |walk| && Explains(walk[i], a, listdir, destination);
  }

  /** When the timer does not fire before any of the polls, every step is
      taken. */
  lemma {:induction false} HaltFromQuiet(steps: seq<Step>, fires: nat -> bool, p: nat)
    requires forall q :: p <= q < p + Polls(steps) ==> !fires(q)
    ensures HaltFrom(steps, fires, p) == |steps|
    decreases |steps|
  {
    if steps != [] {
      HaltFromQuiet(steps[1..], fires, if steps[0].Poll? then p + 1 else p);
    }
  }

  /** A run whose timer does not fire during the walk's polls takes every
      action of the walk. */
  lemma {:induction false} NoTimeoutPerformsPlan(walk: seq<WalkEntry>, listdir: string -> seq<string>, destination: string,
                              fires: nat -> bool)
    requires forall q: nat :: q < Polls(WalkSteps(walk, listdir, destination)) ==> !fires(q)
    ensures Performed(walk, listdir, destination, fires) == Plan(walk, listdir, destination)
  {
    var all := WalkSteps(walk, listdir, destination);
    HaltFromQuiet(all, fires, 0);
    assert all[..|all|] == all;
  }

  /** A timer that fires whenever another does stops the walk no later. */
  lemma {:induction false} HaltFromEarlier(steps: seq<Step>, f1: nat -> bool, f2: nat -> bool, p: nat)
    requires forall q :: f1(q) ==> f2(q)
    ensures HaltFrom(steps, f2, p) <= HaltFrom(steps, f1, p)
    decreases |steps|
  {
    if steps != [] {
      HaltFromEarlier(steps[1..], f1, f2, if steps[0].Poll? then p + 1 else p);
    }
  }

  /** An earlier timeout takes a beginning of the actions a later one takes. */
  lemma {:induction false} EarlierTimeoutDoesLess(walk: seq<WalkEntry>, listdir: string -> seq<string>, destination: string,
                               f1: nat -> bool, f2: nat -> bool)
    requires forall q :: f1(q) ==> f2(q)
    ensures Performed(walk, listdir, destination, f2) <= Performed(walk, listdir, destination, f1)
  {
    var all := WalkSteps(walk, listdir, destination);
    var k1 := Halt(all, f1);
    var k2 := Halt(all, f2);
    HaltFromEarlier(all, f1, f2, 0);
    assert all[..k1][..k2] == all[..k2];
    ActionsPrefix(all[..k1], k2);
  }

  /** A timer that fires before the first look at the flag stops the walk
      before it does anything. */
  lemma {:induction false} ImmediateTimeout(walk: seq<WalkEntry>, listdir: string -> seq<string>, destination: string,
                         fires: nat -> bool)
    requires fires(0)
    ensures Performed(walk, listdir, destination, fires) == []
  {
    var all := WalkSteps(walk, listdir, destination);
    assert Halt(all, fires) == 0;
    assert all[..0] == [];
  }
}
