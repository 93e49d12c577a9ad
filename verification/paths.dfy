/** Windows path handling as `os.path` (ntpath) does it: `splitdrive`,
    `join`, `dirname` and `basename`. `os.sep` is the backslash; ntpath also
    accepts the forward slash as a separator. */
module Paths {
  import opened Text

  /** `os.sep`. */
  const Sep: char := '\\'

  /** The characters ntpath treats as separators. */
  predicate IsSep(c: char) {
    c == '\\' || c == '/'
  }

  predicate NoSep(s: string) {
    forall i :: 0 <= i < |s| ==> !IsSep(s[i])
  }

  predicate AllSeps(s: string) {
    forall i :: 0 <= i < |s| ==> IsSep(s[i])
  }

  /** The index of the first separator at or after `k`, or `|p|` when there
      is none (`str.find`, with the end standing for "not found"). */
  function NextSep(p: string, k: nat): (r: nat)
    requires k <= |p|
    ensures k <= r <= |p|
    ensures r == |p| || IsSep(p[r])
    ensures forall i :: k <= i < r ==> !IsSep(p[i])
    decreases |p| - k
  {
    if k == |p| || IsSep(p[k]) then k else NextSep(p, k + 1)
  }

  /** The path starts with two separators, as a UNC path does. */
  predicate UncStart(p: string) {
    |p| >= 2 && IsSep(p[0]) && IsSep(p[1])
  }

  /** The length of the drive that `ntpath.splitdrive(p)` splits off: a
      `\\host\share` prefix (host and share non-empty) for a UNC path, `X:`
      for a path whose second character is a colon, and nothing otherwise.
      After the drive comes a separator, unless the drive ends with a colon
      or is the whole path. */
  function DriveLength(p: string): (n: nat)
    ensures n <= |p|
    ensures n > 0 ==> UncStart(p) || (n == 2 && p[1] == ':')
    ensures 0 < n < |p| ==> IsSep(p[n]) || p[n - 1] == ':'
  {
    if UncStart(p) then
      if |p| > 2 && IsSep(p[2]) then 0
      else
        var i := NextSep(p, 2);
        if i == |p| then 0
        else
          var j := NextSep(p, i + 1);
          if j < |p| && j == i + 1 then 0 else j
    else if |p| >= 2 && p[1] == ':' then 2
    else 0
  }

  /** `i` ends the host of a UNC path: after the two leading separators
      comes a non-empty host without separators, then the separator at `i`,
      and that one is not doubled. */
  predicate HostEnd(p: string, i: nat) {
    && 2 < i < |p|
    && IsSep(p[i])
    && NoSep(p[2..i])
    && (i + 1 == |p| || !IsSep(p[i + 1]))
  }

  /** The drive `splitdrive` splits off, stated without its search: `X:`
      for a path with a colon second and no UNC start; for a UNC start, a
      drive exactly when a host ends the way `HostEnd` says, and that drive
      is the two separators, the host, its separator and a share without
      separators that runs up to the next separator or the end. */
  lemma {:induction false} DriveLengthIff(p: string)
    ensures !UncStart(p) ==> DriveLength(p) == (if |p| >= 2 && p[1] == ':' then 2 else 0)
    ensures UncStart(p) ==> (DriveLength(p) > 0 <==> exists i: nat :: HostEnd(p, i))
    ensures forall i: nat :: UncStart(p) && HostEnd(p, i) ==>
      && i < DriveLength(p)
      && NoSep(p[i + 1..DriveLength(p)])
      && (DriveLength(p) == |p| || IsSep(p[DriveLength(p)]))
  {
    if UncStart(p) && !(|p| > 2 && IsSep(p[2])) && NextSep(p, 2) < |p| {
      var h := NextSep(p, 2);
      assert forall i: nat :: HostEnd(p, i) ==> i == h;
      var j := NextSep(p, h + 1);
      if !(j < |p| && j == h + 1) {
        assert HostEnd(p, h);
      }
    }
  }

  /** Something follows the drive, and a path that starts like a UNC path
      has a complete `\\host\share` drive: the path names a folder inside a
      drive or share rather than the drive or share itself. */
  predicate BelowDrive(p: string) {
    DriveLength(p) < |p| && (UncStart(p) ==> DriveLength(p) > 0)
  }

  /** Length of the head in ntpath's split: everything up to and including
      the last separator, or nothing when there is no separator. */
  function HeadLength(p: string): (n: nat)
    ensures n <= |p|
    ensures n == 0 || IsSep(p[n - 1])
    ensures NoSep(p[n..])
  {
    if p == [] then 0
    else
      var k := HeadLength(p[1..]);
      assert p[1..][k..] == p[k + 1..];
      if k == 0 && !IsSep(p[0]) then 0 else k + 1
  }

  /** The head ends right after the last separator. */
  lemma {:induction false} HeadLengthAt(p: string, i: nat)
    requires i < |p| && IsSep(p[i])
    requires NoSep(p[i + 1..])
    ensures HeadLength(p) == i + 1
  {
    var n := HeadLength(p);
    assert forall j :: n <= j < |p| ==> !IsSep(p[j]) by {
      forall j | n <= j < |p| ensures !IsSep(p[j]) {
        assert p[j] == p[n..][j - n];
      }
    }
    assert forall j :: i + 1 <= j < |p| ==> !IsSep(p[j]) by {
      forall j | i + 1 <= j < |p| ensures !IsSep(p[j]) {
        assert p[j] == p[i + 1..][j - i - 1];
      }
    }
  }

  /** `s.rstrip(seps)`. */
  function TrimSeps(s: string): (r: string)
    ensures r <= s
    ensures r == [] || !IsSep(r[|r| - 1])
    ensures forall i :: |r| <= i < |s| ==> IsSep(s[i])
  {
    if s != [] && IsSep(s[|s| - 1]) then TrimSeps(s[..|s| - 1]) else s
  }

  /** `os.path.basename(p)`: what follows the drive and the last separator
      after it. */
  function Basename(p: string): (r: string)
    ensures NoSep(r)
    ensures |r| <= |p| && r == p[|p| - |r|..]
  {
    var rest := p[DriveLength(p)..];
    rest[HeadLength(rest)..]
  }

  /** `os.path.dirname(p)`: the drive, then the head after it without its
      trailing separators, unless that head consists of separators only. */
  function Dirname(p: string): (r: string)
    ensures DriveLength(p) <= |r| <= |p| && r == p[..|r|]
  {
    var d := DriveLength(p);
    var rest := p[d..];
    var head := rest[..HeadLength(rest)];
    var trimmed := TrimSeps(head);
    assert p[..d] + head == p[..d + |head|];
    assert p[..d] + trimmed == p[..d + |trimmed|] by {
      assert trimmed == head[..|trimmed|];
    }
    p[..d] + (if trimmed == [] then head else trimmed)
  }

  /** `os.path.join(a, b)` for a name `b` without a drive. A `b` that starts
      with a separator replaces everything of `a` but its drive. Otherwise a
      separator goes between the two unless `a`'s part after its drive is
      empty or already ends with one, and between a UNC drive and what
      follows it. */
  function Join(a: string, b: string): (r: string)
    ensures a != [] ==> r != []
    ensures |b| <= |r| && r[|r| - |b|..] == b
    ensures (b == [] || !IsSep(b[0])) ==> a <= r
  {
    var d := DriveLength(a);
    if b != [] && IsSep(b[0]) then a[..d] + b
    else
      var rest := a[d..];
      var path := if rest != [] && !IsSep(rest[|rest| - 1]) then rest + [Sep] + b else rest + b;
      assert a[..d] + rest == a;
      if path != [] && !IsSep(path[0]) && d > 0 && a[d - 1] != ':' then
        assert rest == [];
        a[..d] + [Sep] + path
      else a[..d] + path
  }

  /** `dirname` and `basename` split a path around the last separator after
      its drive, and each is determined by the path: the base name is what
      follows that separator (or the drive); the directory name keeps what
      precedes it, drops only separators, and ends with something other
      than a separator unless everything after the drive is separators, in
      which case nothing is dropped. */
  lemma {:induction false} DirnameBasename(p: string)
    ensures
      var b := Basename(p);
      var dir := Dirname(p);
      var d := DriveLength(p);
      var n := |p| - |b|;
      && d <= n
      && (n == d || IsSep(p[n - 1]))
      && |dir| <= n && AllSeps(p[|dir|..n])
      && ((|dir| > d && !IsSep(dir[|dir| - 1])) || (dir == p[..n] && AllSeps(p[d..n])))
  {
    var d := DriveLength(p);
    var rest := p[d..];
    var h := HeadLength(rest);
    var head := rest[..h];
    var trimmed := TrimSeps(head);
    var n := d + h;
    assert |Basename(p)| == |rest| - h;
    assert head == p[d..n];
    if h > 0 {
      assert rest[h - 1] == p[n - 1];
    }
    DirnameParts(p, head, trimmed, n);
  }

  /** The directory name in terms of the head after the drive and its
      trimmed form. */
  lemma {:induction false} DirnameParts(p: string, head: string, trimmed: string, n: nat)
    requires DriveLength(p) <= n <= |p|
    requires head == p[DriveLength(p)..n] && trimmed == TrimSeps(head)
    requires Dirname(p) == p[..DriveLength(p)] + (if trimmed == [] then head else trimmed)
    ensures
      var dir := Dirname(p);
      var d := DriveLength(p);
      && |dir| <= n && AllSeps(p[|dir|..n])
      && ((|dir| > d && !IsSep(dir[|dir| - 1])) || (dir == p[..n] && AllSeps(p[d..n])))
  {
    var d := DriveLength(p);
    var dir := Dirname(p);
    if trimmed == [] {
      assert dir == p[..n];
      forall i | 0 <= i < n - d ensures IsSep(p[d..n][i]) {
        assert p[d..n][i] == head[i];
      }
      assert p[|dir|..n] == [];
    } else {
      assert |dir| == d + |trimmed|;
      assert dir[|dir| - 1] == trimmed[|trimmed| - 1];
      forall i | 0 <= i < n - |dir| ensures IsSep(p[|dir|..n][i]) {
        assert p[|dir|..n][i] == head[|trimmed| + i];
      }
    }
  }

  /** A drive that the path has before a separator is also the drive of any
      longer path. */
  lemma {:induction false} NextSepPrefix(a: string, q: string, k: nat)
    requires k <= |a| && NextSep(a, k) < |a|
    ensures NextSep(a + q, k) == NextSep(a, k)
    decreases |a| - k
  {
    assert (a + q)[k] == a[k];
    if !IsSep(a[k]) {
      NextSepPrefix(a, q, k + 1);
    }
  }

  /** Adding a separator and a name after a path that does not end with a
      separator keeps its drive. */
  lemma {:induction false} DriveLengthExtend(a: string, b: string)
    requires a != [] && !IsSep(a[|a| - 1])
    requires UncStart(a) ==> DriveLength(a) > 0
    ensures DriveLength(a + [Sep] + b) == DriveLength(a)
  {
    var p := a + [Sep] + b;
    assert p[0] == a[0];
    if |a| >= 2 {
      assert p[1] == a[1];
    }
    if UncStart(a) {
      assert |a| > 2;
      assert p[2] == a[2];
      var i := NextSep(a, 2);
      NextSepPrefix(a, [Sep] + b, 2);
      assert a + ([Sep] + b) == p;
      if NextSep(a, i + 1) < |a| {
        NextSepPrefix(a, [Sep] + b, i + 1);
      } else {
        assert i + 1 < |a|;
        assert p[|a|] == Sep;
        assert NextSep(p, i + 1) == |a|;
      }
    }
  }

  /** The name after the last separator that follows the drive is the base
      name. */
  lemma {:induction false} BasenameAfterSep(a: string, b: string)
    requires DriveLength(a + [Sep] + b) <= |a|
    requires NoSep(b)
    ensures Basename(a + [Sep] + b) == b
  {
    var p := a + [Sep] + b;
    var d := DriveLength(p);
    var rest := p[d..];
    assert rest == a[d..] + [Sep] + b;
    assert rest[|a| - d + 1..] == b;
    HeadLengthAt(rest, |a| - d);
  }

  /** When something other than separators ends the part after the drive,
      and that part starts with a separator or the drive needs none, a name
      is joined after one more separator. */
  lemma {:induction false} JoinAfterRest(a: string, b: string)
    requires b == [] || !IsSep(b[0])
    requires
      var d := DriveLength(a);
      && d < |a| && !IsSep(a[|a| - 1])
      && (d == 0 || a[d - 1] == ':' || IsSep(a[d]))
    ensures Join(a, b) == a + [Sep] + b
  {
    var d := DriveLength(a);
    var rest := a[d..];
    assert rest != [] && !IsSep(rest[|rest| - 1]) by {
      assert rest[|rest| - 1] == a[|a| - 1];
    }
    var path := rest + [Sep] + b;
    assert path != [] && path[0] == a[d];
    assert !(!IsSep(path[0]) && d > 0 && a[d - 1] != ':');
    assert a[..d] + path == a + [Sep] + b by {
      assert a[..d] + rest == a;
    }
  }

  /** A path ending in an ordinary character (neither a separator nor a
      colon) gets a separator before a name joined onto it. */
  lemma {:induction false} JoinInserts(a: string, b: string)
    requires a != [] && !IsSep(a[|a| - 1]) && a[|a| - 1] != ':'
    requires b != [] && !IsSep(b[0])
    ensures Join(a, b) == a + [Sep] + b
  {
    var d := DriveLength(a);
    if d < |a| {
      JoinAfterRest(a, b);
    } else {
      assert a[..d] == a && a[d..] == [];
      assert d > 0 && a[d - 1] != ':';
      assert Join(a, b) == a + [Sep] + b;
    }
  }

  /** A folder inside a drive or share gets a separator before a name
      joined onto it. */
  lemma {:induction false} JoinBelowDrive(a: string, b: string)
    requires BelowDrive(a) && !IsSep(a[|a| - 1])
    requires b == [] || !IsSep(b[0])
    ensures Join(a, b) == a + [Sep] + b
  {
    JoinAfterRest(a, b);
  }

  /** The directory name of a path extended past its last character by a
      separator and a name is that path, when the drive stays inside it. */
  lemma {:induction false} DirnameAfterSep(a: string, b: string)
    requires DriveLength(a + [Sep] + b) == DriveLength(a) < |a|
    requires !IsSep(a[|a| - 1]) && NoSep(b)
    ensures Dirname(a + [Sep] + b) == a
  {
    var p := a + [Sep] + b;
    var d := DriveLength(a);
    var rest := a[d..];
    var prest := p[d..];
    assert prest == rest + [Sep] + b;
    assert prest[|rest| + 1..] == b;
    HeadLengthAt(prest, |rest|);
    assert prest[..|rest| + 1] == rest + [Sep];
    assert TrimSeps(rest + [Sep]) == TrimSeps(rest);
    assert rest[|rest| - 1] == a[|a| - 1];
    assert p[..d] + rest == a;
  }

  /** `dirname` and `basename` undo `os.path.join` of a folder inside a
      drive or share and a name. */
  lemma {:induction false} JoinThenSplit(a: string, b: string)
    requires BelowDrive(a) && !IsSep(a[|a| - 1])
    requires NoSep(b)
    ensures Join(a, b) == a + [Sep] + b
    ensures Dirname(Join(a, b)) == a
    ensures Basename(Join(a, b)) == b
  {
    assert b == [] || !IsSep(b[0]);
    JoinBelowDrive(a, b);
    DriveLengthExtend(a, b);
    BasenameAfterSep(a, b);
    DirnameAfterSep(a, b);
  }

  /** The base name is the last piece of `path.split(os.sep)` for a path
      with backslashes only whose drive, if any, is followed by one. */
  lemma {:induction false} BasenameIsLastPiece(p: string)
    requires '/' !in p
    requires DriveLength(p) == 0 || (DriveLength(p) < |p| && IsSep(p[DriveLength(p)]))
    ensures Basename(p) == Split(p, Sep)[|Split(p, Sep)| - 1]
  {
    var d := DriveLength(p);
    if d > 0 {
      var rest := p[d..];
      assert IsSep(rest[0]) && rest == rest[0..];
      var h := HeadLength(rest);
      assert h > 0;
      assert rest[h..] == p[d + h..];
      assert rest[h - 1] == p[d + h - 1];
      HeadLengthAt(p, d + h - 1);
    } else {
      assert p[0..] == p;
    }
    TailIsLastPiece(p);
  }

  /** What follows the last separator is the last piece of
      `split(os.sep)`. */
  lemma {:induction false} TailIsLastPiece(p: string)
    requires '/' !in p
    ensures p[HeadLength(p)..] == Split(p, Sep)[|Split(p, Sep)| - 1]
    decreases |p|
  {
    if p != [] {
      var rest := Split(p[1..], Sep);
      var k := HeadLength(p[1..]);
      TailIsLastPiece(p[1..]);
      assert p[1..][k..] == p[k + 1..];
      if p[0] != Sep && |rest| == 1 {
        JoinSplit(p[1..], Sep);
        assert [p[0]] + p[1..] == p;
      } else if p[0] != Sep && k == 0 {
        assert NoSep(p[1..]);
        SplitNoSep(p[1..], Sep);
      }
    }
  }

  /** Joining a name onto a path ending in an ordinary character adds that
      name as a last piece of `split(os.sep)`. */
  lemma {:induction false} JoinAddsPiece(a: string, b: string)
    requires a != [] && !IsSep(a[|a| - 1]) && a[|a| - 1] != ':'
    requires b != [] && NoSep(b)
    ensures Split(Join(a, b), Sep) == Split(a, Sep) + [b]
  {
    JoinInserts(a, b);
    assert Sep !in b;
    SplitSnoc(a, Sep, b);
  }

  /** A folder right at the root of a drive or share: its directory name
      is the drive with the root separator, whose base name is empty. */
  lemma {:induction false} DriveRootChild(p: string)
    requires 0 < DriveLength(p) < |p| && IsSep(p[DriveLength(p)])
    requires NoSep(p[DriveLength(p) + 1..])
    ensures Dirname(p) == p[..DriveLength(p) + 1]
    ensures Basename(Dirname(p)) == []
  {
    var d := DriveLength(p);
    var rest := p[d..];
    assert rest[1..] == p[d + 1..];
    HeadLengthAt(rest, 0);
    assert rest[..1] == [p[d]];
    assert TrimSeps([p[d]]) == [];
    var q := p[..d + 1];
    assert Dirname(p) == q;
    assert q + p[d + 1..] == p;
    if UncStart(p) {
      var i := NextSep(p, 2);
      assert q[2] == p[2];
      NextSepPrefix(q, p[d + 1..], 2);
      NextSepPrefix(q, p[d + 1..], i + 1);
    }
    assert DriveLength(q) == d;
    assert q[d..] == [p[d]];
    HeadLengthAt(q[d..], 0);
  }

  /** A folder right at a drive-letter root: its directory name is the
      root `X:\`, whose base name is empty. */
  lemma {:induction false} DriveRootFolder(letter: char, name: string)
    requires NoSep(name)
    ensures Dirname([letter, ':', Sep] + name) == [letter, ':', Sep]
    ensures Basename([letter, ':', Sep]) == []
  {
    var p := [letter, ':', Sep] + name;
    assert !UncStart(p) && DriveLength(p) == 2;
    assert p[3..] == name;
    DriveRootChild(p);
    assert p[..3] == [letter, ':', Sep];
  }

  /** A folder right at a share root: its directory name is the root
      `\\host\share\`, whose base name is empty. */
  lemma {:induction false} ShareRootFolder(host: string, share: string, name: string)
    requires host != [] && share != [] && NoSep(host) && NoSep(share) && NoSep(name)
    ensures
      var root := [Sep, Sep] + host + [Sep] + share + [Sep];
      Dirname(root + name) == root && Basename(root) == []
  {
    var root := [Sep, Sep] + host + [Sep] + share + [Sep];
    var p := root + name;
    var i := 2 + |host|;
    var j := i + 1 + |share|;
    assert p[2..i] == host && p[i] == Sep;
    assert p[i + 1..j] == share && p[j] == Sep;
    assert p[j + 1..] == name;
    assert UncStart(p) && !IsSep(p[2]);
    assert NextSep(p, 2) == i by {
      assert forall k :: 2 <= k < i ==> p[k] == host[k - 2];
    }
    assert NextSep(p, i + 1) == j by {
      assert forall k :: i + 1 <= k < j ==> p[k] == share[k - i - 1];
    }
    assert DriveLength(p) == j;
    DriveRootChild(p);
    assert p[..j + 1] == root;
  }
}
