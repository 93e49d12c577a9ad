/** String and list helpers with the meaning of the Python built-ins the
    profile grabber uses: `str.lower`, `sub in s`, `str.split(sep)` and list
    comprehensions with a condition. */
module Text {

  /** Lower-cases one ASCII letter; every other character is unchanged. */
  function LowerChar(c: char): char {
    if 'A' <= c <= 'Z' then (c as int + 32) as char else c
  }

  /** `s.lower()`, folding ASCII letters only. */
  function Lower(s: string): (r: string)
    ensures |r| == |s|
    ensures forall i :: 0 <= i < |s| ==> r[i] == LowerChar(s[i])
  {
    if s == [] then [] else [LowerChar(s[0])] + Lower(s[1..])
  }

  /** Lower-casing distributes over concatenation. */
  lemma LowerConcat(a: string, b: string)
    ensures Lower(a + b) == Lower(a) + Lower(b)
  {
  }

  /** `sub in s` on strings: `sub` occurs as a contiguous piece of `s`. */
  predicate Contains(s: string, sub: string)
    decreases |s|
  {
    if |s| < |sub| then false
    else if s[..|sub|] == sub then true
    else Contains(s[1..], sub)
  }

  /** `sub` occurs in `s` starting at offset `i`. */
  predicate OccursAt(s: string, sub: string, i: nat) {
    i + |sub| <= |s| && s[i..i + |sub|] == sub
  }

  /** `Contains` holds exactly when some offset of `s` starts a copy of `sub`. */
  lemma {:induction false} ContainsIff(s: string, sub: string)
    ensures Contains(s, sub) <==> exists i: nat :: OccursAt(s, sub, i)
    decreases |s|
  {
    if |s| < |sub| {
    } else if s[..|sub|] == sub {
      assert OccursAt(s, sub, 0);
    } else {
      ContainsIff(s[1..], sub);
      if Contains(s[1..], sub) {
        var i: nat :| OccursAt(s[1..], sub, i);
        OccursShift(s, sub, i + 1);
      } else {
        forall i: nat | OccursAt(s, sub, i)
          ensures false
        {
          if i > 0 {
            OccursShift(s, sub, i);
          }
        }
      }
    }
  }

  /** An occurrence past the first character is an occurrence in the tail. */
  lemma OccursShift(s: string, sub: string, i: nat)
    requires 0 < i && s != []
    ensures OccursAt(s, sub, i) <==> OccursAt(s[1..], sub, i - 1)
  {
    if i + |sub| <= |s| {
      assert s[i..i + |sub|] == s[1..][i - 1..i - 1 + |sub|];
    }
  }

  /** A piece of a string is still a piece of any longer string around it. */
  lemma ContainsWithin(a: string, t: string, b: string, sub: string)
    requires Contains(t, sub)
    ensures Contains(a + t + b, sub)
  {
    ContainsIff(t, sub);
    var i: nat :| OccursAt(t, sub, i);
    assert (a + t + b)[|a| + i..|a| + i + |sub|] == t[i..i + |sub|];
    assert OccursAt(a + t + b, sub, |a| + i);
    ContainsIff(a + t + b, sub);
  }

  /** `s.split(sep)` for a one-character separator: the pieces between
      separators, empty pieces included, and always at least one piece. */
  function Split(s: string, sep: char): (parts: seq<string>)
    ensures |parts| >= 1
    ensures forall i :: 0 <= i < |parts| ==> sep !in parts[i]
    decreases |s|
  {
    if s == [] then [[]]
    else
      var rest := Split(s[1..], sep);
      if s[0] == sep then [[]] + rest
      else [[s[0]] + rest[0]] + rest[1..]
  }

  /** `piece` occurs in `s` at offset `i` as a whole piece: a separator or
      the start of `s` comes before it, and a separator or the end of `s`
      after it. */
  predicate PieceAt(s: string, sep: char, piece: string, i: nat) {
    && OccursAt(s, piece, i)
    && (i == 0 || s[i - 1] == sep)
    && (i + |piece| == |s| || s[i + |piece|] == sep)
  }

  /** Every part of a split is a whole piece of the string; the first part
      starts it, and every later one follows a separator. */
  lemma {:induction false} SplitPieceAt(s: string, sep: char, k: nat)
    requires k < |Split(s, sep)|
    ensures exists i: nat :: PieceAt(s, sep, Split(s, sep)[k], i) && (i == 0 <==> k == 0)
    decreases |s|
  {
    var parts := Split(s, sep);
    if s == [] {
      assert PieceAt(s, sep, parts[k], 0);
    } else {
      var rest := Split(s[1..], sep);
      if s[0] == sep && k == 0 {
        assert PieceAt(s, sep, parts[k], 0);
      } else if s[0] == sep {
        SplitPieceAt(s[1..], sep, k - 1);
        var j: nat :| PieceAt(s[1..], sep, rest[k - 1], j) && (j == 0 <==> k - 1 == 0);
        PieceShift(s, sep, rest[k - 1], j);
      } else if k == 0 {
        SplitPieceAt(s[1..], sep, 0);
        var j: nat :| PieceAt(s[1..], sep, rest[0], j) && j == 0;
        assert s[..1 + |rest[0]|] == [s[0]] + s[1..][..|rest[0]|];
        assert PieceAt(s, sep, parts[0], 0);
      } else {
        SplitPieceAt(s[1..], sep, k);
        var j: nat :| PieceAt(s[1..], sep, rest[k], j) && j != 0;
        PieceShift(s, sep, rest[k], j);
        assert parts[k] == rest[k];
        assert PieceAt(s, sep, parts[k], j + 1);
      }
    }
  }

  /** A whole piece of the tail, not at its start or right after a leading
      separator, is a whole piece of the string one place further on. */
  lemma PieceShift(s: string, sep: char, piece: string, j: nat)
    requires s != [] && PieceAt(s[1..], sep, piece, j)
    requires j == 0 ==> s[0] == sep
    ensures PieceAt(s, sep, piece, j + 1)
  {
    assert s[j + 1..j + 1 + |piece|] == s[1..][j..j + |piece|];
  }

  /** Conversely, a whole piece without the separator is a part of the
      split: the first part when it starts the string, a later part
      otherwise. */
  lemma {:induction false} PieceInSplit(s: string, sep: char, piece: string, i: nat)
    requires sep !in piece && PieceAt(s, sep, piece, i)
    ensures i == 0 ==> Split(s, sep)[0] == piece
    ensures i > 0 ==> piece in Split(s, sep)[1..]
    decreases |s|
  {
    if s != [] {
      var rest := Split(s[1..], sep);
      if i == 0 && piece != [] {
        assert s[0] == piece[0];
        assert s[1..][0..|piece| - 1] == piece[1..];
        PieceInSplit(s[1..], sep, piece[1..], 0);
        assert [s[0]] + piece[1..] == piece;
      } else if i > 0 {
        assert s[1..][i - 1..i - 1 + |piece|] == s[i..i + |piece|];
        PieceInSplit(s[1..], sep, piece, i - 1);
        if s[0] == sep {
          assert Split(s, sep)[1..] == rest;
        } else {
          assert Split(s, sep)[1..] == rest[1..];
        }
      }
    }
  }

  /** A separator-free string is a part of the split exactly when it occurs
      as a whole piece. */
  lemma PieceIn(s: string, sep: char, piece: string)
    requires sep !in piece
    ensures piece in Split(s, sep) <==> exists i: nat :: PieceAt(s, sep, piece, i)
  {
    var parts := Split(s, sep);
    if piece in parts {
      var k :| 0 <= k < |parts| && parts[k] == piece;
      SplitPieceAt(s, sep, k);
    }
    if exists i: nat :: PieceAt(s, sep, piece, i) {
      var i: nat :| PieceAt(s, sep, piece, i);
      PieceInSplit(s, sep, piece, i);
      if i > 0 {
        var k :| 0 <= k < |parts| - 1 && parts[1..][k] == piece;
        assert parts[k + 1] == piece;
      }
    }
  }

  /** `sep.join(parts)`, the inverse of `Split`. */
  function JoinWith(parts: seq<string>, sep: char): string
    requires |parts| >= 1
  {
    if |parts| == 1 then parts[0] else parts[0] + [sep] + JoinWith(parts[1..], sep)
  }

  /** A string without the separator splits into itself alone. */
  lemma {:induction false} SplitNoSep(s: string, sep: char)
    requires sep !in s
    ensures Split(s, sep) == [s]
    decreases |s|
  {
    if s != [] {
      SplitNoSep(s[1..], sep);
      assert [s[0]] + s[1..] == s;
    }
  }

  /** Appending a separator and a separator-free piece appends one part. */
  lemma {:induction false} SplitSnoc(a: string, sep: char, b: string)
    requires sep !in b
    ensures Split(a + [sep] + b, sep) == Split(a, sep) + [b]
    decreases |a|
  {
    if a == [] {
      assert a + [sep] + b == [sep] + b;
      assert ([sep] + b)[1..] == b;
      SplitNoSep(b, sep);
    } else {
      assert (a + [sep] + b)[1..] == a[1..] + [sep] + b;
      SplitSnoc(a[1..], sep, b);
    }
  }

  /** Joining the parts of a split gives back the original string. */
  lemma {:induction false} JoinSplit(s: string, sep: char)
    ensures JoinWith(Split(s, sep), sep) == s
    decreases |s|
  {
    if s != [] {
      var rest := Split(s[1..], sep);
      JoinSplit(s[1..], sep);
      if s[0] == sep {
        assert Split(s, sep)[1..] == rest;
      } else {
        var parts := Split(s, sep);
        if |rest| == 1 {
          assert parts == [[s[0]] + rest[0]];
        } else {
          assert parts[1..] == rest[1..];
          assert JoinWith(rest, sep) == rest[0] + [sep] + JoinWith(rest[1..], sep);
        }
        assert [s[0]] + s[1..] == s;
      }
    }
  }

  /** Splitting a join of separator-free parts gives back the parts. */
  lemma {:induction false} SplitJoin(parts: seq<string>, sep: char)
    requires |parts| >= 1
    requires forall i :: 0 <= i < |parts| ==> sep !in parts[i]
    ensures Split(JoinWith(parts, sep), sep) == parts
    decreases |parts|
  {
    if |parts| == 1 {
      SplitNoSep(parts[0], sep);
    } else {
      var init := parts[..|parts| - 1];
      JoinWithSnoc(init, sep, parts[|parts| - 1]);
      assert init + [parts[|parts| - 1]] == parts;
      SplitJoin(init, sep);
      SplitSnoc(JoinWith(init, sep), sep, parts[|parts| - 1]);
    }
  }

  /** Joining one more part adds a separator and that part at the end. */
  lemma {:induction false} JoinWithSnoc(parts: seq<string>, sep: char, last: string)
    requires |parts| >= 1
    ensures JoinWith(parts + [last], sep) == JoinWith(parts, sep) + [sep] + last
    decreases |parts|
  {
    if |parts| > 1 {
      assert (parts + [last])[1..] == parts[1..] + [last];
      JoinWithSnoc(parts[1..], sep, last);
    }
  }

  /** `[x for x in s if keep(x)]`: the elements that satisfy `keep`, in their
      original order and with their multiplicities. */
  function Filter<T(==,!new)>(s: seq<T>, keep: T -> bool): (r: seq<T>)
    ensures forall x :: x in r <==> x in s && keep(x)
    ensures forall x :: multiset(r)[x] == if keep(x) then multiset(s)[x] else 0
    ensures IsSubsequence(r, s)
  {
    if s == [] then []
    else
      var rest := Filter(s[1..], keep);
      assert s == [s[0]] + s[1..];
      if keep(s[0]) then [s[0]] + rest else rest
  }

  /** `a` can be obtained from `b` by deleting elements, keeping the order. */
  predicate IsSubsequence<T(==)>(a: seq<T>, b: seq<T>) {
    if a == [] then true
    else if b == [] then false
    else if a[0] == b[0] then IsSubsequence(a[1..], b[1..])
    else IsSubsequence(a, b[1..])
  }
}
