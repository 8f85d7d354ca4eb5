/**
 * The Python string operations the status checker relies on: `str.strip()`
 * with no argument, `str.split(sep)` with an explicit separator, and the
 * `sep.join(pieces)` that undoes it.
 */
module Text {

  /** The whitespace characters `str.strip()` removes (restricted to these six characters). */
  predicate IsSpace(c: char) {
    c == ' ' || c == '\t' || c == '\n' || c == '\r' || c == '\U{0B}' || c == '\U{0C}'
  }

  predicate AllSpace(s: string) {
    forall i :: 0 <= i < |s| ==> IsSpace(s[i])
  }

  /** Neither the first nor the last character of `s` is whitespace. */
  predicate Stripped(s: string) {
    s == [] || (!IsSpace(s[0]) && !IsSpace(s[|s| - 1]))
  }

  /** `s.lstrip()`: the suffix of `s` left after dropping its leading whitespace. */
  function TrimStart(s: string): (r: string)
    ensures |r| <= |s|
    ensures r == [] || !IsSpace(r[0])
  {
    if |s| > 0 && IsSpace(s[0]) then TrimStart(s[1..]) else s
  }

  /** What `TrimStart` drops is a run of whitespace at the front of `s`, and nothing else. */
  lemma {:induction false} TrimStartSuffix(s: string)
    ensures TrimStart(s) == s[|s| - |TrimStart(s)|..]
    ensures AllSpace(s[..|s| - |TrimStart(s)|])
    decreases |s|
  {
    if |s| > 0 && IsSpace(s[0]) {
      var r := TrimStart(s[1..]);
      TrimStartSuffix(s[1..]);
      assert s[1..][|s| - 1 - |r|..] == s[|s| - |r|..];
      assert s[..|s| - |r|] == [s[0]] + s[1..][..|s| - 1 - |r|];
    }
  }

  /** `s.rstrip()`: the prefix of `s` left after dropping its trailing whitespace. */
  function TrimEnd(s: string): (r: string)
    ensures |r| <= |s|
    ensures r == [] || !IsSpace(r[|r| - 1])
  {
    if |s| > 0 && IsSpace(s[|s| - 1]) then TrimEnd(s[..|s| - 1]) else s
  }

  /** What `TrimEnd` drops is a run of whitespace at the back of `s`, and nothing else. */
  lemma {:induction false} TrimEndPrefix(s: string)
    ensures TrimEnd(s) == s[..|TrimEnd(s)|]
    ensures AllSpace(s[|TrimEnd(s)|..])
    decreases |s|
  {
    if |s| > 0 && IsSpace(s[|s| - 1]) {
      var r := TrimEnd(s[..|s| - 1]);
      TrimEndPrefix(s[..|s| - 1]);
      assert s[..|s| - 1][..|r|] == s[..|r|];
      assert s[|r|..] == s[..|s| - 1][|r|..] + [s[|s| - 1]];
    }
  }

  /**
   * `r` is what is left of `s` once a whitespace run of length `i` is cut from
   * its front and another from its back.
   */
  predicate Surrounds(s: string, i: int, r: string) {
    0 <= i <= |s| - |r| && r == s[i..i + |r|] && AllSpace(s[..i]) && AllSpace(s[i + |r|..])
  }

  /**
   * `s.strip()`: the contiguous middle of `s` left after dropping its leading
   * and trailing whitespace.
   */
  function Strip(s: string): (r: string)
    ensures |r| <= |s|
    ensures Stripped(r)
  {
    TrimEndPrefix(TrimStart(s));
    TrimEnd(TrimStart(s))
  }

  /** What strip removes is whitespace, taken from the two ends only. */
  lemma StripSurrounds(s: string)
    ensures exists i :: Surrounds(s, i, Strip(s))
  {
    var t := TrimStart(s);
    var r := TrimEnd(t);
    var i := |s| - |t|;
    TrimStartSuffix(s);
    TrimEndPrefix(t);
    assert s[i..] == t;
    assert s[i..i + |r|] == t[..|r|] == r;
    assert s[i + |r|..] == t[|r|..];
    assert Strip(s) == r;
    assert Surrounds(s, i, r);
  }

  /** Leading whitespace in front of a string that does not start with whitespace is dropped entirely. */
  lemma {:induction false} TrimStartSkips(a: string, t: string)
    requires AllSpace(a) && (t == [] || !IsSpace(t[0]))
    ensures TrimStart(a + t) == t
    decreases |a|
  {
    if a != [] {
      assert (a + t)[0] == a[0];
      assert (a + t)[1..] == a[1..] + t;
      TrimStartSkips(a[1..], t);
    } else {
      assert a + t == t;
    }
  }

  /** Trailing whitespace behind a string that does not end with whitespace is dropped entirely. */
  lemma {:induction false} TrimEndSkips(t: string, b: string)
    requires AllSpace(b) && (t == [] || !IsSpace(t[|t| - 1]))
    ensures TrimEnd(t + b) == t
    decreases |b|
  {
    if b != [] {
      assert (t + b)[|t + b| - 1] == b[|b| - 1];
      assert (t + b)[..|t + b| - 1] == t + b[..|b| - 1];
      TrimEndSkips(t, b[..|b| - 1]);
    } else {
      assert t + b == t;
    }
  }

  /**
   * Whatever whitespace surrounds a string that has none at its own ends,
   * stripping gives back exactly that string.
   */
  lemma StripUnique(a: string, m: string, b: string)
    requires AllSpace(a) && AllSpace(b) && Stripped(m)
    ensures Strip(a + m + b) == m
  {
    if m == [] {
      assert a + m + b == (a + b) + [];
      assert AllSpace(a + b) by {
        forall k | 0 <= k < |a + b| ensures IsSpace((a + b)[k]) {
          if k >= |a| { assert (a + b)[k] == b[k - |a|]; }
        }
      }
      TrimStartSkips(a + b, []);
      TrimEndSkips([], []);
    } else {
      assert a + m + b == a + (m + b);
      TrimStartSkips(a, m + b);
      TrimEndSkips(m, b);
    }
  }

  /** A string without whitespace at its ends is left as it is. */
  lemma StrippedIsFixed(s: string)
    requires Stripped(s)
    ensures Strip(s) == s
  {
    assert [] + s + [] == s;
    StripUnique([], s, []);
  }

  /** Stripping twice is the same as stripping once. */
  lemma StripIdempotent(s: string)
    ensures Strip(Strip(s)) == Strip(s)
  {
    StrippedIsFixed(Strip(s));
  }

  /** `sep` occurs in `s` starting at index `i`. */
  predicate MatchAt(s: string, sep: string, i: int) {
    0 <= i && i + |sep| <= |s| && s[i..i + |sep|] == sep
  }

  /** `sep in s`, Python's substring test. */
  predicate Contains(s: string, sep: string) {
    exists i :: 0 <= i <= |s| - |sep| && MatchAt(s, sep, i)
  }

  /** No proper suffix of `sep` is also a prefix of it, so two occurrences cannot overlap. */
  predicate NoSelfOverlap(sep: string) {
    forall k :: 0 < k < |sep| ==> sep[k..] != sep[..|sep| - k]
  }

  /** `sep.join(pieces)` for a non-empty list of pieces. */
  function Join(pieces: seq<string>, sep: string): string
    requires |pieces| >= 1
  {
    if |pieces| == 1 then pieces[0] else pieces[0] + sep + Join(pieces[1..], sep)
  }

  lemma JoinHeadPrefix(pieces: seq<string>, sep: string)
    requires |pieces| >= 1
    ensures |pieces[0]| <= |Join(pieces, sep)| && Join(pieces, sep)[..|pieces[0]|] == pieces[0]
  {
  }

  /** Extending the first piece extends the join by the same prefix. */
  lemma JoinPrepend(c: string, pieces: seq<string>, sep: string)
    requires |pieces| >= 1
    ensures Join([c + pieces[0]] + pieces[1..], sep) == c + Join(pieces, sep)
  {
    var r := [c + pieces[0]] + pieces[1..];
    assert r[1..] == pieces[1..];
    if |pieces| >= 2 {
      var j := Join(pieces[1..], sep);
      assert Join(r, sep) == (c + pieces[0]) + sep + j;
      assert (c + pieces[0]) + sep + j == c + (pieces[0] + sep + j);
    }
  }

  /** The first two pieces of a join, with everything after them. */
  lemma JoinFirstTwo(pieces: seq<string>, sep: string)
    requires |pieces| >= 2
    ensures Join(pieces, sep) == pieces[0] + sep + pieces[1] + (if |pieces| == 2 then [] else sep + Join(pieces[2..], sep))
  {
    var rest := if |pieces| == 2 then [] else sep + Join(pieces[2..], sep);
    var tail := Join(pieces[1..], sep);
    if |pieces| == 2 {
      assert tail == pieces[1];
      assert pieces[1] + rest == pieces[1];
    } else {
      assert pieces[1..][1..] == pieces[2..];
      assert tail == pieces[1] + rest;
    }
    assert Join(pieces, sep) == pieces[0] + sep + (pieces[1] + rest);
    assert pieces[0] + sep + (pieces[1] + rest) == pieces[0] + sep + pieces[1] + rest;
  }

  /** A character put in front of a string without the separator adds no occurrence after index 0. */
  lemma ConsNoLaterMatch(c: char, x: string, sep: string)
    requires !Contains(x, sep)
    ensures forall i :: 0 < i <= |x| + 1 - |sep| ==> !MatchAt([c] + x, sep, i)
  {
    forall i | 0 < i <= |x| + 1 - |sep| ensures !MatchAt([c] + x, sep, i) {
      assert ([c] + x)[i..i + |sep|] == x[i - 1..i - 1 + |sep|];
      assert !MatchAt(x, sep, i - 1);
    }
  }

  /** The first piece `s.split(sep)` produces when `s` does not start with the separator. */
  lemma HeadPieceFree(s: string, sep: string, rest: seq<string>)
    requires |sep| > 0 && |s| >= |sep| && s[..|sep|] != sep
    requires |rest| >= 1 && Join(rest, sep) == s[1..] && !Contains(rest[0], sep)
    ensures !Contains([s[0]] + rest[0], sep)
  {
    var h := [s[0]] + rest[0];
    ConsNoLaterMatch(s[0], rest[0], sep);
    if |h| >= |sep| {
      JoinHeadPrefix(rest, sep);
      assert h == s[..|h|];
      assert h[0..|sep|] == s[..|sep|];
      assert !MatchAt(h, sep, 0);
    }
  }

  /**
   * `s.split(sep)`: the pieces of `s` between the occurrences of `sep`, found
   * left to right without overlap. Python refuses an empty separator.
   */
  function Split(s: string, sep: string): (r: seq<string>)
    requires |sep| > 0
    ensures |r| >= 1
    decreases |s|
  {
    if |s| < |sep| then
      [s]
    else if s[..|sep|] == sep then
      [[]] + Split(s[|sep|..], sep)
    else
      var rest := Split(s[1..], sep);
      [[s[0]] + rest[0]] + rest[1..]
  }

  /** Joining the pieces with the separator gives back the split string. */
  lemma {:induction false} SplitJoin(s: string, sep: string)
    requires |sep| > 0
    ensures Join(Split(s, sep), sep) == s
    decreases |s|
  {
    if |s| < |sep| {
    } else if s[..|sep|] == sep {
      SplitJoin(s[|sep|..], sep);
      assert s == [] + sep + s[|sep|..];
    } else {
      var rest := Split(s[1..], sep);
      SplitJoin(s[1..], sep);
      JoinPrepend([s[0]], rest, sep);
      assert s == [s[0]] + s[1..];
    }
  }

  /** No piece contains the separator. */
  lemma {:induction false} SplitPiecesFree(s: string, sep: string)
    requires |sep| > 0
    ensures forall k :: 0 <= k < |Split(s, sep)| ==> !Contains(Split(s, sep)[k], sep)
    decreases |s|
  {
    var r := Split(s, sep);
    if |s| < |sep| {
      assert r == [s];
    } else if s[..|sep|] == sep {
      SplitPiecesFree(s[|sep|..], sep);
      assert !Contains([], sep);
      assert forall k :: 1 <= k < |r| ==> r[k] == Split(s[|sep|..], sep)[k - 1];
    } else {
      var rest := Split(s[1..], sep);
      SplitPiecesFree(s[1..], sep);
      SplitJoin(s[1..], sep);
      HeadPieceFree(s, sep, rest);
      assert forall k :: 1 <= k < |r| ==> r[k] == rest[k];
    }
  }

  /** The split yields at least two pieces exactly when the separator occurs. */
  lemma SplitSeparates(s: string, sep: string)
    requires |sep| > 0
    ensures |Split(s, sep)| >= 2 <==> Contains(s, sep)
  {
    var r := Split(s, sep);
    SplitJoin(s, sep);
    if |r| >= 2 {
      var t := Join(r[1..], sep);
      assert s == r[0] + sep + t;
      assert s[|r[0]|..|r[0]| + |sep|] == sep;
      assert MatchAt(s, sep, |r[0]|);
    } else {
      SplitPiecesFree(s, sep);
      assert s == r[0];
    }
  }

  /**
   * When the split yields two pieces or more, the string is the first piece,
   * the separator, the second piece, and then nothing or the separator again
   * with the rest; neither of the two pieces holds the separator.
   */
  lemma SplitFirstTwo(s: string, sep: string)
    requires |sep| > 0 && |Split(s, sep)| >= 2
    ensures var ps := Split(s, sep);
            var rest := if |ps| == 2 then [] else sep + Join(ps[2..], sep);
            && s == ps[0] + sep + ps[1] + rest
            && !Contains(ps[0], sep) && !Contains(ps[1], sep)
            && (rest == [] || sep <= rest)
  {
    var ps := Split(s, sep);
    SplitJoin(s, sep);
    SplitPiecesFree(s, sep);
    JoinFirstTwo(ps, sep);
  }

  /** A string without the separator splits into itself alone. */
  lemma SplitWithoutSeparator(s: string, sep: string)
    requires |sep| > 0 && !Contains(s, sep)
    ensures Split(s, sep) == [s]
  {
    SplitSeparates(s, sep);
    SplitJoin(s, sep);
  }

  /** One step of the split when `s` does not start with the separator. */
  lemma SplitStep(s: string, sep: string)
    requires |sep| > 0 && |s| >= |sep| && s[..|sep|] != sep
    ensures Split(s, sep) == [[s[0]] + Split(s[1..], sep)[0]] + Split(s[1..], sep)[1..]
  {
  }

  /**
   * A non-empty `a` without the separator, followed by a separator that cannot
   * overlap itself, does not start with the separator.
   */
  lemma NoEarlyMatch(a: string, sep: string, t: string)
    requires |sep| > 0 && NoSelfOverlap(sep) && !Contains(a, sep) && a != []
    ensures (a + sep + t)[..|sep|] != sep
  {
    var s := a + sep + t;
    if |a| >= |sep| {
      assert a[..|sep|] == s[..|sep|];
      assert a[0..0 + |sep|] == a[..|sep|];
      assert !MatchAt(a, sep, 0);
    } else {
      var k := |a|;
      assert s[..|sep|][k..] == sep[..|sep| - k];
      assert sep[k..] != sep[..|sep| - k];
    }
  }

  /** Dropping the first character cannot introduce an occurrence of the separator. */
  lemma ContainsTail(a: string, sep: string)
    requires a != [] && !Contains(a, sep)
    ensures !Contains(a[1..], sep)
  {
    if i :| 0 <= i <= |a[1..]| - |sep| && MatchAt(a[1..], sep, i) {
      assert a[1..][i..i + |sep|] == a[i + 1..i + 1 + |sep|];
      assert MatchAt(a, sep, i + 1);
    }
  }

  /**
   * When the separator cannot overlap itself, splitting `a + sep + t` for an
   * `a` without the separator peels off `a` as the first piece.
   */
  lemma {:induction false} SplitAtFirst(a: string, sep: string, t: string)
    requires |sep| > 0 && NoSelfOverlap(sep) && !Contains(a, sep)
    ensures Split(a + sep + t, sep) == [a] + Split(t, sep)
    decreases |a|
  {
    var s := a + sep + t;
    if a == [] {
      assert s == sep + t;
      assert s[..|sep|] == sep;
      assert s[|sep|..] == t;
    } else {
      NoEarlyMatch(a, sep, t);
      ContainsTail(a, sep);
      SplitAtFirst(a[1..], sep, t);
      assert s[1..] == a[1..] + sep + t;
      SplitStep(s, sep);
      assert [s[0]] + a[1..] == a;
    }
  }

  /**
   * For a separator that cannot overlap itself, the second piece of
   * `a + sep + p + rest` is `p` when neither `a` nor `p` holds the separator
   * and `rest` is empty or starts with it.
   */
  lemma SplitSecondPiece(a: string, p: string, rest: string, sep: string)
    requires |sep| > 0 && NoSelfOverlap(sep) && !Contains(a, sep) && !Contains(p, sep)
    requires rest == [] || sep <= rest
    ensures |Split(a + sep + p + rest, sep)| >= 2 && Split(a + sep + p + rest, sep)[1] == p
  {
    assert a + sep + p + rest == a + sep + (p + rest);
    SplitAtFirst(a, sep, p + rest);
    if rest == [] {
      assert p + rest == p;
      SplitWithoutSeparator(p, sep);
    } else {
      var tail := rest[|sep|..];
      assert rest == sep + tail;
      assert p + rest == p + sep + tail;
      SplitAtFirst(p, sep, tail);
    }
  }

  /** How many times `c` occurs in `s`. */
  function CountChar(s: string, c: char): nat {
    if s == [] then 0 else (if s[0] == c then 1 else 0) + CountChar(s[1..], c)
  }

  /** A character that does not occur is counted zero times. */
  lemma {:induction false} CountCharAbsent(s: string, c: char)
    requires c !in s
    ensures CountChar(s, c) == 0
    decreases |s|
  {
    if s != [] {
      assert s == [s[0]] + s[1..];
      CountCharAbsent(s[1..], c);
    }
  }

  /** Occurrences in a concatenation add up. */
  lemma {:induction false} CountCharAppend(x: string, y: string, c: char)
    ensures CountChar(x + y, c) == CountChar(x, c) + CountChar(y, c)
    decreases |x|
  {
    if x == [] {
      assert x + y == y;
    } else {
      assert (x + y)[1..] == x[1..] + y;
      CountCharAppend(x[1..], y, c);
    }
  }

  /** Splitting on one character gives one more piece than it has occurrences. */
  lemma {:induction false} SplitCharCount(s: string, c: char)
    ensures |Split(s, [c])| == CountChar(s, c) + 1
    decreases |s|
  {
    if s != [] {
      SplitCharCount(s[1..], c);
      if s[0] == c {
        assert s[..1] == [c] && s[1..] == s[|[c]|..];
      }
    }
  }

  /** A separator whose first character is missing from `s` does not occur in it. */
  lemma MissingFirstChar(s: string, sep: string)
    requires |sep| > 0 && sep[0] !in s
    ensures !Contains(s, sep)
  {
    forall i | 0 <= i <= |s| - |sep| ensures !MatchAt(s, sep, i) {
      assert s[i..i + |sep|][0] == s[i] != sep[0];
    }
  }

  /** A one-character separator occurs in `s` exactly when the character does. */
  lemma ContainsChar(s: string, c: char)
    ensures Contains(s, [c]) <==> c in s
  {
    if c in s {
      var i :| 0 <= i < |s| && s[i] == c;
      assert s[i..i + 1] == [c];
      assert MatchAt(s, [c], i);
    }
    if i :| MatchAt(s, [c], i) {
      assert s[i] == s[i..i + 1][0];
    }
  }
}
