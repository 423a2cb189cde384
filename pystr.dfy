/**
 * The Python `str` operations the crawl scripts rely on, with Python's own
 * semantics: `find`/`split` on a separator, `"sep".join`, `strip()` with no
 * argument, slicing with negative indices, and `str(int)`.
 */
module PyStr {
  import opened Wrappers

  /** `d` occurs in `s` starting at index `i`. */
  predicate OccursAt(s: string, d: string, i: int) {
    0 <= i && i + |d| <= |s| && s[i..i + |d|] == d
  }

  /** `i` is the leftmost occurrence of `d` in `s`. */
  predicate FirstAt(s: string, d: string, i: int) {
    OccursAt(s, d, i) && forall j :: 0 <= j < i ==> !OccursAt(s, d, j)
  }

  /** `d` does not occur anywhere in `s`. */
  predicate Absent(s: string, d: string) {
    forall j :: 0 <= j <= |s| ==> !OccursAt(s, d, j)
  }

  lemma OccursShift(s: string, d: string, j: int)
    requires 1 <= j && |s| > 0
    ensures OccursAt(s, d, j) <==> OccursAt(s[1..], d, j - 1)
  {
    if j + |d| <= |s| {
      assert s[1..][j - 1..j - 1 + |d|] == s[j..j + |d|];
    }
  }

  /** `s.find(d)`: the leftmost occurrence of a non-empty separator, if any. */
  function Find(s: string, d: string): (r: Option<nat>)
    requires d != []
    ensures r.Some? ==> r.value + |d| <= |s|
    decreases |s|
  {
    if |s| < |d| then None
    else if s[..|d|] == d then Some(0)
    else
      var rest := Find(s[1..], d);
      if rest.None? then None else Some(rest.value + 1)
  }

  /** `find` returns the leftmost occurrence, and reports none only when there is none. */
  lemma {:induction false} FindSpec(s: string, d: string)
    requires d != []
    ensures Find(s, d).Some? ==> FirstAt(s, d, Find(s, d).value)
    ensures Find(s, d).None? ==> Absent(s, d)
    decreases |s|
  {
    if |s| >= |d| && s[..|d|] != d {
      FindSpec(s[1..], d);
      forall j | 1 <= j
        ensures OccursAt(s, d, j) <==> OccursAt(s[1..], d, j - 1)
      {
        OccursShift(s, d, j);
      }
      assert !OccursAt(s, d, 0);
    }
  }

  lemma FindOccurs(s: string, d: string)
    requires d != [] && Find(s, d).Some?
    ensures OccursAt(s, d, Find(s, d).value)
  {
    FindSpec(s, d);
  }

  lemma FindIsFirst(s: string, d: string, i: int)
    requires d != [] && FirstAt(s, d, i)
    ensures Find(s, d) == Some(i)
  {
    FindSpec(s, d);
  }

  lemma FindAbsent(s: string, d: string)
    requires d != [] && Absent(s, d)
    ensures Find(s, d) == None
  {
    FindSpec(s, d);
  }

  /** `s.split(d)` for a non-empty separator: cut at every occurrence, scanning left to right. */
  function Split(s: string, d: string): (parts: seq<string>)
    requires d != []
    ensures |parts| >= 1
    decreases |s|
  {
    match Find(s, d)
    case None => [s]
    case Some(i) => [s[..i]] + Split(s[i + |d|..], d)
  }

  /** When `d` first occurs at `i`, the split begins with `s[..i]` followed by the split of the rest. */
  lemma SplitAtFirst(s: string, d: string, i: nat)
    requires d != [] && Find(s, d) == Some(i)
    ensures var parts, tail := Split(s, d), Split(s[i + |d|..], d);
      |parts| == |tail| + 1 && parts[0] == s[..i] && parts[1..] == tail
  {
    var parts, tail := Split(s, d), Split(s[i + |d|..], d);
    assert |parts| == |tail| + 1 && parts[1..] == tail;
  }

  /** `d.join(parts)`. */
  function Join(parts: seq<string>, d: string): string
  {
    if parts == [] then ""
    else if |parts| == 1 then parts[0]
    else parts[0] + d + Join(parts[1..], d)
  }

  lemma JoinCons(head: string, tail: seq<string>, d: string)
    requires tail != []
    ensures Join([head] + tail, d) == head + d + Join(tail, d)
  {
    assert ([head] + tail)[1..] == tail;
  }

  /** Joining the pieces of a split with the same separator gives back the original string. */
  lemma {:induction false} JoinSplit(s: string, d: string)
    requires d != []
    ensures Join(Split(s, d), d) == s
    decreases |s|
  {
    match Find(s, d)
    case None =>
    case Some(i) =>
      FindOccurs(s, d);
      var rest := s[i + |d|..];
      var tail := Split(rest, d);
      JoinSplit(rest, d);
      JoinCons(s[..i], tail, d);
      assert OccursAt(s, d, i);
      assert s == s[..i] + s[i..i + |d|] + rest;
  }

  /** No piece of a split contains the separator. */
  lemma {:induction false} SplitPiecesFree(s: string, d: string)
    requires d != []
    ensures forall k :: 0 <= k < |Split(s, d)| ==> Absent(Split(s, d)[k], d)
    decreases |s|
  {
    FindSpec(s, d);
    match Find(s, d)
    case None =>
    case Some(i) =>
      var rest := s[i + |d|..];
      var head := s[..i];
      SplitPiecesFree(rest, d);
      assert FirstAt(s, d, i);
      forall j | 0 <= j <= |head|
        ensures !OccursAt(head, d, j)
      {
        if j + |d| <= |head| {
          assert head[j..j + |d|] == s[j..j + |d|];
          assert !OccursAt(s, d, j);
        }
      }
      assert Absent(head, d);
      var parts, tail := Split(s, d), Split(rest, d);
      assert parts == [head] + tail;
      forall k | 0 <= k < |parts|
        ensures Absent(parts[k], d)
      {
        if k > 0 {
          assert parts[k] == tail[k - 1];
        }
      }
  }

  /** `last` is a suffix of `s`, preceded by `d` unless it is all of `s`. */
  predicate SeparatedSuffix(s: string, last: string, d: string) {
    && |last| <= |s|
    && s[|s| - |last|..] == last
    && (|last| < |s| ==> |s| - |last| >= |d| && s[|s| - |last| - |d|..|s| - |last|] == d)
  }

  lemma SeparatedSuffixExtend(s: string, i: nat, d: string, last: string)
    requires OccursAt(s, d, i)
    requires SeparatedSuffix(s[i + |d|..], last, d)
    ensures SeparatedSuffix(s, last, d)
  {
    var rest := s[i + |d|..];
    var n := |s| - |last|;
    assert n == i + |d| + (|rest| - |last|);
    assert s[n..] == rest[|rest| - |last|..];
    if |last| < |rest| {
      assert s[n - |d|..n] == rest[|rest| - |last| - |d|..|rest| - |last|];
    } else {
      assert n == i + |d|;
      assert s[n - |d|..n] == s[i..i + |d|];
    }
  }

  /** What follows the last occurrence of `d` in `s` (all of `s` when there is none). */
  function LastPiece(s: string, d: string): string
    requires d != []
    decreases |s|
  {
    match Find(s, d)
    case None => s
    case Some(i) => LastPiece(s[i + |d|..], d)
  }

  lemma SplitLastOfRest(s: string, d: string, i: nat)
    requires d != [] && Find(s, d) == Some(i)
    ensures var parts, tail := Split(s, d), Split(s[i + |d|..], d);
      parts[|parts| - 1] == tail[|tail| - 1]
  {
    var parts, tail := Split(s, d), Split(s[i + |d|..], d);
    assert |parts| == |tail| + 1 && parts[1..] == tail;
    assert parts[|parts| - 1] == parts[1..][|tail| - 1];
  }

  /** `s.split(d)[-1]` is the text after the last separator. */
  lemma {:induction false} SplitLastIsLastPiece(s: string, d: string)
    requires d != []
    ensures Split(s, d)[|Split(s, d)| - 1] == LastPiece(s, d)
    decreases |s|
  {
    match Find(s, d)
    case None =>
    case Some(i) =>
      SplitLastIsLastPiece(s[i + |d|..], d);
      SplitLastOfRest(s, d, i);
  }

  /**
   * The text after the last separator is a suffix of the string, and unless
   * it is the whole string, the separator stands immediately before it.
   */
  lemma {:induction false} LastPieceIsSuffix(s: string, d: string)
    requires d != []
    ensures SeparatedSuffix(s, LastPiece(s, d), d)
    decreases |s|
  {
    match Find(s, d)
    case None =>
      assert LastPiece(s, d) == s && s[|s| - |s|..] == s;
    case Some(i) =>
      FindOccurs(s, d);
      var rest := s[i + |d|..];
      assert LastPiece(s, d) == LastPiece(rest, d);
      LastPieceIsSuffix(rest, d);
      SeparatedSuffixExtend(s, i, d, LastPiece(rest, d));
  }

  /** The last piece of a split holds no separator and ends the string, right after a separator unless it is the whole string. */
  lemma SplitLastPiece(s: string, d: string)
    requires d != []
    ensures var parts := Split(s, d);
      Absent(parts[|parts| - 1], d) && SeparatedSuffix(s, parts[|parts| - 1], d)
  {
    SplitLastIsLastPiece(s, d);
    LastPieceIsSuffix(s, d);
    SplitPiecesFree(s, d);
  }

  /** A string in which the one-character separator `[c]` does not occur does not contain `c`. */
  lemma AbsentChar(s: string, c: char)
    requires Absent(s, [c])
    ensures c !in s
  {
    forall k | 0 <= k < |s|
      ensures s[k] != c
    {
      assert !OccursAt(s, [c], k);
      assert s[k..k + 1] == [s[k]];
    }
  }

  /** The characters Python's `str.isspace()` accepts (and `str.strip()` removes). */
  const Whitespace: set<char> := {
    '\t', '\n', '\U{b}', '\U{c}', '\r', '\U{1c}', '\U{1d}', '\U{1e}', '\U{1f}', ' ',
    '\U{85}', '\U{a0}', '\U{1680}',
    '\U{2000}', '\U{2001}', '\U{2002}', '\U{2003}', '\U{2004}', '\U{2005}',
    '\U{2006}', '\U{2007}', '\U{2008}', '\U{2009}', '\U{200a}',
    '\U{2028}', '\U{2029}', '\U{202f}', '\U{205f}', '\U{3000}'
  }

  predicate IsSpace(c: char) {
    c in Whitespace
  }

  /** `s.lstrip()`: drop leading whitespace. */
  function LStrip(s: string): (r: string)
    ensures |r| <= |s|
  {
    if s != [] && IsSpace(s[0]) then LStrip(s[1..]) else s
  }

  /** `lstrip()` removes exactly the leading run of whitespace. */
  lemma {:induction false} LStripSpec(s: string)
    ensures var r := LStrip(s);
      && r == s[|s| - |r|..]
      && (forall k :: 0 <= k < |s| - |r| ==> IsSpace(s[k]))
      && (r == [] || !IsSpace(r[0]))
  {
    if s != [] && IsSpace(s[0]) {
      LStripSpec(s[1..]);
      var r := LStrip(s);
      forall k | 1 <= k < |s| - |r|
        ensures IsSpace(s[k])
      {
        assert s[k] == s[1..][k - 1];
      }
    }
  }

  /** `s.rstrip()`: drop trailing whitespace. */
  function RStrip(s: string): (r: string)
    ensures |r| <= |s|
  {
    if s != [] && IsSpace(s[|s| - 1]) then RStrip(s[..|s| - 1]) else s
  }

  /** `rstrip()` removes exactly the trailing run of whitespace. */
  lemma {:induction false} RStripSpec(s: string)
    ensures var r := RStrip(s);
      && r == s[..|r|]
      && (forall k :: |r| <= k < |s| ==> IsSpace(s[k]))
      && (r == [] || !IsSpace(r[|r| - 1]))
  {
    if s != [] && IsSpace(s[|s| - 1]) {
      RStripSpec(s[..|s| - 1]);
      var r := RStrip(s);
      forall k | |r| <= k < |s| - 1
        ensures IsSpace(s[k])
      {
        assert s[k] == s[..|s| - 1][k];
      }
    }
  }

  /** `s.strip()`. */
  function Strip(s: string): string {
    RStrip(LStrip(s))
  }

  /** `s` has no whitespace at either end, so `strip()` leaves it alone. */
  predicate Stripped(s: string) {
    s == [] || (!IsSpace(s[0]) && !IsSpace(s[|s| - 1]))
  }

  /** What `strip()` keeps begins and ends with non-whitespace. */
  lemma StripStripped(s: string)
    ensures Stripped(Strip(s))
  {
    var l := LStrip(s);
    var r := RStrip(l);
    LStripSpec(s);
    RStripSpec(l);
    if r != [] {
      assert r[0] == l[0];
    }
  }

  /** `strip()` keeps exactly the middle of `s` between a whitespace prefix and a whitespace suffix. */
  lemma StripIsTrimmedMiddle(s: string)
    ensures exists i, j ::
      && 0 <= i <= j <= |s|
      && Strip(s) == s[i..j]
      && (forall k :: 0 <= k < i ==> IsSpace(s[k]))
      && (forall k :: j <= k < |s| ==> IsSpace(s[k]))
  {
    var l := LStrip(s);
    var r := RStrip(l);
    LStripSpec(s);
    RStripSpec(l);
    var i := |s| - |l|;
    var j := i + |r|;
    assert r == s[i..j];
    assert forall k :: j <= k < |s| ==> s[k] == l[k - i];
  }

  lemma StrippedFixed(s: string)
    requires Stripped(s)
    ensures Strip(s) == s
  {
  }

  lemma StripIdempotent(s: string)
    ensures Strip(Strip(s)) == Strip(s)
  {
    StripStripped(s);
    StrippedFixed(Strip(s));
  }

  /** Python's normalisation of a slice bound `i` against a length `n`. */
  function SliceBound(i: int, n: nat): (b: nat)
    ensures b <= n
  {
    if i < 0 then (if i + n < 0 then 0 else i + n)
    else if i > n then n
    else i
  }

  /** `s[start:stop]` with Python's negative-index and clamping rules. */
  function Slice(s: string, start: int, stop: int): string
  {
    var a := SliceBound(start, |s|);
    var b := SliceBound(stop, |s|);
    if a < b then s[a..b] else []
  }

  function DigitChar(d: nat): char
    requires d < 10
  {
    "0123456789"[d]
  }

  /** `str(n)` for a natural number: its decimal digits, most significant first. */
  function NatToStr(n: nat): (r: string)
    ensures |r| >= 1
  {
    if n < 10 then [DigitChar(n)] else NatToStr(n / 10) + [DigitChar(n % 10)]
  }

  /** `str(n)` is made of decimal digits only, with no leading zero. */
  lemma {:induction false} NatToStrDigits(n: nat)
    ensures var r := NatToStr(n);
      && (forall k :: 0 <= k < |r| ==> '0' <= r[k] <= '9')
      && (|r| > 1 ==> r[0] != '0')
  {
    if n >= 10 {
      NatToStrDigits(n / 10);
      var r := NatToStr(n);
      assert r == NatToStr(n / 10) + [DigitChar(n % 10)];
      assert r[0] == NatToStr(n / 10)[0];
    }
  }

  lemma DigitCharInjective(a: nat, b: nat)
    requires a < 10 && b < 10 && DigitChar(a) == DigitChar(b)
    ensures a == b
  {
  }

  /** Different natural numbers print differently. */
  lemma {:induction false} NatToStrInjective(m: nat, n: nat)
    requires NatToStr(m) == NatToStr(n)
    ensures m == n
    decreases m
  {
    var r := NatToStr(m);
    if m < 10 && n < 10 {
      DigitCharInjective(m, n);
    } else if m >= 10 && n >= 10 {
      var pm, pn := NatToStr(m / 10), NatToStr(n / 10);
      assert r == pm + [DigitChar(m % 10)];
      assert r == pn + [DigitChar(n % 10)];
      assert pm == r[..|r| - 1] == pn;
      assert r[|r| - 1] == DigitChar(m % 10) == DigitChar(n % 10);
      DigitCharInjective(m % 10, n % 10);
      NatToStrInjective(m / 10, n / 10);
    }
  }

  /** `str(i)` for any integer. */
  function IntToStr(i: int): (r: string)
    ensures |r| >= 1
  {
    if i < 0 then "-" + NatToStr(-i) else NatToStr(i)
  }

  /** `str(i)` starts with a minus sign exactly for negative `i`. */
  lemma IntToStrSign(i: int)
    ensures IntToStr(i)[0] == '-' <==> i < 0
  {
    if i >= 0 {
      NatToStrDigits(i);
    }
  }

  /** Different integers print differently, so `str` can be read back. */
  lemma IntToStrInjective(i: int, j: int)
    requires IntToStr(i) == IntToStr(j)
    ensures i == j
  {
    IntToStrSign(i);
    IntToStrSign(j);
    if i < 0 {
      assert NatToStr(-i) == IntToStr(i)[1..] == IntToStr(j)[1..] == NatToStr(-j);
      NatToStrInjective(-i, -j);
    } else {
      NatToStrInjective(i, j);
    }
  }
}
