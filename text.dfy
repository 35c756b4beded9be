/**
 * The string operations the parsers rely on, as Python defines them:
 * `str.strip`, `str.split`, the `in` substring test, `re.findall(r"C\d{5}", ...)`,
 * `itertools.product` and `int(...)` on text.
 */
module Text {
  import opened Wrappers

  /** The characters for which Python's `str.isspace` holds; `strip()` and `split()` use them. */
  const Whitespace: set<char> := {
    '\t', '\n', '\U{0B}', '\U{0C}', '\r', '\U{1C}', '\U{1D}', '\U{1E}', '\U{1F}', ' ',
    '\U{85}', '\U{A0}', '\U{1680}', '\U{2000}', '\U{2001}', '\U{2002}', '\U{2003}', '\U{2004}',
    '\U{2005}', '\U{2006}', '\U{2007}', '\U{2008}', '\U{2009}', '\U{200A}', '\U{2028}', '\U{2029}',
    '\U{202F}', '\U{205F}', '\U{3000}'
  }

  // ---------------------------------------------------------------- strip

  /** The first index at or after i whose character is not in chars, or |s|. */
  function SkipLeft(s: string, chars: set<char>, i: nat): (j: nat)
    requires i <= |s|
    ensures i <= j <= |s|
    ensures forall k :: i <= k < j ==> s[k] in chars
    ensures j < |s| ==> s[j] !in chars
    decreases |s| - i
  {
    if i == |s| || s[i] !in chars then i else SkipLeft(s, chars, i + 1)
  }

  /** The end of s[..j] once the trailing characters in chars are dropped, never going below lo. */
  function SkipRight(s: string, chars: set<char>, lo: nat, j: nat): (e: nat)
    requires lo <= j <= |s|
    ensures lo <= e <= j
    ensures forall k :: e <= k < j ==> s[k] in chars
    ensures e > lo ==> s[e - 1] !in chars
    decreases j
  {
    if j == lo || s[j - 1] !in chars then j else SkipRight(s, chars, lo, j - 1)
  }

  /** `s.strip(chars)`: drop the leading characters in chars, then the trailing ones. */
  function StripChars(s: string, chars: set<char>): string
  {
    var i := SkipLeft(s, chars, 0);
    s[i..SkipRight(s, chars, i, |s|)]
  }

  /** `s.strip()`: the same with Python's whitespace. */
  function Strip(s: string): string
  {
    StripChars(s, Whitespace)
  }

  /**
   * What strip removes and what it keeps: the result is a piece s[i..i + |r|] of s,
   * everything before and after it is in chars, and its two ends are not.
   */
  lemma StripCharsSpec(s: string, chars: set<char>)
    ensures var r := StripChars(s, chars);
      var i := SkipLeft(s, chars, 0);
      && i + |r| <= |s| && r == s[i..i + |r|]
      && (forall k :: 0 <= k < i ==> s[k] in chars)
      && (forall k :: i + |r| <= k < |s| ==> s[k] in chars)
      && (r != [] ==> r[0] !in chars && r[|r| - 1] !in chars)
  {
  }

  /** Stripping twice is stripping once. */
  lemma StripCharsIdempotent(s: string, chars: set<char>)
    ensures StripChars(StripChars(s, chars), chars) == StripChars(s, chars)
  {
    var r := StripChars(s, chars);
    StripCharsSpec(s, chars);
    assert SkipLeft(r, chars, 0) == 0;
    assert SkipRight(r, chars, 0, |r|) == |r|;
  }

  /** A string whose two ends are not in chars is left alone by strip. */
  lemma StripCharsKeeps(s: string, chars: set<char>)
    requires s != [] ==> s[0] !in chars && s[|s| - 1] !in chars
    ensures StripChars(s, chars) == s
  {
    assert SkipLeft(s, chars, 0) == 0;
    assert SkipRight(s, chars, 0, |s|) == |s|;
  }

  // ---------------------------------------------------------------- lower()

  /** `s.lower()` for the ASCII letters; other characters are kept as they are. */
  function Lower(s: string): string
  {
    seq(|s|, i requires 0 <= i < |s| => if 'A' <= s[i] <= 'Z' then (s[i] as int + 32) as char else s[i])
  }

  // ---------------------------------------------------------------- split()

  /** The end of the run of non-whitespace characters that starts at i. */
  function FieldEnd(s: string, i: nat): (j: nat)
    requires i <= |s|
    ensures i <= j <= |s|
    ensures forall k :: i <= k < j ==> s[k] !in Whitespace
    ensures j < |s| ==> s[j] in Whitespace
    decreases |s| - i
  {
    if i == |s| || s[i] in Whitespace then i else FieldEnd(s, i + 1)
  }

  /** `s.split()[0]`: the first whitespace-separated field; None where Python raises IndexError. */
  function FirstField(s: string): (r: Option<string>)
    ensures r.Some? ==> r.value != [] && forall k :: 0 <= k < |r.value| ==> r.value[k] !in Whitespace
    ensures r.None? <==> forall k :: 0 <= k < |s| ==> s[k] in Whitespace
  {
    var i := SkipLeft(s, Whitespace, 0);
    if i == |s| then None else Some(s[i..FieldEnd(s, i)])
  }

  // ---------------------------------------------------------------- substring search and split(sep)

  predicate OccursAt(s: string, sub: string, j: nat)
  {
    j + |sub| <= |s| && s[j..j + |sub|] == sub
  }

  /** The first occurrence of sub in s at or after i. */
  function Find(s: string, sub: string, i: nat): (r: Option<nat>)
    requires i <= |s|
    ensures r.Some? ==> i <= r.value && OccursAt(s, sub, r.value)
    ensures r.Some? ==> forall k :: i <= k < r.value ==> !OccursAt(s, sub, k)
    ensures r.None? ==> forall k :: i <= k <= |s| ==> !OccursAt(s, sub, k)
    decreases |s| - i
  {
    if OccursAt(s, sub, i) then Some(i) else if i == |s| then None else Find(s, sub, i + 1)
  }

  /** `sub in s`. */
  predicate Contains(s: string, sub: string)
  {
    Find(s, sub, 0).Some?
  }

  /** `s.split(sep)` for a non-empty separator: cut at each leftmost, non-overlapping occurrence. */
  function SplitOn(s: string, sep: string): (parts: seq<string>)
    requires sep != []
    ensures |parts| >= 1
    decreases |s|
  {
    match Find(s, sep, 0)
    case None => [s]
    case Some(j) => [s[..j]] + SplitOn(s[j + |sep|..], sep)
  }

  /** `sep.join(parts)`. */
  function Join(parts: seq<string>, sep: string): string
  {
    if parts == [] then "" else if |parts| == 1 then parts[0] else parts[0] + sep + Join(parts[1..], sep)
  }

  /** Joining the pieces of a split with the separator gives the string back. */
  lemma {:induction false} SplitJoin(s: string, sep: string)
    requires sep != []
    ensures Join(SplitOn(s, sep), sep) == s
    decreases |s|
  {
    match Find(s, sep, 0)
    case None =>
    case Some(j) =>
      var m := j + |sep|;
      var rest := s[m..];
      var tail := SplitOn(rest, sep);
      SplitJoin(rest, sep);
      JoinCons(s[..j], tail, sep);
      assert s[..m] == s[..j] + sep by { assert s[j..m] == sep; }
      assert s == s[..m] + rest;
  }

  lemma JoinCons(head: string, tail: seq<string>, sep: string)
    requires tail != []
    ensures Join([head] + tail, sep) == head + sep + Join(tail, sep)
  {
    assert ([head] + tail)[1..] == tail;
  }

  /** No piece of a split contains the separator. */
  lemma {:induction false} SplitPartsFree(s: string, sep: string)
    requires sep != []
    ensures forall p :: p in SplitOn(s, sep) ==> !Contains(p, sep)
    decreases |s|
  {
    match Find(s, sep, 0)
    case None =>
    case Some(j) =>
      var head := s[..j];
      forall k | 0 <= k <= |head|
        ensures !OccursAt(head, sep, k)
      {
        if OccursAt(head, sep, k) {
          assert head[k..k + |sep|] == s[k..k + |sep|];
          assert OccursAt(s, sep, k) && k < j;
        }
      }
      assert Find(head, sep, 0).None?;
      SplitPartsFree(s[j + |sep|..], sep);
      assert SplitOn(s, sep) == [head] + SplitOn(s[j + |sep|..], sep);
  }

  // ---------------------------------------------------------------- the equation "left <=> right"

  const Arrow: string := "<=>"

  /** `left, right = eqn.split("<=>")`: None where the two-way unpacking raises ValueError. */
  function SplitEquation(eqn: string): (r: Option<(string, string)>)
    ensures r.Some? ==> r.value.0 + Arrow + r.value.1 == eqn
    ensures r.Some? ==> !Contains(r.value.0, Arrow) && !Contains(r.value.1, Arrow)
    ensures r.None? <==> |SplitOn(eqn, Arrow)| != 2
  {
    var parts := SplitOn(eqn, Arrow);
    SplitJoin(eqn, Arrow);
    SplitPartsFree(eqn, Arrow);
    if |parts| == 2 then
      assert Join(parts, Arrow) == parts[0] + Arrow + parts[1];
      assert parts[0] in parts && parts[1] in parts;
      Some((parts[0], parts[1]))
    else None
  }

  /** Round trip: an equation written as `left <=> right` splits back into left and right. */
  lemma SplitEquationRoundTrip(l: string, r: string)
    requires !Contains(l, Arrow) && !Contains(r, Arrow)
    ensures SplitEquation(l + Arrow + r) == Some((l, r))
  {
    var s := l + Arrow + r;
    assert OccursAt(s, Arrow, |l|) by { assert s[|l|..|l| + 3] == Arrow; }
    forall k | 0 <= k < |l|
      ensures !OccursAt(s, Arrow, k)
    {
      if k + 3 <= |l| {
        assert s[k..k + 3] == l[k..k + 3];
        assert !OccursAt(l, Arrow, k);
      } else {
        // the last character of Arrow would fall on '<' or '=' of the glued Arrow
        assert s[k + 2] == Arrow[k + 2 - |l|];
      }
    }
    assert Find(s, Arrow, 0) == Some(|l|);
    assert s[..|l|] == l;
    assert s[|l| + 3..] == r;
    assert Find(r, Arrow, 0).None?;
    assert SplitOn(s, Arrow) == [l] + SplitOn(r, Arrow);
  }


  // ---------------------------------------------------------------- re.findall(r"C\d{5}", s)

  predicate IsDigit(c: char)
  {
    '0' <= c <= '9'
  }

  /** A compound id starts at i: a `C` followed by five digits. */
  predicate CidAt(s: string, i: nat)
  {
    i + 6 <= |s| && s[i] == 'C' && forall k :: i + 1 <= k < i + 6 ==> IsDigit(s[k])
  }

  /** The start positions of the matches found scanning from i: after a match the scan resumes behind it. */
  function CidStarts(s: string, i: nat): (ps: seq<nat>)
    requires i <= |s|
    ensures forall k :: 0 <= k < |ps| ==> i <= ps[k] && CidAt(s, ps[k])
    decreases |s| - i
  {
    if i + 6 > |s| then []
    else if CidAt(s, i) then [i] + CidStarts(s, i + 6)
    else CidStarts(s, i + 1)
  }

  /**
   * The matches are left to right and do not overlap, and they are all the places at or after i
   * where the pattern occurs (two occurrences cannot overlap, since `C` is not a digit).
   */
  lemma {:induction false} CidStartsSpec(s: string, i: nat)
    requires i <= |s|
    ensures var ps := CidStarts(s, i);
      forall k :: 0 <= k < |ps| - 1 ==> ps[k] + 6 <= ps[k + 1]
    ensures forall q: nat :: q in CidStarts(s, i) <==> i <= q && CidAt(s, q)
    decreases |s| - i
  {
    if i + 6 <= |s| {
      var next := if CidAt(s, i) then i + 6 else i + 1;
      CidStartsSpec(s, next);
      if CidAt(s, i) {
        assert CidStarts(s, i) == [i] + CidStarts(s, next);
      }
      forall q: nat | i <= q < next && CidAt(s, q)
        ensures q == i
      {
        assert q > i ==> IsDigit(s[q]);
      }
    }
  }

  /** `re.findall(r"C\d{5}", s)` with ASCII digits: the matched ids, left to right. */
  function FindCids(s: string): (ids: seq<string>)
    ensures forall k :: 0 <= k < |ids| ==> |ids[k]| == 6 && CidAt(ids[k], 0)
  {
    var ps := CidStarts(s, 0);
    seq(|ps|, k requires 0 <= k < |ps| => s[ps[k]..ps[k] + 6])
  }

  // ---------------------------------------------------------------- itertools.product

  /** `list(itertools.product(xs, ys))`: every pair, the first component varying slowest. */
  function Product<A, B>(xs: seq<A>, ys: seq<B>): (r: seq<(A, B)>)
    ensures |r| == |xs| * |ys|
  {
    if xs == [] then []
    else seq(|ys|, j requires 0 <= j < |ys| => (xs[0], ys[j])) + Product(xs[1..], ys)
  }

  /** The pair at position i * |ys| + j is (xs[i], ys[j]). */
  lemma {:induction false} ProductAt<A, B>(xs: seq<A>, ys: seq<B>, i: nat, j: nat)
    requires i < |xs| && j < |ys|
    ensures i * |ys| + j < |Product(xs, ys)| && Product(xs, ys)[i * |ys| + j] == (xs[i], ys[j])
  {
    if i > 0 {
      ProductAt(xs[1..], ys, i - 1, j);
      assert i * |ys| + j == |ys| + ((i - 1) * |ys| + j);
    }
  }

  /** A pair is in the product exactly when its components are in xs and ys. */
  lemma {:induction false} ProductMembers<A, B>(xs: seq<A>, ys: seq<B>, a: A, b: B)
    ensures (a, b) in Product(xs, ys) <==> a in xs && b in ys
  {
    if xs != [] {
      ProductMembers(xs[1..], ys, a, b);
      var head := seq(|ys|, j requires 0 <= j < |ys| => (xs[0], ys[j]));
      if a == xs[0] && b in ys {
        var j :| 0 <= j < |ys| && ys[j] == b;
        assert head[j] == (a, b);
      }
      if (a, b) in head {
        var j :| 0 <= j < |head| && head[j] == (a, b);
        assert ys[j] == b;
      }
      assert a in xs <==> a == xs[0] || a in xs[1..];
    }
  }

  // ---------------------------------------------------------------- int(s) and str(n)

  predicate AllDigits(ds: string)
  {
    forall k :: 0 <= k < |ds| ==> IsDigit(ds[k])
  }

  /** The value of a string of decimal digits. */
  function DigitsValue(ds: string): nat
    requires AllDigits(ds)
  {
    if ds == [] then 0 else DigitsValue(ds[..|ds| - 1]) * 10 + (ds[|ds| - 1] as int - '0' as int)
  }

  /** `str(n)` for n >= 0: its decimal digits, no leading zero. */
  function NatDigits(n: nat): (ds: string)
    ensures ds != [] && AllDigits(ds)
  {
    if n < 10 then [('0' as int + n) as char]
    else NatDigits(n / 10) + [('0' as int + n % 10) as char]
  }

  /** `str(n)`. */
  function IntToString(n: int): string
  {
    if n < 0 then "-" + NatDigits(-n) else NatDigits(n)
  }

  /**
   * `int(s)`: optional surrounding whitespace, an optional sign, then decimal digits;
   * None where Python raises ValueError.
   */
  function ParseInt(s: string): Option<int>
  {
    var t := Strip(s);
    if t == [] then None
    else if t[0] == '-' || t[0] == '+' then
      var ds := t[1..];
      if ds != [] && AllDigits(ds) then
        var v: int := DigitsValue(ds);
        Some(if t[0] == '-' then -v else v)
      else None
    else if AllDigits(t) then Some(DigitsValue(t))
    else None
  }

  lemma {:induction false} DigitsRoundTrip(n: nat)
    ensures DigitsValue(NatDigits(n)) == n
  {
    if n >= 10 {
      DigitsRoundTrip(n / 10);
      var ds := NatDigits(n);
      assert ds[..|ds| - 1] == NatDigits(n / 10);
    }
  }

  /** Round trip: reading back the decimal text of n gives n. */
  lemma ParseIntRoundTrip(n: int)
    ensures ParseInt(IntToString(n)) == Some(n)
  {
    var m: nat := if n < 0 then -n else n;
    DigitsRoundTrip(m);
    if n < 0 {
      NegativeRoundTrip(NatDigits(m));
    } else {
      DigitsReadBack(NatDigits(m));
    }
  }

  /** Decimal digits read back as their value. */
  lemma DigitsReadBack(ds: string)
    requires ds != [] && AllDigits(ds)
    ensures ParseInt(ds) == Some(DigitsValue(ds))
  {
    assert IsDigit(ds[0]) && IsDigit(ds[|ds| - 1]);
    StripCharsKeeps(ds, Whitespace);
  }

  /** A minus sign before decimal digits reads back as the negated value. */
  lemma NegativeRoundTrip(ds: string)
    requires ds != [] && AllDigits(ds)
    ensures ParseInt("-" + ds) == Some(-(DigitsValue(ds) as int))
  {
    var s := "-" + ds;
    assert IsDigit(ds[|ds| - 1]) && s[|s| - 1] == ds[|ds| - 1];
    StripCharsKeeps(s, Whitespace);
    assert s[1..] == ds;
  }



}
