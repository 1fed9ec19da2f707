/** The Python string operations the pipeline relies on, restricted to ASCII:
    `str.isdigit`, `str.lower`, `str.replace`, substring `in`, `str.join`, and
    `str(n)` for integers. */
module Text {

  predicate IsDigit(c: char) {
    '0' <= c <= '9'
  }

  /** `s.isdigit()`: at least one character, and every character a digit. */
  predicate IsDigitString(s: string) {
    |s| > 0 && forall i :: 0 <= i < |s| ==> IsDigit(s[i])
  }

  predicate IsUpper(c: char) {
    'A' <= c <= 'Z'
  }

  function LowerChar(c: char): (r: char)
    ensures !IsUpper(r)
    ensures IsUpper(c) || r == c
  {
    if IsUpper(c) then (c as int + 32) as char else c
  }

  /** `s.lower()`. */
  function Lower(s: string): (r: string)
    ensures |r| == |s|
    ensures forall i :: 0 <= i < |s| ==> r[i] == LowerChar(s[i])
  {
    if s == [] then [] else [LowerChar(s[0])] + Lower(s[1..])
  }

  /** `s.replace(x, y)` for one-character `x` and `y`. */
  function ReplaceChar(s: string, x: char, y: char): (r: string)
    ensures |r| == |s|
    ensures forall i :: 0 <= i < |s| ==> r[i] == if s[i] == x then y else s[i]
  {
    if s == [] then [] else [if s[0] == x then y else s[0]] + ReplaceChar(s[1..], x, y)
  }

  // ---------------------------------------------------------------------------
  // Selections: one sequence read off another at increasing positions

  /** Every position moved one place to the right. */
  function Shifted(idx: seq<nat>): (r: seq<nat>)
    ensures |r| == |idx|
    ensures forall k :: 0 <= k < |idx| ==> r[k] == idx[k] + 1
  {
    seq(|idx|, k requires 0 <= k < |idx| => idx[k] + 1)
  }

  /** `r` is `s` read at the strictly increasing positions `idx`: same elements, same order,
      each position used once. */
  ghost predicate SelectedAt<T>(r: seq<T>, s: seq<T>, idx: seq<nat>) {
    && |idx| == |r|
    && (forall k :: 0 <= k < |idx| ==> idx[k] < |s| && r[k] == s[idx[k]])
    && (forall k, l :: 0 <= k < l < |idx| ==> idx[k] < idx[l])
  }

  /** The positions of `x` followed by `s`, given those of `s`: 0 when `x` is kept, then
      every position of `s` moved on by one. */
  ghost function Consed(keep: bool, idx: seq<nat>): seq<nat> {
    (if keep then [0] else []) + Shifted(idx)
  }

  /** Position 0 is selected exactly when the front element is kept, and position `j > 0`
      exactly when position `j - 1` was. */
  lemma ConsedMembers(keep: bool, idx: seq<nat>)
    ensures (0 in Consed(keep, idx)) <==> keep
    ensures forall j :: 0 < j ==> (j in Consed(keep, idx) <==> j - 1 in idx)
  {
    var h := if keep then [0] else [];
    var p := Consed(keep, idx);
    assert p == h + Shifted(idx);
    forall j | 0 < j
      ensures j in p <==> j - 1 in idx
    {
      if j - 1 in idx {
        var k :| 0 <= k < |idx| && idx[k] == j - 1;
        assert p[|h| + k] == j;
      }
      if j in p {
        var k :| 0 <= k < |p| && p[k] == j;
        assert idx[k - |h|] == j - 1;
      }
    }
    if 0 in p {
      var k :| 0 <= k < |p| && p[k] == 0;
      assert k < |h|;
    }
  }

  /** Moving increasing positions on by one, after an optional 0, keeps them increasing. */
  lemma ConsedIncreasing(keep: bool, idx: seq<nat>)
    requires forall k, l :: 0 <= k < l < |idx| ==> idx[k] < idx[l]
    ensures forall k, l :: 0 <= k < l < |Consed(keep, idx)| ==> Consed(keep, idx)[k] < Consed(keep, idx)[l]
  {
    var n := if keep then 1 else 0;
    var p, q := Consed(keep, idx), Shifted(idx);
    assert p == (if keep then [0] else []) + q;
    forall k, l | 0 <= k < l < |p|
      ensures p[k] < p[l]
    {
      assert p[l] == q[l - n] == idx[l - n] + 1;
      if k >= n {
        assert p[k] == q[k - n] == idx[k - n] + 1;
      }
    }
  }

  /** Putting `x` in front of `s`, and also in front of `r` when it is kept, keeps `r` a
      selection of `s` at the moved-on positions. */
  lemma SelectedStep<T>(x: T, keep: bool, r: seq<T>, s: seq<T>, idx: seq<nat>)
    requires SelectedAt(r, s, idx)
    ensures SelectedAt((if keep then [x] else []) + r, [x] + s, Consed(keep, idx))
  {
    var n := if keep then 1 else 0;
    var p, q := Consed(keep, idx), Shifted(idx);
    var r', s' := (if keep then [x] else []) + r, [x] + s;
    assert p == (if keep then [0] else []) + q;
    assert |p| == n + |idx| && |r'| == n + |r|;
    forall k | 0 <= k < |p|
      ensures p[k] < |s'| && r'[k] == s'[p[k]]
    {
      if k < n {
        assert p[k] == 0 && r'[k] == x;
      } else {
        assert p[k] == q[k - n] == idx[k - n] + 1;
        assert r'[k] == r[k - n] == s[idx[k - n]];
      }
    }
    ConsedIncreasing(keep, idx);
  }

  /** The positions of the characters of `s` other than `c`. */
  ghost function OtherPositions(s: string, c: char): seq<nat> {
    if s == [] then [] else Consed(s[0] != c, OtherPositions(s[1..], c))
  }

  /** `s.replace(c, '')`: every occurrence of `c` deleted. */
  function Delete(s: string, c: char): (r: string)
    ensures c !in r
    ensures c !in s ==> r == s
    ensures forall x :: x in r ==> x in s
    ensures forall x :: x in s && x != c ==> x in r
  {
    if s == [] then [] else (if s[0] == c then [] else [s[0]]) + Delete(s[1..], c)
  }

  /** `replace(c, '')` removes every `c` and nothing else, and keeps every other character
      once, at its own position and in order. */
  lemma DeleteSelection(s: string, c: char)
    ensures multiset(Delete(s, c)) == multiset(s)[c := 0]
    ensures SelectedAt(Delete(s, c), s, OtherPositions(s, c))
    ensures forall j :: 0 <= j < |s| ==> (j in OtherPositions(s, c) <==> s[j] != c)
  {
    DeleteCount(s, c);
    DeletePositions(s, c);
  }

  lemma {:induction false} DeleteCount(s: string, c: char)
    ensures multiset(Delete(s, c)) == multiset(s)[c := 0]
  {
    if s != [] {
      DeleteCount(s[1..], c);
      DeleteStepCount(s, c, Delete(s[1..], c));
    }
  }

  lemma {:induction false} DeletePositions(s: string, c: char)
    ensures SelectedAt(Delete(s, c), s, OtherPositions(s, c))
    ensures forall j :: 0 <= j < |s| ==> (j in OtherPositions(s, c) <==> s[j] != c)
  {
    if s != [] {
      var tail, keep := s[1..], s[0] != c;
      var idx := OtherPositions(tail, c);
      DeletePositions(tail, c);
      assert [s[0]] + tail == s;
      assert Delete(s, c) == (if keep then [s[0]] else []) + Delete(tail, c);
      assert OtherPositions(s, c) == Consed(keep, idx);
      SelectedStep(s[0], keep, Delete(tail, c), tail, idx);
      ConsedMembers(keep, idx);
      forall j | 0 < j < |s|
        ensures j in OtherPositions(s, c) <==> s[j] != c
      {
        assert s[j] == tail[j - 1];
      }
    }
  }

  /** Deleting from the tail and keeping the head unless it is `c` removes every `c` and
      nothing else. */
  lemma DeleteStepCount(s: string, c: char, rest: string)
    requires s != [] && multiset(rest) == multiset(s[1..])[c := 0]
    ensures multiset((if s[0] == c then [] else [s[0]]) + rest) == multiset(s)[c := 0]
  {
    assert s == [s[0]] + s[1..];
    assert multiset(s) == multiset([s[0]]) + multiset(s[1..]);
  }

  /** Python's `sub in s` on strings: `sub` occurs contiguously in `s`. */
  predicate Contains(s: string, sub: string)
    decreases |s|
  {
    sub <= s || (|s| > 0 && Contains(s[1..], sub))
  }

  /** `''.join(parts)`. */
  function Concat(parts: seq<string>): string {
    if parts == [] then "" else parts[0] + Concat(parts[1..])
  }

  /** `sep.join(parts)`. */
  function Join(sep: string, parts: seq<string>): string {
    if parts == [] then ""
    else if |parts| == 1 then parts[0]
    else parts[0] + sep + Join(sep, parts[1..])
  }

  function DigitChar(d: nat): (c: char)
    requires d < 10
    ensures IsDigit(c)
  {
    ('0' as int + d) as char
  }

  function DigitValue(c: char): (d: nat)
    requires IsDigit(c)
    ensures d < 10 && DigitChar(d) == c
  {
    c as int - '0' as int
  }

  /** `str(n)` for a non-negative integer: its decimal digits, most significant first. */
  function NatToString(n: nat): (s: string)
    ensures IsDigitString(s)
    decreases n
  {
    if n < 10 then [DigitChar(n)] else NatToString(n / 10) + [DigitChar(n % 10)]
  }

  /** `str(i)` for any integer: a minus sign before the digits of a negative one. */
  function IntToString(i: int): string {
    if i < 0 then "-" + NatToString(-i) else NatToString(i)
  }

  /** The number a string of decimal digits denotes (the inverse of NatToString). */
  function DigitsValue(s: string): nat
    requires forall i :: 0 <= i < |s| ==> IsDigit(s[i])
  {
    if s == [] then 0 else 10 * DigitsValue(s[..|s| - 1]) + DigitValue(s[|s| - 1])
  }

  lemma {:induction false} NatToStringRoundTrip(n: nat)
    ensures DigitsValue(NatToString(n)) == n
    decreases n
  {
    if n >= 10 {
      var s := NatToString(n);
      assert s[..|s| - 1] == NatToString(n / 10);
      NatToStringRoundTrip(n / 10);
    }
  }

  lemma NatToStringInjective(a: nat, b: nat)
    requires NatToString(a) == NatToString(b)
    ensures a == b
  {
    NatToStringRoundTrip(a);
    NatToStringRoundTrip(b);
  }

  lemma IntToStringInjective(a: int, b: int)
    requires IntToString(a) == IntToString(b)
    ensures a == b
  {
    var sa, sb := IntToString(a), IntToString(b);
    assert (sa[0] == '-') == (a < 0);
    assert (sb[0] == '-') == (b < 0);
    if a < 0 {
      assert sa[1..] == NatToString(-a) && sb[1..] == NatToString(-b);
      NatToStringInjective(-a, -b);
    } else {
      NatToStringInjective(a, b);
    }
  }
}
