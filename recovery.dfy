/** Python's `re.search` for the two patterns that cut JSON out of a model's reply:
    `\{.*\}` with `re.DOTALL`, and `\{[\s\S]*\}|\[[\s\S]*\]`. Every alternative is an
    opening delimiter, any text at all, then a closing delimiter. The regex engine tries
    start positions from the left; at each one it tries the alternatives in order, and the
    greedy middle part makes an alternative end at the LAST closing delimiter of the whole
    text, provided that one lies after the start. Neither pattern balances delimiters. */
module Recovery {
  import opened Wrappers

  /** One alternative: an opening and a closing delimiter with anything in between. */
  datatype Delims = Delims(open: char, close: char)

  /** The half-open range `[start, end)` of a match (`m.start()`, `m.end()`). */
  datatype Span = Span(start: nat, end: nat)

  const Braces := Delims('{', '}')
  const Brackets := Delims('[', ']')

  /** `\{.*\}` under `re.DOTALL`. */
  const SchemaPattern: seq<Delims> := [Braces]

  /** `\{[\s\S]*\}|\[[\s\S]*\]`. */
  const ExtractPattern: seq<Delims> := [Braces, Brackets]

  /** The position of the last `c` in `s`, if any. */
  function LastIndexOf(s: string, c: char): (r: Option<nat>)
    ensures r.Some? ==> r.value < |s| && s[r.value] == c
    ensures r.Some? ==> forall k :: r.value < k < |s| ==> s[k] != c
    ensures r.None? ==> forall k :: 0 <= k < |s| ==> s[k] != c
  {
    if s == [] then None
    else if s[|s| - 1] == c then Some(|s| - 1)
    else LastIndexOf(s[..|s| - 1], c)
  }

  /** `d.open` sits at `p` and some `d.close` follows it. */
  predicate Opens(s: string, p: nat, d: Delims)
    requires p < |s|
  {
    s[p] == d.open && exists q :: p < q < |s| && s[q] == d.close
  }

  /** The greedy match of one alternative anchored at `p`. */
  function MatchOne(s: string, p: nat, d: Delims): (r: Option<Span>)
    requires p < |s|
    ensures r.Some? <==> Opens(s, p, d)
    ensures r.Some? ==> r.value.start == p && p < r.value.end - 1 && r.value.end <= |s|
    ensures r.Some? ==> s[r.value.end - 1] == d.close
    ensures r.Some? ==> forall k :: r.value.end <= k < |s| ==> s[k] != d.close
  {
    if s[p] != d.open then None
    else match LastIndexOf(s, d.close)
      case Some(q) => if p < q then Some(Span(p, q + 1)) else None
      case None => None
  }

  /** The alternatives tried in order at `p`: the first one that matches wins
      (`MatchAtTriesInOrder`). */
  function MatchAt(s: string, p: nat, alts: seq<Delims>): (r: Option<Span>)
    requires p < |s|
    ensures r.Some? ==> r.value.start == p && p < r.value.end - 1 && r.value.end <= |s|
  {
    if alts == [] then None
    else if MatchOne(s, p, alts[0]).Some? then MatchOne(s, p, alts[0])
    else MatchAt(s, p, alts[1..])
  }

  /** There is a match at `p` exactly when some alternative opens there, and it is the match
      of the first alternative that does. */
  lemma {:induction false} MatchAtTriesInOrder(s: string, p: nat, alts: seq<Delims>)
    requires p < |s|
    ensures MatchAt(s, p, alts).Some? <==> exists a :: 0 <= a < |alts| && Opens(s, p, alts[a])
    ensures MatchAt(s, p, alts).Some? ==>
              exists a :: 0 <= a < |alts| && MatchAt(s, p, alts) == MatchOne(s, p, alts[a])
                          && forall b :: 0 <= b < a ==> !Opens(s, p, alts[b])
  {
    if alts != [] && MatchOne(s, p, alts[0]).None? {
      MatchAtTriesInOrder(s, p, alts[1..]);
      assert forall a :: 1 <= a < |alts| ==> alts[a] == alts[1..][a - 1];
      if MatchAt(s, p, alts).Some? {
        var a :| 0 <= a < |alts[1..]| && MatchAt(s, p, alts) == MatchOne(s, p, alts[1..][a])
                 && forall b :: 0 <= b < a ==> !Opens(s, p, alts[1..][b]);
        assert MatchAt(s, p, alts) == MatchOne(s, p, alts[a + 1]);
      }
    }
  }

  /** The leftmost match that starts at or after `p`. */
  function SearchFrom(s: string, p: nat, alts: seq<Delims>): (r: Option<Span>)
    requires p <= |s|
    ensures r.Some? ==> p <= r.value.start < |s| && MatchAt(s, r.value.start, alts) == r
    ensures r.Some? ==> forall k :: p <= k < r.value.start ==> MatchAt(s, k, alts).None?
    ensures r.None? ==> forall k :: p <= k < |s| ==> MatchAt(s, k, alts).None?
    decreases |s| - p
  {
    if p == |s| then None
    else if MatchAt(s, p, alts).Some? then MatchAt(s, p, alts)
    else SearchFrom(s, p + 1, alts)
  }

  /** `re.search(pattern, s)`, as the span of the match. */
  function Search(s: string, alts: seq<Delims>): (r: Option<Span>)
    ensures r.Some? ==> r.value.start < r.value.end - 1 && r.value.end <= |s|
  {
    SearchFrom(s, 0, alts)
  }

  /** The match of the leftmost start with a match, when every earlier start has none. */
  lemma SearchFindsFirst(s: string, alts: seq<Delims>, i: nat)
    requires i < |s| && MatchAt(s, i, alts).Some?
    requires forall k :: 0 <= k < i ==> MatchAt(s, k, alts).None?
    ensures Search(s, alts) == MatchAt(s, i, alts)
  {
    var r := SearchFrom(s, 0, alts);
    assert r.Some?;
    assert r.value.start == i;
  }

  /** A greedy alternative anchored at `i` ends just after the last closer, at `q`. */
  lemma MatchOneAt(s: string, i: nat, d: Delims, q: nat)
    requires i < q < |s| && s[i] == d.open && s[q] == d.close
    requires forall k :: q < k < |s| ==> s[k] != d.close
    ensures MatchOne(s, i, d) == Some(Span(i, q + 1))
  {
    var last := LastIndexOf(s, d.close);
    assert last.Some?;
    assert last.value == q;
  }

  /** The first alternative that opens at `i` decides the match there. */
  lemma MatchAtFirstOpener(s: string, i: nat, alts: seq<Delims>, a: nat)
    requires i < |s| && a < |alts| && Opens(s, i, alts[a])
    requires forall b :: 0 <= b < a ==> !Opens(s, i, alts[b])
    ensures MatchAt(s, i, alts) == MatchOne(s, i, alts[a])
  {
    MatchAtTriesInOrder(s, i, alts);
    var r := MatchAt(s, i, alts);
    var c :| 0 <= c < |alts| && r == MatchOne(s, i, alts[c])
             && forall b :: 0 <= b < c ==> !Opens(s, i, alts[b]);
    assert c == a;
  }

  /** If `s` splits as `pre + m + post`, where no opening delimiter occurs in `pre`, `m` runs
      from the opener of alternative `a` to its closer, no earlier alternative opens with the
      same character, and the closer does not occur in `post`, then the search finds exactly
      `m`. */
  lemma SearchFinds(s: string, alts: seq<Delims>, a: nat, pre: string, m: string, post: string)
    requires s == pre + m + post
    requires a < |alts| && |m| >= 2
    requires forall b :: 0 <= b < |alts| ==> alts[b].open !in pre
    requires forall b :: 0 <= b < a ==> alts[b].open != alts[a].open
    requires m[0] == alts[a].open && m[|m| - 1] == alts[a].close && alts[a].close !in post
    ensures Search(s, alts) == Some(Span(|pre|, |pre| + |m|))
  {
    var i, q := |pre|, |pre| + |m| - 1;
    var d := alts[a];
    assert s[i] == d.open by { assert s[i] == m[0]; }
    assert s[q] == d.close by { assert s[q] == m[|m| - 1]; }
    forall k | q < k < |s|
      ensures s[k] != d.close
    {
      assert s[k] == post[k - q - 1];
    }
    MatchOneAt(s, i, d, q);
    forall b | 0 <= b < a
      ensures !Opens(s, i, alts[b])
    {
    }
    MatchAtFirstOpener(s, i, alts, a);
    forall k | 0 <= k < i
      ensures MatchAt(s, k, alts).None?
    {
      assert s[k] == pre[k];
      assert forall b :: 0 <= b < |alts| ==> s[k] != alts[b].open;
      MatchAtTriesInOrder(s, k, alts);
    }
    SearchFindsFirst(s, alts, i);
  }

  /** An alternative whose opener never occurs in `s` never changes the match at a position. */
  lemma {:induction false} MatchAtIgnoresAbsentOpener(s: string, p: nat, alts: seq<Delims>, more: seq<Delims>)
    requires p < |s|
    requires forall d :: d in more ==> d.open !in s
    ensures MatchAt(s, p, alts + more) == MatchAt(s, p, alts)
  {
    if alts == [] {
      assert alts + more == more;
      assert forall b :: 0 <= b < |more| ==> !Opens(s, p, more[b]);
      MatchAtTriesInOrder(s, p, more);
    } else {
      assert (alts + more)[0] == alts[0];
      assert (alts + more)[1..] == alts[1..] + more;
      MatchAtIgnoresAbsentOpener(s, p, alts[1..], more);
    }
  }

  /** The search depends only on which match each position has. */
  lemma {:induction false} SearchFromCongruent(s: string, p: nat, alts1: seq<Delims>, alts2: seq<Delims>)
    requires p <= |s|
    requires forall k :: p <= k < |s| ==> MatchAt(s, k, alts1) == MatchAt(s, k, alts2)
    ensures SearchFrom(s, p, alts1) == SearchFrom(s, p, alts2)
    decreases |s| - p
  {
    if p < |s| {
      SearchFromCongruent(s, p + 1, alts1, alts2);
    }
  }

  /** Leaving out an alternative whose opener never occurs changes no search. */
  lemma SearchIgnoresAbsentOpener(s: string, p: nat, alts: seq<Delims>, more: seq<Delims>)
    requires p <= |s|
    requires forall d :: d in more ==> d.open !in s
    ensures SearchFrom(s, p, alts + more) == SearchFrom(s, p, alts)
  {
    forall k | p <= k < |s|
      ensures MatchAt(s, k, alts + more) == MatchAt(s, k, alts)
    {
      MatchAtIgnoresAbsentOpener(s, k, alts, more);
    }
    SearchFromCongruent(s, p, alts + more, alts);
  }
}
