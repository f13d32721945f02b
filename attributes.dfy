/** Attribute extraction from one descriptor line: `getPropertyValue` searches
    for `name="value"` and returns `value`, or a single space when there is no
    such attribute. The regular expression `name="([^"]+)"` is modelled as a
    direct scan: the leftmost position where `name="` is followed by at least
    one non-quote character and then a closing quote; the captured value is
    the whole run of non-quote characters. */
module Attributes {
  import opened Wrappers
  import opened Text

  const Quote: char := '"'

  /** What `getPropertyValue` returns when the attribute is absent. */
  const Placeholder: string := " "

  /** The text that opens the attribute: `name="`. */
  function Opening(name: string): (o: string)
  {
    name + "=\""
  }

  /** Number of consecutive non-quote characters of `line` from index `p`. */
  function RunLength(line: string, p: nat): (n: nat)
    requires p <= |line|
    ensures p + n <= |line|
    decreases |line| - p
  {
    if p == |line| || line[p] == Quote then 0 else 1 + RunLength(line, p + 1)
  }

  /** The run is maximal: no quote inside, a quote right after it unless the
      line ends. */
  lemma {:induction false} RunLengthSpec(line: string, p: nat)
    requires p <= |line|
    ensures var n := RunLength(line, p);
      && (forall j :: p <= j < p + n ==> line[j] != Quote)
      && (p + n < |line| ==> line[p + n] == Quote)
    decreases |line| - p
  {
    if p < |line| && line[p] != Quote {
      RunLengthSpec(line, p + 1);
    }
  }

  /** The pattern `name="([^"]+)"` matches `line` at index `i`. */
  predicate MatchAt(line: string, name: string, i: nat)
  {
    && OccursAt(line, Opening(name), i)
    && var p := i + |name| + 2;
       var n := RunLength(line, p);
       n >= 1 && p + n < |line|
  }

  /** The group captured by a match at `i`. */
  function ValueAt(line: string, name: string, i: nat): (v: string)
    requires MatchAt(line, name, i)
  {
    var p := i + |name| + 2;
    line[p..p + RunLength(line, p)]
  }

  /** The leftmost match at or after `from`, as `re.search` finds it. */
  function FirstMatch(line: string, name: string, from: nat): (r: Option<nat>)
    ensures r.Some? ==> MatchAt(line, name, r.value)
    decreases |line| - from
  {
    if |line| < from + |Opening(name)| then
      None
    else if MatchAt(line, name, from) then
      Some(from)
    else
      FirstMatch(line, name, from + 1)
  }

  /** `FirstMatch` finds the leftmost match, and finds none only when there
      is none. */
  lemma {:induction false} FirstMatchSpec(line: string, name: string, from: nat)
    ensures var r := FirstMatch(line, name, from);
      && (r.Some? ==> from <= r.value && forall j :: from <= j < r.value ==> !MatchAt(line, name, j))
      && (r.None? ==> forall j :: from <= j ==> !MatchAt(line, name, j))
    decreases |line| - from
  {
    if from + |Opening(name)| <= |line| && !MatchAt(line, name, from) {
      FirstMatchSpec(line, name, from + 1);
    }
  }

  /** `getPropertyValue(line, name)`. */
  function GetPropertyValue(line: string, name: string): (v: string)
    ensures |v| >= 1
  {
    match FirstMatch(line, name, 0)
    case Some(i) => ValueAt(line, name, i)
    case None => Placeholder
  }

  /** Index `i` is the leftmost match. */
  predicate Leftmost(line: string, name: string, i: nat)
  {
    MatchAt(line, name, i) && forall j: nat :: j < i ==> !MatchAt(line, name, j)
  }

  /** The value is the group of the leftmost match, or a single space when
      nothing matches. */
  lemma GetPropertyValueSpec(line: string, name: string)
    ensures (forall i: nat :: !MatchAt(line, name, i)) ==> GetPropertyValue(line, name) == Placeholder
    ensures forall i: nat :: Leftmost(line, name, i) ==> GetPropertyValue(line, name) == ValueAt(line, name, i)
  {
    FirstMatchSpec(line, name, 0);
    match FirstMatch(line, name, 0)
    case Some(i) =>
      forall i' : nat | Leftmost(line, name, i')
        ensures i' == i
      {
        assert !(i' < i) && !(i < i');
      }
    case None =>
  }

  /** The value is never empty and holds no quote. */
  lemma GetPropertyValueNoQuote(line: string, name: string)
    ensures |GetPropertyValue(line, name)| >= 1 && Quote !in GetPropertyValue(line, name)
  {
    var v := GetPropertyValue(line, name);
    match FirstMatch(line, name, 0)
    case Some(i) =>
      var p := i + |name| + 2;
      RunLengthSpec(line, p);
      assert forall k :: 0 <= k < |v| ==> v[k] == line[p + k];
    case None =>
  }

  /** A line holding a well-formed attribute `name="v"` after a prefix `pre`,
      where nothing in `pre` starts a match, yields `v`: extraction inverts
      rendering. */
  lemma RenderedAttributeValue(pre: string, name: string, v: string, rest: string)
    requires |v| >= 1 && Quote !in v
    requires forall j: nat :: j < |pre| ==> !MatchAt(pre + Opening(name) + v + [Quote] + rest, name, j)
    ensures GetPropertyValue(pre + Opening(name) + v + [Quote] + rest, name) == v
  {
    var line := pre + Opening(name) + v + [Quote] + rest;
    var i := |pre|;
    var p := i + |name| + 2;
    assert line[i..i + |Opening(name)|] == Opening(name);
    assert line[p..p + |v|] == v;
    assert line[p + |v|] == Quote;
    AttributeAt(line, name, i, v);
  }

  /** The attribute `name="v"` at index `i`, with no match before it, is
      what `getPropertyValue` returns. */
  lemma AttributeAt(line: string, name: string, i: nat, v: string)
    requires |v| >= 1 && Quote !in v
    requires OccursAt(line, Opening(name), i)
    requires i + |name| + 2 + |v| < |line|
    requires line[i + |name| + 2..i + |name| + 2 + |v|] == v
    requires line[i + |name| + 2 + |v|] == Quote
    requires forall j: nat :: j < i ==> !MatchAt(line, name, j)
    ensures GetPropertyValue(line, name) == v
  {
    var p := i + |name| + 2;
    forall j | p <= j < p + |v|
      ensures line[j] != Quote
    {
      assert line[j] == v[j - p];
    }
    RunOver(line, p, |v|);
    assert MatchAt(line, name, i) && ValueAt(line, name, i) == v;
    assert Leftmost(line, name, i);
    GetPropertyValueSpec(line, name);
  }

  /** A run of `n` non-quote characters closed by a quote has length `n`. */
  lemma {:induction false} RunOver(line: string, p: nat, n: nat)
    requires p + n < |line|
    requires forall j :: p <= j < p + n ==> line[j] != Quote
    requires line[p + n] == Quote
    ensures RunLength(line, p) == n
    decreases n
  {
    if n > 0 {
      RunOver(line, p + 1, n - 1);
    }
  }
}
