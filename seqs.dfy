/** Insertion-ordered key lists. A Python dictionary remembers its keys in the
    order they were first inserted; `Dedup` is that order for a sequence of
    insertions. */
module Seqs {

  /** No element occurs twice. */
  predicate NoDup<T(==)>(s: seq<T>)
  {
    forall i, j :: 0 <= i < j < |s| ==> s[i] != s[j]
  }

  lemma NoDupSnoc<T>(s: seq<T>, x: T)
    requires NoDup(s) && x !in s
    ensures NoDup(s + [x])
  {
  }

  /** Removing the last element of `s` loses no other element. */
  lemma PopMembers<T>(s: seq<T>)
    requires s != []
    ensures forall x :: x in s <==> x == s[|s| - 1] || x in s[..|s| - 1]
  {
    assert s == s[..|s| - 1] + [s[|s| - 1]];
  }

  /** Index of the first occurrence of `x` in `s`. */
  function FirstIndex<T(==)>(s: seq<T>, x: T): (r: nat)
    requires x in s
    ensures r < |s| && s[r] == x && x !in s[..r]
  {
    if s[0] == x then 0 else
      var r := FirstIndex(s[1..], x);
      assert s[1..][..r] == s[1..r + 1];
      assert s[..r + 1] == [s[0]] + s[1..r + 1];
      r + 1
  }

  /** The distinct elements of `s`, in order of first appearance. */
  function Dedup<T(==)>(s: seq<T>): (d: seq<T>)
    ensures NoDup(d)
    decreases |s|
  {
    if s == [] then []
    else
      var d := Dedup(s[..|s| - 1]);
      if s[|s| - 1] in d then d else d + [s[|s| - 1]]
  }

  /** `Dedup` keeps exactly the elements of `s`. */
  lemma {:induction false} DedupMember<T>(s: seq<T>, x: T)
    ensures x in Dedup(s) <==> x in s
    decreases |s|
  {
    if s != [] {
      var n := |s| - 1;
      DedupMember(s[..n], x);
      assert s == s[..n] + [s[n]];
    }
  }

  /** One more insertion: a new element goes to the end, a known one changes
      nothing. */
  lemma DedupSnoc<T>(s: seq<T>, x: T)
    ensures Dedup(s + [x]) == if x in Dedup(s) then Dedup(s) else Dedup(s) + [x]
  {
    assert (s + [x])[..|s|] == s;
  }

  /** Deduplicating a prefix gives a prefix of the deduplicated whole. */
  lemma {:induction false} DedupPrefix<T>(s: seq<T>, i: nat)
    requires i <= |s|
    ensures |Dedup(s[..i])| <= |Dedup(s)|
    ensures Dedup(s[..i]) == Dedup(s)[..|Dedup(s[..i])|]
    decreases |s|
  {
    if i < |s| {
      var s' := s[..|s| - 1];
      assert s'[..i] == s[..i];
      DedupPrefix(s', i);
    } else {
      assert s[..i] == s;
    }
  }

  /** `Dedup(s)` keeps first-appearance order: everything that occurs in `s`
      before the first occurrence of its `p`-th element is listed before
      position `p`. */
  lemma DedupFirstAppearance<T>(s: seq<T>, p: nat)
    requires p < |Dedup(s)|
    ensures Dedup(s)[p] in s
    ensures forall t :: 0 <= t < FirstIndex(s, Dedup(s)[p]) ==> s[t] in Dedup(s)[..p]
  {
    var d := Dedup(s);
    var y := d[p];
    DedupMember(s, y);
    var q := FirstIndex(s, y);
    DedupPrefix(s, q);
    var pre := Dedup(s[..q]);
    assert |pre| <= p;
    forall t | 0 <= t < q
      ensures s[t] in d[..p]
    {
      assert s[t] in s[..q];
      DedupMember(s[..q], s[t]);
    }
  }
}
