/** What the molecules of `find_molecules` mean: each is a connected
    component of the bond graph, the list is fully determined up to the order
    of atoms inside a molecule, and together the molecules list every bonded
    atom exactly once. */
module Connectivity {
  import opened Seqs
  import opened Molecules

  /** A walk along bonds: consecutive atoms are bonded. */
  ghost predicate IsPath(bonds: seq<Bond>, path: seq<AtomId>)
  {
    |path| >= 1 && forall i :: 0 <= i < |path| - 1 ==> Linked(bonds, path[i], path[i + 1])
  }

  /** `b` can be reached from `a` by following bonds (every atom reaches itself). */
  ghost predicate Reachable(bonds: seq<Bond>, a: AtomId, b: AtomId)
  {
    exists path :: IsPath(bonds, path) && path[0] == a && path[|path| - 1] == b
  }

  // ---------------------------------------------------------------------
  // Paths

  lemma ReachRefl(bonds: seq<Bond>, a: AtomId)
    ensures Reachable(bonds, a, a)
  {
    assert IsPath(bonds, [a]);
  }

  lemma ReachStep(bonds: seq<Bond>, a: AtomId, b: AtomId, c: AtomId)
    requires Reachable(bonds, a, b) && Linked(bonds, b, c)
    ensures Reachable(bonds, a, c)
  {
    var path :| IsPath(bonds, path) && path[0] == a && path[|path| - 1] == b;
    var path' := path + [c];
    assert IsPath(bonds, path') by {
      forall i | 0 <= i < |path'| - 1
        ensures Linked(bonds, path'[i], path'[i + 1])
      {
        if i < |path| - 1 {
          assert path'[i] == path[i] && path'[i + 1] == path[i + 1];
        }
      }
    }
    assert path'[0] == a && path'[|path'| - 1] == c;
  }

  /** Bonds have no direction, so neither has reachability. */
  lemma {:induction false} ReachSymmetric(bonds: seq<Bond>, a: AtomId, b: AtomId)
    requires Reachable(bonds, a, b)
    ensures Reachable(bonds, b, a)
  {
    var path :| IsPath(bonds, path) && path[0] == a && path[|path| - 1] == b;
    ReachBack(bonds, path, 0);
  }

  /** The end of a path reaches each of its atoms. */
  lemma {:induction false} ReachBack(bonds: seq<Bond>, path: seq<AtomId>, i: nat)
    requires IsPath(bonds, path) && i < |path|
    ensures Reachable(bonds, path[|path| - 1], path[i])
    decreases |path| - i
  {
    if i == |path| - 1 {
      ReachRefl(bonds, path[i]);
    } else {
      ReachBack(bonds, path, i + 1);
      LinkedEnds(bonds, path[i], path[i + 1]);
      ReachStep(bonds, path[|path| - 1], path[i + 1], path[i]);
    }
  }

  lemma {:induction false} ReachTrans(bonds: seq<Bond>, a: AtomId, b: AtomId, c: AtomId)
    requires Reachable(bonds, a, b) && Reachable(bonds, b, c)
    ensures Reachable(bonds, a, c)
  {
    var path :| IsPath(bonds, path) && path[0] == b && path[|path| - 1] == c;
    ReachAlong(bonds, a, path, |path| - 1);
  }

  /** Anything reaching the start of a path reaches each of its atoms. */
  lemma {:induction false} ReachAlong(bonds: seq<Bond>, a: AtomId, path: seq<AtomId>, i: nat)
    requires IsPath(bonds, path) && i < |path| && Reachable(bonds, a, path[0])
    ensures Reachable(bonds, a, path[i])
  {
    if i > 0 {
      ReachAlong(bonds, a, path, i - 1);
      ReachStep(bonds, a, path[i - 1], path[i]);
    }
  }

  // ---------------------------------------------------------------------
  // Molecules are connected components

  /** A path that starts in a molecule never leaves it. */
  lemma {:induction false} PathStays(bonds: seq<Bond>, ms: seq<seq<AtomId>>, k: nat, path: seq<AtomId>, i: nat)
    requires BondsWithin(bonds, ms) && k < |ms|
    requires IsPath(bonds, path) && path[0] in ms[k] && i < |path|
    ensures path[i] in ms[k]
  {
    if i > 0 {
      PathStays(bonds, ms, k, path, i - 1);
      var t :| 0 <= t < |bonds| && (bonds[t] == (path[i - 1], path[i]) || bonds[t] == (path[i], path[i - 1]));
      assert bonds[t].0 in ms[k] <==> bonds[t].1 in ms[k];
    }
  }

  /** The first atom of a molecule reaches all of its atoms. */
  lemma {:induction false} ReachFromFirst(bonds: seq<Bond>, ms: seq<seq<AtomId>>, k: nat, j: nat)
    requires ConnectedFromFirst(bonds, ms) && k < |ms| && j < |ms[k]|
    ensures Reachable(bonds, ms[k][0], ms[k][j])
  {
    if j == 0 {
      ReachRefl(bonds, ms[k][0]);
    } else {
      assert BondedToEarlier(bonds, ms[k], j);
      var i :| 0 <= i < j && Linked(bonds, ms[k][i], ms[k][j]);
      ReachFromFirst(bonds, ms, k, i);
      ReachStep(bonds, ms[k][0], ms[k][i], ms[k][j]);
    }
  }

  /** Two atoms share a molecule exactly when bonds connect them. */
  lemma SameMoleculeIffReachable(bonds: seq<Bond>, ms: seq<seq<AtomId>>, k: nat, a: AtomId, b: AtomId)
    requires Components(bonds, ms) && k < |ms| && a in ms[k]
    ensures b in ms[k] <==> Reachable(bonds, a, b)
  {
    if Reachable(bonds, a, b) {
      var path :| IsPath(bonds, path) && path[0] == a && path[|path| - 1] == b;
      PathStays(bonds, ms, k, path, |path| - 1);
    }
    if b in ms[k] {
      var i :| 0 <= i < |ms[k]| && ms[k][i] == a;
      var j :| 0 <= j < |ms[k]| && ms[k][j] == b;
      ReachFromFirst(bonds, ms, k, i);
      ReachFromFirst(bonds, ms, k, j);
      ReachSymmetric(bonds, ms[k][0], a);
      ReachTrans(bonds, a, ms[k][0], b);
    }
  }

  /** Every bonded atom is in exactly one molecule. */
  lemma MoleculeOf(bonds: seq<Bond>, ms: seq<seq<AtomId>>, a: AtomId) returns (k: nat)
    requires Components(bonds, ms) && a in Endpoints(bonds)
    ensures k < |ms| && a in ms[k]
    ensures forall l :: 0 <= l < |ms| && a in ms[l] ==> l == k
  {
    k := CoveredWitness(ms, a);
    forall l | 0 <= l < |ms| && a in ms[l]
      ensures l == k
    {
    }
  }

  // ---------------------------------------------------------------------
  // The result is determined by the bond list

  /** Any two molecule lists meeting `Components` for the same bonds have the
      same number of molecules, and the `k`-th molecules have the same atoms
      and the same first atom: only the order inside a molecule is left
      open. */
  lemma ComponentsUnique(bonds: seq<Bond>, ms: seq<seq<AtomId>>, ns: seq<seq<AtomId>>)
    requires Components(bonds, ms) && Components(bonds, ns)
    ensures |ms| == |ns|
    ensures forall k :: 0 <= k < |ms| ==> Agree(ms, ns, k)
  {
    var n := if |ms| < |ns| then |ms| else |ns|;
    StepAgrees(bonds, ms, ns);
    SamePrefix(ms, ns, n);
    if |ms| < |ns| {
      NoExtraMolecule(bonds, ns, ms, n);
    } else if |ns| < |ms| {
      NoExtraMolecule(bonds, ms, ns, n);
    }
  }

  /** The `k`-th molecules of both lists start at the same atom and hold the
      same atoms. */
  ghost predicate Agree(ms: seq<seq<AtomId>>, ns: seq<seq<AtomId>>, k: nat)
  {
    && k < |ms| && k < |ns| && ms[k] != [] && ns[k] != []
    && ms[k][0] == ns[k][0] && Elems(ms[k]) == Elems(ns[k])
  }

  /** Molecule `k` agrees in both lists whenever the molecules before it
      cover the same atoms. */
  ghost predicate AgreeAfterSameCover(ms: seq<seq<AtomId>>, ns: seq<seq<AtomId>>, k: nat)
  {
    k < |ms| && k < |ns| && Covered(ms[..k]) == Covered(ns[..k]) ==> Agree(ms, ns, k)
  }

  lemma StepAgrees(bonds: seq<Bond>, ms: seq<seq<AtomId>>, ns: seq<seq<AtomId>>)
    requires Components(bonds, ms) && Components(bonds, ns)
    ensures forall k: nat :: AgreeAfterSameCover(ms, ns, k)
  {
    forall k: nat ensures AgreeAfterSameCover(ms, ns, k) {
      if k < |ms| && k < |ns| && Covered(ms[..k]) == Covered(ns[..k]) {
        SameRoot(bonds, ms, ns, k);
        SameAtoms(bonds, ms, ns, k);
      }
    }
  }

  /** The first `n` molecules agree. */
  lemma {:induction false} SamePrefix(ms: seq<seq<AtomId>>, ns: seq<seq<AtomId>>, n: nat)
    requires forall k: nat :: AgreeAfterSameCover(ms, ns, k)
    requires n <= |ms| && n <= |ns|
    ensures forall k :: 0 <= k < n ==> Agree(ms, ns, k)
    ensures Covered(ms[..n]) == Covered(ns[..n])
  {
    if n > 0 {
      SamePrefix(ms, ns, n - 1);
      var k := n - 1;
      assert AgreeAfterSameCover(ms, ns, k);
      CoveredStep(ms, k);
      CoveredStep(ns, k);
    } else {
      assert ms[..n] == [] && ns[..n] == [];
    }
  }

  lemma CoveredStep(ms: seq<seq<AtomId>>, k: nat)
    requires k < |ms|
    ensures Covered(ms[..k + 1]) == Covered(ms[..k]) + Elems(ms[k])
  {
    assert ms[..k + 1][..k] == ms[..k];
  }

  /** Molecule `k` starts at the same atom in both lists, once the molecules
      before it agree. */
  lemma SameRoot(bonds: seq<Bond>, ms: seq<seq<AtomId>>, ns: seq<seq<AtomId>>, k: nat)
    requires Partition(bonds, ms) && FirstAppearanceOrder(bonds, ms)
    requires Partition(bonds, ns) && FirstAppearanceOrder(bonds, ns)
    requires k < |ms| && k < |ns|
    requires Covered(ms[..k]) == Covered(ns[..k])
    ensures ms[k][0] == ns[k][0]
  {
    var e := Ends(bonds);
    RootIsNew(bonds, ms, k);
    RootIsNew(bonds, ns, k);
    RootIsEarliest(bonds, ms, k);
    RootIsEarliest(bonds, ns, k);
    var i, j := FirstIndex(e, ms[k][0]), FirstIndex(e, ns[k][0]);
    assert i <= j;
    assert j <= i;
  }

  /** The first atom of molecule `k` is in none of the molecules before it. */
  lemma RootIsNew(bonds: seq<Bond>, ms: seq<seq<AtomId>>, k: nat)
    requires Partition(bonds, ms) && k < |ms|
    ensures ms[k] != [] && ms[k][0] in Endpoints(bonds)
    ensures ms[k][0] !in Covered(ms[..k])
  {
    var prior := ms[..k];
    forall l | 0 <= l < |prior| ensures ms[k][0] !in prior[l] {
      assert prior[l] == ms[l];
    }
    NotCovered(prior, ms[k][0]);
    CoveredMember(ms, k, ms[k][0]);
  }

  /** An atom in none of the molecules is not covered by them. */
  lemma {:induction false} NotCovered(ms: seq<seq<AtomId>>, a: AtomId)
    requires forall l :: 0 <= l < |ms| ==> a !in ms[l]
    ensures a !in Covered(ms)
  {
    if ms != [] {
      var n := |ms| - 1;
      forall l | 0 <= l < n ensures a !in ms[..n][l] {
        assert ms[..n][l] == ms[l];
      }
      NotCovered(ms[..n], a);
    }
  }

  /** No endpoint outside the molecules before `k` appears in the bond list
      before the first atom of molecule `k`. */
  lemma RootIsEarliest(bonds: seq<Bond>, ms: seq<seq<AtomId>>, k: nat)
    requires FirstAppearanceOrder(bonds, ms) && k < |ms|
    ensures ms[k] != [] && ms[k][0] in Ends(bonds)
    ensures forall t :: 0 <= t < |Ends(bonds)| && Ends(bonds)[t] !in Covered(ms[..k]) ==>
      FirstIndex(Ends(bonds), ms[k][0]) <= t
  {
  }

  /** Each molecule starts with an atom that no earlier molecule holds. */
  lemma RootsAreNew(bonds: seq<Bond>, ms: seq<seq<AtomId>>)
    requires Partition(bonds, ms)
    ensures forall k :: 0 <= k < |ms| ==> ms[k] != [] && ms[k][0] in Endpoints(bonds) && ms[k][0] !in Covered(ms[..k])
  {
    forall k | 0 <= k < |ms|
      ensures ms[k] != [] && ms[k][0] in Endpoints(bonds) && ms[k][0] !in Covered(ms[..k])
    {
      RootIsNew(bonds, ms, k);
    }
  }

  /** Molecules with the same first atom hold the same atoms. */
  lemma SameAtoms(bonds: seq<Bond>, ms: seq<seq<AtomId>>, ns: seq<seq<AtomId>>, k: nat)
    requires Components(bonds, ms) && Components(bonds, ns)
    requires k < |ms| && k < |ns| && ms[k] != [] && ns[k] != [] && ms[k][0] == ns[k][0]
    ensures Elems(ms[k]) == Elems(ns[k])
  {
    forall b ensures b in ms[k] <==> b in ns[k] {
      SameMoleculeIffReachable(bonds, ms, k, ms[k][0], b);
      SameMoleculeIffReachable(bonds, ns, k, ns[k][0], b);
    }
  }

  /** A list whose first `n` molecules already cover every bonded atom has
      no molecule at position `n`. */
  lemma NoExtraMolecule(bonds: seq<Bond>, ms: seq<seq<AtomId>>, ns: seq<seq<AtomId>>, n: nat)
    requires Partition(bonds, ms) && Partition(bonds, ns)
    requires n == |ns| && n <= |ms|
    requires Covered(ms[..n]) == Covered(ns[..n])
    ensures n == |ms|
  {
    assert ns[..n] == ns;
    RootsAreNew(bonds, ms);
  }

  // ---------------------------------------------------------------------
  // Counting

  /** Total number of atoms over all molecules. */
  function TotalSize(ms: seq<seq<AtomId>>): (n: nat)
    ensures ms == [] ==> n == 0
  {
    if ms == [] then 0 else TotalSize(ms[..|ms| - 1]) + |ms[|ms| - 1]|
  }

  /** The molecules together list exactly as many atoms as there are bonded
      atoms: one `set atom ... mol` directive per bonded atom. */
  lemma TotalIsEndpoints(bonds: seq<Bond>, ms: seq<seq<AtomId>>)
    requires Partition(bonds, ms)
    ensures TotalSize(ms) == |Endpoints(bonds)|
  {
    TotalIsCovered(ms);
  }

  lemma {:induction false} TotalIsCovered(ms: seq<seq<AtomId>>)
    requires forall k :: 0 <= k < |ms| ==> NoDup(ms[k])
    requires forall k, l, a :: 0 <= k < l < |ms| && a in ms[k] ==> a !in ms[l]
    ensures TotalSize(ms) == |Covered(ms)|
  {
    if ms != [] {
      var n := |ms| - 1;
      var pre, last := ms[..n], ms[n];
      assert forall k :: 0 <= k < n ==> pre[k] == ms[k];
      TotalIsCovered(pre);
      ElemsCount(last);
      forall a | a in Covered(pre) ensures a !in Elems(last) {
        var k := CoveredWitness(pre, a);
        assert a in ms[k];
      }
      assert Covered(pre) !! Elems(last);
    }
  }

  /** A repetition-free list has as many elements as its set. */
  lemma {:induction false} ElemsCount(m: seq<AtomId>)
    requires NoDup(m)
    ensures |Elems(m)| == |m|
  {
    if m != [] {
      var n := |m| - 1;
      ElemsCount(m[..n]);
      assert m == m[..n] + [m[n]];
      assert Elems(m) == Elems(m[..n]) + {m[n]};
      assert m[n] !in Elems(m[..n]);
    }
  }
}
