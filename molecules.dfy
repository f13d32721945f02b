/** Molecule discovery (`find_molecules`): the bond list becomes an undirected
    adjacency map, and a depth-first walk from each not yet visited atom, taken
    in the map's key order, collects one molecule per connected component. */
module Molecules {
  import opened Seqs

  type AtomId = string

  /** One `(a1, a2)` pair of the bond list. */
  type Bond = (AtomId, AtomId)

  /** Adjacency map: each atom's neighbours, without repetition, in the order
      they were added. */
  type Graph = map<AtomId, seq<AtomId>>

  /** Bond endpoints in bond-list order, `a1` before `a2` of each bond. */
  function Ends(bonds: seq<Bond>): (e: seq<AtomId>)
    ensures |e| == 2 * |bonds|
  {
    if bonds == [] then []
    else
      var n := |bonds| - 1;
      Ends(bonds[..n]) + [bonds[n].0, bonds[n].1]
  }

  /** The atoms that are an endpoint of at least one bond. */
  ghost function Endpoints(bonds: seq<Bond>): (e: set<AtomId>)
  {
    Elems(Ends(bonds))
  }

  /** The atoms listed in `m`. */
  function Elems(m: seq<AtomId>): (es: set<AtomId>)
  {
    set a | a in m
  }

  /** Some bond joins `a` and `b`, in either direction. */
  ghost predicate Linked(bonds: seq<Bond>, a: AtomId, b: AtomId)
  {
    exists t :: 0 <= t < |bonds| && (bonds[t] == (a, b) || bonds[t] == (b, a))
  }

  /** All atoms of all molecules. */
  ghost function Covered(ms: seq<seq<AtomId>>): (c: set<AtomId>)
  {
    if ms == [] then {}
    else
      Covered(ms[..|ms| - 1]) + Elems(ms[|ms| - 1])
  }

  // ---------------------------------------------------------------------
  // What the result of `find_molecules` is

  /** Molecules are non-empty, repeat no atom, share no atom, and together
      hold exactly the bonded atoms. */
  ghost predicate Partition(bonds: seq<Bond>, ms: seq<seq<AtomId>>)
  {
    && (forall k :: 0 <= k < |ms| ==> ms[k] != [] && NoDup(ms[k]))
    && (forall k, l, a :: 0 <= k < l < |ms| && a in ms[k] ==> a !in ms[l])
    && Covered(ms) == Endpoints(bonds)
  }

  /** No bond leaves a molecule: a molecule holds either both endpoints of a
      bond or neither. */
  ghost predicate BondsWithin(bonds: seq<Bond>, ms: seq<seq<AtomId>>)
  {
    forall k, t :: 0 <= k < |ms| && 0 <= t < |bonds| ==> (bonds[t].0 in ms[k] <==> bonds[t].1 in ms[k])
  }

  /** Every member after the first is bonded to an earlier member, so each
      molecule is connected through its bonds. */
  ghost predicate ConnectedFromFirst(bonds: seq<Bond>, ms: seq<seq<AtomId>>)
  {
    forall k, j :: 0 <= k < |ms| && 0 < j < |ms[k]| ==> BondedToEarlier(bonds, ms[k], j)
  }

  /** `m[j]` is bonded to some member listed before it. */
  ghost predicate BondedToEarlier(bonds: seq<Bond>, m: seq<AtomId>, j: nat)
  {
    j < |m| && exists i :: 0 <= i < j && Linked(bonds, m[i], m[j])
  }

  /** Molecule `k` starts with the earliest bond endpoint (scanning `a1`
      before `a2` of each bond) that is in none of the molecules before it. */
  ghost predicate FirstAppearanceOrder(bonds: seq<Bond>, ms: seq<seq<AtomId>>)
  {
    forall k :: 0 <= k < |ms| ==>
      && ms[k] != []
      && ms[k][0] in Ends(bonds)
      && forall t :: 0 <= t < FirstIndex(Ends(bonds), ms[k][0]) ==> Ends(bonds)[t] in Covered(ms[..k])
  }

  /** The molecules are the connected components of the bond graph, listed in
      order of first appearance in the bond list. */
  ghost predicate Components(bonds: seq<Bond>, ms: seq<seq<AtomId>>)
  {
    Partition(bonds, ms) && BondsWithin(bonds, ms) && ConnectedFromFirst(bonds, ms) && FirstAppearanceOrder(bonds, ms)
  }

  // ---------------------------------------------------------------------
  // Graph-level facts used by the traversal

  /** Every neighbour is a key, and adjacency goes both ways. */
  ghost predicate Symmetric(g: Graph)
  {
    forall a, b :: a in g && b in g[a] ==> b in g && a in g[b]
  }

  /** No neighbour of an atom of `s` lies outside `s`. */
  ghost predicate ClosedSet(g: Graph, s: set<AtomId>)
  {
    forall a, b :: a in s && a in g && b in g[a] ==> b in s
  }

  /** No neighbour of a member of `m` lies outside `m`. */
  ghost predicate Closed(g: Graph, m: seq<AtomId>)
  {
    forall i, b :: 0 <= i < |m| && m[i] in g && b in g[m[i]] ==> b in m
  }

  /** `x` is a neighbour of some member of `m`. */
  ghost predicate Touches(g: Graph, m: seq<AtomId>, x: AtomId)
  {
    exists i :: 0 <= i < |m| && m[i] in g && x in g[m[i]]
  }

  /** Every member after the first is a neighbour of an earlier member. */
  ghost predicate Grown(g: Graph, m: seq<AtomId>)
  {
    forall j :: 0 < j < |m| ==> TouchesEarlier(g, m, j)
  }

  /** `m[j]` is a neighbour of some member listed before it. */
  ghost predicate TouchesEarlier(g: Graph, m: seq<AtomId>, j: nat)
  {
    j < |m| && exists i :: 0 <= i < j && m[i] in g && m[j] in g[m[i]]
  }

  // ---------------------------------------------------------------------
  // The algorithm

  /** `graph[a].add(b)` on a `defaultdict(set)`: creates the key `a` if it is
      missing, then adds `b` to its neighbours unless already there. */
  method AddNeighbour(graph: Graph, keys: seq<AtomId>, a: AtomId, b: AtomId) returns (graph': Graph, keys': seq<AtomId>)
    requires forall x :: x in graph <==> x in keys
    requires forall x :: x in graph ==> NoDup(graph[x])
    ensures keys' == if a in graph then keys else keys + [a]
    ensures forall x :: x in graph' <==> x in keys'
    ensures forall x :: x in graph' <==> x in graph || x == a
    ensures forall x :: x in graph' ==> NoDup(graph'[x])
    ensures forall x :: x in graph && x != a ==> graph'[x] == graph[x]
    ensures forall c :: c in graph'[a] <==> c == b || (a in graph && c in graph[a])
  {
    graph', keys' := graph, keys;
    if a !in graph' {
      graph', keys' := graph'[a := []], keys' + [a];
    }
    if b !in graph'[a] {
      graph' := graph'[a := graph'[a] + [b]];
    }
  }

  /** The adjacency relation of `graph` is the `Linked` relation of `bonds`. */
  ghost predicate Represents(graph: Graph, bonds: seq<Bond>)
  {
    forall a, b :: a in graph ==> (b in graph[a] <==> Linked(bonds, a, b))
  }

  /** The adjacency map of `find_molecules`: for each bond `(a1, a2)`, `a2` is
      added to the neighbours of `a1` and then `a1` to those of `a2`. `keys` is
      the map's key order. */
  method BuildGraph(bonds: seq<Bond>) returns (graph: Graph, keys: seq<AtomId>)
    ensures keys == Dedup(Ends(bonds))
    ensures forall a :: a in graph <==> a in keys
    ensures forall a :: a in graph <==> a in Ends(bonds)
    ensures Represents(graph, bonds)
    ensures forall a :: a in graph ==> NoDup(graph[a])
    ensures Symmetric(graph)
  {
    graph, keys := map[], [];
    for t := 0 to |bonds|
      invariant keys == Dedup(Ends(bonds[..t]))
      invariant forall a :: a in graph <==> a in keys
      invariant forall a :: a in graph <==> a in Ends(bonds[..t])
      invariant Represents(graph, bonds[..t])
      invariant forall a :: a in graph ==> NoDup(graph[a])
    {
      var (a1, a2) := bonds[t];
      ghost var (g0, k0) := (graph, keys);
      graph, keys := AddNeighbour(graph, keys, a1, a2);
      ghost var (g1, k1) := (graph, keys);
      graph, keys := AddNeighbour(graph, keys, a2, a1);
      KeysSnoc(bonds, t, k0, k1, keys);
      EndsSnoc(bonds, t);
      RepresentsSnoc(bonds, t, g0, g1, graph);
    }
    assert bonds[..|bonds|] == bonds;
    RepresentsSymmetric(graph, bonds);
  }

  lemma RepresentsSymmetric(graph: Graph, bonds: seq<Bond>)
    requires forall x :: x in Ends(bonds) ==> x in graph
    requires Represents(graph, bonds)
    ensures Symmetric(graph)
  {
    forall a, b | a in graph && b in graph[a]
      ensures b in graph && a in graph[b]
    {
      LinkedEnds(bonds, a, b);
    }
  }

  lemma KeysSnoc(bonds: seq<Bond>, t: nat, k0: seq<AtomId>, k1: seq<AtomId>, k2: seq<AtomId>)
    requires t < |bonds|
    requires k0 == Dedup(Ends(bonds[..t]))
    requires k1 == if bonds[t].0 in k0 then k0 else k0 + [bonds[t].0]
    requires k2 == if bonds[t].1 in k1 then k1 else k1 + [bonds[t].1]
    ensures k2 == Dedup(Ends(bonds[..t + 1]))
  {
    var e := Ends(bonds[..t]);
    EndsSnoc(bonds, t);
    DedupSnoc(e, bonds[t].0);
    DedupSnoc(e + [bonds[t].0], bonds[t].1);
    assert e + [bonds[t].0] + [bonds[t].1] == e + [bonds[t].0, bonds[t].1];
  }

  lemma RepresentsSnoc(bonds: seq<Bond>, t: nat, g0: Graph, g1: Graph, g2: Graph)
    requires t < |bonds|
    requires Represents(g0, bonds[..t])
    requires forall x :: x in g0 <==> x in Ends(bonds[..t])
    requires forall x :: x in g1 <==> x in g0 || x == bonds[t].0
    requires forall x :: x in g0 && x != bonds[t].0 ==> g1[x] == g0[x]
    requires forall c :: c in g1[bonds[t].0] <==> c == bonds[t].1 || (bonds[t].0 in g0 && c in g0[bonds[t].0])
    requires forall x :: x in g2 <==> x in g1 || x == bonds[t].1
    requires forall x :: x in g1 && x != bonds[t].1 ==> g2[x] == g1[x]
    requires forall c :: c in g2[bonds[t].1] <==> c == bonds[t].0 || (bonds[t].1 in g1 && c in g1[bonds[t].1])
    ensures Represents(g2, bonds[..t + 1])
  {
    forall a, b | a in g2
      ensures b in g2[a] <==> Linked(bonds[..t + 1], a, b)
    {
      LinkedSnoc(bonds, t, a, b);
      if a !in g0 && Linked(bonds[..t], a, b) {
        LinkedEnds(bonds[..t], a, b);
      }
    }
  }

  /** The depth-first walk of the inner `dfs`, from `root`, with an explicit
      stack instead of recursion. `visited` holds the atoms of the molecules
      found so far; the result is the new molecule in visiting order. */
  method Explore(graph: Graph, root: AtomId, visited: set<AtomId>) returns (molecule: seq<AtomId>)
    requires Symmetric(graph)
    requires root in graph && root !in visited
    requires ClosedSet(graph, visited)
    ensures molecule != [] && molecule[0] == root
    ensures NoDup(molecule)
    ensures forall i :: 0 <= i < |molecule| ==> molecule[i] in graph && molecule[i] !in visited
    ensures Closed(graph, molecule)
    ensures Grown(graph, molecule)
  {
    var seen := visited;
    var stack := [root];
    molecule := [];
    while stack != []
      invariant WalkInvariant(graph, root, visited, seen, stack, molecule)
      invariant molecule == [] ==> stack == [root]
      decreases graph.Keys - seen, |stack|
    {
      var atom := stack[|stack| - 1];
      if atom in seen {
        PopSeen(graph, root, visited, seen, stack, molecule);
        stack := stack[..|stack| - 1];
      } else {
        NeighboursAreKeys(graph, atom);
        PopNew(graph, root, visited, seen, stack, molecule);
        seen := seen + {atom};
        molecule := molecule + [atom];
        stack := stack[..|stack| - 1] + graph[atom];
      }
    }
    WalkClosed(graph, root, visited, seen, molecule);
  }

  /** When the stack is empty the molecule is closed: a neighbour in an
      earlier molecule would have pulled this molecule into that one. */
  lemma WalkClosed(graph: Graph, root: AtomId, visited: set<AtomId>, seen: set<AtomId>, molecule: seq<AtomId>)
    requires Symmetric(graph)
    requires ClosedSet(graph, visited)
    requires WalkInvariant(graph, root, visited, seen, [], molecule)
    ensures Closed(graph, molecule)
  {
    forall i, b | 0 <= i < |molecule| && molecule[i] in graph && b in graph[molecule[i]]
      ensures b in molecule
    {
      BackEdge(graph, molecule[i], b);
      assert b !in visited;
    }
  }

  /** What holds at each turn of the walk: `seen` is what was visited before
      plus the molecule so far, every atom still on the stack is a neighbour
      of a member (or the root, before the first step), and every neighbour of
      a member is seen or still on the stack. */
  ghost predicate WalkInvariant(graph: Graph, root: AtomId, visited: set<AtomId>, seen: set<AtomId>,
                                stack: seq<AtomId>, molecule: seq<AtomId>)
  {
    && (forall a :: a in seen <==> a in visited || a in molecule)
    && NoDup(molecule)
    && (forall i :: 0 <= i < |molecule| ==> molecule[i] in graph && molecule[i] !in visited)
    && (forall x :: x in stack ==> x in graph)
    && (molecule != [] ==> molecule[0] == root)
    && (molecule != [] ==> forall x :: x in stack ==> Touches(graph, molecule, x))
    && Grown(graph, molecule)
    && (forall i, b :: 0 <= i < |molecule| && b in graph[molecule[i]] ==> b in seen || b in stack)
  }

  /** Popping an atom that was already seen is a no-op on the molecule. */
  lemma PopSeen(graph: Graph, root: AtomId, visited: set<AtomId>, seen: set<AtomId>,
                stack: seq<AtomId>, molecule: seq<AtomId>)
    requires WalkInvariant(graph, root, visited, seen, stack, molecule)
    requires stack != [] && stack[|stack| - 1] in seen
    ensures WalkInvariant(graph, root, visited, seen, stack[..|stack| - 1], molecule)
  {
    PopMembers(stack);
  }

  /** Popping an unseen atom appends it to the molecule and pushes its
      neighbours. */
  lemma PopNew(graph: Graph, root: AtomId, visited: set<AtomId>, seen: set<AtomId>,
               stack: seq<AtomId>, molecule: seq<AtomId>)
    requires WalkInvariant(graph, root, visited, seen, stack, molecule)
    requires stack != [] && stack[|stack| - 1] in graph && forall c :: c in graph[stack[|stack| - 1]] ==> c in graph
    requires molecule == [] ==> stack == [root]
    requires root !in visited
    requires stack != [] && stack[|stack| - 1] !in seen
    ensures var atom := stack[|stack| - 1];
      WalkInvariant(graph, root, visited, seen + {atom}, stack[..|stack| - 1] + graph[atom], molecule + [atom])
  {
    var atom := stack[|stack| - 1];
    var rest := stack[..|stack| - 1];
    var stack', molecule', seen' := rest + graph[atom], molecule + [atom], seen + {atom};
    PopMembers(stack);
    NoDupSnoc(molecule, atom);
    GrownSnoc(graph, molecule, atom);
    TouchesSnoc(graph, molecule, atom, rest);
    forall i, b | 0 <= i < |molecule'| && b in graph[molecule'[i]]
      ensures b in seen' || b in stack'
    {
      if i < |molecule| {
        assert molecule'[i] == molecule[i];
      }
    }
    forall i | 0 <= i < |molecule'|
      ensures molecule'[i] in graph && molecule'[i] !in visited
    {
      if i < |molecule| {
        assert molecule'[i] == molecule[i];
      }
    }
  }

  lemma BackEdge(g: Graph, a: AtomId, b: AtomId)
    requires Symmetric(g) && a in g && b in g[a]
    ensures b in g && a in g[b]
  {
  }

  lemma NeighboursAreKeys(g: Graph, a: AtomId)
    requires Symmetric(g) && a in g
    ensures forall c :: c in g[a] ==> c in g
  {
  }

  lemma GrownSnoc(g: Graph, m: seq<AtomId>, x: AtomId)
    requires Grown(g, m)
    requires m != [] ==> Touches(g, m, x)
    ensures Grown(g, m + [x])
  {
    var m' := m + [x];
    forall j | 0 < j < |m'|
      ensures TouchesEarlier(g, m', j)
    {
      if j < |m| {
        assert TouchesEarlier(g, m, j);
        var i :| 0 <= i < j && m[i] in g && m[j] in g[m[i]];
        assert m'[i] == m[i] && m'[j] == m[j];
      } else {
        var i :| 0 <= i < |m| && m[i] in g && x in g[m[i]];
        assert m'[i] == m[i] && m'[j] == x;
      }
    }
  }

  /** After `x` joins the molecule, everything still pending, and every
      neighbour of `x`, is a neighbour of a member. */
  lemma TouchesSnoc(g: Graph, m: seq<AtomId>, x: AtomId, rest: seq<AtomId>)
    requires x in g
    requires m == [] ==> rest == []
    requires forall y :: y in rest ==> Touches(g, m, y)
    ensures forall y :: y in rest + g[x] ==> Touches(g, m + [x], y)
  {
    var m' := m + [x];
    forall y | y in rest + g[x]
      ensures Touches(g, m', y)
    {
      if y in g[x] {
        assert m'[|m|] == x;
      } else {
        var i :| 0 <= i < |m| && m[i] in g && y in g[m[i]];
        assert m'[i] == m[i];
      }
    }
  }

  /** `find_molecules(bonds)`. */
  method FindMolecules(bonds: seq<Bond>) returns (molecules: seq<seq<AtomId>>)
    ensures Partition(bonds, molecules)
    ensures BondsWithin(bonds, molecules)
    ensures ConnectedFromFirst(bonds, molecules)
    ensures FirstAppearanceOrder(bonds, molecules)
    ensures bonds == [] ==> molecules == []
  {
    var graph, keys := BuildGraph(bonds);
    var visited: set<AtomId> := {};
    molecules := [];
    for q := 0 to |keys|
      invariant Discovered(graph, keys, q, molecules, visited)
    {
      if keys[q] !in visited {
        var molecule := Explore(graph, keys[q], visited);
        DiscoverNext(graph, keys, q, molecules, visited, molecule);
        molecules := molecules + [molecule];
        visited := visited + Elems(molecule);
      } else {
        DiscoverSkip(graph, keys, q, molecules, visited);
      }
    }
    MoleculesFromGraph(bonds, graph, keys, molecules);
  }

  /** What holds after the outer loop has looked at `keys[..q]`. */
  ghost predicate Discovered(graph: Graph, keys: seq<AtomId>, q: nat, ms: seq<seq<AtomId>>, visited: set<AtomId>)
  {
    && q <= |keys|
    && visited == Covered(ms)
    && Within(graph, visited)
    && KeysVisited(keys, q, visited)
    && ClosedSet(graph, visited)
    && AllComponents(graph, ms)
    && Disjoint(ms)
    && Rooted(keys, q, ms)
  }

  /** Every atom of `s` is a key of `graph`. */
  ghost predicate Within(graph: Graph, s: set<AtomId>)
  {
    forall a :: a in s ==> a in graph
  }

  /** The first `q` keys are visited. */
  ghost predicate KeysVisited(keys: seq<AtomId>, q: nat, visited: set<AtomId>)
  {
    forall p :: 0 <= p < q && p < |keys| ==> keys[p] in visited
  }

  /** A non-empty, repetition-free, closed and connected atom list. */
  ghost predicate Component(graph: Graph, m: seq<AtomId>)
  {
    m != [] && NoDup(m) && Closed(graph, m) && Grown(graph, m)
  }

  ghost predicate AllComponents(graph: Graph, ms: seq<seq<AtomId>>)
  {
    forall k :: 0 <= k < |ms| ==> Component(graph, ms[k])
  }

  /** No atom is in two molecules. */
  ghost predicate Disjoint(ms: seq<seq<AtomId>>)
  {
    forall k, l, a :: 0 <= k < l < |ms| && a in ms[k] ==> a !in ms[l]
  }

  /** Each molecule starts at one of the first `q` keys, and every key before
      that one belongs to an earlier molecule. */
  ghost predicate Rooted(keys: seq<AtomId>, q: nat, ms: seq<seq<AtomId>>)
  {
    forall k :: 0 <= k < |ms| ==> HasRoot(keys, q, ms[..k], ms[k])
  }

  /** Molecule `m` starts at one of the first `q` keys, and every key before
      that one belongs to a molecule of `prior`. */
  ghost predicate HasRoot(keys: seq<AtomId>, q: nat, prior: seq<seq<AtomId>>, m: seq<AtomId>)
  {
    exists p: nat :: p < q && RootAt(keys, prior, m, p)
  }

  /** Molecule `m` starts at `keys[p]`, and every key before it belongs to a
      molecule of `prior`. */
  ghost predicate RootAt(keys: seq<AtomId>, prior: seq<seq<AtomId>>, m: seq<AtomId>, p: nat)
  {
    && p < |keys| && m != [] && keys[p] == m[0]
    && forall p' :: 0 <= p' < p ==> keys[p'] in Covered(prior)
  }

  /** One turn of the outer loop that starts a new molecule at `keys[q]`. */
  lemma DiscoverNext(graph: Graph, keys: seq<AtomId>, q: nat, ms: seq<seq<AtomId>>, visited: set<AtomId>, m: seq<AtomId>)
    requires Discovered(graph, keys, q, ms, visited)
    requires q < |keys| && keys[q] !in visited
    requires m != [] && m[0] == keys[q] && NoDup(m) && Closed(graph, m) && Grown(graph, m)
    requires forall i :: 0 <= i < |m| ==> m[i] in graph && m[i] !in visited
    ensures Discovered(graph, keys, q + 1, ms + [m], visited + Elems(m))
  {
    var ms' := ms + [m];
    var visited' := visited + Elems(m);
    CoveredSnoc(ms, m);
    WithinSnoc(graph, visited, m);
    KeysVisitedNext(keys, q, visited, m);
    ClosedSnoc(graph, visited, m);
    AllComponentsSnoc(graph, ms, m);
    DisjointSnoc(ms, m);
    RootedNext(keys, q, ms, m);
  }

  /** One turn of the outer loop whose key is already in a molecule. */
  lemma DiscoverSkip(graph: Graph, keys: seq<AtomId>, q: nat, ms: seq<seq<AtomId>>, visited: set<AtomId>)
    requires Discovered(graph, keys, q, ms, visited)
    requires q < |keys| && keys[q] in visited
    ensures Discovered(graph, keys, q + 1, ms, visited)
  {
    forall k | 0 <= k < |ms| ensures HasRoot(keys, q + 1, ms[..k], ms[k]) {
      assert HasRoot(keys, q, ms[..k], ms[k]);
    }
  }

  lemma CoveredSnoc(ms: seq<seq<AtomId>>, m: seq<AtomId>)
    ensures Covered(ms + [m]) == Covered(ms) + Elems(m)
  {
    assert (ms + [m])[..|ms|] == ms;
  }

  lemma WithinSnoc(graph: Graph, visited: set<AtomId>, m: seq<AtomId>)
    requires Within(graph, visited)
    requires forall i :: 0 <= i < |m| ==> m[i] in graph
    ensures Within(graph, visited + Elems(m))
  {
    forall a | a in visited + Elems(m) ensures a in graph {
      if a !in visited {
        var i :| 0 <= i < |m| && m[i] == a;
      }
    }
  }

  lemma KeysVisitedNext(keys: seq<AtomId>, q: nat, visited: set<AtomId>, m: seq<AtomId>)
    requires KeysVisited(keys, q, visited)
    requires q < |keys| && m != [] && m[0] == keys[q]
    ensures KeysVisited(keys, q + 1, visited + Elems(m))
  {
  }

  lemma AllComponentsSnoc(graph: Graph, ms: seq<seq<AtomId>>, m: seq<AtomId>)
    requires AllComponents(graph, ms)
    requires Component(graph, m)
    ensures AllComponents(graph, ms + [m])
  {
  }

  lemma RootedNext(keys: seq<AtomId>, q: nat, ms: seq<seq<AtomId>>, m: seq<AtomId>)
    requires Rooted(keys, q, ms)
    requires KeysVisited(keys, q, Covered(ms))
    requires q < |keys| && m != [] && m[0] == keys[q]
    ensures Rooted(keys, q + 1, ms + [m])
  {
    var ms' := ms + [m];
    forall k | 0 <= k < |ms'|
      ensures HasRoot(keys, q + 1, ms'[..k], ms'[k])
    {
      if k < |ms| {
        assert ms'[..k] == ms[..k] && ms'[k] == ms[k];
        assert HasRoot(keys, q, ms[..k], ms[k]);
        var p: nat :| p < q && RootAt(keys, ms[..k], ms[k], p);
        assert RootAt(keys, ms'[..k], ms'[k], p);
      } else {
        assert ms'[..k] == ms && ms'[k] == m;
        assert RootAt(keys, ms'[..k], ms'[k], q);
      }
    }
  }

  lemma ClosedSnoc(graph: Graph, visited: set<AtomId>, m: seq<AtomId>)
    requires ClosedSet(graph, visited) && Closed(graph, m)
    ensures ClosedSet(graph, visited + Elems(m))
  {
    forall a, b | a in visited + Elems(m) && a in graph && b in graph[a]
      ensures b in visited + Elems(m)
    {
      if a !in visited {
        var i :| 0 <= i < |m| && m[i] == a;
      }
    }
  }

  lemma DisjointSnoc(ms: seq<seq<AtomId>>, m: seq<AtomId>)
    requires Disjoint(ms)
    requires forall i :: 0 <= i < |m| ==> m[i] !in Covered(ms)
    ensures Disjoint(ms + [m])
  {
    var ms' := ms + [m];
    forall k, l, a | 0 <= k < l < |ms'| && a in ms'[k]
      ensures a !in ms'[l]
    {
      assert ms'[k] == ms[k];
      if l == |ms| {
        CoveredMember(ms, k, a);
      } else {
        assert ms'[l] == ms[l];
      }
    }
  }

  // ---------------------------------------------------------------------
  // Helper lemmas

  lemma {:induction false} EndsAt(bonds: seq<Bond>, t: nat)
    requires t < |bonds|
    ensures Ends(bonds)[2 * t] == bonds[t].0 && Ends(bonds)[2 * t + 1] == bonds[t].1
    decreases |bonds|
  {
    var n := |bonds| - 1;
    if t < n {
      EndsAt(bonds[..n], t);
    }
  }

  lemma EndsSnoc(bonds: seq<Bond>, t: nat)
    requires t < |bonds|
    ensures Ends(bonds[..t + 1]) == Ends(bonds[..t]) + [bonds[t].0, bonds[t].1]
  {
    assert bonds[..t + 1][..t] == bonds[..t];
  }

  lemma LinkedSnoc(bonds: seq<Bond>, t: nat, a: AtomId, b: AtomId)
    requires t < |bonds|
    ensures Linked(bonds[..t + 1], a, b) <==>
      Linked(bonds[..t], a, b) || bonds[t] == (a, b) || bonds[t] == (b, a)
  {
    var pre, pre' := bonds[..t], bonds[..t + 1];
    if Linked(pre', a, b) {
      var u :| 0 <= u < |pre'| && (pre'[u] == (a, b) || pre'[u] == (b, a));
      if u < t {
        assert pre[u] == pre'[u];
      }
    }
    if Linked(pre, a, b) {
      var u :| 0 <= u < |pre| && (pre[u] == (a, b) || pre[u] == (b, a));
      assert pre'[u] == pre[u];
    }
    if bonds[t] == (a, b) || bonds[t] == (b, a) {
      assert pre'[t] == bonds[t];
    }
  }

  lemma LinkedEnds(bonds: seq<Bond>, a: AtomId, b: AtomId)
    requires Linked(bonds, a, b)
    ensures Linked(bonds, b, a)
    ensures a in Ends(bonds) && b in Ends(bonds)
  {
    var t :| 0 <= t < |bonds| && (bonds[t] == (a, b) || bonds[t] == (b, a));
    EndsAt(bonds, t);
  }

  lemma {:induction false} CoveredMember(ms: seq<seq<AtomId>>, k: nat, a: AtomId)
    requires k < |ms| && a in ms[k]
    ensures a in Covered(ms)
    decreases |ms|
  {
    var n := |ms| - 1;
    if k < n {
      assert ms[..n][k] == ms[k];
      CoveredMember(ms[..n], k, a);
    }
  }

  lemma {:induction false} CoveredWitness(ms: seq<seq<AtomId>>, a: AtomId) returns (k: nat)
    requires a in Covered(ms)
    ensures k < |ms| && a in ms[k]
    decreases |ms|
  {
    var n := |ms| - 1;
    if a in ms[n] {
      k := n;
    } else {
      k := CoveredWitness(ms[..n], a);
      assert ms[..n][k] == ms[k];
    }
  }

  /** Translates what the traversal established about the graph into the
      statements about the bond list. */
  lemma MoleculesFromGraph(bonds: seq<Bond>, graph: Graph, keys: seq<AtomId>, ms: seq<seq<AtomId>>)
    requires keys == Dedup(Ends(bonds))
    requires forall a :: a in graph <==> a in keys
    requires forall a :: a in graph <==> a in Ends(bonds)
    requires Represents(graph, bonds)
    requires Discovered(graph, keys, |keys|, ms, Covered(ms))
    ensures Components(bonds, ms)
    ensures bonds == [] ==> ms == []
  {
    CoveredIsEndpoints(bonds, graph, keys, ms);
    PartitionFromComponents(bonds, graph, ms);
    BondsWithinFromGraph(bonds, graph, keys, ms);
    ConnectedFromGraph(bonds, graph, ms);
    OrderFromKeys(bonds, keys, ms);
  }

  lemma PartitionFromComponents(bonds: seq<Bond>, graph: Graph, ms: seq<seq<AtomId>>)
    requires AllComponents(graph, ms) && Disjoint(ms)
    requires Covered(ms) == Endpoints(bonds)
    ensures Partition(bonds, ms)
  {
    forall k | 0 <= k < |ms| ensures ms[k] != [] && NoDup(ms[k]) {
      assert Component(graph, ms[k]);
    }
  }

  lemma CoveredIsEndpoints(bonds: seq<Bond>, graph: Graph, keys: seq<AtomId>, ms: seq<seq<AtomId>>)
    requires keys == Dedup(Ends(bonds))
    requires forall a :: a in graph <==> a in keys
    requires forall a :: a in graph <==> a in Ends(bonds)
    requires Within(graph, Covered(ms))
    requires KeysVisited(keys, |keys|, Covered(ms))
    ensures Covered(ms) == Endpoints(bonds)
  {
    forall a | a in Covered(ms) ensures a in Endpoints(bonds) {
      assert a in keys;
    }
    forall a | a in Endpoints(bonds) ensures a in Covered(ms) {
      var p :| 0 <= p < |keys| && keys[p] == a;
    }
  }

  lemma BondsWithinFromGraph(bonds: seq<Bond>, graph: Graph, keys: seq<AtomId>, ms: seq<seq<AtomId>>)
    requires keys == Dedup(Ends(bonds))
    requires forall a :: a in graph <==> a in keys
    requires forall a :: a in graph <==> a in Ends(bonds)
    requires Represents(graph, bonds)
    requires AllComponents(graph, ms)
    ensures BondsWithin(bonds, ms)
  {
    forall k, t | 0 <= k < |ms| && 0 <= t < |bonds|
      ensures bonds[t].0 in ms[k] <==> bonds[t].1 in ms[k]
    {
      var (a, b) := bonds[t];
      assert Component(graph, ms[k]);
      assert Linked(bonds, a, b);
      LinkedEnds(bonds, a, b);
      assert a in graph && b in graph;
      if a in ms[k] {
        var i :| 0 <= i < |ms[k]| && ms[k][i] == a;
        assert b in graph[ms[k][i]];
      }
      if b in ms[k] {
        var i :| 0 <= i < |ms[k]| && ms[k][i] == b;
        assert a in graph[ms[k][i]];
      }
    }
  }

  lemma ConnectedFromGraph(bonds: seq<Bond>, graph: Graph, ms: seq<seq<AtomId>>)
    requires Represents(graph, bonds)
    requires AllComponents(graph, ms)
    ensures ConnectedFromFirst(bonds, ms)
  {
    forall k, j | 0 <= k < |ms| && 0 < j < |ms[k]|
      ensures BondedToEarlier(bonds, ms[k], j)
    {
      assert Component(graph, ms[k]);
      assert TouchesEarlier(graph, ms[k], j);
      var i :| 0 <= i < j && ms[k][i] in graph && ms[k][j] in graph[ms[k][i]];
      assert Linked(bonds, ms[k][i], ms[k][j]);
    }
  }

  lemma OrderFromKeys(bonds: seq<Bond>, keys: seq<AtomId>, ms: seq<seq<AtomId>>)
    requires keys == Dedup(Ends(bonds))
    requires Rooted(keys, |keys|, ms)
    ensures FirstAppearanceOrder(bonds, ms)
  {
    var e := Ends(bonds);
    forall k | 0 <= k < |ms|
      ensures ms[k] != [] && ms[k][0] in e
      ensures forall t :: 0 <= t < FirstIndex(e, ms[k][0]) ==> e[t] in Covered(ms[..k])
    {
      assert HasRoot(keys, |keys|, ms[..k], ms[k]);
      var p: nat :| p < |keys| && RootAt(keys, ms[..k], ms[k], p);
      DedupFirstAppearance(e, p);
      forall t | 0 <= t < FirstIndex(e, ms[k][0])
        ensures e[t] in Covered(ms[..k])
      {
        assert e[t] in keys[..p];
      }
    }
  }
}
