/** The line scan of `getCrystal`: one forward pass over the descriptor lines
    that collects the atom records, the simulation IDs handed out by a running
    counter, the bond list and the cell vectors. `ScanSpec` is the scan as a
    left fold of `Step` over the lines; `ScanLines` is the loop itself. */
module Scanner {
  import opened Wrappers
  import opened Text
  import opened Attributes
  import opened Seqs
  import opened Molecules

  /** One `atomDict` entry: the `Name` attribute (the LAMMPS type) and the
      three fractional coordinates, still as text. */
  datatype Atom = Atom(name: string, x: string, y: string, z: string)

  /** The three cell vectors, each split on `,`. */
  datatype Cell = Cell(a: seq<string>, b: seq<string>, c: seq<string>)

  /** Unpacking failures, with the index of the offending line. */
  datatype ScanError =
    | MalformedXYZ(line: nat)       // the XYZ value does not split into 3 parts
    | MalformedConnects(line: nat)  // the Connects value does not split into 2 parts

  /** The atom bookkeeping of the scan: `order` is `atomDict`'s key order,
      `atoms` is `atomDict`, `simIds` is `lmpIDxsdIDdict` and `next` is the
      counter `i`. */
  datatype Registry = Registry(order: seq<AtomId>, atoms: map<AtomId, Atom>, simIds: map<AtomId, nat>, next: nat)

  /** The state of the scan: the registry, `bondList`, and the vectors of the
      last cell line (`None` while no such line has been seen). */
  datatype Scan = Scan(reg: Registry, bonds: seq<Bond>, cell: Option<Cell>)

  const Start: Scan := Scan(Registry([], map[], map[], 1), [], None)

  const Comma: char := ','

  /** `("<Atom3d" and "UserID") in line`, which Python evaluates as
      `"UserID" in line`. */
  predicate IsAtomLine(line: string)
  {
    Contains(line, "UserID")
  }

  /** `("<Bond" and "Connects") in line`, which is `"Connects" in line`. */
  predicate IsConnectsLine(line: string)
  {
    Contains(line, "Connects")
  }

  /** A Connects line that is a hydrogen bond: skipped by `continue`. */
  predicate IsHBondLine(line: string)
  {
    IsConnectsLine(line) && Contains(line, "HBond")
  }

  predicate IsCellLine(line: string)
  {
    Contains(line, "SpaceGroup")
  }

  /** The coordinates of an atom line, split on `,`. */
  function XYZ(line: string): (parts: seq<string>)
  {
    Split(GetPropertyValue(line, "XYZ"), Comma)
  }

  /** The pair of a Connects line, split on `,`. */
  function Connects(line: string): (parts: seq<string>)
  {
    Split(GetPropertyValue(line, "Connects"), Comma)
  }

  function CellOf(line: string): (c: Cell)
  {
    Cell(Split(GetPropertyValue(line, "AVector"), Comma),
         Split(GetPropertyValue(line, "BVector"), Comma),
         Split(GetPropertyValue(line, "CVector"), Comma))
  }

  /** The atom record of a well-formed atom line. */
  function AtomOf(line: string): (a: Atom)
    requires |XYZ(line)| == 3
  {
    var xyz := XYZ(line);
    Atom(GetPropertyValue(line, "Name"), xyz[0], xyz[1], xyz[2])
  }

  /** An atom line: store the record and the counter under the line's ID
      (overwriting an earlier declaration) and advance the counter. */
  function Declare(s: Scan, line: string, n: nat): (r: Result<Scan, ScanError>)
  {
    if |XYZ(line)| != 3 then Failure(MalformedXYZ(n))
    else Success(s.(reg := Record(s.reg, GetPropertyValue(line, "ID"), AtomOf(line))))
  }

  /** `atomDict[id] = a`, `lmpIDxsdIDdict[id] = i`, `i += 1`. */
  function Record(r: Registry, id: AtomId, a: Atom): (t: Registry)
  {
    Registry(if id in r.atoms then r.order else r.order + [id],
             r.atoms[id := a],
             r.simIds[id := r.next],
             r.next + 1)
  }

  /** A (non-hydrogen) Connects line: append its pair to the bond list. */
  function Connect(s: Scan, line: string, n: nat): (r: Result<Scan, ScanError>)
  {
    var pair := Connects(line);
    if |pair| != 2 then Failure(MalformedConnects(n))
    else Success(s.(bonds := s.bonds + [(pair[0], pair[1])]))
  }

  /** One turn of the loop on line number `n`. */
  function Step(s: Scan, line: string, n: nat): (r: Result<Scan, ScanError>)
  {
    var s1 :- if IsAtomLine(line) then Declare(s, line, n) else Success(s);
    if IsHBondLine(line) then Success(s1)
    else
      var s2 :- if IsConnectsLine(line) then Connect(s1, line, n) else Success(s1);
      Success(if IsCellLine(line) then s2.(cell := Some(CellOf(line))) else s2)
  }

  /** The whole scan: the first failing line stops it. */
  function ScanSpec(lines: seq<string>): (r: Result<Scan, ScanError>)
  {
    if lines == [] then Success(Start)
    else
      var n := |lines| - 1;
      var s :- ScanSpec(lines[..n]);
      Step(s, lines[n], n)
  }

  /** The loop of `getCrystal` over the lines of the file. */
  method ScanLines(lines: seq<string>) returns (r: Result<Scan, ScanError>)
    ensures r == ScanSpec(lines)
  {
    var order: seq<AtomId> := [];
    var atomDict: map<AtomId, Atom> := map[];
    var simIds: map<AtomId, nat> := map[];
    var i := 1;
    var bondList: seq<Bond> := [];
    var cell: Option<Cell> := None;
    for n := 0 to |lines|
      invariant ScanSpec(lines[..n]) == Success(Scan(Registry(order, atomDict, simIds, i), bondList, cell))
    {
      var line := lines[n];
      assert lines[..n + 1][..n] == lines[..n];
      if IsAtomLine(line) {
        var atomID := GetPropertyValue(line, "ID");
        var lammpsType := GetPropertyValue(line, "Name");
        var xyz := Split(GetPropertyValue(line, "XYZ"), Comma);
        if |xyz| != 3 {
          r := Failure(MalformedXYZ(n));
          FailureStops(lines, n + 1);
          return;
        }
        if atomID !in atomDict {
          order := order + [atomID];
        }
        atomDict := atomDict[atomID := Atom(lammpsType, xyz[0], xyz[1], xyz[2])];
        simIds := simIds[atomID := i];
        i := i + 1;
      }
      if IsConnectsLine(line) {
        if Contains(line, "HBond") {
          continue;
        }
        var pair := Split(GetPropertyValue(line, "Connects"), Comma);
        if |pair| != 2 {
          r := Failure(MalformedConnects(n));
          FailureStops(lines, n + 1);
          return;
        }
        bondList := bondList + [(pair[0], pair[1])];
      }
      if IsCellLine(line) {
        var aVector := Split(GetPropertyValue(line, "AVector"), Comma);
        var bVector := Split(GetPropertyValue(line, "BVector"), Comma);
        var cVector := Split(GetPropertyValue(line, "CVector"), Comma);
        cell := Some(Cell(aVector, bVector, cVector));
      }
    }
    assert lines[..|lines|] == lines;
    r := Success(Scan(Registry(order, atomDict, simIds, i), bondList, cell));
  }

  /** A failure before the last line is the failure of the whole scan. */
  lemma StopsAfter(lines: seq<string>)
    requires lines != [] && ScanSpec(lines[..|lines| - 1]).Failure?
    ensures ScanSpec(lines) == ScanSpec(lines[..|lines| - 1])
  {
  }

  /** After a successful prefix, the last line is one more step. */
  lemma StepAfter(lines: seq<string>)
    requires lines != [] && ScanSpec(lines[..|lines| - 1]).Success?
    ensures ScanSpec(lines) == Step(ScanSpec(lines[..|lines| - 1]).value, lines[|lines| - 1], |lines| - 1)
  {
  }

  /** Once a prefix fails, the whole scan fails with the same error. */
  lemma {:induction false} FailureStops(lines: seq<string>, m: nat)
    requires m <= |lines| && ScanSpec(lines[..m]).Failure?
    ensures ScanSpec(lines) == ScanSpec(lines[..m])
    decreases |lines| - m
  {
    if m < |lines| {
      assert lines[..m + 1][..m] == lines[..m];
      StopsAfter(lines[..m + 1]);
      FailureStops(lines, m + 1);
    } else {
      assert lines[..m] == lines;
    }
  }

  // ---------------------------------------------------------------------
  // Reference views of the file

  /** A line whose unpacking fails. */
  predicate Malformed(line: string)
  {
    || (IsAtomLine(line) && |XYZ(line)| != 3)
    || (IsConnectsLine(line) && !IsHBondLine(line) && |Connects(line)| != 2)
  }

  /** The error a malformed line raises: the XYZ unpacking comes first. */
  function ErrorOf(line: string, n: nat): (e: ScanError)
  {
    if IsAtomLine(line) && |XYZ(line)| != 3 then MalformedXYZ(n) else MalformedConnects(n)
  }

  /** The declarations of the file in order: one `(ID, record)` per
      well-formed atom line. */
  function Declarations(lines: seq<string>): (d: seq<(AtomId, Atom)>)
  {
    if lines == [] then []
    else
      var n := |lines| - 1;
      var line := lines[n];
      Declarations(lines[..n]) +
        if IsAtomLine(line) && |XYZ(line)| == 3 then [(GetPropertyValue(line, "ID"), AtomOf(line))] else []
  }

  /** The IDs of a declaration list. */
  function Ids(d: seq<(AtomId, Atom)>): (ids: seq<AtomId>)
    ensures |ids| == |d|
    ensures forall t :: 0 <= t < |d| ==> ids[t] == d[t].0
  {
    if d == [] then [] else Ids(d[..|d| - 1]) + [d[|d| - 1].0]
  }

  /** Declaration `t` is the last one of `id`. */
  ghost predicate LastDeclaration(d: seq<(AtomId, Atom)>, id: AtomId, t: int)
  {
    0 <= t < |d| && d[t].0 == id && forall u :: t < u < |d| ==> d[u].0 != id
  }

  /** The bond pairs of the file, in order: one per Connects line that is not
      a hydrogen bond. */
  function BondsOf(lines: seq<string>): (bonds: seq<Bond>)
  {
    if lines == [] then []
    else
      var n := |lines| - 1;
      var line := lines[n];
      var pair := Connects(line);
      BondsOf(lines[..n]) +
        if IsConnectsLine(line) && !IsHBondLine(line) && |pair| == 2 then [(pair[0], pair[1])] else []
  }

  /** The cell of the last cell line that is not a hydrogen-bond line. */
  function LastCell(lines: seq<string>): (cell: Option<Cell>)
  {
    if lines == [] then None
    else
      var n := |lines| - 1;
      var line := lines[n];
      if IsCellLine(line) && !IsHBondLine(line) then Some(CellOf(line)) else LastCell(lines[..n])
  }

  /** What a successful scan holds about its own maps. */
  ghost predicate WellFormed(s: Registry)
  {
    && NoDup(s.order)
    && (forall id :: id in s.atoms <==> id in s.order)
    && (forall id :: id in s.simIds <==> id in s.atoms)
    && (forall id :: id in s.simIds ==> 1 <= s.simIds[id] < s.next)
    && s.next >= 1
  }

  // ---------------------------------------------------------------------
  // What the scan computes

  /** No line of `lines` is malformed. */
  predicate Clean(lines: seq<string>)
  {
    forall n :: 0 <= n < |lines| ==> !Malformed(lines[n])
  }

  lemma CleanSnoc(lines: seq<string>)
    requires lines != []
    ensures Clean(lines) <==> Clean(lines[..|lines| - 1]) && !Malformed(lines[|lines| - 1])
  {
    var n := |lines| - 1;
    forall m | 0 <= m < n
      ensures lines[..n][m] == lines[m]
    {
    }
  }

  /** Line `n` is the first malformed line. */
  predicate FirstMalformed(lines: seq<string>, n: nat)
  {
    n < |lines| && Malformed(lines[n]) && Clean(lines[..n])
  }

  /** The scan fails exactly when some line is malformed, and then it reports
      the first such line. */
  lemma {:induction false} ScanFailure(lines: seq<string>)
    ensures ScanSpec(lines).Failure? <==> !Clean(lines)
    ensures ScanSpec(lines).Failure? ==>
      exists n: nat :: FirstMalformed(lines, n) && ScanSpec(lines).error == ErrorOf(lines[n], n)
  {
    if lines != [] {
      var n := |lines| - 1;
      var pre := lines[..n];
      ScanFailure(pre);
      CleanSnoc(lines);
      if ScanSpec(pre).Success? {
        StepAfter(lines);
        StepFailure(ScanSpec(pre).value, lines[n], n);
        if ScanSpec(lines).Failure? {
          assert FirstMalformed(lines, n);
        }
      } else {
        StopsAfter(lines);
        var k: nat :| FirstMalformed(pre, k) && ScanSpec(pre).error == ErrorOf(pre[k], k);
        assert pre[..k] == lines[..k];
        assert FirstMalformed(lines, k);
      }
    }
  }

  /** One step fails exactly on a malformed line, with that line's error. */
  lemma StepFailure(s: Scan, line: string, n: nat)
    ensures Step(s, line, n).Failure? <==> Malformed(line)
    ensures Step(s, line, n).Failure? ==> Step(s, line, n).error == ErrorOf(line, n)
  {
  }

  /** A successful scan collects exactly the bond pairs of the file, in file
      order; hydrogen-bond lines add none. */
  lemma {:induction false} ScanBonds(lines: seq<string>)
    requires ScanSpec(lines).Success?
    ensures ScanSpec(lines).value.bonds == BondsOf(lines)
  {
    if lines != [] {
      ScanBonds(lines[..|lines| - 1]);
    }
  }

  /** A successful scan keeps the cell of the last cell line (one that is not
      a hydrogen-bond line), and has none when there is no such line. */
  lemma {:induction false} ScanCell(lines: seq<string>)
    requires ScanSpec(lines).Success?
    ensures ScanSpec(lines).value.cell == LastCell(lines)
    ensures LastCell(lines).None? <==> forall n :: 0 <= n < |lines| ==> !(IsCellLine(lines[n]) && !IsHBondLine(lines[n]))
  {
    if lines != [] {
      var n := |lines| - 1;
      ScanCell(lines[..n]);
      forall m | 0 <= m < n ensures lines[..n][m] == lines[m] { }
    }
  }

  /** How a scan state reflects a declaration list: the counter is one more
      than the number of declarations, the key order is the order of first
      declaration, and the last declaration of each ID wins. */
  ghost predicate Tracks(s: Registry, d: seq<(AtomId, Atom)>)
  {
    && WellFormed(s)
    && s.next == |d| + 1
    && s.order == Dedup(Ids(d))
    && KeysDeclared(s, d)
    && LastWins(s, d)
  }

  /** The IDs with a simulation ID are exactly the declared ones. */
  ghost predicate KeysDeclared(s: Registry, d: seq<(AtomId, Atom)>)
  {
    forall id :: id in s.simIds <==> id in Ids(d)
  }

  /** Every ID maps to the 1-based rank of its last declaration and holds
      that declaration's record. */
  ghost predicate LastWins(s: Registry, d: seq<(AtomId, Atom)>)
  {
    forall id :: id in s.simIds ==> WinsAt(s, d, id)
  }

  /** `id` maps to the 1-based rank of its last declaration, whose record it
      holds. */
  ghost predicate WinsAt(s: Registry, d: seq<(AtomId, Atom)>, id: AtomId)
    requires id in s.simIds
  {
    var t := s.simIds[id] as int - 1;
    LastDeclaration(d, id, t) && id in s.atoms && s.atoms[id] == d[t].1
  }

  /** The counter and the two dictionaries after a successful scan: the
      `n`-th atom line's ID gets simulation ID `n`, a repeated ID keeps the
      last one, and `atomDict` lists IDs in order of first declaration. */
  lemma {:induction false} ScanAtoms(lines: seq<string>)
    requires ScanSpec(lines).Success?
    ensures Tracks(ScanSpec(lines).value.reg, Declarations(lines))
  {
    if lines != [] {
      var n := |lines| - 1;
      var line := lines[n];
      ScanAtoms(lines[..n]);
      var s0 := ScanSpec(lines[..n]).value;
      var d0 := Declarations(lines[..n]);
      StepAtoms(s0, line, n);
      if IsAtomLine(line) {
        var id, a := GetPropertyValue(line, "ID"), AtomOf(line);
        assert Declarations(lines) == d0 + [(id, a)];
        DeclareStep(s0.reg, d0, id, a);
      } else {
        assert Declarations(lines) == d0;
      }
    }
  }

  /** A step changes the registry only on an atom line, and there as
      `Record` does. */
  lemma StepAtoms(s: Scan, line: string, n: nat)
    requires Step(s, line, n).Success?
    ensures IsAtomLine(line) ==> |XYZ(line)| == 3
    ensures Step(s, line, n).value.reg ==
      if IsAtomLine(line) then Record(s.reg, GetPropertyValue(line, "ID"), AtomOf(line)) else s.reg
  {
    var s1 := if IsAtomLine(line) then Declare(s, line, n) else Success(s);
    assert s1.Success?;
    var t := s1.value;
    if !IsHBondLine(line) {
      var t2 := if IsConnectsLine(line) then Connect(t, line, n) else Success(t);
      assert t2.Success? && t2.value.reg == t.reg;
    }
  }

  /** `Tracks` is kept by one declaration. */
  lemma DeclareStep(s: Registry, d: seq<(AtomId, Atom)>, id: AtomId, a: Atom)
    requires Tracks(s, d)
    ensures Tracks(Record(s, id, a), d + [(id, a)])
  {
    IdsSnoc(d, id, a);
    RecordWellFormed(s, id, a);
    OrderStep(s, d, id, a);
    LastWinsStep(s, d, id, a);
  }

  lemma IdsSnoc(d: seq<(AtomId, Atom)>, id: AtomId, a: Atom)
    ensures Ids(d + [(id, a)]) == Ids(d) + [id]
  {
    assert (d + [(id, a)])[..|d|] == d;
  }

  lemma RecordWellFormed(s: Registry, id: AtomId, a: Atom)
    requires WellFormed(s)
    ensures WellFormed(Record(s, id, a))
  {
    var s' := Record(s, id, a);
    if id !in s.atoms {
      NoDupSnoc(s.order, id);
      assert forall x :: x in s'.order <==> x in s.order || x == id;
    }
  }

  lemma OrderStep(s: Registry, d: seq<(AtomId, Atom)>, id: AtomId, a: Atom)
    requires WellFormed(s) && s.order == Dedup(Ids(d)) && KeysDeclared(s, d)
    requires Ids(d + [(id, a)]) == Ids(d) + [id]
    ensures Record(s, id, a).order == Dedup(Ids(d + [(id, a)]))
    ensures KeysDeclared(Record(s, id, a), d + [(id, a)])
  {
    DedupSnoc(Ids(d), id);
    DedupMember(Ids(d), id);
  }

  lemma LastWinsStep(s: Registry, d: seq<(AtomId, Atom)>, id: AtomId, a: Atom)
    requires LastWins(s, d) && s.next == |d| + 1
    ensures LastWins(Record(s, id, a), d + [(id, a)])
  {
    var s' := Record(s, id, a);
    forall x | x in s'.simIds
      ensures WinsAt(s', d + [(id, a)], x)
    {
      if x == id {
        WinsFresh(s, d, id, a);
      } else {
        WinsKept(s, d, id, a, x);
      }
    }
  }

  lemma WinsFresh(s: Registry, d: seq<(AtomId, Atom)>, id: AtomId, a: Atom)
    requires s.next == |d| + 1
    ensures id in Record(s, id, a).simIds && WinsAt(Record(s, id, a), d + [(id, a)], id)
  {
    assert (d + [(id, a)])[|d|] == (id, a);
  }

  lemma WinsKept(s: Registry, d: seq<(AtomId, Atom)>, id: AtomId, a: Atom, x: AtomId)
    requires x in s.simIds && WinsAt(s, d, x) && x != id
    ensures x in Record(s, id, a).simIds && WinsAt(Record(s, id, a), d + [(id, a)], x)
  {
    LastDeclarationSnoc(d, x, s.simIds[x] as int - 1, id, a);
  }

  /** Declaring another ID keeps the last declaration of `x`. */
  lemma LastDeclarationSnoc(d: seq<(AtomId, Atom)>, x: AtomId, t: int, id: AtomId, a: Atom)
    requires LastDeclaration(d, x, t) && x != id
    ensures LastDeclaration(d + [(id, a)], x, t) && (d + [(id, a)])[t] == d[t]
  {
  }

  /** Distinct atoms get distinct simulation IDs. */
  lemma SimIdsInjective(s: Registry, d: seq<(AtomId, Atom)>, a: AtomId, b: AtomId)
    requires LastWins(s, d)
    requires a in s.simIds && b in s.simIds && a != b
    ensures s.simIds[a] != s.simIds[b]
  {
    assert WinsAt(s, d, a) && WinsAt(s, d, b);
  }
}
