/** The directives `getCrystal` writes once the scan is done: a blank line,
    one `create_atoms` per atom, then per molecule a blank line and one
    `set atom ... mol k` per member, then the fixed group, charge and bond
    blocks and a `change_box` sized to the cell diagonal. Text formatting is
    not modelled: each written piece is one `Directive`, and `float(...)` is
    the parameter `parse`. */
module Emitter {
  import opened Wrappers
  import opened Molecules
  import opened Connectivity
  import opened Scanner

  /** One piece written to the text buffer. */
  datatype Directive =
    | Blank                                                  // "\n"
    | CreateAtom(kind: string, x: real, y: real, z: real)   // create_atoms <kind> single x y z remap yes
    | SetMolecule(simId: nat, mol: nat, kind: string)        // set atom <simId> mol <mol> #<kind>
    | AtomGroups                                             // the fixed `group ... type n` block
    | Charges                                                // the fixed `set group ... charge q` block
    | BondCreation                                           // the fixed `create_bonds many ...` block
    | ChangeBox(lx: real, ly: real, lz: real)                // change_box all x final 0.0 lx y ... z ...

  /** `crystalMatrix`: the diagonal of the cell. */
  datatype Box = Box(lx: real, ly: real, lz: real)

  /** Why `getCrystal` raises. */
  datatype CrystalError =
    | Unpacking(cause: ScanError)     // ValueError while unpacking an XYZ or Connects value
    | NoSpaceGroup                    // NameError: no cell line was seen
    | MissingCellComponent(axis: nat) // IndexError on aVector[0], bVector[1] or cVector[2]
    | InvalidNumber(text: string)     // ValueError from float(text)
    | UndeclaredAtom(id: AtomId)      // KeyError from atomDict[id]

  /** Python's `float(text)`, supplied by the caller. */
  type Parser = string -> Option<real>

  function Number(text: string, parse: Parser): (r: Result<real, CrystalError>)
  {
    match parse(text)
    case Some(v) => Success(v)
    case None => Failure(InvalidNumber(text))
  }

  /** The three components a cell must have for `getCrystal` to size the box:
      `aVector[0]`, `bVector[1]` and `cVector[2]`, each a number. */
  predicate Complete(c: Cell, parse: Parser)
  {
    && |c.a| >= 1 && |c.b| >= 2 && |c.c| >= 3
    && parse(c.a[0]).Some? && parse(c.b[1]).Some? && parse(c.c[2]).Some?
  }

  /** `[float(aVector[0]), float(bVector[1]), float(cVector[2])]`, evaluated
      left to right. */
  function Diagonal(cell: Option<Cell>, parse: Parser): (r: Result<Box, CrystalError>)
  {
    if cell.None? then Failure(NoSpaceGroup)
    else
      var c := cell.value;
      var lx :- if |c.a| < 1 then Failure(MissingCellComponent(0)) else Number(c.a[0], parse);
      var ly :- if |c.b| < 2 then Failure(MissingCellComponent(1)) else Number(c.b[1], parse);
      var lz :- if |c.c| < 3 then Failure(MissingCellComponent(2)) else Number(c.c[2], parse);
      Success(Box(lx, ly, lz))
  }

  /** All three fractional coordinates of `atom` are numbers. */
  predicate Parses(atom: Atom, parse: Parser)
  {
    parse(atom.x).Some? && parse(atom.y).Some? && parse(atom.z).Some?
  }

  /** Where `create_atoms` puts an atom: each fractional coordinate scaled by
      the matching side of the box. */
  function Placed(atom: Atom, box: Box, parse: Parser): (d: Directive)
    requires Parses(atom, parse)
  {
    CreateAtom(atom.name, parse(atom.x).value * box.lx, parse(atom.y).value * box.ly, parse(atom.z).value * box.lz)
  }

  /** The `create_atoms` directive of one atom, converting x, y and z in that
      order. */
  function CreateLine(atom: Atom, box: Box, parse: Parser): (r: Result<Directive, CrystalError>)
  {
    var x :- Number(atom.x, parse);
    var y :- Number(atom.y, parse);
    var z :- Number(atom.z, parse);
    Success(CreateAtom(atom.name, x * box.lx, y * box.ly, z * box.lz))
  }

  /** The `create_atoms` directives of the atoms `order`, in that order. */
  function CreateLines(order: seq<AtomId>, atoms: map<AtomId, Atom>, box: Box, parse: Parser): (r: Result<seq<Directive>, CrystalError>)
    requires forall k :: 0 <= k < |order| ==> order[k] in atoms
  {
    if order == [] then Success([])
    else
      var n := |order| - 1;
      var pre :- CreateLines(order[..n], atoms, box, parse);
      var line :- CreateLine(atoms[order[n]], box, parse);
      Success(pre + [line])
  }

  /** The `set atom` directives of one molecule numbered `mol`. */
  function MemberLines(m: seq<AtomId>, mol: nat, atoms: map<AtomId, Atom>, simIds: map<AtomId, nat>): (r: Result<seq<Directive>, CrystalError>)
    requires forall id :: id in atoms ==> id in simIds
  {
    if m == [] then Success([])
    else
      var n := |m| - 1;
      var pre :- MemberLines(m[..n], mol, atoms, simIds);
      var id := m[n];
      if id !in atoms then Failure(UndeclaredAtom(id))
      else Success(pre + [SetMolecule(simIds[id], mol, atoms[id].name)])
  }

  /** For each molecule in turn, a blank line and its `set atom` directives,
      molecules numbered from 1. */
  function AssignLines(ms: seq<seq<AtomId>>, atoms: map<AtomId, Atom>, simIds: map<AtomId, nat>): (r: Result<seq<Directive>, CrystalError>)
    requires forall id :: id in atoms ==> id in simIds
  {
    if ms == [] then Success([])
    else
      var n := |ms| - 1;
      var pre :- AssignLines(ms[..n], atoms, simIds);
      var lines :- MemberLines(ms[n], n + 1, atoms, simIds);
      Success(pre + [Blank] + lines)
  }

  /** The fixed tail: the three constant blocks and the box. */
  function Tail(box: Box): (t: seq<Directive>)
  {
    [AtomGroups, Charges, BondCreation, ChangeBox(box.lx, box.ly, box.lz)]
  }

  /** Every listed atom is declared, and every declared atom has a
      simulation ID: what `Output` looks up. */
  predicate Keyed(r: Registry)
  {
    && (forall k :: 0 <= k < |r.order| ==> r.order[k] in r.atoms)
    && (forall id :: id in r.atoms ==> id in r.simIds)
  }

  lemma WellFormedKeyed(r: Registry)
    requires WellFormed(r)
    ensures Keyed(r)
  {
  }

  /** Everything written after the scan, given the molecules. */
  function Output(scan: Scan, ms: seq<seq<AtomId>>, parse: Parser): (r: Result<seq<Directive>, CrystalError>)
    requires Keyed(scan.reg)
  {
    var box :- Diagonal(scan.cell, parse);
    var creates :- CreateLines(scan.reg.order, scan.reg.atoms, box, parse);
    var assigns :- AssignLines(ms, scan.reg.atoms, scan.reg.simIds);
    Success([Blank] + creates + assigns + Tail(box))
  }

  /** The writes of `getCrystal` after `find_molecules`, into one buffer. */
  method Emit(scan: Scan, molecules: seq<seq<AtomId>>, parse: Parser) returns (r: Result<seq<Directive>, CrystalError>)
    requires Keyed(scan.reg)
    ensures r == Output(scan, molecules, parse)
  {
    var diagonal := Diagonal(scan.cell, parse);
    if diagonal.Failure? {
      return Failure(diagonal.error);
    }
    var box := diagonal.value;
    var creates := WriteAtoms(scan.reg.order, scan.reg.atoms, box, parse);
    if creates.Failure? {
      return Failure(creates.error);
    }
    var out := [Blank] + creates.value;
    ghost var created := out;
    assert molecules[..0] == [] && out[|created|..] == [];
    for k := 0 to |molecules|
      invariant |created| <= |out| && out[..|created|] == created
      invariant AssignLines(molecules[..k], scan.reg.atoms, scan.reg.simIds) == Success(out[|created|..])
    {
      assert molecules[..k + 1][..k] == molecules[..k];
      var lines := WriteMolecule(molecules[k], k + 1, scan.reg.atoms, scan.reg.simIds);
      if lines.Failure? {
        AssignFailureStops(molecules, scan.reg.atoms, scan.reg.simIds, k + 1);
        return Failure(lines.error);
      }
      assert (out + [Blank] + lines.value)[|created|..] == out[|created|..] + [Blank] + lines.value;
      out := out + [Blank] + lines.value;
    }
    assert molecules[..|molecules|] == molecules;
    assert out == [Blank] + creates.value + out[|created|..];
    out := out + Tail(box);
    r := Success(out);
  }

  /** The `create_atoms` loop over the atom IDs in order. */
  method WriteAtoms(order: seq<AtomId>, atoms: map<AtomId, Atom>, box: Box, parse: Parser) returns (r: Result<seq<Directive>, CrystalError>)
    requires forall k :: 0 <= k < |order| ==> order[k] in atoms
    ensures r == CreateLines(order, atoms, box, parse)
  {
    var out := [];
    assert order[..0] == [];
    for k := 0 to |order|
      invariant CreateLines(order[..k], atoms, box, parse) == Success(out)
    {
      assert order[..k + 1][..k] == order[..k];
      var line := CreateLine(atoms[order[k]], box, parse);
      if line.Failure? {
        CreateFailureStops(order, atoms, box, parse, k + 1);
        return Failure(line.error);
      }
      out := out + [line.value];
    }
    assert order[..|order|] == order;
    r := Success(out);
  }

  /** The `set atom` loop over the members of one molecule. */
  method WriteMolecule(molecule: seq<AtomId>, mol: nat, atoms: map<AtomId, Atom>, simIds: map<AtomId, nat>) returns (r: Result<seq<Directive>, CrystalError>)
    requires forall id :: id in atoms ==> id in simIds
    ensures r == MemberLines(molecule, mol, atoms, simIds)
  {
    var out := [];
    assert molecule[..0] == [];
    for j := 0 to |molecule|
      invariant MemberLines(molecule[..j], mol, atoms, simIds) == Success(out)
    {
      assert molecule[..j + 1][..j] == molecule[..j];
      var id := molecule[j];
      if id !in atoms {
        MemberFailureStops(molecule, mol, atoms, simIds, j + 1);
        return Failure(UndeclaredAtom(id));
      }
      out := out + [SetMolecule(simIds[id], mol, atoms[id].name)];
    }
    assert molecule[..|molecule|] == molecule;
    r := Success(out);
  }

  lemma {:induction false} CreateFailureStops(order: seq<AtomId>, atoms: map<AtomId, Atom>, box: Box, parse: Parser, m: nat)
    requires forall k :: 0 <= k < |order| ==> order[k] in atoms
    requires m <= |order| && CreateLines(order[..m], atoms, box, parse).Failure?
    ensures CreateLines(order, atoms, box, parse) == CreateLines(order[..m], atoms, box, parse)
    decreases |order| - m
  {
    if m < |order| {
      var n := |order| - 1;
      assert order[..n][..m] == order[..m];
      CreateFailureStops(order[..n], atoms, box, parse, m);
    } else {
      assert order[..m] == order;
    }
  }

  lemma {:induction false} MemberFailureStops(mol: seq<AtomId>, k: nat, atoms: map<AtomId, Atom>, simIds: map<AtomId, nat>, m: nat)
    requires forall id :: id in atoms ==> id in simIds
    requires m <= |mol| && MemberLines(mol[..m], k, atoms, simIds).Failure?
    ensures MemberLines(mol, k, atoms, simIds) == MemberLines(mol[..m], k, atoms, simIds)
    decreases |mol| - m
  {
    if m < |mol| {
      var n := |mol| - 1;
      assert mol[..n][..m] == mol[..m];
      MemberFailureStops(mol[..n], k, atoms, simIds, m);
    } else {
      assert mol[..m] == mol;
    }
  }

  lemma {:induction false} AssignFailureStops(ms: seq<seq<AtomId>>, atoms: map<AtomId, Atom>, simIds: map<AtomId, nat>, m: nat)
    requires forall id :: id in atoms ==> id in simIds
    requires m <= |ms| && AssignLines(ms[..m], atoms, simIds).Failure?
    ensures AssignLines(ms, atoms, simIds) == AssignLines(ms[..m], atoms, simIds)
    decreases |ms| - m
  {
    if m < |ms| {
      var n := |ms| - 1;
      assert ms[..n][..m] == ms[..m];
      AssignFailureStops(ms[..n], atoms, simIds, m);
    } else {
      assert ms[..m] == ms;
    }
  }

  // ---------------------------------------------------------------------
  // What is written

  /** Number of `set atom` directives. */
  function Sets(out: seq<Directive>): (n: nat)
  {
    if out == [] then 0
    else Sets(out[..|out| - 1]) + (if out[|out| - 1].SetMolecule? then 1 else 0)
  }

  /** Number of `create_atoms` directives. */
  function Creates(out: seq<Directive>): (n: nat)
  {
    if out == [] then 0
    else Creates(out[..|out| - 1]) + (if out[|out| - 1].CreateAtom? then 1 else 0)
  }

  lemma {:induction false} CountAppend(a: seq<Directive>, b: seq<Directive>)
    ensures Sets(a + b) == Sets(a) + Sets(b)
    ensures Creates(a + b) == Creates(a) + Creates(b)
    decreases |b|
  {
    if b != [] {
      var n := |b| - 1;
      assert (a + b)[..|a + b| - 1] == a + b[..n];
      CountAppend(a, b[..n]);
    } else {
      assert a + b == a;
    }
  }

  lemma CountSingle(d: Directive)
    ensures Sets([d]) == if d.SetMolecule? then 1 else 0
    ensures Creates([d]) == if d.CreateAtom? then 1 else 0
  {
    assert [d][..0] == [];
  }

  /** The first `k` atoms of `order` all have numeric coordinates. */
  predicate AllParse(order: seq<AtomId>, atoms: map<AtomId, Atom>, parse: Parser, k: nat)
    requires k <= |order| && forall i :: 0 <= i < |order| ==> order[i] in atoms
  {
    forall i :: 0 <= i < k ==> Parses(atoms[order[i]], parse)
  }

  /** Atom `k` of `order` is the first whose coordinates do not parse. */
  predicate FirstUnparsed(order: seq<AtomId>, atoms: map<AtomId, Atom>, parse: Parser, k: nat)
    requires forall i :: 0 <= i < |order| ==> order[i] in atoms
  {
    k < |order| && !Parses(atoms[order[k]], parse) && AllParse(order, atoms, parse, k)
  }

  /** The box is the diagonal of the cell, and sizing it fails exactly when
      there was no cell line or one of the three components is missing or not
      a number. */
  lemma DiagonalSpec(cell: Option<Cell>, parse: Parser)
    ensures cell.None? ==> Diagonal(cell, parse) == Failure(NoSpaceGroup)
    ensures Diagonal(cell, parse).Success? <==> cell.Some? && Complete(cell.value, parse)
    ensures Diagonal(cell, parse).Success? ==>
      Diagonal(cell, parse).value == Box(parse(cell.value.a[0]).value, parse(cell.value.b[1]).value, parse(cell.value.c[2]).value)
  {
  }

  /** One atom's directive: written when its three coordinates are numbers,
      otherwise the first coordinate that is not is reported. */
  lemma CreateLineSpec(atom: Atom, box: Box, parse: Parser)
    ensures CreateLine(atom, box, parse).Success? <==> Parses(atom, parse)
    ensures CreateLine(atom, box, parse).Success? ==> CreateLine(atom, box, parse).value == Placed(atom, box, parse)
    ensures CreateLine(atom, box, parse).Failure? ==>
      CreateLine(atom, box, parse).error == InvalidNumber(if parse(atom.x).None? then atom.x else if parse(atom.y).None? then atom.y else atom.z)
  {
  }

  /** `c` holds the `create_atoms` directive of each atom of `order`, in
      order. */
  predicate PlacedAll(c: seq<Directive>, order: seq<AtomId>, atoms: map<AtomId, Atom>, box: Box, parse: Parser)
    requires forall i :: 0 <= i < |order| ==> order[i] in atoms
    requires AllParse(order, atoms, parse, |order|)
  {
    |c| == |order| && forall k :: 0 <= k < |order| ==> c[k] == Placed(atoms[order[k]], box, parse)
  }

  /** The `create_atoms` loop succeeds exactly when every atom's coordinates
      are numbers. */
  lemma {:induction false} CreateLinesSucceed(order: seq<AtomId>, atoms: map<AtomId, Atom>, box: Box, parse: Parser)
    requires forall k :: 0 <= k < |order| ==> order[k] in atoms
    ensures CreateLines(order, atoms, box, parse).Success? <==> AllParse(order, atoms, parse, |order|)
    decreases |order|
  {
    if order != [] {
      var n := |order| - 1;
      CreateLinesSucceed(order[..n], atoms, box, parse);
      CreateLineSpec(atoms[order[n]], box, parse);
    }
  }

  /** On success the loop writes one directive per atom ID, in the order
      given. */
  lemma {:induction false} CreateLinesContent(order: seq<AtomId>, atoms: map<AtomId, Atom>, box: Box, parse: Parser)
    requires forall k :: 0 <= k < |order| ==> order[k] in atoms
    requires CreateLines(order, atoms, box, parse).Success?
    ensures AllParse(order, atoms, parse, |order|)
    ensures PlacedAll(CreateLines(order, atoms, box, parse).value, order, atoms, box, parse)
    decreases |order|
  {
    CreateLinesSucceed(order, atoms, box, parse);
    if order != [] {
      var n := |order| - 1;
      var pre := order[..n];
      CreateLinesContent(pre, atoms, box, parse);
      var c := CreateLines(pre, atoms, box, parse).value;
      var line := CreateLine(atoms[order[n]], box, parse);
      CreateLineSpec(atoms[order[n]], box, parse);
      var r := CreateLines(order, atoms, box, parse).value;
      assert r == c + [line.value];
      forall k | 0 <= k < |order|
        ensures r[k] == Placed(atoms[order[k]], box, parse)
      {
        if k < n {
          assert r[k] == c[k] && pre[k] == order[k];
        }
      }
    }
  }

  /** On success the loop writes nothing but `create_atoms` directives. */
  lemma {:induction false} CreateLinesCount(order: seq<AtomId>, atoms: map<AtomId, Atom>, box: Box, parse: Parser)
    requires forall k :: 0 <= k < |order| ==> order[k] in atoms
    requires CreateLines(order, atoms, box, parse).Success?
    ensures Creates(CreateLines(order, atoms, box, parse).value) == |order|
    ensures Sets(CreateLines(order, atoms, box, parse).value) == 0
    decreases |order|
  {
    if order != [] {
      var n := |order| - 1;
      var pre := order[..n];
      CreateLinesCount(pre, atoms, box, parse);
      var c := CreateLines(pre, atoms, box, parse).value;
      var line := CreateLine(atoms[order[n]], box, parse);
      assert line.Success? && line.value.CreateAtom?;
      assert CreateLines(order, atoms, box, parse).value == c + [line.value];
      CountAppend(c, [line.value]);
      CountSingle(line.value);
    }
  }

  /** On failure the loop reports the first atom whose coordinates are not
      numbers. */
  lemma {:induction false} CreateLinesFailure(order: seq<AtomId>, atoms: map<AtomId, Atom>, box: Box, parse: Parser)
    requires forall k :: 0 <= k < |order| ==> order[k] in atoms
    requires CreateLines(order, atoms, box, parse).Failure?
    ensures exists k: nat ::
      && FirstUnparsed(order, atoms, parse, k)
      && CreateLines(order, atoms, box, parse).error == CreateLine(atoms[order[k]], box, parse).error
    decreases |order|
  {
    var n := |order| - 1;
    var pre := order[..n];
    if CreateLines(pre, atoms, box, parse).Failure? {
      CreateLinesFailure(pre, atoms, box, parse);
      var k: nat :| FirstUnparsed(pre, atoms, parse, k) &&
        CreateLines(pre, atoms, box, parse).error == CreateLine(atoms[pre[k]], box, parse).error;
      assert FirstUnparsed(order, atoms, parse, k);
    } else {
      CreateLinesSucceed(pre, atoms, box, parse);
      CreateLineSpec(atoms[order[n]], box, parse);
      assert FirstUnparsed(order, atoms, parse, n);
    }
  }

  /** Every member of `m` was declared by an atom line. */
  predicate Declared(m: seq<AtomId>, atoms: map<AtomId, Atom>)
  {
    forall j :: 0 <= j < |m| ==> m[j] in atoms
  }

  /** Member `j` of `m` is the first that was never declared. */
  predicate FirstUndeclared(m: seq<AtomId>, atoms: map<AtomId, Atom>, j: nat)
  {
    j < |m| && m[j] !in atoms && Declared(m[..j], atoms)
  }

  /** `c` holds one `set atom` directive per member of `m`, in order, each
      naming the member's simulation ID, the molecule number and the atom's
      name. */
  predicate Tagged(c: seq<Directive>, m: seq<AtomId>, mol: nat, atoms: map<AtomId, Atom>, simIds: map<AtomId, nat>)
    requires forall id :: id in atoms ==> id in simIds
    requires Declared(m, atoms)
  {
    |c| == |m| && forall j :: 0 <= j < |m| ==> c[j] == SetMolecule(simIds[m[j]], mol, atoms[m[j]].name)
  }

  /** A molecule's directives are written exactly when all its members were
      declared. */
  lemma {:induction false} MemberLinesSucceed(m: seq<AtomId>, mol: nat, atoms: map<AtomId, Atom>, simIds: map<AtomId, nat>)
    requires forall id :: id in atoms ==> id in simIds
    ensures MemberLines(m, mol, atoms, simIds).Success? <==> Declared(m, atoms)
    decreases |m|
  {
    if m != [] {
      var n := |m| - 1;
      MemberLinesSucceed(m[..n], mol, atoms, simIds);
      assert Declared(m, atoms) <==> Declared(m[..n], atoms) && m[n] in atoms;
    }
  }

  /** On success: one `set atom ... mol <mol>` per member, in order. */
  lemma {:induction false} MemberLinesContent(m: seq<AtomId>, mol: nat, atoms: map<AtomId, Atom>, simIds: map<AtomId, nat>)
    requires forall id :: id in atoms ==> id in simIds
    requires MemberLines(m, mol, atoms, simIds).Success?
    ensures Declared(m, atoms)
    ensures Tagged(MemberLines(m, mol, atoms, simIds).value, m, mol, atoms, simIds)
    decreases |m|
  {
    MemberLinesSucceed(m, mol, atoms, simIds);
    if m != [] {
      var n := |m| - 1;
      var pre := m[..n];
      MemberLinesContent(pre, mol, atoms, simIds);
      var c := MemberLines(pre, mol, atoms, simIds).value;
      var line := SetMolecule(simIds[m[n]], mol, atoms[m[n]].name);
      var r := MemberLines(m, mol, atoms, simIds).value;
      assert r == c + [line];
      forall j | 0 <= j < |m|
        ensures r[j] == SetMolecule(simIds[m[j]], mol, atoms[m[j]].name)
      {
        if j < n {
          assert r[j] == c[j] && pre[j] == m[j];
        }
      }
    }
  }

  /** On success: as many `set atom` directives as members, and nothing
      else. */
  lemma {:induction false} MemberLinesCount(m: seq<AtomId>, mol: nat, atoms: map<AtomId, Atom>, simIds: map<AtomId, nat>)
    requires forall id :: id in atoms ==> id in simIds
    requires MemberLines(m, mol, atoms, simIds).Success?
    ensures |MemberLines(m, mol, atoms, simIds).value| == |m|
    ensures Sets(MemberLines(m, mol, atoms, simIds).value) == |m|
    ensures Creates(MemberLines(m, mol, atoms, simIds).value) == 0
    decreases |m|
  {
    if m != [] {
      var n := |m| - 1;
      MemberLinesCount(m[..n], mol, atoms, simIds);
      var c := MemberLines(m[..n], mol, atoms, simIds).value;
      var line := SetMolecule(simIds[m[n]], mol, atoms[m[n]].name);
      assert MemberLines(m, mol, atoms, simIds).value == c + [line];
      CountAppend(c, [line]);
      CountSingle(line);
    }
  }

  /** On failure: the first member that was never declared is reported. */
  lemma {:induction false} MemberLinesFailure(m: seq<AtomId>, mol: nat, atoms: map<AtomId, Atom>, simIds: map<AtomId, nat>)
    requires forall id :: id in atoms ==> id in simIds
    requires MemberLines(m, mol, atoms, simIds).Failure?
    ensures exists j: nat ::
      && FirstUndeclared(m, atoms, j)
      && MemberLines(m, mol, atoms, simIds).error == UndeclaredAtom(m[j])
    decreases |m|
  {
    var n := |m| - 1;
    var pre := m[..n];
    if MemberLines(pre, mol, atoms, simIds).Failure? {
      MemberLinesFailure(pre, mol, atoms, simIds);
      var j: nat :| FirstUndeclared(pre, atoms, j) && MemberLines(pre, mol, atoms, simIds).error == UndeclaredAtom(pre[j]);
      assert pre[..j] == m[..j];
      assert FirstUndeclared(m, atoms, j);
    } else {
      MemberLinesSucceed(pre, mol, atoms, simIds);
      assert pre == m[..n];
      assert FirstUndeclared(m, atoms, n);
    }
  }

  /** The first `n` molecules have only declared members. */
  predicate AllDeclared(ms: seq<seq<AtomId>>, atoms: map<AtomId, Atom>, n: nat)
    requires n <= |ms|
  {
    forall k :: 0 <= k < n ==> Declared(ms[k], atoms)
  }

  /** The molecule loop succeeds exactly when every member of every molecule
      was declared. */
  lemma {:induction false} AssignLinesSucceed(ms: seq<seq<AtomId>>, atoms: map<AtomId, Atom>, simIds: map<AtomId, nat>)
    requires forall id :: id in atoms ==> id in simIds
    ensures AssignLines(ms, atoms, simIds).Success? <==> AllDeclared(ms, atoms, |ms|)
    decreases |ms|
  {
    if ms != [] {
      var n := |ms| - 1;
      AssignLinesSucceed(ms[..n], atoms, simIds);
      MemberLinesSucceed(ms[n], n + 1, atoms, simIds);
      assert AllDeclared(ms, atoms, |ms|) <==> AllDeclared(ms[..n], atoms, n) && Declared(ms[n], atoms);
    }
  }

  /** On success the loop writes a blank line per molecule and a `set atom`
      directive per member, and no `create_atoms`. */
  lemma {:induction false} AssignLinesCount(ms: seq<seq<AtomId>>, atoms: map<AtomId, Atom>, simIds: map<AtomId, nat>)
    requires forall id :: id in atoms ==> id in simIds
    requires AssignLines(ms, atoms, simIds).Success?
    ensures |AssignLines(ms, atoms, simIds).value| == |ms| + TotalSize(ms)
    ensures Sets(AssignLines(ms, atoms, simIds).value) == TotalSize(ms)
    ensures Creates(AssignLines(ms, atoms, simIds).value) == 0
    decreases |ms|
  {
    if ms != [] {
      var n := |ms| - 1;
      AssignLinesCount(ms[..n], atoms, simIds);
      var pre := AssignLines(ms[..n], atoms, simIds).value;
      var lines := MemberLines(ms[n], n + 1, atoms, simIds).value;
      MemberLinesCount(ms[n], n + 1, atoms, simIds);
      assert AssignLines(ms, atoms, simIds).value == pre + ([Blank] + lines);
      CountAppend(pre, [Blank] + lines);
      CountAppend([Blank], lines);
      CountSingle(Blank);
    }
  }

  /** Where the block of molecule `k` starts in the molecule section: after
      one blank line and the members of each molecule before it. */
  function BlockStart(ms: seq<seq<AtomId>>, k: nat): (p: nat)
    requires k <= |ms|
  {
    k + TotalSize(ms[..k])
  }

  /** Dropping later molecules moves no block. */
  lemma BlockStartPrefix(ms: seq<seq<AtomId>>, n: nat, k: nat)
    requires k <= n <= |ms|
    ensures BlockStart(ms[..n], k) == BlockStart(ms, k)
  {
    assert ms[..n][..k] == ms[..k];
  }

  /** `out` holds, from index `p`, a blank line and then the `set atom`
      directives of molecule `m` numbered `mol`. */
  predicate BlockAt(out: seq<Directive>, p: nat, m: seq<AtomId>, mol: nat, atoms: map<AtomId, Atom>, simIds: map<AtomId, nat>)
    requires forall id :: id in atoms ==> id in simIds
    requires Declared(m, atoms)
  {
    p + 1 + |m| <= |out| && out[p] == Blank && Tagged(out[p + 1..p + 1 + |m|], m, mol, atoms, simIds)
  }

  /** A block stays a block with text written before and after it. */
  lemma BlockAtShift(front: seq<Directive>, c: seq<Directive>, back: seq<Directive>, p: nat,
                     m: seq<AtomId>, mol: nat, atoms: map<AtomId, Atom>, simIds: map<AtomId, nat>)
    requires forall id :: id in atoms ==> id in simIds
    requires Declared(m, atoms)
    requires BlockAt(c, p, m, mol, atoms, simIds)
    ensures BlockAt(front + c + back, |front| + p, m, mol, atoms, simIds)
  {
    var out := front + c + back;
    var q := |front| + p;
    assert out[q] == c[p];
    assert out[q + 1..q + 1 + |m|] == c[p + 1..p + 1 + |m|];
  }

  /** A block stays a block with text written after it. */
  lemma BlockAtPrefix(c: seq<Directive>, d: seq<Directive>, p: nat,
                      m: seq<AtomId>, mol: nat, atoms: map<AtomId, Atom>, simIds: map<AtomId, nat>)
    requires forall id :: id in atoms ==> id in simIds
    requires Declared(m, atoms)
    requires BlockAt(c, p, m, mol, atoms, simIds)
    ensures BlockAt(c + d, p, m, mol, atoms, simIds)
  {
    assert (c + d)[p + 1..p + 1 + |m|] == c[p + 1..p + 1 + |m|];
  }

  /** The block a molecule's loop writes after the text before it. */
  lemma BlockAtEnd(pre: seq<Directive>, lines: seq<Directive>, m: seq<AtomId>, mol: nat, atoms: map<AtomId, Atom>, simIds: map<AtomId, nat>)
    requires forall id :: id in atoms ==> id in simIds
    requires Declared(m, atoms)
    requires Tagged(lines, m, mol, atoms, simIds)
    ensures BlockAt(pre + [Blank] + lines, |pre|, m, mol, atoms, simIds)
  {
    assert (pre + [Blank] + lines)[|pre| + 1..|pre| + 1 + |m|] == lines;
  }

  /** One turn of the molecule loop on success: the molecules before the
      last, a blank line, the last molecule. */
  lemma AssignStep(ms: seq<seq<AtomId>>, atoms: map<AtomId, Atom>, simIds: map<AtomId, nat>)
    requires forall id :: id in atoms ==> id in simIds
    requires ms != [] && AssignLines(ms, atoms, simIds).Success?
    ensures var n := |ms| - 1;
      && AssignLines(ms[..n], atoms, simIds).Success?
      && MemberLines(ms[n], n + 1, atoms, simIds).Success?
      && AssignLines(ms, atoms, simIds).value ==
           AssignLines(ms[..n], atoms, simIds).value + [Blank] + MemberLines(ms[n], n + 1, atoms, simIds).value
  {
  }

  /** The last block of a successful molecule loop. */
  lemma LastBlock(ms: seq<seq<AtomId>>, atoms: map<AtomId, Atom>, simIds: map<AtomId, nat>)
    requires forall id :: id in atoms ==> id in simIds
    requires ms != [] && AssignLines(ms, atoms, simIds).Success?
    ensures Declared(ms[|ms| - 1], atoms)
    ensures BlockAt(AssignLines(ms, atoms, simIds).value, BlockStart(ms, |ms| - 1), ms[|ms| - 1], |ms|, atoms, simIds)
  {
    var n := |ms| - 1;
    AssignStep(ms, atoms, simIds);
    var pre := AssignLines(ms[..n], atoms, simIds).value;
    var lines := MemberLines(ms[n], n + 1, atoms, simIds).value;
    MemberLinesContent(ms[n], n + 1, atoms, simIds);
    AssignLinesCount(ms[..n], atoms, simIds);
    BlockAtEnd(pre, lines, ms[n], n + 1, atoms, simIds);
  }

  /** On success the section is the blocks of the molecules in order: block
      `k` starts at `BlockStart(ms, k)` with a blank line, followed by member
      `j` of molecule `k` tagged with molecule number `k + 1`, in the
      molecule's own order. Block `k` covers `1 + |ms[k]|` lines, which is
      where `BlockStart(ms, k + 1)` begins, and by `AssignLinesCount` the
      last one ends the section. */
  lemma {:induction false} AssignLinesLayout(ms: seq<seq<AtomId>>, atoms: map<AtomId, Atom>, simIds: map<AtomId, nat>, k: nat)
    requires forall id :: id in atoms ==> id in simIds
    requires AssignLines(ms, atoms, simIds).Success?
    requires k < |ms|
    ensures Declared(ms[k], atoms)
    ensures BlockAt(AssignLines(ms, atoms, simIds).value, BlockStart(ms, k), ms[k], k + 1, atoms, simIds)
    decreases |ms|
  {
    var n := |ms| - 1;
    if k < n {
      AssignStep(ms, atoms, simIds);
      var pre := AssignLines(ms[..n], atoms, simIds).value;
      var lines := MemberLines(ms[n], n + 1, atoms, simIds).value;
      AssignLinesLayout(ms[..n], atoms, simIds, k);
      BlockStartPrefix(ms, n, k);
      assert ms[..n][k] == ms[k];
      BlockAtPrefix(pre, [Blank], BlockStart(ms, k), ms[k], k + 1, atoms, simIds);
      BlockAtPrefix(pre + [Blank], lines, BlockStart(ms, k), ms[k], k + 1, atoms, simIds);
    } else {
      LastBlock(ms, atoms, simIds);
    }
  }

  /** Member `j` of molecule `k` is the first undeclared member of the first
      molecule that has one. */
  predicate FirstBadMember(ms: seq<seq<AtomId>>, atoms: map<AtomId, Atom>, k: nat, j: nat)
  {
    k < |ms| && AllDeclared(ms, atoms, k) && FirstUndeclared(ms[k], atoms, j)
  }

  lemma FirstBadExtends(ms: seq<seq<AtomId>>, atoms: map<AtomId, Atom>, n: nat, k: nat, j: nat)
    requires n <= |ms| && FirstBadMember(ms[..n], atoms, k, j)
    ensures FirstBadMember(ms, atoms, k, j) && ms[..n][k] == ms[k]
  {
    assert forall i :: 0 <= i < k ==> ms[..n][i] == ms[i];
  }

  /** On failure the loop reports, from the first molecule with an undeclared
      member, the first such member. */
  lemma {:induction false} AssignLinesFailure(ms: seq<seq<AtomId>>, atoms: map<AtomId, Atom>, simIds: map<AtomId, nat>)
    requires forall id :: id in atoms ==> id in simIds
    requires AssignLines(ms, atoms, simIds).Failure?
    ensures exists k: nat, j: nat ::
      FirstBadMember(ms, atoms, k, j) && AssignLines(ms, atoms, simIds).error == UndeclaredAtom(ms[k][j])
    decreases |ms|
  {
    var n := |ms| - 1;
    if AssignLines(ms[..n], atoms, simIds).Failure? {
      AssignLinesFailure(ms[..n], atoms, simIds);
      var k: nat, j: nat :| FirstBadMember(ms[..n], atoms, k, j)
        && AssignLines(ms[..n], atoms, simIds).error == UndeclaredAtom(ms[..n][k][j]);
      FirstBadExtends(ms, atoms, n, k, j);
    } else {
      AssignLinesSucceed(ms[..n], atoms, simIds);
      MemberLinesFailure(ms[n], n + 1, atoms, simIds);
      var j: nat :| FirstUndeclared(ms[n], atoms, j) && MemberLines(ms[n], n + 1, atoms, simIds).error == UndeclaredAtom(ms[n][j]);
      assert AllDeclared(ms, atoms, n);
      assert FirstBadMember(ms, atoms, n, j);
    }
  }

  /** `getCrystal` raises in this order: sizing the box, then converting the
      atom coordinates, then looking up the molecule members; it writes its
      text exactly when none of these fails. */
  lemma OutputErrors(scan: Scan, ms: seq<seq<AtomId>>, parse: Parser)
    requires Keyed(scan.reg)
    ensures Output(scan, ms, parse).Success? <==>
      && Diagonal(scan.cell, parse).Success?
      && AllParse(scan.reg.order, scan.reg.atoms, parse, |scan.reg.order|)
      && AllDeclared(ms, scan.reg.atoms, |ms|)
    ensures Diagonal(scan.cell, parse).Failure? ==> Output(scan, ms, parse) == Failure(Diagonal(scan.cell, parse).error)
    ensures Diagonal(scan.cell, parse).Success? && !AllParse(scan.reg.order, scan.reg.atoms, parse, |scan.reg.order|) ==>
      Output(scan, ms, parse).Failure? && Output(scan, ms, parse).error.InvalidNumber?
    ensures
      && Diagonal(scan.cell, parse).Success?
      && AllParse(scan.reg.order, scan.reg.atoms, parse, |scan.reg.order|)
      && !AllDeclared(ms, scan.reg.atoms, |ms|)
      ==> (Output(scan, ms, parse).Failure? && Output(scan, ms, parse).error.UndeclaredAtom?
        && Output(scan, ms, parse).error.id !in scan.reg.atoms)
  {
    var d := Diagonal(scan.cell, parse);
    if d.Success? {
      var box := d.value;
      CreateLinesSucceed(scan.reg.order, scan.reg.atoms, box, parse);
      AssignLinesSucceed(ms, scan.reg.atoms, scan.reg.simIds);
      if CreateLines(scan.reg.order, scan.reg.atoms, box, parse).Failure? {
        CreateLinesFailure(scan.reg.order, scan.reg.atoms, box, parse);
        var k: nat :| FirstUnparsed(scan.reg.order, scan.reg.atoms, parse, k) &&
          CreateLines(scan.reg.order, scan.reg.atoms, box, parse).error == CreateLine(scan.reg.atoms[scan.reg.order[k]], box, parse).error;
        CreateLineSpec(scan.reg.atoms[scan.reg.order[k]], box, parse);
      } else if AssignLines(ms, scan.reg.atoms, scan.reg.simIds).Failure? {
        AssignLinesFailure(ms, scan.reg.atoms, scan.reg.simIds);
      }
    }
  }

  /** The fixed tail holds neither kind of per-atom directive. */
  lemma TailCounts(box: Box)
    ensures Sets(Tail(box)) == 0 && Creates(Tail(box)) == 0
  {
    var t := Tail(box);
    assert t[..3] == [AtomGroups, Charges, BondCreation];
    assert t[..3][..2] == [AtomGroups, Charges];
    assert t[..3][..2][..1] == [AtomGroups];
    assert t[..3][..2][..1][..0] == [];
    assert Sets([AtomGroups]) == 0 && Creates([AtomGroups]) == 0;
    assert Sets([AtomGroups, Charges]) == 0 && Creates([AtomGroups, Charges]) == 0;
    assert Sets(t[..3]) == 0 && Creates(t[..3]) == 0;
  }

  /** The written text starts with a blank line and the `create_atoms`
      directives of the atoms in declaration order, and ends with a
      `change_box` to the cell diagonal. */
  lemma OutputLayout(scan: Scan, ms: seq<seq<AtomId>>, parse: Parser)
    requires Keyed(scan.reg)
    requires Output(scan, ms, parse).Success?
    ensures Diagonal(scan.cell, parse).Success?
    ensures AllParse(scan.reg.order, scan.reg.atoms, parse, |scan.reg.order|)
    ensures
      var out := Output(scan, ms, parse).value;
      var box := Diagonal(scan.cell, parse).value;
      && |out| == 1 + |scan.reg.order| + |ms| + TotalSize(ms) + 4
      && out[0] == Blank
      && (forall k :: 0 <= k < |scan.reg.order| ==> out[1 + k] == Placed(scan.reg.atoms[scan.reg.order[k]], box, parse))
      && out[|out| - 1] == ChangeBox(box.lx, box.ly, box.lz)
      && out[1 + |scan.reg.order| + |ms| + TotalSize(ms)..] == Tail(box)
  {
    var box := Diagonal(scan.cell, parse).value;
    var creates := CreateLines(scan.reg.order, scan.reg.atoms, box, parse).value;
    var assigns := AssignLines(ms, scan.reg.atoms, scan.reg.simIds).value;
    var out := Output(scan, ms, parse).value;
    CreateLinesContent(scan.reg.order, scan.reg.atoms, box, parse);
    AssignLinesCount(ms, scan.reg.atoms, scan.reg.simIds);
    assert out == [Blank] + creates + assigns + Tail(box);
    forall k | 0 <= k < |scan.reg.order|
      ensures out[1 + k] == Placed(scan.reg.atoms[scan.reg.order[k]], box, parse)
    {
      assert out[1 + k] == creates[k];
    }
  }

  /** The written text holds one `create_atoms` per declared atom and one
      `set atom` per molecule member. */
  lemma OutputCounts(scan: Scan, ms: seq<seq<AtomId>>, parse: Parser)
    requires Keyed(scan.reg)
    requires Output(scan, ms, parse).Success?
    ensures Creates(Output(scan, ms, parse).value) == |scan.reg.order|
    ensures Sets(Output(scan, ms, parse).value) == TotalSize(ms)
  {
    var box := Diagonal(scan.cell, parse).value;
    var creates := CreateLines(scan.reg.order, scan.reg.atoms, box, parse).value;
    var assigns := AssignLines(ms, scan.reg.atoms, scan.reg.simIds).value;
    CreateLinesCount(scan.reg.order, scan.reg.atoms, box, parse);
    AssignLinesCount(ms, scan.reg.atoms, scan.reg.simIds);
    TailCounts(box);
    assert Output(scan, ms, parse).value == [Blank] + creates + assigns + Tail(box);
    CountJoin(creates, assigns, Tail(box));
  }

  lemma CountJoin(a: seq<Directive>, b: seq<Directive>, c: seq<Directive>)
    ensures Sets([Blank] + a + b + c) == Sets(a) + Sets(b) + Sets(c)
    ensures Creates([Blank] + a + b + c) == Creates(a) + Creates(b) + Creates(c)
  {
    CountAppend([Blank] + a + b, c);
    CountAppend([Blank] + a, b);
    CountAppend([Blank], a);
    CountSingle(Blank);
  }

  /** Every member of a block has its `set atom` directive in the text. */
  lemma BlockMember(out: seq<Directive>, p: nat, m: seq<AtomId>, mol: nat, atoms: map<AtomId, Atom>, simIds: map<AtomId, nat>, j: nat)
    requires forall id :: id in atoms ==> id in simIds
    requires Declared(m, atoms)
    requires BlockAt(out, p, m, mol, atoms, simIds)
    requires j < |m|
    ensures m[j] in atoms && m[j] in simIds
    ensures SetMolecule(simIds[m[j]], mol, atoms[m[j]].name) in out
  {
    assert out[p + 1..p + 1 + |m|][j] == out[p + 1 + j];
  }

  /** In the written text the molecule blocks follow the `create_atoms`
      directives: block `k` is a blank line, then one `set atom` per member
      of molecule `k`, in order, tagged with molecule number `k + 1`. */
  lemma OutputBlocks(scan: Scan, ms: seq<seq<AtomId>>, parse: Parser, k: nat)
    requires Keyed(scan.reg)
    requires Output(scan, ms, parse).Success?
    requires k < |ms|
    ensures Declared(ms[k], scan.reg.atoms)
    ensures BlockAt(Output(scan, ms, parse).value, 1 + |scan.reg.order| + BlockStart(ms, k), ms[k], k + 1, scan.reg.atoms, scan.reg.simIds)
  {
    var box := Diagonal(scan.cell, parse).value;
    var creates := CreateLines(scan.reg.order, scan.reg.atoms, box, parse).value;
    var assigns := AssignLines(ms, scan.reg.atoms, scan.reg.simIds).value;
    CreateLinesContent(scan.reg.order, scan.reg.atoms, box, parse);
    AssignLinesLayout(ms, scan.reg.atoms, scan.reg.simIds, k);
    BlockAtShift([Blank] + creates, assigns, Tail(box), BlockStart(ms, k), ms[k], k + 1, scan.reg.atoms, scan.reg.simIds);
  }

  /** Member `j` of molecule `k` gets a `set atom` directive tagging its
      simulation ID with molecule number `k + 1`. */
  lemma OutputTagged(scan: Scan, ms: seq<seq<AtomId>>, parse: Parser, k: nat, j: nat)
    requires Keyed(scan.reg)
    requires Output(scan, ms, parse).Success?
    requires k < |ms| && j < |ms[k]|
    ensures ms[k][j] in scan.reg.atoms && ms[k][j] in scan.reg.simIds
    ensures SetMolecule(scan.reg.simIds[ms[k][j]], k + 1, scan.reg.atoms[ms[k][j]].name) in Output(scan, ms, parse).value
  {
    OutputBlocks(scan, ms, parse, k);
    BlockMember(Output(scan, ms, parse).value, 1 + |scan.reg.order| + BlockStart(ms, k), ms[k], k + 1, scan.reg.atoms, scan.reg.simIds, j);
  }
}
