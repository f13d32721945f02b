/** `getCrystal`: scan the lines of an .xsd file, group the bonded atoms into
    molecules with `find_molecules`, and write the LAMMPS directives. */
module Crystal {
  import opened Wrappers
  import opened Seqs
  import opened Molecules
  import opened Connectivity
  import opened Scanner
  import opened Emitter

  /** The whole conversion. A malformed line stops it with that line's error;
      otherwise the text is the one written for the scan and the connected
      components of its bonds. */
  method GetCrystal(lines: seq<string>, parse: Parser) returns (r: Result<seq<Directive>, CrystalError>)
    ensures ScanSpec(lines).Failure? ==> r == Failure(Unpacking(ScanSpec(lines).error))
    ensures ScanSpec(lines).Success? ==>
      && Keyed(ScanSpec(lines).value.reg)
      && exists ms :: Components(BondsOf(lines), ms) && r == Output(ScanSpec(lines).value, ms, parse)
  {
    var scanned := ScanLines(lines);
    if scanned.Failure? {
      return Failure(Unpacking(scanned.error));
    }
    var scan := scanned.value;
    ScanAtoms(lines);
    ScanBonds(lines);
    WellFormedKeyed(scan.reg);
    var molecules := FindMolecules(scan.bonds);
    r := Emit(scan, molecules, parse);
  }

  /** After a successful scan the text holds one `create_atoms` per distinct
      declared atom ID and one `set atom ... mol` per bonded atom. */
  lemma CrystalCounts(lines: seq<string>, parse: Parser, ms: seq<seq<AtomId>>)
    requires ScanSpec(lines).Success?
    requires Components(BondsOf(lines), ms)
    ensures Keyed(ScanSpec(lines).value.reg)
    ensures Output(ScanSpec(lines).value, ms, parse).Success? ==>
      var out := Output(ScanSpec(lines).value, ms, parse).value;
      && Creates(out) == |Dedup(Ids(Declarations(lines)))|
      && Sets(out) == |Endpoints(BondsOf(lines))|
  {
    var scan := ScanSpec(lines).value;
    ScanAtoms(lines);
    WellFormedKeyed(scan.reg);
    if Output(scan, ms, parse).Success? {
      OutputCounts(scan, ms, parse);
      TotalIsEndpoints(BondsOf(lines), ms);
    }
  }

  /** Every bonded atom is tagged with the number of the molecule holding it,
      under the simulation ID of its last declaration. */
  lemma BondedAtomTagged(lines: seq<string>, parse: Parser, ms: seq<seq<AtomId>>, a: AtomId) returns (k: nat)
    requires ScanSpec(lines).Success?
    requires Components(BondsOf(lines), ms)
    requires a in Endpoints(BondsOf(lines))
    ensures Keyed(ScanSpec(lines).value.reg)
    ensures k < |ms| && a in ms[k]
    ensures Output(ScanSpec(lines).value, ms, parse).Success? ==>
      var scan := ScanSpec(lines).value;
      && a in scan.reg.atoms && a in scan.reg.simIds
      && LastDeclaration(Declarations(lines), a, scan.reg.simIds[a] as int - 1)
      && SetMolecule(scan.reg.simIds[a], k + 1, scan.reg.atoms[a].name) in Output(scan, ms, parse).value
  {
    var scan := ScanSpec(lines).value;
    ScanAtoms(lines);
    WellFormedKeyed(scan.reg);
    k := MoleculeOf(BondsOf(lines), ms, a);
    if Output(scan, ms, parse).Success? {
      var j :| 0 <= j < |ms[k]| && ms[k][j] == a;
      OutputTagged(scan, ms, parse, k, j);
    }
  }

  /** A bonded atom that no atom line declares makes the conversion fail. */
  lemma UndeclaredBondedAtom(lines: seq<string>, parse: Parser, ms: seq<seq<AtomId>>, a: AtomId)
    requires ScanSpec(lines).Success?
    requires Components(BondsOf(lines), ms)
    requires a in Endpoints(BondsOf(lines)) && a !in Ids(Declarations(lines))
    ensures Keyed(ScanSpec(lines).value.reg)
    ensures Output(ScanSpec(lines).value, ms, parse).Failure?
  {
    var scan := ScanSpec(lines).value;
    ScanAtoms(lines);
    WellFormedKeyed(scan.reg);
    var k := MoleculeOf(BondsOf(lines), ms, a);
    var j :| 0 <= j < |ms[k]| && ms[k][j] == a;
    assert a !in scan.reg.atoms;
    assert !Declared(ms[k], scan.reg.atoms);
    OutputErrors(scan, ms, parse);
  }

  /** Without a cell line (one that is not a hydrogen-bond line) the box
      cannot be sized and the conversion fails. */
  lemma NoCellLine(lines: seq<string>, parse: Parser, ms: seq<seq<AtomId>>)
    requires ScanSpec(lines).Success?
    requires forall n :: 0 <= n < |lines| ==> !(IsCellLine(lines[n]) && !IsHBondLine(lines[n]))
    ensures Keyed(ScanSpec(lines).value.reg)
    ensures Output(ScanSpec(lines).value, ms, parse) == Failure(NoSpaceGroup)
  {
    ScanAtoms(lines);
    WellFormedKeyed(ScanSpec(lines).value.reg);
    ScanCell(lines);
    OutputErrors(ScanSpec(lines).value, ms, parse);
  }
}
