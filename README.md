# XSD to LAMMPS crystal import, modelled in Dafny

`XSDtoLMP.py` turns a Materials Studio `.xsd` crystal description into the
LAMMPS directives that rebuild it. `getCrystal` works in three steps, and this
project models each one and proves what it computes.

1. **Line scan.** One forward pass over the lines of the file. Lines that
   contain `UserID` declare atoms. The attributes `ID`, `Name` and `XYZ` are
   read with `getPropertyValue`. The `i`-th such line gets simulation ID `i`.
   Lines that contain `Connects` and not `HBond` add a bond pair. Lines that
   contain `SpaceGroup` give the cell vectors `AVector`, `BVector` and
   `CVector`.
   - `Scanner.ScanSpec` is the scan written as a fold of `Step` over the lines.
   - `Scanner.ScanLines` is the loop itself, with the same variables as the
     source: `atomDict`, `lmpIDxsdIDdict`, the counter `i`, `bondList` and the
     vectors.
2. **Molecule discovery.** `find_molecules` builds an undirected adjacency
   map from the bond list. It then runs a depth-first walk from every atom
   not yet visited, taking the atoms in the map's key order.
   - The walk is `Molecules.Explore`, which uses an explicit stack and a
     visited set.
   - `Molecules.FindMolecules` is proved to return the connected components
     of the bond graph, listed in order of first appearance in the bond list.
   - `Connectivity.ComponentsUnique` shows that this fixes the result
     completely, apart from the order of atoms inside a molecule.
3. **Emission.** The output is one blank line, then one `create_atoms` per
   atom in `atomDict` order. The coordinates are the fractional coordinates
   times the cell diagonal `(aVector[0], bVector[1], cVector[2])`. Next, for
   each molecule `k`, there is a blank line and one `set atom <simId> mol <k>`
   per member. The output ends with the three fixed blocks and a
   `change_box` sized to the diagonal.
   - Each piece written to the buffer is one `Emitter.Directive`.
   - `Emitter.Output` says what is written.
   - `Emitter.Emit` is the writing loop.
   - `Crystal.GetCrystal` puts the three steps together.

Python's exceptions become the `Failure` cases of a `Result`:
- a ValueError from unpacking `XYZ` or `Connects`;
- a NameError when no cell line was seen;
- an IndexError on a short cell vector;
- a ValueError from `float`;
- a KeyError on `atomDict` for a bonded atom that was never declared.

The model keeps these quirks of the source:
- The test `("<Atom3d" and "UserID") in line` is `"UserID" in line`.
- The test `("<Bond" and "Connects") in line` is `"Connects" in line`.
- A missing attribute reads as a single space.
- The counter counts atom lines, not distinct IDs.
- A repeated ID keeps its first position in `atomDict`, but takes the record
  and simulation ID of its last declaration.
- The `continue` on an `HBond` line also skips that line's `SpaceGroup` test.
- The attribute search finds `name="` anywhere in the line, so `ID` also
  matches inside `UserID="…"`. The leftmost occurrence wins.

Modules, one per file:
- `wrappers.dfy`: Option and Result.
- `text.dfy`: substring test and `str.split`.
- `attributes.dfy`: `getPropertyValue`.
- `seqs.dfy`: insertion-ordered key lists.
- `molecules.dfy`: `find_molecules`.
- `connectivity.dfy`: reachability and uniqueness of the components.
- `scanner.dfy`: the line scan.
- `emitter.dfy`: the writes.
- `crystal.dfy`: `getCrystal`.

## Model

| member | source | states |
|---|---|---|
| `Attributes.GetPropertyValueSpec` | XSDtoLMP.py:8-12 | The result is the captured group of the leftmost match of `name="([^"]+)"`. It is exactly `" "` when nothing matches. |
| `Attributes.GetPropertyValueNoQuote` | XSDtoLMP.py:8-12 | The result is never empty and never contains `"`. |
| `Attributes.FirstMatchSpec` | XSDtoLMP.py:9 | The search returns the leftmost matching position. It finds nothing only when no position matches. |
| `Attributes.RunLengthSpec` | XSDtoLMP.py:9 | The captured run `[^"]+` is maximal: it holds no quote, and a quote follows it unless the line ends. |
| `Attributes.AttributeAt` | XSDtoLMP.py:8-12 | If `name="v"` stands at index `i`, with `v` non-empty and quote-free, and no match starts before `i`, then the result is `v`. |
| `Attributes.RenderedAttributeValue` | XSDtoLMP.py:8-12 | A line holding `name="v"` (with `v` non-empty and quote-free) after any prefix in which no match starts, and followed by anything, yields `v`. |
| `Text.ContainsSpec` | XSDtoLMP.py:59-82 | The `in` test used by the scan holds exactly when the pattern occurs at some index. |
| `Text.SplitPieces` | XSDtoLMP.py:62 | No piece of `split(",")` contains a comma. |
| `Text.SplitJoins` | XSDtoLMP.py:62 | Joining the pieces of `split(",")` with commas gives the text back. |
| `Text.SplitCounts` | XSDtoLMP.py:71 | `split(",")` gives one more piece than there are commas, so an unpacking succeeds exactly when the comma count fits. |
| `Text.SplitJoin` | XSDtoLMP.py:71 | Splitting a comma-joined list of comma-free pieces gives the pieces back. |
| `Seqs.DedupMember` | XSDtoLMP.py:63 | The insertion-ordered key list holds exactly the inserted keys. |
| `Seqs.DedupFirstAppearance` | XSDtoLMP.py:40 | Every key is preceded, in the insertion sequence, only by keys listed before it. |
| `Molecules.AddNeighbour` | XSDtoLMP.py:24-25 | `graph[a].add(b)` on a `defaultdict(set)` creates key `a` at the end of the key order if it is missing, and adds `b` to its neighbours without repetition. Other keys are unchanged. |
| `Molecules.BuildGraph` | XSDtoLMP.py:22-25 | The keys are the bond endpoints in first-appearance order (`a1` before `a2`). `b` is a neighbour of `a` exactly when a bond joins them. Adjacency is symmetric and has no repeats. |
| `Molecules.Explore` | XSDtoLMP.py:28-34 | The walk from an unvisited root returns a new molecule. It starts at the root, repeats no atom, avoids every visited atom, is closed under adjacency, and each later member neighbours an earlier one. |
| `Molecules.FindMolecules` | XSDtoLMP.py:15-46 | The molecules partition the bonded atoms: non-empty, disjoint, covering exactly the endpoints. No bond crosses two molecules. Each molecule is connected. Molecule `k` starts with the earliest endpoint not in molecules before it. No bonds gives no molecules. |
| `Connectivity.SameMoleculeIffReachable` | XSDtoLMP.py:28-44 | Two atoms share a molecule exactly when a chain of bonds connects them. |
| `Connectivity.MoleculeOf` | XSDtoLMP.py:40-44 | Every bonded atom is in exactly one molecule. |
| `Connectivity.ComponentsUnique` | XSDtoLMP.py:15-46 | Two molecule lists for the same bonds have the same length. Their `k`-th molecules have the same first atom and the same atoms. |
| `Connectivity.TotalIsEndpoints` | XSDtoLMP.py:97-101 | The molecules list as many atoms in total as there are bonded atoms. |
| `Scanner.ScanLines` | XSDtoLMP.py:52-85 | The loop over the lines yields exactly the fold `ScanSpec`, including its first error. |
| `Scanner.ScanFailure` | XSDtoLMP.py:62-71 | The scan fails exactly when some line is malformed: an atom line whose XYZ does not split in 3, or a non-hydrogen Connects line that does not split in 2. The error names the first such line. |
| `Scanner.StepFailure` | XSDtoLMP.py:59-85 | One loop turn fails exactly on a malformed line, with that line's error. XYZ is checked before Connects. |
| `Scanner.ScanBonds` | XSDtoLMP.py:68-72 | `bondList` is one pair per Connects line that is not an HBond line, in file order. HBond lines add nothing. |
| `Scanner.ScanCell` | XSDtoLMP.py:69-85 | The cell is that of the last `SpaceGroup` line that is not an HBond line. There is none exactly when no such line exists. |
| `Scanner.ScanAtoms` | XSDtoLMP.py:55-65 | After `n` declarations the counter is `n + 1`. The keys of `atomDict` are the distinct IDs in order of first declaration. Each ID maps to the record and 1-based rank of its last declaration. |
| `Scanner.StepAtoms` | XSDtoLMP.py:59-65 | A turn on an atom line records `(ID, record)` and advances the counter. Other lines leave the atom bookkeeping untouched. |
| `Scanner.SimIdsInjective` | XSDtoLMP.py:64-65 | Distinct IDs get distinct simulation IDs. |
| `Emitter.DiagonalSpec` | XSDtoLMP.py:82-90 | No cell line gives the NameError. The diagonal exists exactly when `aVector[0]`, `bVector[1]` and `cVector[2]` exist and are numbers, and it is those three numbers. |
| `Emitter.CreateLineSpec` | XSDtoLMP.py:93 | A `create_atoms` line exists exactly when x, y and z are numbers. It places the atom at each coordinate times the matching side. Otherwise the first bad coordinate is reported. |
| `Emitter.CreateLinesSucceed` | XSDtoLMP.py:92-94 | The atom lines are written exactly when every atom's coordinates are numbers. |
| `Emitter.CreateLinesContent` | XSDtoLMP.py:92-94 | The `k`-th line is the placed `k`-th atom of `atomDict`. |
| `Emitter.CreateLinesCount` | XSDtoLMP.py:92-94 | There is one `create_atoms` per atom and no `set atom`. |
| `Emitter.CreateLinesFailure` | XSDtoLMP.py:92-94 | A failure reports the first atom whose coordinates do not parse. |
| `Emitter.MemberLinesSucceed` | XSDtoLMP.py:99-101 | A molecule is written exactly when all its members are declared. |
| `Emitter.MemberLinesContent` | XSDtoLMP.py:99-101 | Member `j` gets `set atom <its simId> mol <k> #<its Name>`. |
| `Emitter.MemberLinesCount` | XSDtoLMP.py:99-101 | There is one `set atom` per member and nothing else. |
| `Emitter.MemberLinesFailure` | XSDtoLMP.py:100 | A failure is the KeyError of the first undeclared member. |
| `Emitter.AssignLinesSucceed` | XSDtoLMP.py:97-101 | The molecule block is written exactly when every member of every molecule is declared. |
| `Emitter.AssignLinesCount` | XSDtoLMP.py:97-101 | The block has one blank line per molecule plus one `set atom` per member. |
| `Emitter.AssignLinesLayout` | XSDtoLMP.py:97-101 | On success, block `k` starts at position `k + TotalSize(ms[..k])` with a blank line. It is followed by one `set atom` per member of molecule `k`, in the molecule's own order, each with its simulation ID, molecule number `k + 1` and `Name`. Since block `k` is `1 + |ms[k]|` lines and the next starts at `(k + 1) + TotalSize(ms[..k + 1])`, consecutive blocks are contiguous, and with `AssignLinesCount` they fill the whole section. |
| `Emitter.AssignLinesFailure` | XSDtoLMP.py:97-101 | A failure is the KeyError of the first undeclared member, with molecules in order. |
| `Emitter.WriteAtoms` | XSDtoLMP.py:92-94 | The write loop over `atomDict` produces exactly the `create_atoms` lines, or the first error. |
| `Emitter.WriteMolecule` | XSDtoLMP.py:99-101 | The write loop over one molecule produces exactly its `set atom` lines, or the first error. |
| `Emitter.Emit` | XSDtoLMP.py:88-145 | The writes after `find_molecules` produce exactly `Output`: box, atom lines, molecule block and fixed tail, or the first error. |
| `Emitter.OutputErrors` | XSDtoLMP.py:88-101 | The output exists exactly when the box can be sized, all coordinates parse and all bonded atoms are declared. Errors come in that order. An undeclared-atom error names an ID absent from `atomDict`. |
| `Emitter.OutputLayout` | XSDtoLMP.py:90-143 | The output is a blank line, then the placed atoms in `atomDict` order. After the molecule section it ends with exactly the three fixed blocks and `change_box` at the diagonal. Its length is fixed by the counts. |
| `Emitter.OutputBlocks` | XSDtoLMP.py:96-101 | In the output, the block of molecule `k` sits right after the `create_atoms` lines and the blocks before it. It is a blank line, then one `set atom` per member, in order, with molecule number `k + 1`. |
| `Emitter.OutputCounts` | XSDtoLMP.py:92-101 | The output has one `create_atoms` per `atomDict` key and one `set atom` per molecule member. |
| `Emitter.OutputTagged` | XSDtoLMP.py:97-101 | Each member of molecule `k` appears as a `set atom` with its simulation ID and molecule number `k + 1`, as a corollary of `OutputBlocks`. |
| `Emitter.TailCounts` | XSDtoLMP.py:106-143 | The fixed blocks and `change_box` contain no `create_atoms` and no `set atom`. |
| `Crystal.GetCrystal` | XSDtoLMP.py:49-145 | A malformed line fails with its unpacking error. Otherwise the result is `Output` of the scan and of molecules that are the connected components of the file's bonds. |
| `Crystal.CrystalCounts` | XSDtoLMP.py:92-101 | On success there is one `create_atoms` per distinct declared ID and one `set atom` per bonded atom. |
| `Crystal.BondedAtomTagged` | XSDtoLMP.py:60-65 | On success each bonded atom has a molecule and is tagged with that molecule's number under the simulation ID of its last declaration. |
| `Crystal.UndeclaredBondedAtom` | XSDtoLMP.py:100 | A bonded atom that no atom line declares makes the conversion fail. |
| `Crystal.NoCellLine` | XSDtoLMP.py:82-90 | Without a `SpaceGroup` line (outside HBond lines) the conversion fails with the NameError. |

## Left out

- File opening and reading are not modelled, and neither are the two debug
  `print` calls. The input is the sequence of lines, and the output is the
  sequence of written pieces.
- `float(text)` is the parameter `parse` of type `string -> Option<real>`.
  Python's float grammar is not modelled, and products are exact `real`
  products rather than IEEE doubles.
- Text formatting of the output is not modelled. Each write is one
  `Directive`, with its numbers as values. Python's float-to-string
  rendering is not reproduced.
- The three fixed blocks (atom groups, charges, `create_bonds`) are opaque
  constants. Their text is not reproduced.
- The regular expression engine is not modelled. The attribute name is
  matched literally, which agrees with the regex for every name the scan
  uses (all plain letters).
- Molecules.FindMolecules: the order of atoms inside a molecule is not
  pinned down. The source iterates Python `set`s, whose order depends on
  hashing. The adjacency lists are kept in insertion order and walked with
  a stack. Only the first atom of each molecule is fixed.
- Python's recursion limit on deep molecules is not modelled. The walk uses
  an explicit stack.
- `lmpIDxsdIDdict.get(id)` returning `None` is not modelled. The f-string
  on line 100 evaluates it first, and for an undeclared ID it gives `None`.
  The following `atomDict[id]` then raises KeyError before the line is
  written. No text with `None` ever reaches the buffer, so the model
  reports only the KeyError.
- `LammpsScriptBuilder.py` and `Lammps.py` are not part of this model.
