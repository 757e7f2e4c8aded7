# Celeritas regression helpers in Dafny

This project models the algorithmic helpers of the Celeritas regression
repository and proves properties of them.

- **XORWOW jump-ahead tables.** The generator's 160×160 transition matrix
  `T` over GF(2) is built from 32×32 shift blocks. The jump matrices are
  `T^(start·exp^i)`, reduced modulo 2 and packed into 32-bit words, most
  significant column first. The jump polynomials are `z^d mod p(z)`. They
  are computed by bit-serial square-and-multiply on integers whose bit k is
  the coefficient of z^k, and emitted as C array literals. The GF(2) and
  integer matrix operations, the block grid and the polynomial emitter take
  the block size `nb` and block count `nw` as parameters. The jump-matrix
  construction and its packing use the generator's fixed sizes: 32-bit
  blocks, 5 blocks, 160 bits of state. The characteristic polynomial `cp` is
  a parameter.
- **ROOT output helpers.** The process-name table with its two lookups is
  shown to be a bijection with a `not_mapped` fallback. The order on
  sensitive-detector keys is a strict total order. `Array3` indexing is
  covered too.
- **`ProgressIndicator`, counters only.** The class keeps the counters; its
  operator advances them, and the printed percentage is an output.
- **GDML helpers.** The GDML document is an element tree. Each element
  carries its `tag`, its `name` and `ref` attributes, and its children.
  - `PointerReplacer` renumbers pointer suffixes (`0x` followed by at least
    four hex digits) per prefix. The dictionary of dictionaries it updates
    in place is a class field.
  - The solid-reference generators are modelled.
  - The volume statistics of `gdml-volumes.py` count materials, boolean
    solids and structure volumes, with their totals and depths.
  - The graph builders of both `gdml-to-dot.py` scripts are modelled. The
    second adds the world volume. `write_graph` is modelled as the list of
    lines it writes.

Python dictionaries are insertion-ordered association lists without
duplicate keys (`PyDict`). Exceptions the scripts raise on malformed input
are `Err` values of `GdmlTree.PyError`. Operations that loop or mutate are
methods or classes, each proved against a specification function. The
properties are proved about those functions.

Where the code and its comments disagree, the model follows the code:

- `L` is `np.eye(k=1)`, with ones on the superdiagonal. `R` is
  `np.eye(k=-1)`, with ones on the subdiagonal. The docstring words the
  diagonals the other way round.
- Polynomial words are emitted least-significant word first.
- `parse_solids` reports the last `enumerate` index as `solids`. See the
  Findings.

## Model

| member | source | states |
|---|---|---|
| XorwowParams.JumpSizeNext | prng/xorwow-jump.py:157-161 | consecutive jump sizes differ by the factor `exp`: jump size i+1 is jump size i times exp |
| XorwowTransition.ShiftMatrices | rng/xorwow-jump-matrices.py:38-39 | `L` has ones exactly at (i, i+1) and `R` exactly at (i+1, i) on 32×32 |
| XorwowTransition.TBlocks | rng/xorwow-jump-matrices.py:43-53 | every entry of the 160×160 `T` is that of its 32×32 block: block (0,4) is `A = (I+L²)(I+R)`, blocks (1,0), (2,1), (3,2) and (4,3) are `I`, block (4,4) is `B = I+R⁴`, all others zero |
| NumpyMatrix.MatMul | rng/xorwow-jump-matrices.py:43 | the uint32 integer matrix product: entry (i,j) is the row-column dot product wrapped modulo 2^32 |
| NumpyMatrix.MatAdd | rng/xorwow-jump-matrices.py:43-44 | the elementwise integer sum, wrapped modulo 2^32 |
| NumpyMatrix.Rem2Parity | rng/xorwow-jump-matrices.py:70 | `% 2` of an integer matrix is the 0/1 lift of its parity matrix and keeps its parity |
| NumpyMatrix.MatMulParity | rng/xorwow-jump-matrices.py:57-58 | the parity of a wrapped integer product is the GF(2) product of the parities, so `% 2` commutes with multiplication |
| NumpyMatrix.MatAddParity | rng/xorwow-jump-matrices.py:43-44 | the parity of an integer sum is the XOR of the parities |
| NumpyMatrix.EyeParity | rng/xorwow-jump-matrices.py:40 | the parity of `np.identity` is the GF(2) identity |
| NumpyMatrix.MatrixPowerParity | rng/xorwow-jump-matrices.py:57-58 | an integer matrix power followed by `% 2` equals exponentiation over GF(2), XOR being the addition |
| Gf2Matrix.MulAssoc | rng/xorwow-jump-matrices.py:58-70 | the GF(2) matrix product is associative |
| Gf2Matrix.MulIdentityLeft | rng/xorwow-jump-matrices.py:58 | the identity is a left unit of the GF(2) product |
| Gf2Matrix.MulIdentityRight | rng/xorwow-jump-matrices.py:58 | the identity is a right unit of the GF(2) product |
| Gf2Matrix.PowAdd | rng/xorwow-jump-matrices.py:58-70 | `M^a · M^b == M^(a+b)` over GF(2) |
| Gf2Matrix.PowMul | rng/xorwow-jump-matrices.py:58-70 | `(M^a)^b == M^(a·b)`, so raising each entry to `exp` yields `T^(start·exp^(i+1))` |
| XorwowJumpMatrices.JumpMatrixNext | rng/xorwow-jump-matrices.py:70 | jump matrix i+1 is jump matrix i raised to `exp` over GF(2) |
| XorwowJumpMatrices.StartMatrix | rng/xorwow-jump-matrices.py:58 | `matrix_power(T, start) % 2` is the lift of `T^start` over GF(2) |
| XorwowJumpMatrices.NextMatrix | rng/xorwow-jump-matrices.py:70 | `matrix_power(J, exp) % 2` of the lifted jump matrix i is the lifted jump matrix i+1 |
| XorwowJumpMatrices.BitString | rng/xorwow-jump-matrices.py:68 | the joined digit string of a row segment has one character per column, '1' exactly where the bit is set |
| XorwowJumpMatrices.ParseBitString | rng/xorwow-jump-matrices.py:68 | `int(s, 2)` of a row segment's digits is below 2^width, and its first character is the most significant bit |
| XorwowJumpMatrices.WordBits | prng/xorwow-jump.py:85-87 | word (row r, block k) is below 2^32 and its bit 32(k+1)−1−c is the matrix entry at column c, so the first column is the MSB |
| XorwowJumpMatrices.DigitStringLift | rng/xorwow-jump-matrices.py:68 | the digit string of a 0/1 integer row equals the bit string of its GF(2) row |
| XorwowJumpMatrices.PackLift | rng/xorwow-jump-matrices.py:67-69 | parsing the digit string of row r, columns 32k..32k+31 of the integer matrix gives word k of row r of the GF(2) matrix |
| XorwowJumpMatrices.PackRow | rng/xorwow-jump-matrices.py:66-69 | fills the `nw` words of one row of one matrix and changes no other entry |
| XorwowJumpMatrices.PackMatrix | rng/xorwow-jump-matrices.py:62-69 | fills every word of one matrix of the result and changes no other matrix |
| XorwowJumpMatrices.CalcJumpMatrices | rng/xorwow-jump-matrices.py:55-71 | returns a fresh `size×5×32×5` array whose word [m,i,j,k] packs row 32i+j, columns 32k..32k+31 of `T^(start·exp^m)` over GF(2) |
| XorwowJumpMatrices.TableJumpSizes | rng/xorwow-jump-matrices.py:86-92 | the two tables' jump sizes are 4^m and 4^m·2^67 |
| XorwowJumpMatrices.JumpTables | rng/xorwow-jump-matrices.py:86-92 | both tables have 10 entries: `jump` holds T^(4^m) up to T^262144 and `jump_subsequence` holds T^(4^m·2^67), each word packed as above |
| XorwowJumpMatrixText.Decimals | rng/xorwow-jump-matrices.py:80 | one decimal string per word, in order |
| XorwowJumpMatrixText.Contents | rng/xorwow-jump-matrices.py:73-83 | the nested list read from the 4-dimensional result has its shape and its entries |
| XorwowJumpMatrixText.StripRow | rng/xorwow-jump-matrices.py:79-80 | without blanks and braces, a row's text is its decimal words joined by commas |
| XorwowJumpMatrixText.StripBlock | rng/xorwow-jump-matrices.py:77-81 | a block's text, stripped, lists the words of all its rows in order |
| XorwowJumpMatrixText.StripMatrix | rng/xorwow-jump-matrices.py:75-82 | a matrix's text, stripped, lists the words of all its blocks in order |
| XorwowJumpMatrixText.StripTable | rng/xorwow-jump-matrices.py:73-83 | the whole `print_jump_matrices` text, stripped of blanks and braces, is every word of the table in row-major order, decimal, comma separated |
| XorwowJumpPoly.Degree | prng/xorwow-jump.py:117-123 | the degree of the polynomial whose coefficients are the bits of cp: 2^k ≤ cp < 2^(k+1) |
| XorwowJumpPoly.MulZStep | prng/xorwow-jump.py:145-148 | the shift followed by the conditional XOR of `cp` stays below 2^deg and is congruent to z·x modulo cp |
| XorwowJumpPoly.HornerStep | prng/xorwow-jump.py:131-139 | one step of the inner `j` loop keeps `tmp` below 2^deg and takes it from (jp >> (j+1))·jp to (jp >> j)·jp modulo cp, so on exit `tmp ≡ jp·jp` |
| XorwowJumpPoly.SquareMod | prng/xorwow-jump.py:131-139 | the inner `j` loop leaves `tmp` below 2^deg and congruent to jp·jp modulo cp |
| XorwowJumpPoly.MulByZ | prng/xorwow-jump.py:145-148 | multiplying by z keeps jp below 2^deg and congruent to 2·jp, that is z·jp, modulo cp |
| XorwowJumpPoly.SquareMultiply | prng/xorwow-jump.py:129-148 | one iteration of the `i` loop takes jp from z^(jumpSize >> (i+1)) to z^(jumpSize >> i) modulo cp, staying below 2^deg |
| XorwowJumpPoly.SquareStep | prng/xorwow-jump.py:141 | if `tmp ≡ jp·jp` and `jp ≡ z^e`, then `tmp ≡ z^(2e)` modulo cp |
| XorwowJumpPoly.CalcJumpPoly | prng/xorwow-jump.py:109-149 | for cp of degree ≥ 2, the result has degree below deg(cp) and is congruent to z^jumpSize modulo cp; for jumpSize ≤ deg(cp)−1 it is exactly 2^jumpSize (1 for jumpSize 0) |
| XorwowJumpPoly.JumpPolyUnique | prng/xorwow-jump.py:109-149 | the reduced representative of z^d modulo cp is unique, so the result is determined by (cp, d) |
| XorwowJumpPoly.CalcJumpPolys | prng/xorwow-jump.py:151-162 | exactly `size` entries; entry i is the jump polynomial of `start·exp^i`, and exactly 2^(start·exp^i) when that is below the degree |
| Gf2Poly.CMulComm | prng/xorwow-jump.py:131-141 | carry-less multiplication is commutative |
| Gf2Poly.CMulAssoc | prng/xorwow-jump.py:131-141 | carry-less multiplication is associative |
| Gf2Poly.CMulPow2 | prng/xorwow-jump.py:141-148 | z^a · z^b == z^(a+b) |
| Gf2Poly.CongMul | prng/xorwow-jump.py:131-148 | congruence modulo cp is compatible with carry-less multiplication |
| Gf2Poly.CongUnique | prng/xorwow-jump.py:109-149 | two congruent polynomials of degree below deg(cp) are equal |
| XorwowJumpPolyText.PolyWordsLayout | prng/xorwow-jump.py:167-168 | the `[::-1]` word list places bits 32w..32w+31 at position w, least-significant word first, each below 2^32 |
| XorwowJumpPolyText.ParseEach | prng/xorwow-jump.py:168 | each chunk of the binary string is parsed independently, in order |
| XorwowJumpPolyText.CombineGroups | prng/xorwow-jump.py:167-168 | words holding consecutive 32-bit groups recombine into the value |
| XorwowJumpPolyText.PolyWordsRoundTrip | prng/xorwow-jump.py:167-168 | recombining the emitted words gives the jump polynomial back |
| XorwowJumpPolyText.WordTexts | prng/xorwow-jump.py:168 | one text per word, in order |
| XorwowJumpPolyText.PolyEntries | prng/xorwow-jump.py:169-170 | one entry text per jump polynomial, in order |
| XorwowJumpPolyText.WordTextLayout | prng/xorwow-jump.py:168 | each word text is 11 characters: "0x", 8 lower-case hex digits that parse back to the word, and "u" |
| XorwowJumpPolyText.PolyEntryLayout | prng/xorwow-jump.py:164-170 | each entry has exactly 5 words, word w being "0x" + the hex of bits 32w..32w+31 + "u" |
| Text.DecimalRoundTrip | rng/xorwow-jump-matrices.py:80 | a decimal rendering parses back to its number |
| Text.FormatBinaryRoundTrip | prng/xorwow-jump.py:167 | `f'{jp:0160b}'` of a value below 2^160 is its 160 binary digits, which parse back to it |
| Text.ChunkOfDigits | prng/xorwow-jump.py:168 | chunk t of the binary digits is the binary digits of the t-th group of bits, counted from the most significant |
| Text.StripJoin | rng/xorwow-jump-matrices.py:80-83 | removing blanks from a ", " join is the "," join of the parts |
| Text.ParseHexDigits | prng/xorwow-jump.py:168 | the fixed-width hex digits of a value that fits parse back to it |
| ProcessTable.KeysDistinct | geant4-validation-app/src/RootData.hh:249-289 | no two entries of `process_map` share a name |
| ProcessTable.ValuesDistinct | geant4-validation-app/src/RootData.hh:249-289 | no two entries of `process_map` share an identifier |
| ProcessTable.PositionEntry | geant4-validation-app/src/RootData.hh:52-91 | every enumerator of `ProcessId` occurs in the table, with its own name, at its declaration position |
| ProcessTable.NameKeyTableName | geant4-validation-app/src/RootData.hh:249-289 | a decision on length and first and last characters recovers every enumerator from its table name |
| ProcessTable.TableNameInjective | geant4-validation-app/src/RootData.hh:249-289 | two enumerators with the same table name are the same |
| RootData.Find | geant4-validation-app/src/RootData.hh:295-303 | `map::find`: found exactly when an entry has the name, and then it returns that entry's identifier |
| RootData.FindName | geant4-validation-app/src/RootData.hh:309-323 | `find_if` on the identifier: found exactly when an entry has it, and then it returns that entry's name |
| RootData.ToProcessNameIdSpec | geant4-validation-app/src/RootData.hh:295-303 | `to_process_name_id(name) == id` iff (name, id) is a table entry, or id is `not_mapped` and name is no key |
| RootData.EveryIdNamed | geant4-validation-app/src/RootData.hh:309-323 | every identifier is found, so the `"not_mapped"` fallback is never taken |
| RootData.IdRoundTrip | geant4-validation-app/src/RootData.hh:249-323 | `to_process_name_id(to_process_name(p)) == p` for every p |
| RootData.NameRoundTrip | geant4-validation-app/src/RootData.hh:249-323 | for every key s of the table, `to_process_name(to_process_name_id(s)) == s` |
| RootData.NotMappedName | geant4-validation-app/src/RootData.hh:287 | `not_mapped` and "not_mapped" map to each other through the table's own entry |
| RootData.LessStrictTotalOrder | geant4-validation-app/src/RootData.hh:140-144 | `operator<` on `SensDetGdml` is irreflexive, transitive, total and asymmetric |
| RootData.LessByName | geant4-validation-app/src/RootData.hh:140-144 | with different names the order is the string order of the names, whatever the copy numbers |
| RootData.IndexDetermines | geant4-validation-app/src/RootData.hh:29-45 | two `Array3` values are equal iff they agree at the indices 0, 1 and 2 |
| RootData.IndexRoundTrip | geant4-validation-app/src/RootData.hh:29-45 | indices 0, 1, 2 return x, y, z |
| Progress.PercentIncrement | geant4-validation-app/utils/ProgressIndicator.hh:53 | `ceil(100/n)`: the least r ≥ 1 with r·n ≥ 100, and infinity for n = 0 |
| Progress.PercentIncrementOne | geant4-validation-app/utils/ProgressIndicator.hh:53-54 | the increment is 1 exactly when n ≥ 100 |
| Progress.EventsPerPrint | geant4-validation-app/utils/ProgressIndicator.hh:54-56 | at least 1 always; `floor(n/100)` when n ≥ 100, else 1 |
| Progress.InitValid | geant4-validation-app/utils/ProgressIndicator.hh:50-57 | the constructed counters satisfy the invariant, with no calls and no prints |
| Progress.StepValid | geant4-validation-app/utils/ProgressIndicator.hh:64-96 | a call keeps the invariant (calls ≤ entries, 0 ≤ since-print < events-per-print, printed·events-per-print + since-print == calls); it is a no-op once calls == entries; otherwise calls grows by one; it prints iff the threshold is reached, the percentage being printed·increment, and printed grows only then |
| Progress.RunValid | geant4-validation-app/utils/ProgressIndicator.hh:64-96 | after k calls the invariant holds and calls is min(calls + k, entries) |
| Progress.RunFromInit | geant4-validation-app/utils/ProgressIndicator.hh:64-96 | after k calls from construction, printed and since-print are the quotient and remainder of min(k, n) by events-per-print |
| Progress.RunSaturates | geant4-validation-app/utils/ProgressIndicator.hh:66-70 | once calls == entries, any number of further calls changes nothing |
| Progress.PercentOverHundred | geant4-validation-app/utils/ProgressIndicator.hh:53-86 | for 100 ≤ n < 200 the last call prints n percent, above 100 for n > 100 |
| Progress.PrintedPercent | geant4-validation-app/utils/ProgressIndicator.hh:83 | the percentage printed at a call is the number of prints so far times the increment |
| Progress.CorrectedPercent | geant4-validation-app/utils/ProgressIndicator.hh:64-96 | the corrected call keeps the source's counters and prints wherever it prints; from construction every printed percentage is at most 100, and the call counting the n-th entry prints exactly 100, as the line break for `percent == 100` at line 88 expects |
| Progress.CorrectedAgrees | geant4-validation-app/utils/ProgressIndicator.hh:53-86 | for n a positive multiple of 100 the source's call and the corrected call print the same percentages at the same calls |
| Progress.ProgressIndicator.constructor | geant4-validation-app/utils/ProgressIndicator.hh:50-57 | the counters start at the constructor's values and satisfy the invariant |
| Progress.ProgressIndicator.Call | geant4-validation-app/utils/ProgressIndicator.hh:64-96 | `operator()` updates the fields as one counter step and returns the percentage it prints, keeping the invariant |
| PyDict.FindUnique | gdml-query/gdmlutils.py:24-27 | in a dictionary without duplicate keys, a key's entry is the one `Find` returns |
| PyDict.PutGet | gdml-query/gdml-volumes.py:70 | after `d[k] = v`, looking up k gives v and any other key is unchanged |
| PyDict.PutKeys | gdml-query/gdml-volumes.py:70 | assignment keeps keys distinct, appending a new key at the end |
| PyDict.SetDefaultSpec | gdml-query/gdmlutils.py:27 | `setdefault` returns the existing value and changes nothing, or inserts the default at the end and returns it |
| PyDict.IncrementAllCounts | gdml-query/gdml-to-dot.py:34 | `edges[k] += 1` over a list of keys adds to each key its multiplicity in the list |
| PointerReplacement.HexRun | gdml-query/gdmlutils.py:14 | the maximal run of lower-case hex digits from a position |
| PointerReplacement.MatchAtSpec | gdml-query/gdmlutils.py:14 | a match extends over the longest pointer text starting there; where there is none, no pointer text starts |
| PointerReplacement.Pieces | gdml-query/gdmlutils.py:35-36 | the scan's pieces lie within the string |
| PointerReplacement.PiecesTile | gdml-query/gdmlutils.py:35-36 | the matched and copied pieces tile the string in order |
| PointerReplacement.PiecesSound | gdml-query/gdmlutils.py:14-36 | every piece from position i on starts at or after i; a match is a pointer that cannot be extended, and a copied character starts no match |
| PointerReplacement.PiecesSpec | gdml-query/gdmlutils.py:14-36 | only leftmost-longest matches are replaced, and every copied character starts no match |
| PointerReplacement.ReplacementSpec | gdml-query/gdmlutils.py:29-33 | index 0 becomes "" and index k > 0 becomes "@k", which parses back to k |
| PointerReplacement.ReplaceSpec | gdml-query/gdmlutils.py:19-33 | keyed by the unrewritten prefix: a known address returns its earlier index and changes nothing; a new one gets the number of addresses seen behind that prefix; other prefixes are untouched; `addrs` grows |
| PointerReplacement.SubGrows | gdml-query/gdmlutils.py:17-27 | a whole substitution only adds prefixes and addresses, never alters earlier entries |
| PointerReplacement.GrowsKeeps | gdml-query/gdmlutils.py:27 | an address recorded behind a prefix keeps its index in every later state |
| PointerReplacement.SubStable | gdml-query/gdmlutils.py:24-27 | in any later state, substituting the same pieces returns the same text and changes nothing |
| PointerReplacement.RewriteIdempotent | gdml-query/gdmlutils.py:35-36 | calling the replacer twice on the same string gives the same text, and the second call changes nothing |
| PointerReplacement.RewriteStable | gdml-query/gdmlutils.py:35-36 | a string once rewritten is rewritten to the same text by any later pointer table, which it leaves unchanged |
| PointerReplacement.RewriteNoPointer | gdml-query/gdmlutils.py:35-36 | a string without a match is returned unchanged, and `addrs` is untouched |
| PointerReplacement.PointerReplacer.constructor | gdml-query/gdmlutils.py:16-17 | the address table starts empty |
| PointerReplacement.PointerReplacer.Repl | gdml-query/gdmlutils.py:19-33 | `repl` updates `addrs` and returns the text as `Replace` specifies |
| PointerReplacement.PointerReplacer.SubPiece | gdml-to-dot.py:42-43 | one piece of `sub`: a copied character, or the `repl` of a match |
| PointerReplacement.PointerReplacer.Call | gdml-to-dot.py:20-43 | `__call__` returns the rewritten string and leaves the table as `Rewrite` specifies, keeping it valid |
| GdmlTree.First | gdml-query/gdml-volumes.py:29 | `next(iter(tag))` returns an element with that tag within the tree, and raises `StopIteration` exactly when there is none |
| GdmlTree.IterSpec | gdml-query/gdmlutils.py:40 | `iter(tag)` yields exactly the elements with that tag at or below the element |
| GdmlTree.IterAllSpec | gdml-query/gdmlutils.py:59-60 | the iterations over a list of siblings yield exactly the tagged elements within them |
| GdmlTree.Refs | gdml-query/gdml-volumes.py:46-48 | one `ref` per element, in order |
| GdmlTree.ChildrenTagged | gdml-to-dot.py:122 | the children with the tag, in order |
| GdmlTree.FindWorldsSpec | gdml-to-dot.py:122 | `findall("./setup/world")` finds exactly the `world` children of `setup` children of the root |
| GdmlSolidRefs.GetSolidRefs | gdml-query/gdmlutils.py:49-60 | no refs for tags other than `multiUnion`, `union`, `subtraction`, `intersection` |
| GdmlSolidRefs.BooleanSolidRefs | gdml-query/gdmlutils.py:44-60 | for a binary boolean, the refs of its `first`/`second` children in document order |
| GdmlSolidRefs.EachBooleanOperands | gdml-query/gdmlutils.py:44-46 | `boolean_refs` over the children yields the refs of exactly the operand children |
| GdmlSolidRefs.MultiunionSolidRefs | gdml-query/gdmlutils.py:39-60 | for `multiUnion`, a name is yielded iff it is the ref of a `solid` at or below one of its children |
| GdmlSolidRefs.EachMultiunionIter | gdml-query/gdmlutils.py:39-41 | `multiunion_refs` over the children is the refs of their `iter("solid")` |
| GdmlVolumes.CountTag | gdml-query/gdml-volumes.py:31-37 | an element counter is bounded by the number of children |
| GdmlVolumes.UnknownMaterial | gdml-query/gdml-volumes.py:36-37 | the first child whose tag is not `isotope`, `element` or `material`; none iff all are recognised |
| GdmlVolumes.CountsPartition | gdml-query/gdml-volumes.py:31-39 | without an unknown tag the three counts add up to the number of children |
| GdmlVolumes.UnknownPrefix | gdml-query/gdml-volumes.py:36-37 | an unknown tag in a prefix stops the loop there |
| GdmlVolumes.ParseMaterials | gdml-query/gdml-volumes.py:28-39 | `StopIteration` without `materials`; `KeyError` of the first unknown tag; otherwise the three tag counts |
| GdmlVolumes.LookupTotal | gdml-query/gdml-volumes.py:64 | a looked-up child count, recorded or `LEAF`, has total ≥ 1 |
| GdmlVolumes.AggregateSpec | gdml-query/gdml-volumes.py:60-114 | direct is the number of refs; total is 1 + the sum of the referenced totals, at least 1 + direct; maxdepth is 1 + the highest referenced maxdepth, bounding all and attained |
| GdmlVolumes.CountSolidRefs | gdml-query/gdml-volumes.py:60-69 | the inner loop with `.get(ref, LEAF)` computes that aggregate |
| GdmlVolumes.CountSolids | gdml-query/gdml-volumes.py:53-70 | the loop leaves `child_counts` as the specified dictionary and `num_solids` as the last `enumerate` index, unbound for no solids |
| GdmlVolumes.SolidCountsContains | gdml-query/gdml-volumes.py:55-70 | a name is recorded iff some solid with that name references other solids |
| GdmlVolumes.SolidCountsValid | gdml-query/gdml-volumes.py:70 | the recorded names are distinct and every recorded count is consistent |
| GdmlVolumes.SolidCountsSpec | gdml-query/gdml-volumes.py:55-70 | the recorded names are exactly the solids with references, without duplicates, each count consistent |
| GdmlVolumes.ConsistentPut | gdml-query/gdml-volumes.py:70 | recording a consistent count keeps the dictionary consistent |
| GdmlVolumes.RecordSolidRefs | gdml-query/gdml-volumes.py:56-70 | one iteration of the solids loop records the aggregate under the solid's name, or skips a solid without refs |
| GdmlVolumes.MaxRecordedDepth | gdml-query/gdml-volumes.py:72-75 | `None` iff nothing was recorded; otherwise the highest recorded maxdepth, bounding all and attained |
| GdmlVolumes.ParseSolids | gdml-query/gdml-volumes.py:51-81 | the loop returns `parse_solids` as written, including its errors |
| GdmlVolumes.SolidsUndercount | gdml-query/gdml-volumes.py:55-80 | as written, an empty `solids` raises `UnboundLocalError`; otherwise `solids` is one less than the number of solids |
| GdmlVolumes.CountedSolidsSpec | gdml-query/gdml-volumes.py:51-81 | corrected: `solids` is the number of solid elements, at least `bool_solids`; apart from that the result agrees with `parse_solids` |
| GdmlVolumes.SolidCountsBound | gdml-query/gdml-volumes.py:78 | `bool_solids` never exceeds the number of solids |
| GdmlVolumes.BoolMaxDepthNone | gdml-query/gdml-volumes.py:72-75 | `bool_max_depth` is `None` iff no solid references another |
| GdmlVolumes.BoolMaxDepthPositive | gdml-query/gdml-volumes.py:69-73 | a present `bool_max_depth` is at least 1 |
| GdmlVolumes.MissingRef | gdml-query/gdml-volumes.py:109 | the first volumeref not seen yet; none iff all are recorded |
| GdmlVolumes.MissingPrefix | gdml-query/gdml-volumes.py:108-109 | a missing ref in a prefix of the refs is the first missing ref of the whole list |
| GdmlVolumes.CountVolumeRefs | gdml-query/gdml-volumes.py:105-114 | `KeyError` of the first volume not yet seen, otherwise the aggregate of the referenced counts with multiplicity |
| GdmlVolumes.TallyErrorPersists | gdml-query/gdml-volumes.py:93-116 | an error in a prefix of the structure ends the loop with that error |
| GdmlVolumes.StructureTallyCounters | gdml-query/gdml-volumes.py:94-116 | `border` and `skin` count their surface tags; `physical` is the sum of the volumes' direct counts |
| GdmlVolumes.StructureTallyConsistent | gdml-query/gdml-volumes.py:114-115 | every recorded volume count is consistent and the names are distinct |
| GdmlVolumes.StructureTallyTags | gdml-query/gdml-volumes.py:94-103 | a loop that finishes saw only `bordersurface`, `skinsurface`, `volume` and `assembly` |
| GdmlVolumes.StructureValueError | gdml-query/gdml-volumes.py:102-103 | a `ValueError` names the tag of a child that is none of those four |
| GdmlVolumes.TallyChild | gdml-query/gdml-volumes.py:94-116 | one iteration of the `parse_structure` loop: a surface bumps its counter, a volume or assembly is recorded, any other tag is a `ValueError` |
| GdmlVolumes.TallyStructure | gdml-query/gdml-volumes.py:86-116 | the loop returns the specified counters, or the first error, and leaves `logical` as the last `enumerate` index |
| GdmlVolumes.SummarizeStructure | gdml-query/gdml-volumes.py:118-132 | after the loop: `UnboundLocalError` for an empty structure, `IndexError` without a world, `KeyError` for an unknown world volume, otherwise the six counts |
| GdmlVolumes.StructureSpec | gdml-query/gdml-volumes.py:84-132 | on success: logical is the number of structure children; physical is 1 + the direct counts; border and skin count their surfaces; touchable and depth are the world volume's total (≥ 1) and maxdepth |
| GdmlVolumes.ParseStructure | gdml-query/gdml-volumes.py:84-132 | the loop returns `parse_structure`, including `StopIteration`, `ValueError`, `KeyError`, `UnboundLocalError` and `IndexError` |
| GdmlGraph.EmptyGraphValid | gdml-query/gdml-to-dot.py:21-25 | the empty graph is well formed |
| GdmlGraph.RewritePlain | gdml-query/gdml-to-dot.py:30 | a name without pointers passes through the replacer unchanged |
| GdmlGraph.RewriteAllSpec | gdml-query/gdml-to-dot.py:32-33 | rewriting a list of names keeps its length and grows the table; pointer-free names are returned unchanged |
| GdmlGraph.FromTo | gdml-query/gdml-to-dot.py:34 | the edges from one node to each rewritten ref, in order |
| GdmlGraph.ToFrom | gdml-query/gdml-to-dot.py:59-60 | the edges from each border to one volume, in order |
| GdmlGraph.AddVolumeEdges | gdml-query/gdml-to-dot.py:27-34 | `add_volume` appends exactly the rewritten name as a node; an edge from it gains its multiplicity among the rewritten refs, and other edges and the borders are unchanged |
| GdmlGraph.AddVolumeMultiplicity | gdml-to-dot.py:52-59 | for pointer-free names, the weight of (element, ref) grows by the number of times the element references ref |
| GdmlGraph.AppendAllSpec | gdml-query/gdml-to-dot.py:40-42 | each physvol's border list gains the surface name once per reference, in order; keys appear exactly for referenced physvols |
| GdmlGraph.AppendNonEmpty | gdml-query/gdml-to-dot.py:42 | appending keeps every border list non-empty |
| GdmlGraph.AddBorderBorders | gdml-query/gdml-to-dot.py:36-42 | `add_border` appends one node and extends the border lists as above, leaving edges unchanged |
| GdmlGraph.AddWorldSpecLast | gdml-to-dot.py:69-71 | `add_world` appends the rewritten world ref as the last node and changes nothing else but the table |
| GdmlGraph.BorderPassSpec | gdml-query/gdml-to-dot.py:47-60 | the table only grows, and every added edge starts at a recorded border surface |
| GdmlGraph.ReplaceBordersEffect | gdml-query/gdml-to-dot.py:44-62 | a no-op without borders; otherwise nodes unchanged, borders cleared, weights only grow, and an edge that grows starts at a recorded border |
| GdmlGraph.BorderStepPlain | gdml-query/gdml-to-dot.py:48-60 | for plain names, one physical volume adds one edge per border surface recorded against it to the volume its first `volumeref` names, and fails exactly when it is recorded but has no `volumeref` |
| GdmlGraph.BorderPassPlain | gdml-query/gdml-to-dot.py:47-60 | for plain names, the pass adds each edge (u, v) exactly as many times as u is recorded against physical volumes placing v, and leaves the pointer map alone |
| GdmlGraph.BorderPassPlainErr | gdml-query/gdml-to-dot.py:47-53 | for plain names, the pass fails exactly when some recorded physical volume has no `volumeref` |
| GdmlGraph.BorderStepCount | gdml-query/gdml-to-dot.py:48-60 | one physical volume adds one edge per border surface recorded against its rewritten name, to its first `volumeref` as rewritten, the names read under any later pointer table |
| GdmlGraph.BorderPassCount | gdml-query/gdml-to-dot.py:47-60 | a successful pass adds each edge (u, v) exactly as many times as u is recorded against physical volumes placing v, every name read as the final pointer table rewrites it |
| GdmlGraph.ReplaceBordersCount | gdml-query/gdml-to-dot.py:44-62 | on success each edge's new weight is its old weight plus one per (physical volume placing its destination, border surface recorded against that physical volume) pair, names read under the resulting pointer table; every other edge keeps its weight |
| GdmlGraph.ReplaceBordersPlain | gdml-query/gdml-to-dot.py:44-62 | for names without pointer text the same count reads the names as written, and the call fails exactly when a recorded physical volume has no `volumeref` |
| GdmlGraph.BorderPassErr | gdml-query/gdml-to-dot.py:53 | a `StopIteration` on some physvol ends the pass with that error |
| GdmlGraph.Graph.constructor | gdml-query/gdml-to-dot.py:21-25 | an empty graph with a fresh replacer |
| GdmlGraph.Graph.RewriteNames | gdml-query/gdml-to-dot.py:32-33 | rewrites a list of names in order through the shared replacer |
| GdmlGraph.Graph.AddVolume | gdml-query/gdml-to-dot.py:27-34 | the state after `add_volume` is its specification, and stays well formed |
| GdmlGraph.Graph.AddEdge | gdml-query/gdml-to-dot.py:33-34 | one ref: rewrite it and add 1 to the edge |
| GdmlGraph.Graph.AddBorder | gdml-query/gdml-to-dot.py:36-42 | the state after `add_border` is its specification, and stays well formed |
| GdmlGraph.Graph.AddBorderRef | gdml-query/gdml-to-dot.py:41-42 | one physvolref: rewrite it and append the surface to its list |
| GdmlGraph.Graph.AddWorld | gdml-to-dot.py:69-71 | the state after `add_world` is its specification |
| GdmlGraph.Graph.ReplaceBorders | gdml-query/gdml-to-dot.py:44-62 | `replace_borders` as specified, returning its `StopIteration` |
| GdmlGraph.Graph.BorderPhysvol | gdml-query/gdml-to-dot.py:47-60 | one physvol: skipped if it has no borders, else one edge per border to its first volumeref; the `assert` always holds |
| GdmlGraph.Graph.AddBorderEdges | gdml-query/gdml-to-dot.py:59-60 | adds 1 to (border, volume) for each border in order |
| GdmlDot.ReadStructureErr | gdml-query/gdml-to-dot.py:85-91 | a `ValueError` in a prefix of the structure ends the loop with it |
| GdmlDot.BorderPassError | gdml-query/gdml-to-dot.py:53 | the only error of the border pass is `StopIteration` |
| GdmlDot.ReadStructureOk | gdml-query/gdml-to-dot.py:85-91 | the loop succeeds iff every child is `volume`, `assembly`, `skinsurface` or `bordersurface`; otherwise it raises `ValueError` for an unrecognised child's tag |
| GdmlDot.ReadStructureNodes | gdml-query/gdml-to-dot.py:85-91 | one node per structure child, and the graph is well formed |
| GdmlDot.ReadGraphSpecProperties | gdml-query/gdml-to-dot.py:80-94 | a `ValueError` names an unrecognised child; success gives one node per child and no pending borders |
| GdmlDot.DispatchInto | gdml-query/gdml-to-dot.py:86-91 | a volume, assembly or skin surface is added as a volume, a border surface as a border, any other tag is a `ValueError`; the graph stays valid |
| GdmlDot.ReadGraph | gdml-query/gdml-to-dot.py:80-94 | `read_graph` yields a fresh graph in the specified state, or its error |
| GdmlDot.ReadGraphWithWorld | gdml-to-dot.py:109-124 | `read_graph` with `add_world` after `replace_borders`, `IndexError` without a world |
| GdmlDot.WorldWrittenFirst | gdml-to-dot.py:121-133 | the world is the last node, so its line is the first node line written |
| GdmlDot.NodeLines | gdml-query/gdml-to-dot.py:102-103 | one line per node, in the given order |
| GdmlDot.LabelSpec | gdml-query/gdml-to-dot.py:69-72 | the label is "" exactly for weight 1; otherwise "×" followed by the weight, which parses back |
| GdmlDot.EdgeLines | gdml-query/gdml-to-dot.py:106-110 | one line per edge, in insertion order |
| GdmlDot.ZeroPadValue | gdml-query/gdml-to-dot.py:121 | zero padding keeps the number's value |
| GdmlDot.IndexLineNumber | gdml-query/gdml-to-dot.py:121 | the `{idx:04d}` field parses back to the index |
| GdmlDot.Inverted | gdml-query/gdml-to-dot.py:120 | the (index, address) pairs of a prefix, in insertion order |
| GdmlDot.InvertedSorted | gdml-query/gdml-to-dot.py:120 | the pairs are already strictly sorted with indices 0, 1, …, so `sorted` keeps insertion order |
| GdmlDot.IndexLines | gdml-query/gdml-to-dot.py:120-121 | one index line per pair, in order |
| GdmlDot.NodesWrittenReversed | gdml-query/gdml-to-dot.py:101-103 | line 2+i is the node line of node |nodes|−1−i: reverse insertion order |
| GdmlDot.EdgesWrittenInOrder | gdml-query/gdml-to-dot.py:105-112 | edge lines follow the node lines in insertion order, then "}" |
| GdmlDot.PrefixBlockSpec | gdml-query/gdml-to-dot.py:116-121 | a prefix with exactly one address writes nothing; otherwise its header, then one line per index in order |
| GdmlDot.NoPointerTable | gdml-query/gdml-to-dot.py:116-118 | when every prefix has one address, the mapping section is empty |
| GdmlDot.WriteGraph | gdml-query/gdml-to-dot.py:96-121 | the lines `write_graph` writes, as specified |
| GdmlDot.WriteNodes | gdml-query/gdml-to-dot.py:102-103 | the node loop writes the node lines |
| GdmlDot.WriteEdges | gdml-query/gdml-to-dot.py:106-110 | the edge loop writes the edge lines |
| GdmlDot.WritePointers | gdml-query/gdml-to-dot.py:116-121 | the mapping loop writes the pointer lines |
| GdmlDot.WriteIndexLines | gdml-query/gdml-to-dot.py:120-121 | the inner loop writes the index lines |

## Left out

- `calc_char_poly` (sympy `charpoly`) is not modelled. The characteristic polynomial is the parameter `cp`, and the degree ≥ 2 hypothesis (`cp >= 4`) stands in for "monic of degree 160".
- NumpyMatrix.MatrixPower: numpy's `matrix_power` multiplies by repeated squaring. The model multiplies naively, so the intermediate products differ. The final uint32 matrices are equal, because matrix multiplication modulo 2^32 is associative. Only the result modulo 2 is stated.
- `np.block` and `np.zeros` are modelled by the block grid and its flattening (`Blocks`), not by numpy's general broadcasting.
- The jump polynomials are unbounded integers. The source's Python integers are unbounded too.
- Command-line handling, `main`, printing to stdout, and writing files are not modelled. `write_graph` is the list of lines it writes. The emitters are pure string functions.
- ElementTree parsing is not modelled; documents are given as element trees. A missing `name` or `ref` attribute, which would raise `KeyError`, is modelled as the empty string.
- `SensDetScoreData::map_adder` is not modelled. It dereferences an end iterator, which is undefined behaviour with no semantics to model.
- RootData.Find: `std::map` iterates in key order, and `to_process_name`'s `find_if` returns the first match in that order. The model scans the initializer list instead. Identifiers are proved distinct (ProcessTable.ValuesDistinct), so both find the same entry.
- RootData.IndexRoundTrip: indices outside 0..2 reach `__builtin_unreachable`, undefined behaviour, so `Index` requires a valid index.
- `Array3` components are doubles, modelled as reals; only selection is modelled, no arithmetic.
- Progress.PercentIncrement: `ceil(double{100} / n)` is computed exactly, not with double rounding. The double-to-`unsigned long` truncation of `events_per_print_` is modelled as floor. The constructor takes a 64-bit count.
- The stdout printing and flushing of `ProgressIndicator` are not modelled; the percentage is returned instead.
- The `weighted_edges` and `pointer_addresses` properties are plain accessors of `edges` and `addrs`; they are the `edges` field and the replacer's `addrs`.
- The root `gdml-volumes.py` and `gdml-query/boolsolids-to-dot.py` are not part of this model.
- `get_material` is not part of this model.
- The Geant4 geometry builders, run/event/step actions, ROOT I/O and analysis macros are not part of this model.
- GdmlDot.InvertedSorted: Python's `sorted` is not modelled as a sorting algorithm. The pairs of a prefix are proved to be already strictly sorted, so sorting returns them unchanged.

## Findings

| source | as written | input that shows it | evidently intended | confidence | as-written member | corrected member |
|---|---|---|---|---|---|---|
| geant4-validation-app/utils/ProgressIndicator.hh:53-56 | the increment is `ceil(100/n)`, and for 100 ≤ n < 200 `events_per_print_` truncates to 1, so every call prints and the count runs past 100 | n = 150: every call prints, and the last prints 150% | the printed percentage never exceeds 100, and the last call prints 100 | not executed | Progress.PercentOverHundred | Progress.CorrectedPercent |
| gdml-query/gdml-volumes.py:55-80 | `solids` is the last `enumerate` index, one less than the number of solids, and an empty `solids` element raises `UnboundLocalError` | a `solids` element with three children reports `solids` = 2; one with no children raises | `solids` is the number of solid elements, 0 when empty, as `parse_structure` adds one to its index at line 119 | not executed | GdmlVolumes.SolidsUndercount | GdmlVolumes.CountedSolidsSpec |
