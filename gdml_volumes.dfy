/**
 * Counting what a GDML document defines: materials by kind, boolean solids
 * and their nesting depth, and logical, physical and touchable volumes.
 */
module GdmlVolumes {
  import opened Wrappers
  import opened PyDict
  import opened GdmlTree
  import opened GdmlSolidRefs

  // ---------------------------------------------------------------------
  // Materials

  datatype MaterialCounts = MaterialCounts(isotope: nat, element: nat, material: nat)

  predicate IsMaterialTag(tag: string)
  {
    tag == "isotope" || tag == "element" || tag == "material"
  }

  /** The number of elements with the tag. */
  function CountTag(es: seq<Element>, tag: string): (n: nat)
    ensures n <= |es|
  {
    if es == [] then 0
    else CountTag(es[..|es| - 1], tag) + (if es[|es| - 1].tag == tag then 1 else 0)
  }

  /** The tag of the first element that is not an isotope, element or material. */
  function UnknownMaterial(es: seq<Element>): (r: Option<string>)
    ensures r.None? <==> forall i :: 0 <= i < |es| ==> IsMaterialTag(es[i].tag)
    ensures r.Some? ==> exists i :: 0 <= i < |es| && es[i].tag == r.value && !IsMaterialTag(r.value)
  {
    if es == [] then None
    else
      var init := es[..|es| - 1];
      assert forall i :: 0 <= i < |init| ==> init[i] == es[i];
      match UnknownMaterial(init)
      case Some(t) => Some(t)
      case None => if IsMaterialTag(es[|es| - 1].tag) then None else Some(es[|es| - 1].tag)
  }

  /** When every child is an isotope, element or material, the three counts add up to all children. */
  lemma {:induction false} CountsPartition(es: seq<Element>)
    requires UnknownMaterial(es).None?
    ensures CountTag(es, "isotope") + CountTag(es, "element") + CountTag(es, "material") == |es|
  {
    if es != [] {
      var init := es[..|es| - 1];
      assert forall i :: 0 <= i < |init| ==> init[i] == es[i];
      CountsPartition(init);
    }
  }

  /**
   * `parse_materials`: the counts of each kind among the children of the
   * first `materials` element; a child of any other kind is a KeyError.
   */
  method ParseMaterials(root: Element) returns (r: Result<MaterialCounts, PyError>)
    ensures First(root, "materials").Err? ==> r == Err(StopIteration)
    ensures First(root, "materials").Ok? ==>
      var cs := First(root, "materials").value.children;
      r == match UnknownMaterial(cs)
        case Some(t) => Err(KeyError(t))
        case None => Ok(MaterialCounts(CountTag(cs, "isotope"), CountTag(cs, "element"), CountTag(cs, "material")))
  {
    var materials := First(root, "materials");
    if materials.Err? {
      return Err(StopIteration);
    }
    var cs := materials.value.children;
    var isotope, element, material := 0, 0, 0;
    for i := 0 to |cs|
      invariant UnknownMaterial(cs[..i]).None?
      invariant isotope == CountTag(cs[..i], "isotope")
      invariant element == CountTag(cs[..i], "element")
      invariant material == CountTag(cs[..i], "material")
    {
      assert cs[..i + 1][..i] == cs[..i];
      var tag := cs[i].tag;
      if tag == "isotope" {
        isotope := isotope + 1;
      } else if tag == "element" {
        element := element + 1;
      } else if tag == "material" {
        material := material + 1;
      } else {
        UnknownPrefix(cs, i + 1);
        return Err(KeyError(tag));
      }
    }
    assert cs[..|cs|] == cs;
    r := Ok(MaterialCounts(isotope, element, material));
  }

  /** The first unknown tag of a prefix is the first unknown tag of the whole list. */
  lemma {:induction false} UnknownPrefix(es: seq<Element>, n: nat)
    requires n <= |es| && UnknownMaterial(es[..n]).Some?
    ensures UnknownMaterial(es) == UnknownMaterial(es[..n])
    decreases |es| - n
  {
    if n < |es| {
      assert es[..n + 1][..n] == es[..n];
      UnknownPrefix(es, n + 1);
    } else {
      assert es[..n] == es;
    }
  }

  // ---------------------------------------------------------------------
  // Child counts

  /** `ChildCount`: direct references, all solids or volumes below (self included), depth. */
  datatype ChildCount = ChildCount(direct: nat, total: nat, maxdepth: nat)

  /** `LEAF_CHILD_COUNT`. */
  const Leaf := ChildCount(0, 1, 0)

  type Counts = Dict<string, ChildCount>

  /** `child_counts.get(ref, LEAF_CHILD_COUNT)`. */
  function Lookup(d: Counts, ref: string): ChildCount
  {
    Get(d, ref, Leaf)
  }

  function SumTotals(d: Counts, refs: seq<string>): nat
  {
    if refs == [] then 0 else SumTotals(d, refs[..|refs| - 1]) + Lookup(d, refs[|refs| - 1]).total
  }

  function MaxDepth(d: Counts, refs: seq<string>): nat
  {
    if refs == [] then 0
    else
      var m := MaxDepth(d, refs[..|refs| - 1]);
      var x := Lookup(d, refs[|refs| - 1]).maxdepth;
      if m >= x then m else x
  }

  /** The count of an item referring to refs: one more level, itself plus everything below. */
  function Aggregate(d: Counts, refs: seq<string>): ChildCount
  {
    ChildCount(|refs|, 1 + SumTotals(d, refs), 1 + MaxDepth(d, refs))
  }

  /** Every recorded count covers at least itself and its direct references, one level deep or more. */
  predicate Consistent(d: Counts)
  {
    forall i :: 0 <= i < |d| ==> d[i].1.total >= 1 + d[i].1.direct && d[i].1.maxdepth >= 1
  }

  lemma LookupTotal(d: Counts, ref: string)
    requires Consistent(d)
    ensures Lookup(d, ref).total >= 1
  {
  }

  /**
   * The maximum depth is reached by some reference and bounds all of them,
   * and with consistent counts each reference adds at least one to the total.
   */
  lemma {:induction false} AggregateSpec(d: Counts, refs: seq<string>)
    requires Consistent(d)
    ensures forall i :: 0 <= i < |refs| ==> Lookup(d, refs[i]).maxdepth <= MaxDepth(d, refs)
    ensures refs != [] ==> exists i :: 0 <= i < |refs| && Lookup(d, refs[i]).maxdepth == MaxDepth(d, refs)
    ensures SumTotals(d, refs) >= |refs|
    ensures Aggregate(d, refs).total >= 1 + Aggregate(d, refs).direct && Aggregate(d, refs).maxdepth >= 1
  {
    if refs != [] {
      var init := refs[..|refs| - 1];
      assert forall i :: 0 <= i < |init| ==> init[i] == refs[i];
      AggregateSpec(d, init);
      LookupTotal(d, refs[|refs| - 1]);
      if init != [] && MaxDepth(d, init) >= Lookup(d, refs[|refs| - 1]).maxdepth {
        var i :| 0 <= i < |init| && Lookup(d, init[i]).maxdepth == MaxDepth(d, init);
        assert Lookup(d, refs[i]).maxdepth == MaxDepth(d, refs);
      }
    }
  }

  /** The inner loop of `parse_solids`, where an unknown solid counts as a leaf. */
  method CountSolidRefs(d: Counts, refs: seq<string>) returns (cc: ChildCount)
    ensures cc == Aggregate(d, refs)
  {
    var indirect, maxdepth, direct := 1, 0, 0;
    for i := 0 to |refs|
      invariant indirect == 1 + SumTotals(d, refs[..i])
      invariant maxdepth == MaxDepth(d, refs[..i])
      invariant direct == i
    {
      assert refs[..i + 1][..i] == refs[..i];
      var c := Lookup(d, refs[i]);
      indirect := indirect + c.total;
      direct := direct + 1;
      maxdepth := if maxdepth >= c.maxdepth then maxdepth else c.maxdepth;
    }
    assert refs[..|refs|] == refs;
    cc := ChildCount(direct, indirect, maxdepth + 1);
  }

  // ---------------------------------------------------------------------
  // Solids

  /** Record a solid's count when it refers to other solids. */
  function RecordSolid(d: Counts, el: Element): Counts
  {
    var refs := GetSolidRefs(el);
    if refs == [] then d else Put(d, el.name, Aggregate(d, refs))
  }

  /** `child_counts` after the given solids. */
  function SolidCounts(es: seq<Element>): Counts
  {
    if es == [] then [] else RecordSolid(SolidCounts(es[..|es| - 1]), es[|es| - 1])
  }

  /** The largest recorded depth, if anything was recorded. */
  function MaxRecordedDepth(d: Counts): (r: Option<nat>)
    ensures r.None? <==> d == []
    ensures r.Some? ==> forall i :: 0 <= i < |d| ==> d[i].1.maxdepth <= r.value
    ensures r.Some? ==> exists i :: 0 <= i < |d| && d[i].1.maxdepth == r.value
  {
    if d == [] then None
    else
      var init := d[..|d| - 1];
      var x := d[|d| - 1].1.maxdepth;
      assert forall i :: 0 <= i < |init| ==> init[i] == d[i];
      match MaxRecordedDepth(init)
      case None => Some(x)
      case Some(m) => Some(if m >= x then m else x)
  }

  datatype SolidsSummary = SolidsSummary(boolSolids: nat, boolMaxDepth: Option<nat>, solids: nat)

  /** The solids' counts are consistent, and a name is recorded exactly when some solid of that name refers to others. */
  lemma SolidCountsSpec(es: seq<Element>, name: string)
    ensures DistinctKeys(SolidCounts(es)) && Consistent(SolidCounts(es))
    ensures Contains(SolidCounts(es), name) <==>
      exists i :: 0 <= i < |es| && es[i].name == name && GetSolidRefs(es[i]) != []
  {
    SolidCountsValid(es);
    SolidCountsContains(es, name);
  }

  lemma {:induction false} SolidCountsValid(es: seq<Element>)
    ensures DistinctKeys(SolidCounts(es)) && Consistent(SolidCounts(es))
  {
    if es != [] {
      SolidCountsValid(es[..|es| - 1]);
      RecordSolidValid(SolidCounts(es[..|es| - 1]), es[|es| - 1]);
    }
  }

  lemma RecordSolidValid(d: Counts, el: Element)
    requires DistinctKeys(d) && Consistent(d)
    ensures DistinctKeys(RecordSolid(d, el)) && Consistent(RecordSolid(d, el))
  {
    var refs := GetSolidRefs(el);
    if refs != [] {
      AggregateSpec(d, refs);
      PutGet(d, el.name, Aggregate(d, refs), el.name, Leaf);
      ConsistentPut(d, el.name, Aggregate(d, refs));
    }
  }

  lemma RecordSolidContains(d: Counts, el: Element, name: string)
    requires DistinctKeys(d)
    ensures Contains(RecordSolid(d, el), name) <==> Contains(d, name) || (el.name == name && GetSolidRefs(el) != [])
  {
    var refs := GetSolidRefs(el);
    if refs != [] {
      PutGet(d, el.name, Aggregate(d, refs), name, Leaf);
    }
  }

  /** Some solid among es has the name and refers to other solids. */
  predicate Recorded(es: seq<Element>, name: string)
  {
    es != [] && (Recorded(es[..|es| - 1], name) || (es[|es| - 1].name == name && GetSolidRefs(es[|es| - 1]) != []))
  }

  lemma {:induction false} RecordedSpec(es: seq<Element>, name: string)
    ensures Recorded(es, name) <==> exists i :: 0 <= i < |es| && es[i].name == name && GetSolidRefs(es[i]) != []
  {
    if es != [] {
      var init := es[..|es| - 1];
      RecordedSpec(init, name);
      ExistsSnoc<Element>(es, init, (e: Element) => e.name == name && GetSolidRefs(e) != []);
    }
  }

  /** Some element of es satisfies p exactly when one of init does or es's last element does. */
  lemma ExistsSnoc<T>(es: seq<T>, init: seq<T>, p: T -> bool)
    requires es != [] && init == es[..|es| - 1]
    ensures (exists i :: 0 <= i < |es| && p(es[i])) <==>
      (exists i :: 0 <= i < |init| && p(init[i])) || p(es[|es| - 1])
  {
    if exists i :: 0 <= i < |es| && p(es[i]) {
      var i :| 0 <= i < |es| && p(es[i]);
      if i < |init| {
        assert init[i] == es[i];
      }
    }
    if exists i :: 0 <= i < |init| && p(init[i]) {
      var i :| 0 <= i < |init| && p(init[i]);
      assert es[i] == init[i];
    }
  }

  lemma {:induction false} SolidCountsRecorded(es: seq<Element>, name: string)
    ensures Contains(SolidCounts(es), name) <==> Recorded(es, name)
  {
    if es != [] {
      var init := es[..|es| - 1];
      SolidCountsRecorded(init, name);
      SolidCountsValid(init);
      RecordSolidContains(SolidCounts(init), es[|es| - 1], name);
    }
  }

  lemma SolidCountsContains(es: seq<Element>, name: string)
    ensures Contains(SolidCounts(es), name) <==>
      exists i :: 0 <= i < |es| && es[i].name == name && GetSolidRefs(es[i]) != []
  {
    SolidCountsRecorded(es, name);
    RecordedSpec(es, name);
  }

  lemma ConsistentPut(d: Counts, k: string, cc: ChildCount)
    requires Consistent(d) && cc.total >= 1 + cc.direct && cc.maxdepth >= 1
    ensures Consistent(Put(d, k, cc))
  {
  }

  /** The body of the `parse_solids` loop for one solid. */
  method RecordSolidRefs(d: Counts, el: Element) returns (d': Counts)
    ensures d' == RecordSolid(d, el)
  {
    d' := d;
    var refs := GetSolidRefs(el);
    if refs != [] {
      var cc := CountSolidRefs(d, refs);
      d' := Put(d, el.name, cc);
    }
  }

  /** The `parse_solids` loop: `child_counts` after all solids, and the last index of `enumerate`. */
  method CountSolids(cs: seq<Element>) returns (childCounts: Counts, numSolids: Option<nat>)
    ensures childCounts == SolidCounts(cs)
    ensures numSolids == if cs == [] then None else Some(|cs| - 1)
  {
    childCounts, numSolids := [], None;
    for i := 0 to |cs|
      invariant childCounts == SolidCounts(cs[..i])
      invariant numSolids == if i == 0 then None else Some(i - 1)
    {
      assert cs[..i + 1][..i] == cs[..i];
      numSolids := Some(i);
      childCounts := RecordSolidRefs(childCounts, cs[i]);
    }
    assert cs[..|cs|] == cs;
  }

  /**
   * `parse_solids`: the number of boolean solids recorded, their largest
   * depth, and the index of the last solid.
   */
  method ParseSolids(root: Element) returns (r: Result<SolidsSummary, PyError>)
    ensures r == Solids(root)
  {
    var solids := First(root, "solids");
    if solids.Err? {
      return Err(StopIteration);
    }
    var cs := solids.value.children;
    var childCounts: Counts, numSolids: Option<nat> := CountSolids(cs);
    var maxDepth := MaxRecordedDepth(childCounts);
    if numSolids.None? {
      return Err(UnboundLocalError);
    }
    r := Ok(SolidsSummary(|childCounts|, maxDepth, numSolids.value));
  }

  /**
   * What `parse_solids` returns or raises: `solids` is the last index of
   * `enumerate`, and an empty `solids` element leaves it unbound.
   */
  function Solids(root: Element): Result<SolidsSummary, PyError>
  {
    match First(root, "solids")
    case Err(e) => Err(e)
    case Ok(solids) =>
      var cs := solids.children;
      if cs == [] then Err(UnboundLocalError)
      else Ok(SolidsSummary(|SolidCounts(cs)|, MaxRecordedDepth(SolidCounts(cs)), |cs| - 1))
  }

  /** As written, `solids` is one less than the number of solids, and no solids at all is an error. */
  lemma SolidsUndercount(root: Element)
    requires First(root, "solids").Ok?
    ensures var cs := First(root, "solids").value.children;
      && (cs == [] <==> Solids(root) == Err(UnboundLocalError))
      && (cs != [] ==> Solids(root).value.solids + 1 == |cs|)
  {
  }

  /** `parse_solids` with `solids` counting the solid elements, as `logical` does in `parse_structure`. */
  function CountedSolids(root: Element): Result<SolidsSummary, PyError>
  {
    match First(root, "solids")
    case Err(e) => Err(e)
    case Ok(solids) =>
      var cs := solids.children;
      Ok(SolidsSummary(|SolidCounts(cs)|, MaxRecordedDepth(SolidCounts(cs)), |cs|))
  }

  /**
   * The corrected count is the number of solid elements, never fewer than the
   * boolean solids recorded, and agrees with `parse_solids` on everything else.
   */
  lemma CountedSolidsSpec(root: Element)
    requires First(root, "solids").Ok?
    ensures var cs := First(root, "solids").value.children;
      var r := CountedSolids(root).value;
      && r.solids == |cs|
      && r.boolSolids <= r.solids
      && (cs != [] ==> Solids(root) == Ok(r.(solids := r.solids - 1)))
  {
    var cs := First(root, "solids").value.children;
    SolidCountsBound(cs);
  }

  /** At most one boolean solid is recorded per solid element. */
  lemma {:induction false} SolidCountsBound(es: seq<Element>)
    ensures |SolidCounts(es)| <= |es|
  {
    if es != [] {
      SolidCountsBound(es[..|es| - 1]);
    }
  }

  /** The maximum depth is present exactly when some solid refers to another. */
  lemma BoolMaxDepthNone(es: seq<Element>)
    ensures MaxRecordedDepth(SolidCounts(es)).None? <==> forall i :: 0 <= i < |es| ==> GetSolidRefs(es[i]) == []
  {
    var d := SolidCounts(es);
    if d != [] {
      SolidCountsSpec(es, d[0].0);
      assert Contains(d, d[0].0);
    } else {
      forall i | 0 <= i < |es|
        ensures GetSolidRefs(es[i]) == []
      {
        SolidCountsSpec(es, es[i].name);
      }
    }
  }

  /** Every recorded solid is at least one level deep, so is the maximum. */
  lemma BoolMaxDepthPositive(es: seq<Element>)
    requires MaxRecordedDepth(SolidCounts(es)).Some?
    ensures MaxRecordedDepth(SolidCounts(es)).value >= 1
  {
    SolidCountsSpec(es, "");
  }

  // ---------------------------------------------------------------------
  // Structure

  /** The first reference without a recorded count, if any. */
  function MissingRef(d: Counts, refs: seq<string>): (r: Option<string>)
    ensures r.None? <==> forall i :: 0 <= i < |refs| ==> Contains(d, refs[i])
    ensures r.Some? ==> !Contains(d, r.value) && r.value in refs
  {
    if refs == [] then None
    else
      var init := refs[..|refs| - 1];
      assert forall i :: 0 <= i < |init| ==> init[i] == refs[i];
      match MissingRef(d, init)
      case Some(x) => Some(x)
      case None => if Contains(d, refs[|refs| - 1]) then None else Some(refs[|refs| - 1])
  }

  lemma {:induction false} MissingPrefix(d: Counts, refs: seq<string>, n: nat)
    requires n <= |refs| && MissingRef(d, refs[..n]).Some?
    ensures MissingRef(d, refs) == MissingRef(d, refs[..n])
    decreases |refs| - n
  {
    if n < |refs| {
      assert refs[..n + 1][..n] == refs[..n];
      MissingPrefix(d, refs, n + 1);
    } else {
      assert refs[..n] == refs;
    }
  }

  /** The inner loop of `parse_structure`: `child_counts[ref]` raises KeyError for a volume not yet seen. */
  method CountVolumeRefs(d: Counts, refs: seq<string>) returns (r: Result<ChildCount, PyError>)
    ensures r == match MissingRef(d, refs)
      case Some(x) => Err(KeyError(x))
      case None => Ok(Aggregate(d, refs))
  {
    var indirect, maxdepth, direct := 1, 0, 0;
    for i := 0 to |refs|
      invariant MissingRef(d, refs[..i]).None?
      invariant indirect == 1 + SumTotals(d, refs[..i])
      invariant maxdepth == MaxDepth(d, refs[..i])
      invariant direct == i
    {
      assert refs[..i + 1][..i] == refs[..i];
      var ref := refs[i];
      if !Contains(d, ref) {
        MissingPrefix(d, refs, i + 1);
        return Err(KeyError(ref));
      }
      var c := Lookup(d, ref);
      indirect := indirect + c.total;
      direct := direct + 1;
      maxdepth := if maxdepth >= c.maxdepth then maxdepth else c.maxdepth;
    }
    assert refs[..|refs|] == refs;
    r := Ok(ChildCount(direct, indirect, maxdepth + 1));
  }

  /** `physvol_refs`: the refs of every `volumeref` within the volume. */
  function PhysvolRefs(el: Element): seq<string>
  {
    Refs(Iter(el, "volumeref"))
  }

  predicate IsVolumeTag(tag: string)
  {
    tag == "volume" || tag == "assembly"
  }

  /** The counters of `parse_structure`. */
  datatype Tally = Tally(counts: Counts, border: nat, skin: nat, physical: nat)

  /** One structure element. */
  function StructureStep(t: Tally, el: Element): Result<Tally, PyError>
  {
    if el.tag == "bordersurface" then Ok(t.(border := t.border + 1))
    else if el.tag == "skinsurface" then Ok(t.(skin := t.skin + 1))
    else if !IsVolumeTag(el.tag) then Err(ValueError(el.tag))
    else
      var refs := PhysvolRefs(el);
      match MissingRef(t.counts, refs)
      case Some(x) => Err(KeyError(x))
      case None =>
        var cc := Aggregate(t.counts, refs);
        Ok(t.(counts := Put(t.counts, el.name, cc), physical := t.physical + cc.direct))
  }

  /** The counters after the given structure elements, or the first error. */
  function StructureTally(es: seq<Element>): Result<Tally, PyError>
  {
    if es == [] then Ok(Tally([], 0, 0, 0))
    else
      match StructureTally(es[..|es| - 1])
      case Err(e) => Err(e)
      case Ok(t) => StructureStep(t, es[|es| - 1])
  }

  datatype StructureSummary = StructureSummary(
    logical: nat, physical: nat, touchable: nat, border: nat, skin: nat, depth: nat)

  /** What `parse_structure` returns or raises for a document. */
  function Structure(root: Element): Result<StructureSummary, PyError>
  {
    match First(root, "structure")
    case Err(e) => Err(e)
    case Ok(structure) =>
      match StructureTally(structure.children)
      case Err(e) => Err(e)
      case Ok(t) => StructureOf(structure.children, t, FindSetupWorld(root))
  }

  /** The outcome of `parse_structure` once the loop over the children cs has left the counters t. */
  function StructureOf(cs: seq<Element>, t: Tally, worlds: seq<Element>): Result<StructureSummary, PyError>
  {
    if cs == [] then Err(UnboundLocalError)
    else if worlds == [] then Err(IndexError)
    else if !Contains(t.counts, worlds[0].ref) then Err(KeyError(worlds[0].ref))
    else
      var cc := Lookup(t.counts, worlds[0].ref);
      Ok(StructureSummary(|cs|, t.physical + 1, cc.total, t.border, t.skin, cc.maxdepth))
  }

  /** `parse_structure`. */
  method ParseStructure(root: Element) returns (r: Result<StructureSummary, PyError>)
    ensures r == Structure(root)
  {
    var structure := First(root, "structure");
    if structure.Err? {
      return Err(StopIteration);
    }
    var cs := structure.value.children;
    var tally, logical := TallyStructure(cs);
    if tally.Err? {
      return Err(tally.error);
    }
    r := SummarizeStructure(root, cs, tally.value, logical);
  }

  /** `parse_structure` after its loop: the logical count, then the world volume's counts. */
  method SummarizeStructure(root: Element, cs: seq<Element>, t: Tally, logical: Option<nat>)
    returns (r: Result<StructureSummary, PyError>)
    requires logical == if cs == [] then None else Some(|cs| - 1)
    ensures r == StructureOf(cs, t, FindSetupWorld(root))
  {
    var childCounts, border, skin, physical := t.counts, t.border, t.skin, t.physical;
    if logical.None? {
      return Err(UnboundLocalError);
    }
    var numLogical := logical.value + 1;
    physical := physical + 1;
    var worlds := FindSetupWorld(root);
    if worlds == [] {
      return Err(IndexError);
    }
    var world := worlds[0];
    if !Contains(childCounts, world.ref) {
      return Err(KeyError(world.ref));
    }
    var cc := Lookup(childCounts, world.ref);
    r := Ok(StructureSummary(numLogical, physical, cc.total, border, skin, cc.maxdepth));
  }

  /** The `parse_structure` loop: the counters after all children, and the last index of `enumerate`. */
  method TallyStructure(cs: seq<Element>) returns (r: Result<Tally, PyError>, logical: Option<nat>)
    ensures r == StructureTally(cs)
    ensures r.Ok? ==> logical == if cs == [] then None else Some(|cs| - 1)
  {
    var childCounts: Counts := [];
    var border: nat, skin: nat, physical: nat := 0, 0, 0;
    logical := None;
    for i := 0 to |cs|
      invariant StructureTally(cs[..i]) == Ok(Tally(childCounts, border, skin, physical))
      invariant logical == if i == 0 then None else Some(i - 1)
    {
      assert cs[..i + 1][..i] == cs[..i];
      logical := Some(i);
      var step := TallyChild(childCounts, border, skin, physical, cs[i]);
      if step.Err? {
        TallyErrorPersists(cs, i + 1);
        return Err(step.error), logical;
      }
      childCounts, border, skin, physical := step.value.counts, step.value.border, step.value.skin, step.value.physical;
    }
    assert cs[..|cs|] == cs;
    r := Ok(Tally(childCounts, border, skin, physical));
  }

  /** One iteration of the `parse_structure` loop, on the counters it updates. */
  method TallyChild(childCounts: Counts, border: nat, skin: nat, physical: nat, el: Element)
    returns (r: Result<Tally, PyError>)
    ensures r == StructureStep(Tally(childCounts, border, skin, physical), el)
  {
    if el.tag == "bordersurface" {
      return Ok(Tally(childCounts, border + 1, skin, physical));
    }
    if el.tag == "skinsurface" {
      return Ok(Tally(childCounts, border, skin + 1, physical));
    }
    if !IsVolumeTag(el.tag) {
      return Err(ValueError(el.tag));
    }
    var counted := CountVolumeRefs(childCounts, PhysvolRefs(el));
    if counted.Err? {
      return Err(counted.error);
    }
    var cc := counted.value;
    r := Ok(Tally(Put(childCounts, el.name, cc), border, skin, physical + cc.direct));
  }

  /** An error in a prefix of the structure is the error of the whole structure. */
  lemma {:induction false} TallyErrorPersists(es: seq<Element>, n: nat)
    requires n <= |es| && StructureTally(es[..n]).Err?
    ensures StructureTally(es) == StructureTally(es[..n])
    decreases |es| - n
  {
    if n < |es| {
      assert es[..n + 1][..n] == es[..n];
      TallyErrorPersists(es, n + 1);
    } else {
      assert es[..n] == es;
    }
  }

  /** The number of volume references summed over the volumes and assemblies. */
  function VolumeRefTotal(es: seq<Element>): nat
  {
    if es == [] then 0
    else VolumeRefTotal(es[..|es| - 1]) + (if IsVolumeTag(es[|es| - 1].tag) then |PhysvolRefs(es[|es| - 1])| else 0)
  }

  /**
   * Without errors the counters are: one border per `bordersurface`, one skin
   * per `skinsurface`, and one physical volume per volume reference.
   */
  lemma {:induction false} StructureTallyCounters(es: seq<Element>)
    requires StructureTally(es).Ok?
    ensures var t := StructureTally(es).value;
      && t.border == CountTag(es, "bordersurface")
      && t.skin == CountTag(es, "skinsurface")
      && t.physical == VolumeRefTotal(es)
  {
    if es != [] {
      var init := es[..|es| - 1];
      var el := es[|es| - 1];
      StructureTallyCounters(init);
      var t := StructureTally(init).value;
      assert StructureTally(es) == StructureStep(t, el);
      assert CountTag(es, "bordersurface") == CountTag(init, "bordersurface") + (if el.tag == "bordersurface" then 1 else 0);
      assert CountTag(es, "skinsurface") == CountTag(init, "skinsurface") + (if el.tag == "skinsurface" then 1 else 0);
      assert VolumeRefTotal(es) == VolumeRefTotal(init) + (if IsVolumeTag(el.tag) then |PhysvolRefs(el)| else 0);
    }
  }

  /** The recorded volume counts keep distinct names and stay consistent. */
  lemma {:induction false} StructureTallyConsistent(es: seq<Element>)
    requires StructureTally(es).Ok?
    ensures DistinctKeys(StructureTally(es).value.counts) && Consistent(StructureTally(es).value.counts)
  {
    if es != [] {
      var init := es[..|es| - 1];
      var el := es[|es| - 1];
      StructureTallyConsistent(init);
      var t := StructureTally(init).value;
      assert StructureTally(es) == StructureStep(t, el);
      if IsVolumeTag(el.tag) {
        var refs := PhysvolRefs(el);
        var cc := Aggregate(t.counts, refs);
        AggregateSpec(t.counts, refs);
        ConsistentPut(t.counts, el.name, cc);
        PutGet(t.counts, el.name, cc, el.name, Leaf);
      }
    }
  }

  /** Without errors every structure element is a volume, an assembly or one of the two surfaces. */
  lemma {:induction false} StructureTallyTags(es: seq<Element>)
    requires StructureTally(es).Ok?
    ensures forall i :: 0 <= i < |es| ==>
      IsVolumeTag(es[i].tag) || es[i].tag == "bordersurface" || es[i].tag == "skinsurface"
  {
    if es != [] {
      var init := es[..|es| - 1];
      assert forall i :: 0 <= i < |init| ==> init[i] == es[i];
      StructureTallyTags(init);
    }
  }

  /** An unrecognised structure tag is the only source of a ValueError. */
  lemma {:induction false} StructureValueError(es: seq<Element>, tag: string)
    requires StructureTally(es) == Err(ValueError(tag))
    ensures !IsVolumeTag(tag) && tag != "bordersurface" && tag != "skinsurface"
    ensures exists i :: 0 <= i < |es| && es[i].tag == tag
  {
    var init := es[..|es| - 1];
    assert forall i :: 0 <= i < |init| ==> init[i] == es[i];
    if StructureTally(init).Err? {
      StructureValueError(init, tag);
    }
  }

  /**
   * On success, `logical` counts every structure child (surfaces included),
   * `physical` is one more than all volume references, and `touchable` and
   * `depth` are the world volume's total and depth.
   */
  lemma StructureSpec(root: Element)
    requires Structure(root).Ok?
    ensures First(root, "structure").Ok?
    ensures var cs := First(root, "structure").value.children;
      var s := Structure(root).value;
      var world := FindSetupWorld(root)[0];
      var t := StructureTally(cs).value;
      && s.logical == |cs|
      && s.physical == 1 + VolumeRefTotal(cs)
      && s.border == CountTag(cs, "bordersurface")
      && s.skin == CountTag(cs, "skinsurface")
      && Contains(t.counts, world.ref)
      && s.touchable == Lookup(t.counts, world.ref).total >= 1
      && s.depth == Lookup(t.counts, world.ref).maxdepth
  {
    var cs := First(root, "structure").value.children;
    StructureTallyCounters(cs);
    StructureTallyConsistent(cs);
  }
}
