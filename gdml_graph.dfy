/**
 * The graph of logical-volume relationships drawn by `gdml-to-dot`: one node
 * per structure element, and an edge, weighted by its multiplicity, from each
 * volume to every volume it places and from each border surface to the
 * volumes of the physical volumes it separates. Every name passes through a
 * pointer replacer first.
 */
module GdmlGraph {
  import opened Wrappers
  import opened PyDict
  import opened GdmlTree
  import opened PointerReplacement

  type Edge = (string, string)

  /** `edges`: a `defaultdict(int)` from (source, destination) to a weight. */
  type Edges = Dict<Edge, nat>

  /** `borders`: a `defaultdict(list)` from a physical-volume name to border-surface names. */
  type Borders = Dict<string, seq<string>>

  /** The state of a graph, with the replacer's `addrs`. */
  datatype GraphState = GraphState(nodes: seq<string>, edges: Edges, borders: Borders, addrs: Addrs)

  const EmptyGraph := GraphState([], [], [], [])

  /** An entry of `borders` is only ever made by appending to it. */
  predicate BordersNonEmpty(b: Borders)
  {
    forall i :: 0 <= i < |b| ==> b[i].1 != []
  }

  predicate GraphValid(g: GraphState)
  {
    AddrsValid(g.addrs) && DistinctKeys(g.edges) && DistinctKeys(g.borders) && BordersNonEmpty(g.borders)
  }

  lemma EmptyGraphValid()
    ensures GraphValid(EmptyGraph)
  {
  }

  // ---------------------------------------------------------------------
  // Names

  /** Rewriting a list of names in turn, the pointer map growing as it goes. */
  function RewriteAll(a: Addrs, ss: seq<string>): (Addrs, seq<string>)
  {
    if ss == [] then (a, [])
    else
      var (b, init) := RewriteAll(a, ss[..|ss| - 1]);
      var (c, t) := Rewrite(b, ss[|ss| - 1]);
      (c, init + [t])
  }

  predicate PointerFree(s: string)
  {
    forall j :: 0 <= j < |s| ==> !MatchAt(s, j)
  }

  /** A name without pointer text is written as it is and leaves the pointer map alone. */
  lemma RewritePlain(a: Addrs, s: string)
    requires PointerFree(s)
    ensures Rewrite(a, s) == (a, s)
  {
    RewriteNoPointer(a, s, 0);
    assert s[0..] == s;
  }

  /** One rewritten name per name; the pointer map only grows; names without pointers are unchanged. */
  lemma {:induction false} RewriteAllSpec(a: Addrs, ss: seq<string>)
    requires AddrsValid(a)
    ensures |RewriteAll(a, ss).1| == |ss|
    ensures AddrsValid(RewriteAll(a, ss).0) && Grows(a, RewriteAll(a, ss).0)
    ensures (forall i :: 0 <= i < |ss| ==> PointerFree(ss[i])) ==> RewriteAll(a, ss) == (a, ss)
  {
    if ss != [] {
      var init := ss[..|ss| - 1];
      assert forall i :: 0 <= i < |init| ==> init[i] == ss[i];
      RewriteAllSpec(a, init);
      var b := RewriteAll(a, init).0;
      RewriteIdempotent(b, ss[|ss| - 1]);
      GrowsTransitive(a, b, Rewrite(b, ss[|ss| - 1]).0);
      if forall i :: 0 <= i < |ss| ==> PointerFree(ss[i]) {
        RewritePlain(b, ss[|ss| - 1]);
        assert init + [ss[|ss| - 1]] == ss;
      }
    }
  }

  /** The edges from u to each of vs. */
  function FromTo(u: string, vs: seq<string>): (r: seq<Edge>)
    ensures |r| == |vs| && forall i :: 0 <= i < |vs| ==> r[i] == (u, vs[i])
  {
    if vs == [] then [] else FromTo(u, vs[..|vs| - 1]) + [(u, vs[|vs| - 1])]
  }

  /** The edges from each of us to v. */
  function ToFrom(us: seq<string>, v: string): (r: seq<Edge>)
    ensures |r| == |us| && forall i :: 0 <= i < |us| ==> r[i] == (us[i], v)
  {
    if us == [] then [] else ToFrom(us[..|us| - 1], v) + [(us[|us| - 1], v)]
  }

  lemma RewriteAllStep(a: Addrs, ss: seq<string>, i: nat)
    requires i < |ss|
    ensures var (b, init) := RewriteAll(a, ss[..i]);
      RewriteAll(a, ss[..i + 1]) == (Rewrite(b, ss[i]).0, init + [Rewrite(b, ss[i]).1])
  {
    assert ss[..i + 1][..i] == ss[..i];
  }

  lemma FromToSnoc(u: string, vs: seq<string>, v: string)
    ensures FromTo(u, vs + [v]) == FromTo(u, vs) + [(u, v)]
  {
    assert (vs + [v])[..|vs|] == vs;
  }

  lemma AppendAllSnoc(b: Borders, ks: seq<string>, k: string, v: string)
    ensures AppendAll(b, ks + [k], v) == Append(AppendAll(b, ks, v), k, v)
  {
    assert (ks + [k])[..|ks|] == ks;
  }

  lemma {:induction false} CountFromTo(u: string, vs: seq<string>, v: string)
    ensures Count(FromTo(u, vs), (u, v)) == Count(vs, v)
  {
    if vs != [] {
      CountFromTo(u, vs[1..], v);
      assert FromTo(u, vs)[1..] == FromTo(u, vs[1..]);
    }
  }

  lemma {:induction false} IncrementAllAppend(d: Edges, xs: seq<Edge>, ys: seq<Edge>)
    ensures IncrementAll(d, xs + ys) == IncrementAll(IncrementAll(d, xs), ys)
    decreases xs
  {
    if xs == [] {
      assert xs + ys == ys;
    } else {
      assert (xs + ys)[0] == xs[0];
      assert (xs + ys)[1..] == xs[1..] + ys;
      IncrementAllAppend(Increment(d, xs[0]), xs[1..], ys);
    }
  }

  // ---------------------------------------------------------------------
  // The graph operations on values

  /** `add_volume`: a node for the element and an edge to each `volumeref`. */
  function AddVolumeSpec(g: GraphState, el: Element): GraphState
  {
    var (a1, pname) := Rewrite(g.addrs, el.name);
    var (a2, dnames) := RewriteAll(a1, Refs(Iter(el, "volumeref")));
    GraphState(g.nodes + [pname], IncrementAll(g.edges, FromTo(pname, dnames)), g.borders, a2)
  }

  /** `self.borders[k].append(v)` on a `defaultdict(list)`. */
  function Append(b: Borders, k: string, v: string): Borders
  {
    Put(b, k, Get(b, k, []) + [v])
  }

  function AppendAll(b: Borders, ks: seq<string>, v: string): Borders
  {
    if ks == [] then b else Append(AppendAll(b, ks[..|ks| - 1], v), ks[|ks| - 1], v)
  }

  /** `add_border`: a node for the surface, recorded against each `physvolref`. */
  function AddBorderSpec(g: GraphState, el: Element): GraphState
  {
    var (a1, pname) := Rewrite(g.addrs, el.name);
    var (a2, dnames) := RewriteAll(a1, Refs(Iter(el, "physvolref")));
    GraphState(g.nodes + [pname], g.edges, AppendAll(g.borders, dnames, pname), a2)
  }

  /** `add_world`: a node for the world volume. */
  function AddWorldSpec(g: GraphState, vrel: Element): GraphState
  {
    var (a1, pname) := Rewrite(g.addrs, vrel.ref);
    g.(nodes := g.nodes + [pname], addrs := a1)
  }

  /** The `replace_borders` loop over physical volumes: the pointer map and the edges to add. */
  function BorderPass(b: Borders, a: Addrs, pvs: seq<Element>): Result<(Addrs, seq<Edge>), PyError>
  {
    if pvs == [] then Ok((a, []))
    else
      match BorderPass(b, a, pvs[..|pvs| - 1])
      case Err(e) => Err(e)
      case Ok((a1, added)) => BorderStep(b, a1, added, pvs[|pvs| - 1])
  }

  /** One physical volume: its recorded borders each gain an edge to the volume it places. */
  function BorderStep(b: Borders, a: Addrs, added: seq<Edge>, pvel: Element): Result<(Addrs, seq<Edge>), PyError>
  {
    var (a1, pvName) := Rewrite(a, pvel.name);
    if !Contains(b, pvName) then Ok((a1, added))
    else
      match First(pvel, "volumeref")
      case Err(e) => Err(e)
      case Ok(vrel) =>
        var (a2, dname) := Rewrite(a1, vrel.ref);
        Ok((a2, added + ToFrom(Get(b, pvName, []), dname)))
  }

  /** `replace_borders`: nothing without borders; otherwise add the border edges and clear `borders`. */
  function ReplaceBordersSpec(g: GraphState, structure: Element): Result<GraphState, PyError>
  {
    if g.borders == [] then Ok(g)
    else
      match BorderPass(g.borders, g.addrs, Iter(structure, "physvol"))
      case Err(e) => Err(e)
      case Ok((a, added)) => Ok(GraphState(g.nodes, IncrementAll(g.edges, added), [], a))
  }

  // ---------------------------------------------------------------------
  // Properties of the operations

  /**
   * `add_volume` appends exactly one node, leaves the borders alone, and adds
   * to each edge from the element the number of times the destination is
   * referenced; other edges keep their weights.
   */
  lemma AddVolumeEdges(g: GraphState, el: Element, e: Edge)
    requires GraphValid(g)
    ensures var (a1, pname) := Rewrite(g.addrs, el.name);
      var (a2, dnames) := RewriteAll(a1, Refs(Iter(el, "volumeref")));
      var h := AddVolumeSpec(g, el);
      && GraphValid(h)
      && Grows(g.addrs, h.addrs)
      && h.nodes == g.nodes + [pname]
      && h.borders == g.borders
      && |dnames| == |Iter(el, "volumeref")|
      && Get<Edge, nat>(h.edges, e, 0) == Get<Edge, nat>(g.edges, e, 0) + (if e.0 == pname then Count(dnames, e.1) else 0)
  {
    var (a1, pname) := Rewrite(g.addrs, el.name);
    RewriteIdempotent(g.addrs, el.name);
    var refs := Refs(Iter(el, "volumeref"));
    RewriteAllSpec(a1, refs);
    GrowsTransitive(g.addrs, a1, RewriteAll(a1, refs).0);
    var dnames := RewriteAll(a1, refs).1;
    IncrementAllCounts(g.edges, FromTo(pname, dnames), e);
    if e.0 == pname {
      CountFromTo(pname, dnames, e.1);
    } else {
      CountOther(pname, dnames, e);
    }
  }

  lemma {:induction false} CountOther(u: string, vs: seq<string>, e: Edge)
    requires e.0 != u
    ensures Count(FromTo(u, vs), e) == 0
  {
    if vs != [] {
      assert FromTo(u, vs)[1..] == FromTo(u, vs[1..]);
      CountOther(u, vs[1..], e);
    }
  }

  /**
   * For names without pointer text, an edge's weight is exactly how many
   * times the volume is referenced from the element.
   */
  lemma AddVolumeMultiplicity(g: GraphState, el: Element, dest: string)
    requires GraphValid(g)
    requires PointerFree(el.name)
    requires forall i :: 0 <= i < |Refs(Iter(el, "volumeref"))| ==> PointerFree(Refs(Iter(el, "volumeref"))[i])
    ensures AddVolumeSpec(g, el).nodes == g.nodes + [el.name]
    ensures Get<Edge, nat>(AddVolumeSpec(g, el).edges, (el.name, dest), 0) ==
      Get<Edge, nat>(g.edges, (el.name, dest), 0) + Count(Refs(Iter(el, "volumeref")), dest)
  {
    RewritePlain(g.addrs, el.name);
    RewriteAllSpec(g.addrs, Refs(Iter(el, "volumeref")));
    AddVolumeEdges(g, el, (el.name, dest));
  }

  function Repeat(v: string, n: nat): (r: seq<string>)
    ensures |r| == n && forall i :: 0 <= i < n ==> r[i] == v
  {
    if n == 0 then [] else Repeat(v, n - 1) + [v]
  }

  lemma {:induction false} CountSnoc(ks: seq<string>, k: string, x: string)
    ensures Count(ks + [k], x) == Count(ks, x) + (if k == x then 1 else 0)
  {
    if ks != [] {
      assert (ks + [k])[1..] == ks[1..] + [k];
      CountSnoc(ks[1..], k, x);
    }
  }

  /**
   * Each referenced physical volume gains the surface's name at the end of
   * its list, once per reference; lists stay non-empty and keys distinct.
   */
  lemma {:induction false} AppendAllSpec(b: Borders, ks: seq<string>, v: string, k: string)
    requires DistinctKeys(b) && BordersNonEmpty(b)
    ensures DistinctKeys(AppendAll(b, ks, v)) && BordersNonEmpty(AppendAll(b, ks, v))
    ensures Get(AppendAll(b, ks, v), k, []) == Get(b, k, []) + Repeat(v, Count(ks, k))
    ensures Contains(AppendAll(b, ks, v), k) <==> Contains(b, k) || k in ks
  {
    if ks != [] {
      var init := ks[..|ks| - 1];
      var last := ks[|ks| - 1];
      assert init + [last] == ks;
      AppendAllSpec(b, init, v, k);
      var b1 := AppendAll(b, init, v);
      PutGet(b1, last, Get(b1, last, []) + [v], k, []);
      CountSnoc(init, last, k);
      AppendNonEmpty(b1, last, v);
    }
  }

  lemma AppendNonEmpty(b: Borders, k: string, v: string)
    requires BordersNonEmpty(b)
    ensures BordersNonEmpty(Append(b, k, v))
  {
  }

  /** `add_border` appends exactly one node and records its name against each physical volume it references. */
  lemma AddBorderBorders(g: GraphState, el: Element, k: string)
    requires GraphValid(g)
    ensures var (a1, pname) := Rewrite(g.addrs, el.name);
      var (a2, dnames) := RewriteAll(a1, Refs(Iter(el, "physvolref")));
      var h := AddBorderSpec(g, el);
      && GraphValid(h)
      && Grows(g.addrs, h.addrs)
      && h.nodes == g.nodes + [pname]
      && h.edges == g.edges
      && Get(h.borders, k, []) == Get(g.borders, k, []) + Repeat(pname, Count(dnames, k))
  {
    var (a1, pname) := Rewrite(g.addrs, el.name);
    RewriteIdempotent(g.addrs, el.name);
    var refs := Refs(Iter(el, "physvolref"));
    RewriteAllSpec(a1, refs);
    GrowsTransitive(g.addrs, a1, RewriteAll(a1, refs).0);
    AppendAllSpec(g.borders, RewriteAll(a1, refs).1, pname, k);
  }

  /** `add_world` appends the world volume as the last node. */
  lemma AddWorldSpecLast(g: GraphState, vrel: Element)
    requires GraphValid(g)
    ensures var h := AddWorldSpec(g, vrel);
      && GraphValid(h) && Grows(g.addrs, h.addrs)
      && |h.nodes| == |g.nodes| + 1
      && h.nodes[..|g.nodes|] == g.nodes
      && h.nodes[|g.nodes|] == Rewrite(g.addrs, vrel.ref).1
      && h.edges == g.edges && h.borders == g.borders
  {
    RewriteIdempotent(g.addrs, vrel.ref);
  }

  /** Every edge the pass adds starts at a recorded border surface. */
  lemma {:induction false} BorderPassSpec(b: Borders, a: Addrs, pvs: seq<Element>)
    requires AddrsValid(a)
    requires BorderPass(b, a, pvs).Ok?
    ensures AddrsValid(BorderPass(b, a, pvs).value.0) && Grows(a, BorderPass(b, a, pvs).value.0)
    ensures forall i :: 0 <= i < |BorderPass(b, a, pvs).value.1| ==>
      exists k :: 0 <= k < |b| && BorderPass(b, a, pvs).value.1[i].0 in b[k].1
  {
    if pvs != [] {
      var pvel := pvs[|pvs| - 1];
      BorderPassSpec(b, a, pvs[..|pvs| - 1]);
      var (a1, added) := BorderPass(b, a, pvs[..|pvs| - 1]).value;
      assert forall i :: 0 <= i < |added| ==> exists k :: 0 <= k < |b| && added[i].0 in b[k].1;
      RewriteIdempotent(a1, pvel.name);
      var (a2, pvName) := Rewrite(a1, pvel.name);
      GrowsTransitive(a, a1, a2);
      if Contains(b, pvName) {
        var vrel := First(pvel, "volumeref").value;
        RewriteIdempotent(a2, vrel.ref);
        var (a3, dname) := Rewrite(a2, vrel.ref);
        GrowsTransitive(a, a2, a3);
        var j := Find(b, pvName).value;
        var bs := Get(b, pvName, []);
        assert bs == b[j].1;
        var added' := added + ToFrom(bs, dname);
        assert BorderPass(b, a, pvs).value == (a3, added');
        forall i | 0 <= i < |added'|
          ensures exists k :: 0 <= k < |b| && added'[i].0 in b[k].1
        {
          if i >= |added| {
            assert added'[i].0 == bs[i - |added|];
            assert added'[i].0 in b[j].1;
          } else {
            assert added'[i] == added[i];
          }
        }
      } else {
        assert BorderPass(b, a, pvs).value == (a2, added);
      }
    }
  }

  /**
   * `replace_borders` with no borders recorded changes nothing. Otherwise it
   * leaves the nodes alone, empties `borders`, and only adds weight to edges
   * that start at a recorded border surface.
   */
  lemma ReplaceBordersEffect(g: GraphState, structure: Element, e: Edge)
    requires GraphValid(g)
    ensures g.borders == [] ==> ReplaceBordersSpec(g, structure) == Ok(g)
    ensures ReplaceBordersSpec(g, structure).Ok? ==>
      var h := ReplaceBordersSpec(g, structure).value;
      && GraphValid(h) && Grows(g.addrs, h.addrs)
      && h.nodes == g.nodes && h.borders == []
      && Get<Edge, nat>(h.edges, e, 0) >= Get<Edge, nat>(g.edges, e, 0)
      && (Get<Edge, nat>(h.edges, e, 0) > Get<Edge, nat>(g.edges, e, 0) ==> exists k :: 0 <= k < |g.borders| && e.0 in g.borders[k].1)
  {
    if g.borders != [] && ReplaceBordersSpec(g, structure).Ok? {
      var pvs := Iter(structure, "physvol");
      BorderPassSpec(g.borders, g.addrs, pvs);
      var (a, added) := BorderPass(g.borders, g.addrs, pvs).value;
      IncrementAllCounts(g.edges, added, e);
      if Count(added, e) > 0 {
        var i := CountPositive(added, e);
        assert added[i].0 == e.0;
      }
    }
  }

  /**
   * The independent count of what the border pass adds to an edge (u, v):
   * for each physical volume recorded in `b` whose first `volumeref` names v,
   * the number of times u is recorded against it.
   */
  function BorderEdgeCount(b: Borders, pvs: seq<Element>, e: Edge): nat
  {
    if pvs == [] then 0
    else
      var p := pvs[|pvs| - 1];
      BorderEdgeCount(b, pvs[..|pvs| - 1], e)
        + (if Contains(b, p.name) && First(p, "volumeref").Ok? && First(p, "volumeref").value.ref == e.1
           then Count(Get(b, p.name, []), e.0) else 0)
  }

  /** Physical volumes whose names, and the names they place, have no pointer text. */
  predicate PlainPhysvols(pvs: seq<Element>)
  {
    forall i :: 0 <= i < |pvs| ==>
      PointerFree(pvs[i].name) && (First(pvs[i], "volumeref").Ok? ==> PointerFree(First(pvs[i], "volumeref").value.ref))
  }

  lemma {:induction false} CountToFrom(us: seq<string>, v: string, e: Edge)
    ensures Count(ToFrom(us, v), e) == if e.1 == v then Count(us, e.0) else 0
  {
    if us != [] {
      assert ToFrom(us, v)[1..] == ToFrom(us[1..], v);
      CountToFrom(us[1..], v, e);
    }
  }

  lemma PlainInit(pvs: seq<Element>)
    requires PlainPhysvols(pvs) && pvs != []
    ensures PlainPhysvols(pvs[..|pvs| - 1])
    ensures PointerFree(pvs[|pvs| - 1].name)
    ensures First(pvs[|pvs| - 1], "volumeref").Ok? ==> PointerFree(First(pvs[|pvs| - 1], "volumeref").value.ref)
  {
    var init := pvs[..|pvs| - 1];
    assert forall i :: 0 <= i < |init| ==> init[i] == pvs[i];
  }

  /** One physical volume with plain names: its edges, or the failure of `next` on its `volumeref`s. */
  lemma BorderStepPlain(b: Borders, a: Addrs, added: seq<Edge>, p: Element, e: Edge)
    requires PointerFree(p.name)
    requires First(p, "volumeref").Ok? ==> PointerFree(First(p, "volumeref").value.ref)
    ensures BorderStep(b, a, added, p).Err? <==> Contains(b, p.name) && First(p, "volumeref").Err?
    ensures BorderStep(b, a, added, p).Ok? ==>
      && BorderStep(b, a, added, p).value.0 == a
      && Count(BorderStep(b, a, added, p).value.1, e) == Count(added, e) +
        (if Contains(b, p.name) && First(p, "volumeref").Ok? && First(p, "volumeref").value.ref == e.1
         then Count(Get(b, p.name, []), e.0) else 0)
  {
    RewritePlain(a, p.name);
    if Contains(b, p.name) && First(p, "volumeref").Ok? {
      var vrel := First(p, "volumeref").value;
      RewritePlain(a, vrel.ref);
      CountAppend(added, ToFrom(Get(b, p.name, []), vrel.ref), e);
      CountToFrom(Get(b, p.name, []), vrel.ref, e);
    }
  }

  /**
   * Over physical volumes with plain names the pass leaves the pointer map
   * alone and adds each edge as often as the reference count says.
   */
  lemma {:induction false} BorderPassPlain(b: Borders, a: Addrs, pvs: seq<Element>, e: Edge)
    requires PlainPhysvols(pvs)
    ensures BorderPass(b, a, pvs).Ok? ==>
      BorderPass(b, a, pvs).value.0 == a && Count(BorderPass(b, a, pvs).value.1, e) == BorderEdgeCount(b, pvs, e)
  {
    if pvs != [] {
      PlainInit(pvs);
      BorderPassPlain(b, a, pvs[..|pvs| - 1], e);
      if BorderPass(b, a, pvs[..|pvs| - 1]).Ok? {
        var (a1, added) := BorderPass(b, a, pvs[..|pvs| - 1]).value;
        BorderStepPlain(b, a1, added, pvs[|pvs| - 1], e);
      }
    }
  }

  /** Some physical volume recorded in `b` has no `volumeref`, so `next` raises on it. */
  predicate Unplaced(b: Borders, pvs: seq<Element>)
  {
    exists i :: 0 <= i < |pvs| && Contains(b, pvs[i].name) && First(pvs[i], "volumeref").Err?
  }

  lemma UnplacedSnoc(b: Borders, pvs: seq<Element>)
    requires pvs != []
    ensures Unplaced(b, pvs) <==>
      Unplaced(b, pvs[..|pvs| - 1]) || (Contains(b, pvs[|pvs| - 1].name) && First(pvs[|pvs| - 1], "volumeref").Err?)
  {
    var init := pvs[..|pvs| - 1];
    if Unplaced(b, pvs) {
      var i :| 0 <= i < |pvs| && Contains(b, pvs[i].name) && First(pvs[i], "volumeref").Err?;
      if i < |init| {
        assert init[i] == pvs[i];
      }
    }
    if Unplaced(b, init) {
      var i :| 0 <= i < |init| && Contains(b, init[i].name) && First(init[i], "volumeref").Err?;
      assert pvs[i] == init[i];
    }
  }

  /** Over physical volumes with plain names the pass fails exactly when a recorded one places no volume. */
  lemma {:induction false} BorderPassPlainErr(b: Borders, a: Addrs, pvs: seq<Element>)
    requires PlainPhysvols(pvs)
    ensures BorderPass(b, a, pvs).Err? <==> Unplaced(b, pvs)
  {
    if pvs != [] {
      var init := pvs[..|pvs| - 1];
      PlainInit(pvs);
      BorderPassPlainErr(b, a, init);
      UnplacedSnoc(b, pvs);
      if BorderPass(b, a, init).Ok? {
        var (a1, added) := BorderPass(b, a, init).value;
        BorderStepPlain(b, a1, added, pvs[|pvs| - 1], ("", ""));
      }
    }
  }

  /**
   * For physical volumes with plain names the count reads the names as
   * written, and `replace_borders` fails exactly when a recorded physical
   * volume places no volume.
   */
  lemma ReplaceBordersPlain(g: GraphState, structure: Element, e: Edge)
    requires GraphValid(g)
    requires PlainPhysvols(Iter(structure, "physvol"))
    ensures ReplaceBordersSpec(g, structure).Ok? ==>
      Get<Edge, nat>(ReplaceBordersSpec(g, structure).value.edges, e, 0) ==
        Get<Edge, nat>(g.edges, e, 0) + (if g.borders == [] then 0 else BorderEdgeCount(g.borders, Iter(structure, "physvol"), e))
    ensures g.borders != [] ==> (ReplaceBordersSpec(g, structure).Err? <==> Unplaced(g.borders, Iter(structure, "physvol")))
  {
    var pvs := Iter(structure, "physvol");
    BorderPassPlain(g.borders, g.addrs, pvs, e);
    BorderPassPlainErr(g.borders, g.addrs, pvs);
    if g.borders != [] {
      assert ReplaceBordersSpec(g, structure).Err? <==> BorderPass(g.borders, g.addrs, pvs).Err?;
      if BorderPass(g.borders, g.addrs, pvs).Ok? {
        var (a, added) := BorderPass(g.borders, g.addrs, pvs).value;
        assert ReplaceBordersSpec(g, structure).value.edges == IncrementAll(g.edges, added);
        IncrementAllCounts(g.edges, added, e);
      }
    }
  }

  /**
   * The count of what the border pass adds to an edge (u, v), reading every
   * name as the pointer table `A` rewrites it: for each physical volume whose
   * rewritten name is recorded in `b` and whose first `volumeref` rewrites to
   * v, the number of times u is recorded against it.
   */
  function BorderEdgeCountIn(b: Borders, A: Addrs, pvs: seq<Element>, e: Edge): nat
  {
    if pvs == [] then 0
    else
      var p := pvs[|pvs| - 1];
      var pvName := Rewrite(A, p.name).1;
      BorderEdgeCountIn(b, A, pvs[..|pvs| - 1], e)
        + (if Contains(b, pvName) && First(p, "volumeref").Ok? && Rewrite(A, First(p, "volumeref").value.ref).1 == e.1
           then Count(Get(b, pvName, []), e.0) else 0)
  }

  /**
   * A successful pass adds each edge exactly as often as the count says,
   * reading the names under the final pointer table or any later one.
   */
  lemma {:induction false} BorderPassCount(b: Borders, a: Addrs, pvs: seq<Element>, A: Addrs, e: Edge)
    requires AddrsValid(a) && AddrsValid(A)
    requires BorderPass(b, a, pvs).Ok? && Grows(BorderPass(b, a, pvs).value.0, A)
    ensures Count(BorderPass(b, a, pvs).value.1, e) == BorderEdgeCountIn(b, A, pvs, e)
  {
    if pvs != [] {
      var init := pvs[..|pvs| - 1];
      BorderPassSpec(b, a, init);
      var (a1, added) := BorderPass(b, a, init).value;
      BorderStepCount(b, a1, added, pvs[|pvs| - 1], A, e);
      BorderPassCount(b, a, init, A, e);
    }
  }

  /** One physical volume of the pass, its names read under any later pointer table. */
  lemma BorderStepCount(b: Borders, a1: Addrs, added: seq<Edge>, p: Element, A: Addrs, e: Edge)
    requires AddrsValid(a1) && AddrsValid(A)
    requires BorderStep(b, a1, added, p).Ok? && Grows(BorderStep(b, a1, added, p).value.0, A)
    ensures Grows(a1, A)
    ensures Count(BorderStep(b, a1, added, p).value.1, e) == Count(added, e) +
      (if Contains(b, Rewrite(A, p.name).1) && First(p, "volumeref").Ok? && Rewrite(A, First(p, "volumeref").value.ref).1 == e.1
       then Count(Get(b, Rewrite(A, p.name).1, []), e.0) else 0)
  {
    RewriteIdempotent(a1, p.name);
    var (a2, pvName) := Rewrite(a1, p.name);
    if Contains(b, pvName) {
      var vrel := First(p, "volumeref").value;
      RewriteIdempotent(a2, vrel.ref);
      var (a3, dname) := Rewrite(a2, vrel.ref);
      GrowsTransitive(a2, a3, A);
      RewriteStable(a2, A, vrel.ref);
      CountAppend(added, ToFrom(Get(b, pvName, []), dname), e);
      CountToFrom(Get(b, pvName, []), dname, e);
    }
    GrowsTransitive(a1, a2, A);
    RewriteStable(a1, A, p.name);
  }

  /**
   * `replace_borders` adds to every edge exactly the count above, the names
   * read under the resulting pointer table: one per border surface recorded
   * against a physical volume placing the edge's destination, and nothing to
   * any other edge.
   */
  lemma ReplaceBordersCount(g: GraphState, structure: Element, e: Edge)
    requires GraphValid(g)
    ensures ReplaceBordersSpec(g, structure).Ok? ==>
      var h := ReplaceBordersSpec(g, structure).value;
      Get<Edge, nat>(h.edges, e, 0) ==
        Get<Edge, nat>(g.edges, e, 0) + (if g.borders == [] then 0 else BorderEdgeCountIn(g.borders, h.addrs, Iter(structure, "physvol"), e))
  {
    if g.borders != [] && ReplaceBordersSpec(g, structure).Ok? {
      var pvs := Iter(structure, "physvol");
      BorderPassSpec(g.borders, g.addrs, pvs);
      var (a, added) := BorderPass(g.borders, g.addrs, pvs).value;
      assert ReplaceBordersSpec(g, structure).value == GraphState(g.nodes, IncrementAll(g.edges, added), [], a);
      BorderPassCount(g.borders, g.addrs, pvs, a, e);
      IncrementAllCounts(g.edges, added, e);
    }
  }

  lemma {:induction false} CountPositive(xs: seq<Edge>, x: Edge) returns (i: nat)
    requires Count(xs, x) > 0
    ensures i < |xs| && xs[i] == x
  {
    if xs[0] == x {
      i := 0;
    } else {
      var j := CountPositive(xs[1..], x);
      i := j + 1;
    }
  }

  // ---------------------------------------------------------------------
  // The mutable graph

  /** `Graph`: its lists and dictionaries, and the pointer replacer it owns. */
  class Graph {
    var nodes: seq<string>
    var edges: Edges
    var borders: Borders
    const replacePointers: PointerReplacer

    function State(): GraphState
      reads this, replacePointers
    {
      GraphState(nodes, edges, borders, replacePointers.addrs)
    }

    constructor()
      ensures State() == EmptyGraph
      ensures fresh(replacePointers)
    {
      nodes := [];
      edges := [];
      borders := [];
      replacePointers := new PointerReplacer();
    }

    /** Rewrite the names of a list in turn, as the loops of the methods below do. */
    method RewriteNames(ss: seq<string>) returns (r: seq<string>)
      requires AddrsValid(replacePointers.addrs)
      modifies replacePointers
      ensures (replacePointers.addrs, r) == RewriteAll(old(replacePointers.addrs), ss)
      ensures AddrsValid(replacePointers.addrs)
    {
      r := [];
      for i := 0 to |ss|
        invariant (replacePointers.addrs, r) == RewriteAll(old(replacePointers.addrs), ss[..i])
        invariant AddrsValid(replacePointers.addrs)
      {
        assert ss[..i + 1][..i] == ss[..i];
        var t := replacePointers.Call(ss[i]);
        r := r + [t];
      }
      assert ss[..|ss|] == ss;
    }

    /** `add_volume`. */
    method AddVolume(el: Element)
      requires GraphValid(State())
      modifies this, replacePointers
      ensures State() == AddVolumeSpec(old(State()), el)
      ensures GraphValid(State())
    {
      var pname := replacePointers.Call(el.name);
      nodes := nodes + [pname];
      var vrels := Iter(el, "volumeref");
      ghost var a1 := replacePointers.addrs;
      ghost var e0 := edges;
      ghost var refs := Refs(vrels);
      ghost var dnames: seq<string> := [];
      for i := 0 to |vrels|
        invariant (replacePointers.addrs, dnames) == RewriteAll(a1, refs[..i])
        invariant AddrsValid(replacePointers.addrs)
        invariant edges == IncrementAll(e0, FromTo(pname, dnames)) && DistinctKeys(edges)
        invariant nodes == old(nodes) + [pname] && borders == old(borders)
      {
        RewriteAllStep(a1, refs, i);
        var dname := AddEdge(pname, vrels[i].ref);
        IncrementAllAppend(e0, FromTo(pname, dnames), [(pname, dname)]);
        FromToSnoc(pname, dnames, dname);
        dnames := dnames + [dname];
      }
      assert refs[..|vrels|] == refs;
      AddVolumeEdges(old(State()), el, ("", ""));
    }

    /** One `volumeref` of `add_volume`: rewrite its name and count the edge. */
    method AddEdge(pname: string, ref: string) returns (dname: string)
      requires AddrsValid(replacePointers.addrs) && DistinctKeys(edges)
      modifies this, replacePointers
      ensures (replacePointers.addrs, dname) == Rewrite(old(replacePointers.addrs), ref)
      ensures AddrsValid(replacePointers.addrs)
      ensures edges == Increment(old(edges), (pname, dname)) && DistinctKeys(edges)
      ensures nodes == old(nodes) && borders == old(borders)
    {
      dname := replacePointers.Call(ref);
      PutGet<Edge, nat>(edges, (pname, dname), Get<Edge, nat>(edges, (pname, dname), 0) + 1, (pname, dname), 0);
      edges := Increment(edges, (pname, dname));
    }

    /** `add_border`. */
    method AddBorder(el: Element)
      requires GraphValid(State())
      modifies this, replacePointers
      ensures State() == AddBorderSpec(old(State()), el)
      ensures GraphValid(State())
    {
      var pname := replacePointers.Call(el.name);
      nodes := nodes + [pname];
      var vrels := Iter(el, "physvolref");
      ghost var a1 := replacePointers.addrs;
      ghost var b0 := borders;
      ghost var refs := Refs(vrels);
      ghost var dnames: seq<string> := [];
      for i := 0 to |vrels|
        invariant (replacePointers.addrs, dnames) == RewriteAll(a1, refs[..i])
        invariant AddrsValid(replacePointers.addrs)
        invariant borders == AppendAll(b0, dnames, pname)
        invariant nodes == old(nodes) + [pname] && edges == old(edges)
      {
        RewriteAllStep(a1, refs, i);
        var dname := AddBorderRef(pname, vrels[i].ref);
        AppendAllSnoc(b0, dnames, dname, pname);
        dnames := dnames + [dname];
      }
      assert refs[..|vrels|] == refs;
      AddBorderBorders(old(State()), el, "");
    }

    /** One `physvolref` of `add_border`: rewrite its name and record the surface against it. */
    method AddBorderRef(pname: string, ref: string) returns (dname: string)
      requires AddrsValid(replacePointers.addrs)
      modifies this, replacePointers
      ensures (replacePointers.addrs, dname) == Rewrite(old(replacePointers.addrs), ref)
      ensures AddrsValid(replacePointers.addrs)
      ensures borders == Append(old(borders), dname, pname)
      ensures nodes == old(nodes) && edges == old(edges)
    {
      dname := replacePointers.Call(ref);
      borders := Append(borders, dname, pname);
    }

    /** `add_world`. */
    method AddWorld(vrel: Element)
      requires GraphValid(State())
      modifies this, replacePointers
      ensures State() == AddWorldSpec(old(State()), vrel)
      ensures GraphValid(State())
    {
      var pname := replacePointers.Call(vrel.ref);
      nodes := nodes + [pname];
    }

    /** `replace_borders`. */
    method ReplaceBorders(structure: Element) returns (r: Result<(), PyError>)
      requires GraphValid(State())
      modifies this, replacePointers
      ensures r.Ok? ==> ReplaceBordersSpec(old(State()), structure) == Ok(State()) && GraphValid(State())
      ensures r.Err? ==> ReplaceBordersSpec(old(State()), structure) == Err(r.error)
    {
      if borders == [] {
        return Ok(());
      }
      var pvels := Iter(structure, "physvol");
      ghost var e0 := edges;
      ghost var added: seq<Edge> := [];
      for i := 0 to |pvels|
        invariant BorderPass(borders, old(replacePointers.addrs), pvels[..i]) == Ok((replacePointers.addrs, added))
        invariant AddrsValid(replacePointers.addrs)
        invariant edges == IncrementAll(e0, added) && DistinctKeys(edges)
        invariant nodes == old(nodes) && borders == old(borders)
      {
        assert pvels[..i + 1][..i] == pvels[..i];
        var step := BorderPhysvol(pvels[i], added);
        if step.Err? {
          BorderPassErr(borders, old(replacePointers.addrs), pvels, i + 1);
          return Err(step.error);
        }
        IncrementAllAppend(e0, added, step.value);
        added := added + step.value;
      }
      assert pvels[..|pvels|] == pvels;
      borders := [];
      ReplaceBordersEffect(old(State()), structure, ("", ""));
      r := Ok(());
    }

    /** The body of the `replace_borders` loop for one physical volume: the edges it adds. */
    method BorderPhysvol(pvel: Element, ghost added: seq<Edge>) returns (r: Result<seq<Edge>, PyError>)
      requires AddrsValid(replacePointers.addrs) && DistinctKeys(edges)
      requires DistinctKeys(borders) && BordersNonEmpty(borders)
      modifies this, replacePointers
      ensures AddrsValid(replacePointers.addrs) && DistinctKeys(edges)
      ensures nodes == old(nodes) && borders == old(borders)
      ensures r.Ok? ==>
        BorderStep(borders, old(replacePointers.addrs), added, pvel) == Ok((replacePointers.addrs, added + r.value)) &&
        edges == IncrementAll(old(edges), r.value)
      ensures r.Err? ==> BorderStep(borders, old(replacePointers.addrs), added, pvel) == Err(r.error)
    {
      var pvName := replacePointers.Call(pvel.name);
      if !Contains(borders, pvName) {
        assert added + [] == added;
        return Ok([]);
      }
      var vrel := First(pvel, "volumeref");
      if vrel.Err? {
        return Err(vrel.error);
      }
      var dname := replacePointers.Call(vrel.value.ref);
      var bs := Get(borders, pvName, []);
      // the source's `assert self.borders[pv_name]`
      assert bs != [] by {
        assert bs == borders[Find(borders, pvName).value].1;
      }
      AddBorderEdges(bs, dname);
      r := Ok(ToFrom(bs, dname));
    }

    /** The innermost loop of `replace_borders`: one edge from each border surface to the volume. */
    method AddBorderEdges(bs: seq<string>, dname: string)
      requires DistinctKeys(edges)
      modifies this
      ensures edges == IncrementAll(old(edges), ToFrom(bs, dname)) && DistinctKeys(edges)
      ensures nodes == old(nodes) && borders == old(borders)
    {
      for j := 0 to |bs|
        invariant edges == IncrementAll(old(edges), ToFrom(bs[..j], dname)) && DistinctKeys(edges)
        invariant nodes == old(nodes) && borders == old(borders)
      {
        assert bs[..j + 1][..j] == bs[..j];
        IncrementAllAppend(old(edges), ToFrom(bs[..j], dname), [(bs[j], dname)]);
        PutGet<Edge, nat>(edges, (bs[j], dname), Get<Edge, nat>(edges, (bs[j], dname), 0) + 1, (bs[j], dname), 0);
        edges := Increment(edges, (bs[j], dname));
      }
      assert bs[..|bs|] == bs;
    }
  }

  lemma {:induction false} BorderPassErr(b: Borders, a: Addrs, pvs: seq<Element>, n: nat)
    requires n <= |pvs| && BorderPass(b, a, pvs[..n]).Err?
    ensures BorderPass(b, a, pvs) == BorderPass(b, a, pvs[..n])
    decreases |pvs| - n
  {
    if n < |pvs| {
      assert pvs[..n + 1][..n] == pvs[..n];
      BorderPassErr(b, a, pvs, n + 1);
    } else {
      assert pvs[..n] == pvs;
    }
  }
}
