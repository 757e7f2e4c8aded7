/**
 * Reading a GDML structure into a volume graph, and the GraphViz text
 * written for it: the nodes last-first, the edges in insertion order with a
 * multiplicity label, and the table of renumbered pointers.
 */
module GdmlDot {
  import opened Wrappers
  import opened PyDict
  import opened Text
  import opened GdmlTree
  import opened PointerReplacement
  import opened GdmlGraph

  // ---------------------------------------------------------------------
  // Reading

  /** `lvref_tags`. */
  predicate IsLvrefTag(tag: string)
  {
    tag == "volume" || tag == "assembly" || tag == "skinsurface"
  }

  predicate IsRecognised(tag: string)
  {
    IsLvrefTag(tag) || tag == "bordersurface"
  }

  /** The dispatch of `read_graph` on one structure element. */
  function Dispatch(g: GraphState, el: Element): Result<GraphState, PyError>
  {
    if IsLvrefTag(el.tag) then Ok(AddVolumeSpec(g, el))
    else if el.tag == "bordersurface" then Ok(AddBorderSpec(g, el))
    else Err(ValueError(el.tag))
  }

  /** The graph after the given structure elements, or the first error. */
  function ReadStructure(es: seq<Element>): Result<GraphState, PyError>
  {
    if es == [] then Ok(EmptyGraph)
    else
      match ReadStructure(es[..|es| - 1])
      case Err(e) => Err(e)
      case Ok(g) => Dispatch(g, es[|es| - 1])
  }

  /** `read_graph` of gdml-query/gdml-to-dot.py. */
  function ReadGraphSpec(root: Element): Result<GraphState, PyError>
  {
    match First(root, "structure")
    case Err(e) => Err(e)
    case Ok(structure) =>
      match ReadStructure(structure.children)
      case Err(e) => Err(e)
      case Ok(g) => ReplaceBordersSpec(g, structure)
  }

  /** `read_graph` of the top-level gdml-to-dot.py: the same, then the world volume. */
  function ReadGraphWorldSpec(root: Element): Result<GraphState, PyError>
  {
    match ReadGraphSpec(root)
    case Err(e) => Err(e)
    case Ok(g) =>
      var worlds := FindSetupWorld(root);
      if worlds == [] then Err(IndexError) else Ok(AddWorldSpec(g, worlds[0]))
  }

  lemma {:induction false} ReadStructureErr(es: seq<Element>, n: nat)
    requires n <= |es| && ReadStructure(es[..n]).Err?
    ensures ReadStructure(es) == ReadStructure(es[..n])
    decreases |es| - n
  {
    if n < |es| {
      assert es[..n + 1][..n] == es[..n];
      ReadStructureErr(es, n + 1);
    } else {
      assert es[..n] == es;
    }
  }

  /** `read_graph` of gdml-query/gdml-to-dot.py, on a fresh `Graph`. */
  method ReadGraph(root: Element) returns (r: Result<Graph, PyError>)
    ensures r.Ok? ==> fresh(r.value) && fresh(r.value.replacePointers)
    ensures r.Ok? ==> ReadGraphSpec(root) == Ok(r.value.State()) && GraphValid(r.value.State())
    ensures r.Err? ==> ReadGraphSpec(root) == Err(r.error)
  {
    var structure := First(root, "structure");
    if structure.Err? {
      return Err(structure.error);
    }
    var g := new Graph();
    EmptyGraphValid();
    var cs := structure.value.children;
    for i := 0 to |cs|
      invariant fresh(g) && fresh(g.replacePointers)
      invariant ReadStructure(cs[..i]) == Ok(g.State()) && GraphValid(g.State())
    {
      assert cs[..i + 1][..i] == cs[..i];
      var dispatched := DispatchInto(g, cs[i]);
      if dispatched.Err? {
        ReadStructureErr(cs, i + 1);
        return Err(dispatched.error);
      }
    }
    assert cs[..|cs|] == cs;
    var replaced := g.ReplaceBorders(structure.value);
    if replaced.Err? {
      return Err(replaced.error);
    }
    r := Ok(g);
  }

  /** One iteration of the `read_graph` loop: send the element to its `Graph` method. */
  method DispatchInto(g: Graph, el: Element) returns (r: Result<(), PyError>)
    requires GraphValid(g.State())
    modifies g, g.replacePointers
    ensures r.Ok? ==> Dispatch(old(g.State()), el) == Ok(g.State()) && GraphValid(g.State())
    ensures r.Err? ==> Dispatch(old(g.State()), el) == Err(r.error)
  {
    if IsLvrefTag(el.tag) {
      g.AddVolume(el);
    } else if el.tag == "bordersurface" {
      g.AddBorder(el);
    } else {
      return Err(ValueError(el.tag));
    }
    r := Ok(());
  }

  /** `read_graph` of the top-level gdml-to-dot.py, which adds the world volume last. */
  method ReadGraphWithWorld(root: Element) returns (r: Result<Graph, PyError>)
    ensures r.Ok? ==> ReadGraphWorldSpec(root) == Ok(r.value.State()) && GraphValid(r.value.State())
    ensures r.Err? ==> ReadGraphWorldSpec(root) == Err(r.error)
  {
    r := ReadGraph(root);
    if r.Err? {
      return;
    }
    var g := r.value;
    var worlds := FindSetupWorld(root);
    if worlds == [] {
      return Err(IndexError);
    }
    g.AddWorld(worlds[0]);
  }

  /** `replace_borders` can only fail on a physical volume without a `volumeref`. */
  lemma {:induction false} BorderPassError(b: Borders, a: Addrs, pvs: seq<Element>)
    requires BorderPass(b, a, pvs).Err?
    ensures BorderPass(b, a, pvs).error == StopIteration
  {
    if BorderPass(b, a, pvs[..|pvs| - 1]).Err? {
      BorderPassError(b, a, pvs[..|pvs| - 1]);
    }
  }

  /** The structure is read without error exactly when every element has a recognised tag. */
  lemma {:induction false} ReadStructureOk(es: seq<Element>)
    ensures ReadStructure(es).Ok? <==> forall i :: 0 <= i < |es| ==> IsRecognised(es[i].tag)
    ensures ReadStructure(es).Err? ==> exists i :: 0 <= i < |es| && ReadStructure(es).error == ValueError(es[i].tag) && !IsRecognised(es[i].tag)
  {
    if es != [] {
      var init, last := es[..|es| - 1], es[|es| - 1];
      assert forall i :: 0 <= i < |init| ==> init[i] == es[i];
      ReadStructureOk(init);
      match ReadStructure(init)
      case Err(e) =>
        assert ReadStructure(es) == Err(e);
        var i :| 0 <= i < |init| && e == ValueError(init[i].tag) && !IsRecognised(init[i].tag);
        assert es[i] == init[i];
      case Ok(g) =>
        assert ReadStructure(es) == Dispatch(g, last);
        DispatchOutcome(g, last);
        if IsRecognised(last.tag) {
          RecognisedSnoc(es, init);
        } else {
          assert es[|es| - 1] == last;
        }
    }
  }

  lemma RecognisedSnoc(es: seq<Element>, init: seq<Element>)
    requires es != [] && init == es[..|es| - 1]
    requires forall i :: 0 <= i < |init| ==> IsRecognised(init[i].tag)
    requires IsRecognised(es[|es| - 1].tag)
    ensures forall i :: 0 <= i < |es| ==> IsRecognised(es[i].tag)
  {
    forall i | 0 <= i < |init|
      ensures IsRecognised(es[i].tag)
    {
      assert init[i] == es[i];
    }
  }

  /** One element is dispatched without error exactly when its tag is recognised. */
  lemma DispatchOutcome(g: GraphState, el: Element)
    ensures Dispatch(g, el).Ok? <==> IsRecognised(el.tag)
    ensures Dispatch(g, el).Err? ==> Dispatch(g, el).error == ValueError(el.tag)
  {
  }

  /** Reading the structure makes one node per element, in order, and keeps the graph valid. */
  lemma {:induction false} ReadStructureNodes(es: seq<Element>)
    requires ReadStructure(es).Ok?
    ensures |ReadStructure(es).value.nodes| == |es| && GraphValid(ReadStructure(es).value)
  {
    if es != [] {
      var init := es[..|es| - 1];
      ReadStructureNodes(init);
      var g := ReadStructure(init).value;
      var el := es[|es| - 1];
      if IsLvrefTag(el.tag) {
        AddVolumeEdges(g, el, ("", ""));
      } else {
        AddBorderBorders(g, el, "");
      }
    }
  }

  /**
   * A ValueError names a structure element that is neither a volume, an
   * assembly, a skin surface nor a border surface; on success every structure
   * element has become a node and no border is left pending.
   */
  lemma ReadGraphSpecProperties(root: Element)
    ensures ReadGraphSpec(root).Err? && ReadGraphSpec(root).error.ValueError? ==>
      exists i :: 0 <= i < |First(root, "structure").value.children| &&
        var el := First(root, "structure").value.children[i];
        el.tag == ReadGraphSpec(root).error.tag && !IsRecognised(el.tag)
    ensures ReadGraphSpec(root).Ok? ==>
      && |ReadGraphSpec(root).value.nodes| == |First(root, "structure").value.children|
      && ReadGraphSpec(root).value.borders == []
      && GraphValid(ReadGraphSpec(root).value)
  {
    if First(root, "structure").Ok? {
      var structure := First(root, "structure").value;
      ReadStructureOk(structure.children);
      if ReadStructure(structure.children).Ok? {
        var g := ReadStructure(structure.children).value;
        ReadStructureNodes(structure.children);
        ReplaceBordersEffect(g, structure, ("", ""));
        if g.borders != [] && BorderPass(g.borders, g.addrs, Iter(structure, "physvol")).Err? {
          BorderPassError(g.borders, g.addrs, Iter(structure, "physvol"));
        }
      }
    }
  }

  /** With the world volume added, it is the last node and is written first. */
  lemma WorldWrittenFirst(root: Element)
    requires ReadGraphWorldSpec(root).Ok?
    ensures var g := ReadGraphSpec(root).value;
      var h := ReadGraphWorldSpec(root).value;
      var world := Rewrite(g.addrs, FindSetupWorld(root)[0].ref).1;
      && |h.nodes| == |First(root, "structure").value.children| + 1
      && h.nodes[|h.nodes| - 1] == world
      && GraphLines(h)[2] == NodeLine(world)
  {
    ReadGraphSpecProperties(root);
    var g := ReadGraphSpec(root).value;
    AddWorldSpecLast(g, FindSetupWorld(root)[0]);
    var h := ReadGraphWorldSpec(root).value;
    NodesWrittenReversed(h, 0);
  }

  // ---------------------------------------------------------------------
  // Writing

  function NodeLine(node: string): string
  {
    "  \"" + node + "\";\n"
  }

  /** One line per node, in the order given. */
  function NodeLines(ns: seq<string>): (r: seq<string>)
    ensures |r| == |ns| && forall i :: 0 <= i < |ns| ==> r[i] == NodeLine(ns[i])
  {
    Lines(ns, NodeLine)
  }

  /** One line per item, written by `line`, in order. */
  function Lines<T>(xs: seq<T>, line: T -> string): (r: seq<string>)
    ensures |r| == |xs| && forall i :: 0 <= i < |xs| ==> r[i] == line(xs[i])
  {
    if xs == [] then [] else Lines(xs[..|xs| - 1], line) + [line(xs[|xs| - 1])]
  }

  /** `labeled_edges`: no label for weight 1, "×" and the weight otherwise. */
  function Label(weight: nat): string
  {
    if weight == 1 then "" else "×" + Decimal(weight)
  }

  lemma LabelSpec(weight: nat)
    ensures Label(weight) == "" <==> weight == 1
    ensures weight != 1 ==> Label(weight)[0] == '×' && ParseDecimal(Label(weight)[1..]) == weight
  {
    if weight != 1 {
      assert Label(weight)[1..] == Decimal(weight);
      DecimalRoundTrip(weight);
    }
  }

  function EdgeLine(entry: (Edge, nat)): string
  {
    var (u, v) := entry.0;
    var caption := Label(entry.1);
    if caption != "" then "  \"" + u + "\" -> \"" + v + "\" [label=\"" + caption + "\"];\n"
    else "  \"" + u + "\" -> \"" + v + "\";\n"
  }

  /** One line per edge, in the dictionary's order. */
  function EdgeLines(es: Edges): (r: seq<string>)
    ensures |r| == |es| && forall i :: 0 <= i < |es| ==> r[i] == EdgeLine(es[i])
  {
    Lines(es, EdgeLine)
  }

  /** Python's `f"{x:0{w}d}"`: the decimal digits, left-padded with zeros to width w. */
  function ZeroPad(s: string, w: nat): (r: string)
    ensures |r| >= w && |r| >= |s|
    decreases w - |s|
  {
    if |s| >= w then s else ZeroPad(['0'] + s, w)
  }

  lemma {:induction false} ParseLeadingZero(s: string)
    ensures ParseDecimal(['0'] + s) == ParseDecimal(s)
  {
    if s != [] {
      assert (['0'] + s)[..|s|] == ['0'] + s[..|s| - 1];
      ParseLeadingZero(s[..|s| - 1]);
    } else {
      assert (['0'] + s)[..0] == [];
    }
  }

  /** Zero padding keeps the value. */
  lemma {:induction false} ZeroPadValue(s: string, w: nat)
    ensures ParseDecimal(ZeroPad(s, w)) == ParseDecimal(s)
    decreases w - |s|
  {
    if |s| < w {
      ZeroPadValue(['0'] + s, w);
      ParseLeadingZero(s);
    }
  }

  /** One entry of the pointer table. */
  function IndexLine(entry: (nat, string)): string
  {
    "//   " + ZeroPad(Decimal(entry.0), 4) + ": " + entry.1 + "\n"
  }

  lemma IndexLineNumber(entry: (nat, string))
    ensures ParseDecimal(ZeroPad(Decimal(entry.0), 4)) == entry.0
  {
    ZeroPadValue(Decimal(entry.0), 4);
    DecimalRoundTrip(entry.0);
  }

  /** `(idx, addr) for (addr, idx) in prefix_addrs.items()`. */
  function Inverted(d: Dict<string, nat>): (r: seq<(nat, string)>)
    ensures |r| == |d| && forall j :: 0 <= j < |d| ==> r[j] == (d[j].1, d[j].0)
  {
    if d == [] then [] else Inverted(d[..|d| - 1]) + [(d[|d| - 1].1, d[|d| - 1].0)]
  }

  predicate StrictlySorted(xs: seq<(nat, string)>)
  {
    forall i, j :: 0 <= i < j < |xs| ==> xs[i].0 < xs[j].0
  }

  /**
   * The addresses behind a prefix, inverted, are already in increasing order
   * of index, one per index from 0: `sorted` leaves them as they are, so the
   * table lists them in order of first appearance.
   */
  lemma InvertedSorted(d: Dict<string, nat>)
    requires Numbered(d)
    ensures StrictlySorted(Inverted(d))
    ensures forall j :: 0 <= j < |d| ==> Inverted(d)[j] == (j, d[j].0)
  {
  }

  function IndexLines(xs: seq<(nat, string)>): (r: seq<string>)
    ensures |r| == |xs| && forall j :: 0 <= j < |xs| ==> r[j] == IndexLine(xs[j])
  {
    Lines(xs, IndexLine)
  }

  /** The table for one prefix, skipped when the prefix has exactly one address. */
  function PrefixBlock(entry: (string, Dict<string, nat>)): seq<string>
  {
    var (prefix, prefixAddrs) := entry;
    if |prefixAddrs| == 1 then [] else ["// " + prefix + "\n"] + IndexLines(Inverted(prefixAddrs))
  }

  function PointerLines(a: Addrs): seq<string>
  {
    if a == [] then [] else PointerLines(a[..|a| - 1]) + PrefixBlock(a[|a| - 1])
  }

  /** Every line `write_graph` writes, in order. */
  function GraphLines(g: GraphState): seq<string>
  {
    ["digraph {\n", "  rankdir=LR;\n"] + NodeLines(Reverse(g.nodes)) + EdgeLines(g.edges)
      + ["}\n", "// Pointer mapping:\n"] + PointerLines(g.addrs)
  }

  /** After the two header lines come the nodes, the last added first. */
  lemma NodesWrittenReversed(g: GraphState, i: nat)
    requires i < |g.nodes|
    ensures GraphLines(g)[2 + i] == NodeLine(g.nodes[|g.nodes| - 1 - i])
  {
    var header := ["digraph {\n", "  rankdir=LR;\n"];
    IndexSecond(header, NodeLines(Reverse(g.nodes)), EdgeLines(g.edges), ["}\n", "// Pointer mapping:\n"], PointerLines(g.addrs), i);
  }

  /** Indexing a five-part concatenation within its second part. */
  lemma IndexSecond<T>(a: seq<T>, b: seq<T>, c: seq<T>, d: seq<T>, e: seq<T>, i: nat)
    requires i < |b|
    ensures (a + b + c + d + e)[|a| + i] == b[i]
  {
  }

  /** Indexing a four-part concatenation within its second part, or just after it. */
  lemma IndexMiddle<T>(a: seq<T>, b: seq<T>, c: seq<T>, d: seq<T>, j: nat)
    requires j < |b| && c != []
    ensures (a + b + c + d)[|a| + j] == b[j]
    ensures (a + b + c + d)[|a| + |b|] == c[0]
  {
  }

  /** After the nodes come the edges, in the order they were first counted. */
  lemma EdgesWrittenInOrder(g: GraphState, j: nat)
    requires j < |g.edges|
    ensures GraphLines(g)[2 + |g.nodes| + j] == EdgeLine(g.edges[j])
    ensures GraphLines(g)[2 + |g.nodes| + |g.edges|] == "}\n"
  {
    var upToNodes := ["digraph {\n", "  rankdir=LR;\n"] + NodeLines(Reverse(g.nodes));
    IndexMiddle(upToNodes, EdgeLines(g.edges), ["}\n", "// Pointer mapping:\n"], PointerLines(g.addrs), j);
    assert |upToNodes| == 2 + |g.nodes|;
  }

  /**
   * A prefix with a single address writes nothing. Any other prefix writes
   * its name and then one line per address, index j on the j-th line.
   */
  lemma PrefixBlockSpec(prefix: string, d: Dict<string, nat>)
    requires Numbered(d)
    ensures |d| == 1 ==> PrefixBlock((prefix, d)) == []
    ensures |d| != 1 ==>
      && |PrefixBlock((prefix, d))| == |d| + 1
      && PrefixBlock((prefix, d))[0] == "// " + prefix + "\n"
      && forall j :: 0 <= j < |d| ==> PrefixBlock((prefix, d))[1 + j] == IndexLine((j, d[j].0))
  {
    InvertedSorted(d);
  }

  /** When every prefix has met just one address, the pointer table is empty. */
  lemma {:induction false} NoPointerTable(a: Addrs)
    requires forall p :: 0 <= p < |a| ==> |a[p].1| == 1
    ensures PointerLines(a) == []
  {
    if a != [] {
      var init := a[..|a| - 1];
      assert forall p :: 0 <= p < |init| ==> init[p] == a[p];
      NoPointerTable(init);
    }
  }

  /** `write_graph`: the lines written to the file. */
  method WriteGraph(g: Graph) returns (lines: seq<string>)
    requires GraphValid(g.State())
    ensures lines == GraphLines(g.State())
  {
    lines := ["digraph {\n", "  rankdir=LR;\n"];
    var nodeLines := WriteNodes(Reverse(g.nodes));
    var edgeLines := WriteEdges(g.edges);
    var pointerLines := WritePointers(g.replacePointers.addrs);
    lines := lines + nodeLines + edgeLines + ["}\n", "// Pointer mapping:\n"] + pointerLines;
  }

  method WriteNodes(ns: seq<string>) returns (lines: seq<string>)
    ensures lines == NodeLines(ns)
  {
    lines := [];
    for i := 0 to |ns|
      invariant lines == Lines(ns[..i], NodeLine)
    {
      assert ns[..i + 1][..i] == ns[..i];
      lines := lines + [NodeLine(ns[i])];
    }
    assert ns[..|ns|] == ns;
  }

  method WriteEdges(es: Edges) returns (lines: seq<string>)
    ensures lines == EdgeLines(es)
  {
    lines := [];
    for i := 0 to |es|
      invariant lines == Lines(es[..i], EdgeLine)
    {
      assert es[..i + 1][..i] == es[..i];
      var (u, v) := es[i].0;
      var caption := Label(es[i].1);
      if caption != "" {
        lines := lines + ["  \"" + u + "\" -> \"" + v + "\" [label=\"" + caption + "\"];\n"];
      } else {
        lines := lines + ["  \"" + u + "\" -> \"" + v + "\";\n"];
      }
    }
    assert es[..|es|] == es;
  }

  method WritePointers(a: Addrs) returns (lines: seq<string>)
    ensures lines == PointerLines(a)
  {
    lines := [];
    for p := 0 to |a|
      invariant lines == PointerLines(a[..p])
    {
      PointerLinesSnoc(a, p);
      var (prefix, prefixAddrs) := a[p];
      if |prefixAddrs| == 1 {
        continue;
      }
      var indexLines := WriteIndexLines(Inverted(prefixAddrs));
      var block := ["// " + prefix + "\n"] + indexLines;
      assert block == PrefixBlock(a[p]);
      lines := lines + block;
    }
    assert a[..|a|] == a;
  }

  lemma PointerLinesSnoc(a: Addrs, p: nat)
    requires p < |a|
    ensures PointerLines(a[..p + 1]) == PointerLines(a[..p]) + PrefixBlock(a[p])
  {
    assert a[..p + 1][..p] == a[..p];
  }

  /** The inner loop of the pointer table: one line per (index, address) pair. */
  method WriteIndexLines(sorted: seq<(nat, string)>) returns (lines: seq<string>)
    ensures lines == IndexLines(sorted)
  {
    lines := [];
    for j := 0 to |sorted|
      invariant lines == Lines(sorted[..j], IndexLine)
    {
      assert sorted[..j + 1][..j] == sorted[..j];
      lines := lines + [IndexLine(sorted[j])];
    }
    assert sorted[..|sorted|] == sorted;
  }
}
