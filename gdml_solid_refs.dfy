/**
 * The solids a GDML boolean or multi-union solid refers to.
 */
module GdmlSolidRefs {
  import opened GdmlTree

  /** `multiunion_refs`: the `ref` of every `solid` element at or below a node. */
  function MultiunionRefs(node: Element): seq<string>
  {
    Refs(Iter(node, "solid"))
  }

  predicate IsOperand(node: Element)
  {
    node.tag == "first" || node.tag == "second"
  }

  /** `boolean_refs`: the `ref` of a `first` or `second` node, nothing for any other node. */
  function BooleanRefs(node: Element): seq<string>
  {
    if IsOperand(node) then [node.ref] else []
  }

  predicate IsBooleanTag(tag: string)
  {
    tag == "union" || tag == "subtraction" || tag == "intersection"
  }

  /** `get_solid_refs`: the node refs of each child in turn, by the solid's kind. */
  function GetSolidRefs(el: Element): (r: seq<string>)
    ensures el.tag != "multiUnion" && !IsBooleanTag(el.tag) ==> r == []
  {
    if el.tag == "multiUnion" then EachMultiunionRefs(el.children)
    else if IsBooleanTag(el.tag) then EachBooleanRefs(el.children)
    else []
  }

  function EachMultiunionRefs(nodes: seq<Element>): seq<string>
  {
    if nodes == [] then [] else MultiunionRefs(nodes[0]) + EachMultiunionRefs(nodes[1..])
  }

  function EachBooleanRefs(nodes: seq<Element>): seq<string>
  {
    if nodes == [] then [] else BooleanRefs(nodes[0]) + EachBooleanRefs(nodes[1..])
  }

  /** The `first` and `second` children, in document order. */
  function Operands(nodes: seq<Element>): (r: seq<Element>)
    ensures forall x :: x in r <==> x in nodes && IsOperand(x)
  {
    if nodes == [] then []
    else (if IsOperand(nodes[0]) then [nodes[0]] else []) + Operands(nodes[1..])
  }

  lemma {:induction false} RefsAppend(a: seq<Element>, b: seq<Element>)
    ensures Refs(a + b) == Refs(a) + Refs(b)
  {
  }

  /**
   * A union, subtraction or intersection refers to its `first` and `second`
   * children, in document order.
   */
  lemma {:induction false} BooleanSolidRefs(el: Element)
    requires IsBooleanTag(el.tag)
    ensures GetSolidRefs(el) == Refs(Operands(el.children))
  {
    EachBooleanOperands(el.children);
  }

  lemma {:induction false} EachBooleanOperands(nodes: seq<Element>)
    ensures EachBooleanRefs(nodes) == Refs(Operands(nodes))
  {
    if nodes != [] {
      EachBooleanOperands(nodes[1..]);
      var head := if IsOperand(nodes[0]) then [nodes[0]] else [];
      RefsAppend(head, Operands(nodes[1..]));
    }
  }

  /**
   * A multi-union refers to every `solid` element below its children, in
   * document order: a ref is listed exactly when some `solid` element within
   * a child carries it.
   */
  lemma MultiunionSolidRefs(el: Element, r: string)
    requires el.tag == "multiUnion"
    ensures GetSolidRefs(el) == Refs(IterAll(el.children, "solid"))
    ensures r in GetSolidRefs(el) <==> exists x: Element :: x.tag == "solid" && WithinAny(x, el.children) && x.ref == r
  {
    EachMultiunionIter(el.children);
    var xs := IterAll(el.children, "solid");
    if r in Refs(xs) {
      var k :| 0 <= k < |xs| && Refs(xs)[k] == r;
      IterAllSpec(el.children, "solid", xs[k]);
    }
    if exists x: Element :: x.tag == "solid" && WithinAny(x, el.children) && x.ref == r {
      var x: Element :| x.tag == "solid" && WithinAny(x, el.children) && x.ref == r;
      IterAllSpec(el.children, "solid", x);
      var k :| 0 <= k < |xs| && xs[k] == x;
      assert Refs(xs)[k] == r;
    }
  }

  lemma {:induction false} EachMultiunionIter(nodes: seq<Element>)
    ensures EachMultiunionRefs(nodes) == Refs(IterAll(nodes, "solid"))
  {
    if nodes != [] {
      EachMultiunionIter(nodes[1..]);
      RefsAppend(Iter(nodes[0], "solid"), IterAll(nodes[1..], "solid"));
    }
  }
}
