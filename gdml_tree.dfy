/**
 * GDML documents as element trees: each element has a tag, the `name` and
 * `ref` attributes the scripts read, and its children in document order.
 * An attribute a script reads but the element lacks is modelled as "".
 */
module GdmlTree {
  import Wrappers

  datatype Element = Element(tag: string, name: string, ref: string, children: seq<Element>)

  /** The Python exceptions the scripts can raise on a malformed document. */
  datatype PyError =
    | StopIteration            // `next` on an exhausted `iter(tag)`
    | KeyError(key: string)    // a missing dictionary key
    | ValueError(tag: string)  // an unrecognised structure element
    | IndexError               // `[0]` of an empty `findall`
    | UnboundLocalError        // a loop variable read after a loop that never ran

  /** `next(el.iter(tag))`: the first element with that tag at or below e. */
  function First(e: Element, tag: string): (r: Wrappers.Result<Element, PyError>)
    ensures r.Ok? ==> r.value.tag == tag && Within(r.value, e)
    ensures r.Err? <==> Iter(e, tag) == []
  {
    var xs := Iter(e, tag);
    if xs == [] then Wrappers.Err(StopIteration)
    else
      IterSpec(e, tag, xs[0]);
      Wrappers.Ok(xs[0])
  }

  /** `el.iter(tag)`: the element and all its descendants with that tag, in document order. */
  function Iter(e: Element, tag: string): seq<Element>
    decreases e
  {
    (if e.tag == tag then [e] else []) + IterAll(e.children, tag)
  }

  /** The concatenated `iter(tag)` of a list of siblings. */
  function IterAll(es: seq<Element>, tag: string): seq<Element>
    decreases es
  {
    if es == [] then [] else Iter(es[0], tag) + IterAll(es[1..], tag)
  }

  /** x is e or one of its descendants. */
  predicate Within(x: Element, e: Element)
    decreases e
  {
    x == e || exists i :: 0 <= i < |e.children| && Within(x, e.children[i])
  }

  /** x is one of es or within one of them. */
  predicate WithinAny(x: Element, es: seq<Element>)
  {
    exists i :: 0 <= i < |es| && Within(x, es[i])
  }

  /** `iter(tag)` yields exactly the elements with that tag at or below e. */
  lemma {:induction false} IterSpec(e: Element, tag: string, x: Element)
    ensures x in Iter(e, tag) <==> x.tag == tag && Within(x, e)
    decreases e, 1
  {
    IterAllSpec(e.children, tag, x);
  }

  lemma {:induction false} IterAllSpec(es: seq<Element>, tag: string, x: Element)
    ensures x in IterAll(es, tag) <==> x.tag == tag && WithinAny(x, es)
    decreases es, 0
  {
    if es != [] {
      IterSpec(es[0], tag, x);
      IterAllSpec(es[1..], tag, x);
      if WithinAny(x, es) {
        var i :| 0 <= i < |es| && Within(x, es[i]);
        if i > 0 {
          assert Within(x, es[1..][i - 1]);
        }
      }
      if WithinAny(x, es[1..]) {
        var i :| 0 <= i < |es[1..]| && Within(x, es[1..][i]);
        assert Within(x, es[i + 1]);
      }
    }
  }

  /** An element with the tag comes first in its own `iter(tag)`. */
  lemma IterSelf(e: Element, tag: string)
    requires e.tag == tag
    ensures |Iter(e, tag)| >= 1 && Iter(e, tag)[0] == e
  {
  }

  /** The `ref` attributes of a list of elements. */
  function Refs(es: seq<Element>): (r: seq<string>)
    ensures |r| == |es| && forall i :: 0 <= i < |es| ==> r[i] == es[i].ref
  {
    if es == [] then [] else [es[0].ref] + Refs(es[1..])
  }

  /** The children with a given tag, in order. */
  function ChildrenTagged(es: seq<Element>, tag: string): (r: seq<Element>)
    ensures forall x :: x in r <==> x in es && x.tag == tag
  {
    if es == [] then []
    else (if es[0].tag == tag then [es[0]] else []) + ChildrenTagged(es[1..], tag)
  }

  /** `root.findall("./setup/world")`: the `world` children of the `setup` children of the root. */
  function FindSetupWorld(root: Element): seq<Element>
  {
    FindWorlds(ChildrenTagged(root.children, "setup"))
  }

  function FindWorlds(setups: seq<Element>): seq<Element>
  {
    if setups == [] then [] else ChildrenTagged(setups[0].children, "world") + FindWorlds(setups[1..])
  }

  /** Every element of the path search is a `world` child of a `setup` child of the root. */
  lemma {:induction false} FindWorldsSpec(setups: seq<Element>, w: Element)
    ensures w in FindWorlds(setups) <==>
      w.tag == "world" && exists i :: 0 <= i < |setups| && w in setups[i].children
  {
    if setups != [] {
      FindWorldsSpec(setups[1..], w);
      if exists i :: 0 <= i < |setups| && w in setups[i].children {
        var i :| 0 <= i < |setups| && w in setups[i].children;
        if i > 0 {
          assert w in setups[1..][i - 1].children;
        }
      }
      if exists i :: 0 <= i < |setups[1..]| && w in setups[1..][i].children {
        var i :| 0 <= i < |setups[1..]| && w in setups[1..][i].children;
        assert w in setups[i + 1].children;
      }
    }
  }
}
