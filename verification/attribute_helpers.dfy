/** The helpers that set, move or drop attributes: `attr`, `moveAttributes` and `removeAllAttributes`. */
module AttributeHelpers {
  import opened Wrappers
  import opened Dom

  // ---------------------------------------------------------------------------
  // attr

  /** One own property of the object given to `attr`; `None` stands for `null`. */
  datatype Entry = Entry(key: string, value: Option<string>)

  /**
   * The value attribute `name` has after the entries are applied in order to an
   * element where it had the value `before`: the last entry whose prefixed key
   * is `name` decides, `null` removing the attribute.
   */
  function Assigned(entries: seq<Entry>, prefix: string, name: string, before: Option<string>): (r: Option<string>)
    decreases |entries|
  {
    if entries == [] then before
    else
      var last := entries[|entries| - 1];
      if prefix + last.key == name then last.value
      else Assigned(entries[..|entries| - 1], prefix, name, before)
  }

  /** An attribute no entry names keeps its value. */
  lemma {:induction false} UnnamedUnchanged(entries: seq<Entry>, prefix: string, name: string, before: Option<string>)
    requires forall k | 0 <= k < |entries| :: prefix + entries[k].key != name
    ensures Assigned(entries, prefix, name, before) == before
    decreases |entries|
  {
    if entries != [] {
      UnnamedUnchanged(entries[..|entries| - 1], prefix, name, before);
    }
  }

  /**
   * `attr(element, properties, prefix)`: for each key of the object, removes the
   * attribute `prefix + key` when the value is `null` and sets it otherwise; a
   * missing prefix counts as the empty one.
   */
  method Attr(element: Node, properties: seq<Entry>, prefix: Option<string>) returns (result: Node)
    requires element.Element? && UniqueNames(element.attributes)
    ensures result.Element? && result.tagName == element.tagName && result.childNodes == element.childNodes
    ensures UniqueNames(result.attributes)
    ensures forall name ::
              GetAttribute(result.attributes, name)
              == Assigned(properties, if prefix.Some? then prefix.value else "", name, GetAttribute(element.attributes, name))
  {
    var p := if prefix.Some? then prefix.value else "";
    var attrs := element.attributes;
    for i := 0 to |properties|
      invariant UniqueNames(attrs)
      invariant forall name :: GetAttribute(attrs, name) == Assigned(properties[..i], p, name, GetAttribute(element.attributes, name))
    {
      var key, value := properties[i].key, properties[i].value;
      assert properties[..i + 1][..i] == properties[..i];
      if value.None? {
        attrs := RemoveAttribute(attrs, p + key);
      } else {
        attrs := SetAttribute(attrs, p + key, value.value);
      }
    }
    assert properties[..|properties|] == properties;
    result := element.(attributes := attrs);
  }

  // ---------------------------------------------------------------------------
  // moveAttributes

  /** Whether `moveAttributes` copies an attribute: not `xmlns`, no colon, and a non-empty value. */
  predicate Movable(a: Attribute)
  {
    a.name != "xmlns" && !HasColon(a.name) && a.value != ""
  }

  /** The value of the last movable attribute called `name` among `attrs`, if any. */
  function MovedValue(attrs: seq<Attribute>, name: string): (r: Option<string>)
    decreases |attrs|
  {
    if attrs == [] then None
    else
      var last := attrs[|attrs| - 1];
      if last.name == name && Movable(last) then Some(last.value)
      else MovedValue(attrs[..|attrs| - 1], name)
  }

  /**
   * Among attributes with distinct names, an attribute is moved exactly when the
   * source has it and it is movable, and then it keeps its value.
   */
  lemma {:induction false} MovedValueIsSourceValue(attrs: seq<Attribute>, name: string)
    requires UniqueNames(attrs)
    ensures MovedValue(attrs, name) ==
      if HasAttribute(attrs, name) && Movable(Attribute(name, GetAttribute(attrs, name).value))
      then GetAttribute(attrs, name) else None
    decreases |attrs|
  {
    if attrs != [] {
      var init, last := attrs[..|attrs| - 1], attrs[|attrs| - 1];
      assert UniqueNames(init);
      MovedValueIsSourceValue(init, name);
      GetAttributeAt(attrs, |attrs| - 1);
      if last.name != name {
        assert HasAttribute(attrs, name) <==> HasAttribute(init, name) by {
          assert forall k | 0 <= k < |init| :: init[k] == attrs[k];
        }
        if HasAttribute(init, name) {
          var j :| 0 <= j < |init| && init[j].name == name;
          GetAttributeAt(init, j);
          GetAttributeAt(attrs, j);
        }
      } else {
        assert !HasAttribute(init, name);
      }
    }
  }

  /**
   * The destination's attributes `now` after the attributes `moved` were
   * visited: names stay distinct, the original attributes keep their places,
   * and each name has the value of its last moved attribute, if any.
   */
  ghost predicate MovedSoFar(moved: seq<Attribute>, original: seq<Attribute>, now: seq<Attribute>)
  {
    UniqueNames(now) &&
    |now| >= |original| &&
    (forall k | 0 <= k < |original| :: now[k].name == original[k].name) &&
    forall name ::
      GetAttribute(now, name)
      == match MovedValue(moved, name) case Some(v) => Some(v) case None => GetAttribute(original, name)
  }

  /** Visiting one more attribute of the source keeps `MovedSoFar`. */
  lemma MovedOneMore(snapshot: seq<Attribute>, i: nat, original: seq<Attribute>, before: seq<Attribute>, after: seq<Attribute>)
    requires i < |snapshot| && MovedSoFar(snapshot[..i], original, before)
    requires after == if Movable(snapshot[i]) then SetAttribute(before, snapshot[i].name, snapshot[i].value) else before
    ensures MovedSoFar(snapshot[..i + 1], original, after)
  {
    assert snapshot[..i + 1][..i] == snapshot[..i];
  }

  /**
   * `moveAttributes(source, destination)`: walks a copy of the source's
   * attribute list, removing each attribute from the source and setting it on
   * the destination when it is movable. The source ends without attributes;
   * the destination's own attributes keep their places and each moved one
   * overwrites its namesake or is appended.
   */
  method MoveAttributes(source: Node, destination: Node) returns (newSource: Node, newDestination: Node)
    requires source.Element? && destination.Element?
    requires UniqueNames(source.attributes) && UniqueNames(destination.attributes)
    ensures newSource == source.(attributes := [])
    ensures newDestination.Element? && newDestination.tagName == destination.tagName
    ensures newDestination.childNodes == destination.childNodes
    ensures UniqueNames(newDestination.attributes)
    ensures |newDestination.attributes| >= |destination.attributes|
    ensures forall k | 0 <= k < |destination.attributes| :: newDestination.attributes[k].name == destination.attributes[k].name
    ensures forall name ::
              GetAttribute(newDestination.attributes, name)
              == if HasAttribute(source.attributes, name) && Movable(Attribute(name, GetAttribute(source.attributes, name).value))
                 then GetAttribute(source.attributes, name) else GetAttribute(destination.attributes, name)
  {
    var snapshot := source.attributes;
    var sourceAttrs := source.attributes;
    var destAttrs := destination.attributes;
    for i := 0 to |snapshot|
      invariant sourceAttrs == snapshot[i..]
      invariant MovedSoFar(snapshot[..i], destination.attributes, destAttrs)
    {
      var name, value := snapshot[i].name, snapshot[i].value;
      // Names are distinct, so the attribute being visited is the first one left
      assert IndexOfName(sourceAttrs, name) == Some(0);
      sourceAttrs := RemoveAttribute(sourceAttrs, name);
      assert sourceAttrs == snapshot[i + 1..];
      ghost var before := destAttrs;
      if name != "xmlns" && !HasColon(name) && value != "" {
        destAttrs := SetAttribute(destAttrs, name, value);
      }
      MovedOneMore(snapshot, i, destination.attributes, before, destAttrs);
    }
    assert snapshot[..|snapshot|] == snapshot;
    forall name
      ensures GetAttribute(destAttrs, name) ==
        if HasAttribute(source.attributes, name) && Movable(Attribute(name, GetAttribute(source.attributes, name).value))
        then GetAttribute(source.attributes, name) else GetAttribute(destination.attributes, name)
    {
      MovedValueIsSourceValue(snapshot, name);
    }
    newSource := source.(attributes := sourceAttrs);
    newDestination := destination.(attributes := destAttrs);
  }

  // ---------------------------------------------------------------------------
  // removeAllAttributes

  /** The element without attribute `name`; other nodes are left alone. */
  function WithoutAttribute(n: Node, name: string): (r: Node)
    ensures r.Element? <==> n.Element?
    ensures r.Element? ==> r.tagName == n.tagName && r.childNodes == n.childNodes
  {
    if n.Element? then n.(attributes := RemoveAttribute(n.attributes, name)) else n
  }

  /**
   * The tree `removeAllAttributes(container, name)` leaves: the container and
   * every element below it that has the attribute lose it.
   */
  function AttributeRemoved(n: Node, name: string): (r: Node)
    ensures Shallow(r) == WithoutAttribute(Shallow(n), name)
    ensures n.Element? ==> |r.childNodes| == |n.childNodes|
    ensures !n.Element? ==> r == n
    decreases n, 0
  {
    match n
    case Element(tag, attrs, cs) => Element(tag, RemoveAttribute(attrs, name), ChildrenAttributeRemoved(cs, name))
    case _ => n
  }

  function ChildrenAttributeRemoved(cs: seq<Node>, name: string): (r: seq<Node>)
    ensures |r| == |cs|
    ensures forall k | 0 <= k < |cs| :: Shallow(r[k]) == WithoutAttribute(Shallow(cs[k]), name)
    decreases cs, 1
  {
    if cs == [] then [] else [AttributeRemoved(cs[0], name)] + ChildrenAttributeRemoved(cs[1..], name)
  }

  /** No element of the tree carries attribute `name`. */
  predicate Lacks(n: Node, name: string)
    decreases n
  {
    n.Element? ==> !HasAttribute(n.attributes, name) && forall k | 0 <= k < |n.childNodes| :: Lacks(n.childNodes[k], name)
  }

  lemma {:induction false} ChildrenLackAttribute(cs: seq<Node>, name: string)
    requires forall k | 0 <= k < |cs| :: WellFormed(cs[k])
    ensures forall k | 0 <= k < |cs| :: Lacks(ChildrenAttributeRemoved(cs, name)[k], name)
    decreases cs, 1
  {
    if cs != [] {
      AttributeRemovedEverywhere(cs[0], name);
      ChildrenLackAttribute(cs[1..], name);
    }
  }

  /** Afterwards neither the container nor any element below it has the attribute. */
  lemma {:induction false} AttributeRemovedEverywhere(n: Node, name: string)
    requires WellFormed(n)
    ensures Lacks(AttributeRemoved(n, name), name)
    decreases n, 2
  {
    if n.Element? {
      ChildrenLackAttribute(n.childNodes, name);
    }
  }

  /** Each item of a listing with its node's attribute `name` removed. */
  function StripAll(items: seq<Item>, name: string): (r: seq<Item>)
    ensures |r| == |items|
    ensures forall k | 0 <= k < |items| :: r[k] == Item(items[k].depth, WithoutAttribute(items[k].node, name))
  {
    seq(|items|, k requires 0 <= k < |items| => Item(items[k].depth, WithoutAttribute(items[k].node, name)))
  }

  /**
   * Nothing but that attribute changes: listing the nodes below the container
   * in document order, each with its depth, afterwards gives the same nodes at
   * the same depths, in the same order, each with the attribute removed; so
   * the nesting is kept too.
   */
  lemma {:induction false} OnlyThatAttributeChanges(cs: seq<Node>, name: string, depth: nat)
    ensures Preorder(ChildrenAttributeRemoved(cs, name), depth) == StripAll(Preorder(cs, depth), name)
    decreases cs
  {
    if cs != [] {
      var c := cs[0];
      assert cs == [c] + cs[1..];
      PreorderCons(c, cs[1..], depth);
      PreorderCons(AttributeRemoved(c, name), ChildrenAttributeRemoved(cs[1..], name), depth);
      OnlyThatAttributeChanges(cs[1..], name, depth);
      StripAllSplit(Item(depth, Shallow(c)), Preorder(ElementChildren(c), depth + 1), Preorder(cs[1..], depth), name);
      match c
      case Element(_, _, kids) =>
        OnlyThatAttributeChanges(kids, name, depth + 1);
      case _ =>
    }
  }

  lemma StripAllConcat(a: seq<Item>, b: seq<Item>, name: string)
    ensures StripAll(a + b, name) == StripAll(a, name) + StripAll(b, name)
  {
    var l, r := StripAll(a + b, name), StripAll(a, name) + StripAll(b, name);
    forall k | 0 <= k < |l| ensures l[k] == r[k] {
      if k >= |a| {
        assert (a + b)[k] == b[k - |a|];
      }
    }
  }

  lemma StripAllSplit(x: Item, a: seq<Item>, b: seq<Item>, name: string)
    ensures StripAll([x] + a + b, name) == [Item(x.depth, WithoutAttribute(x.node, name))] + StripAll(a, name) + StripAll(b, name)
  {
    StripAllConcat([x] + a, b, name);
    StripAllConcat([x], a, name);
    assert StripAll([x], name) == [Item(x.depth, WithoutAttribute(x.node, name))];
  }
}
