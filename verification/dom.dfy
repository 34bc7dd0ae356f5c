/**
 * The part of the host DOM that the dom-kit helpers read and write.
 *
 * A tree is a value: an element carries its qualified tag name, its attribute
 * list (a NamedNodeMap, in document order) and its ordered child list. The
 * attribute primitives below behave like the DOM implementation the library
 * uses outside the browser: `setAttribute` overwrites an existing attribute in
 * place and appends a new one at the end, and removal shifts the later
 * attributes down by one.
 */
module Dom {
  import opened Wrappers

  datatype Attribute = Attribute(name: string, value: string)

  /**
   * The node kinds the helpers distinguish: nodeType 1, 3 and 8, a Document
   * (nodeType 9) and a DocumentFragment (nodeType 11), and every other kind.
   * A document or a fragment is never the child of another node: it only
   * ever appears as the container a helper is given.
   */
  datatype Node =
    | Element(tagName: string, attributes: seq<Attribute>, childNodes: seq<Node>)
    | Text(nodeValue: string)
    | Comment(data: string)
    | Document(childNodes: seq<Node>)
    | Fragment(childNodes: seq<Node>)
    | Other

  /** A node that has `childNodes`: an element, a document or a fragment. */
  predicate IsParent(n: Node)
  {
    n.Element? || n.Document? || n.Fragment?
  }

  predicate NotElement(n: Node)
  {
    !n.Element?
  }

  /** `childNodes`; a node that cannot have children has none. */
  function Children(n: Node): seq<Node>
  {
    if IsParent(n) then n.childNodes else []
  }

  /**
   * The children a pass descends into below its container: those of an
   * element (the helpers recurse through `nodeType === 1` only).
   */
  function ElementChildren(n: Node): seq<Node>
  {
    if n.Element? then n.childNodes else []
  }

  /** The node without its descendants: what the node carries of its own. */
  function Shallow(n: Node): Node
  {
    if IsParent(n) then n.(childNodes := []) else n
  }

  /** A node of a listing, with its depth: the container's children are at the depth the listing starts from. */
  datatype Item = Item(depth: nat, node: Node)

  predicate NotComment(i: Item)
  {
    !i.node.Comment?
  }

  predicate NotText(i: Item)
  {
    !i.node.Text?
  }

  /**
   * Every node of the forest `cs`, in document order, each without its
   * descendants and with its depth, `depth` being that of the nodes of `cs`.
   * The depths pin the shape: the children of a node are the items after it,
   * one level deeper, up to the next item at its own depth or above.
   */
  function Preorder(cs: seq<Node>, depth: nat): seq<Item>
    decreases cs
  {
    if cs == [] then []
    else
      var below := match cs[0] case Element(_, _, kids) => Preorder(kids, depth + 1) case _ => [];
      [Item(depth, Shallow(cs[0]))] + below + Preorder(cs[1..], depth)
  }

  lemma {:induction false} PreorderConcat(a: seq<Node>, b: seq<Node>, depth: nat)
    ensures Preorder(a + b, depth) == Preorder(a, depth) + Preorder(b, depth)
    decreases a
  {
    if a == [] {
      assert a + b == b;
    } else {
      assert (a + b)[0] == a[0];
      assert (a + b)[1..] == a[1..] + b;
      PreorderConcat(a[1..], b, depth);
    }
  }

  lemma PreorderCons(c: Node, rest: seq<Node>, depth: nat)
    ensures Preorder([c] + rest, depth) == [Item(depth, Shallow(c))] + Preorder(ElementChildren(c), depth + 1) + Preorder(rest, depth)
  {
    assert ([c] + rest)[1..] == rest;
  }

  /** `textContent` of a forest: the text node values in document order (comments excluded). */
  function TextContent(cs: seq<Node>): string
    decreases cs
  {
    if cs == [] then ""
    else
      var own := match cs[0] case Text(v) => v case Element(_, _, kids) => TextContent(kids) case _ => "";
      own + TextContent(cs[1..])
  }

  lemma {:induction false} TextContentConcat(a: seq<Node>, b: seq<Node>)
    ensures TextContent(a + b) == TextContent(a) + TextContent(b)
    decreases a
  {
    if a == [] {
      assert a + b == b;
    } else {
      assert (a + b)[0] == a[0];
      assert (a + b)[1..] == a[1..] + b;
      TextContentConcat(a[1..], b);
    }
  }

  /** The text a single node contributes. */
  lemma TextContentCons(c: Node, rest: seq<Node>)
    ensures TextContent([c] + rest) == (match c case Text(v) => v case _ => TextContent(ElementChildren(c))) + TextContent(rest)
  {
    assert ([c] + rest)[1..] == rest;
  }

  // ---------------------------------------------------------------------------
  // Qualified names, as the helpers take them apart with indexOf(':') and split(':')

  predicate HasColon(name: string)
  {
    ':' in name
  }

  /** `name.split(':')[0]`: the text before the first colon. */
  function Prefix(name: string): (r: string)
    ensures |r| <= |name| && r == name[..|r|] && ':' !in r
    ensures HasColon(name) ==> |r| < |name| && name[|r|] == ':'
  {
    if name == [] || name[0] == ':' then [] else [name[0]] + Prefix(name[1..])
  }

  /** `name.split(':')[1]`: the text between the first colon and the next one (or the end). */
  function LocalPart(name: string): (r: string)
    requires HasColon(name)
    ensures ':' !in r
    ensures |Prefix(name)| + 1 + |r| <= |name|
    ensures name[..|Prefix(name)| + 1 + |r|] == Prefix(name) + ":" + r
  {
    var rest := name[|Prefix(name)| + 1..];
    assert name == Prefix(name) + ":" + rest;
    Prefix(rest)
  }

  // ---------------------------------------------------------------------------
  // The attribute map (NamedNodeMap)

  /** Position of the first attribute called `name`, if there is one. */
  function IndexOfName(attrs: seq<Attribute>, name: string): (r: Option<nat>)
    ensures r.Some? ==> r.value < |attrs| && attrs[r.value].name == name
    ensures r.Some? ==> forall k | 0 <= k < r.value :: attrs[k].name != name
    ensures r.None? ==> forall k | 0 <= k < |attrs| :: attrs[k].name != name
  {
    if attrs == [] then None
    else if attrs[0].name == name then Some(0)
    else
      match IndexOfName(attrs[1..], name)
      case Some(k) => Some(k + 1)
      case None => None
  }

  predicate HasAttribute(attrs: seq<Attribute>, name: string)
  {
    exists i | 0 <= i < |attrs| :: attrs[i].name == name
  }

  /** A NamedNodeMap never holds two attributes of the same qualified name. */
  predicate UniqueNames(attrs: seq<Attribute>)
  {
    forall i, j | 0 <= i < j < |attrs| :: attrs[i].name != attrs[j].name
  }

  /** Attribute names are distinct in every element of the tree. */
  predicate WellFormed(n: Node)
    decreases n
  {
    (n.Element? ==> UniqueNames(n.attributes)) && (IsParent(n) ==> forall k | 0 <= k < |n.childNodes| :: WellFormed(n.childNodes[k]))
  }

  /** `getAttribute(name)`, with `None` for `null`. */
  function GetAttribute(attrs: seq<Attribute>, name: string): (r: Option<string>)
    ensures r.Some? <==> HasAttribute(attrs, name)
  {
    match IndexOfName(attrs, name)
    case Some(i) => Some(attrs[i].value)
    case None => None
  }

  lemma GetAttributeAt(attrs: seq<Attribute>, i: nat)
    requires UniqueNames(attrs) && i < |attrs|
    ensures GetAttribute(attrs, attrs[i].name) == Some(attrs[i].value)
  {
  }

  /** Two attribute lists with the same names position by position find every name at the same place. */
  lemma SameNamesSameIndex(a: seq<Attribute>, b: seq<Attribute>, name: string)
    requires |a| == |b| && forall k | 0 <= k < |a| :: a[k].name == b[k].name
    ensures IndexOfName(a, name) == IndexOfName(b, name)
  {
    var ia, ib := IndexOfName(a, name), IndexOfName(b, name);
    if ia.Some? && ib.Some? {
      assert !(ia.value < ib.value) && !(ib.value < ia.value);
    }
  }

  /**
   * `setAttribute(name, value)`: an existing attribute of that name keeps its
   * place and takes the new value; otherwise the attribute is appended.
   */
  function SetAttribute(attrs: seq<Attribute>, name: string, value: string): (r: seq<Attribute>)
    ensures |r| == |attrs| + (if HasAttribute(attrs, name) then 0 else 1)
    ensures forall i | 0 <= i < |attrs| :: r[i].name == attrs[i].name
    ensures forall i | 0 <= i < |attrs| && attrs[i].name != name :: r[i] == attrs[i]
    ensures !HasAttribute(attrs, name) ==> r[|attrs|] == Attribute(name, value)
    ensures GetAttribute(r, name) == Some(value)
    ensures forall n | n != name :: GetAttribute(r, n) == GetAttribute(attrs, n)
    ensures UniqueNames(attrs) ==> UniqueNames(r)
  {
    match IndexOfName(attrs, name)
    case Some(i) =>
      OverwriteKeepsIndices(attrs, i, value);
      attrs[i := Attribute(name, value)]
    case None =>
      AppendKeepsIndices(attrs, name, value);
      attrs + [Attribute(name, value)]
  }

  lemma OverwriteKeepsIndices(attrs: seq<Attribute>, i: nat, value: string)
    requires i < |attrs|
    ensures forall n :: IndexOfName(attrs[i := Attribute(attrs[i].name, value)], n) == IndexOfName(attrs, n)
  {
    forall n ensures IndexOfName(attrs[i := Attribute(attrs[i].name, value)], n) == IndexOfName(attrs, n) {
      SameNamesSameIndex(attrs[i := Attribute(attrs[i].name, value)], attrs, n);
    }
  }

  lemma AppendKeepsIndices(attrs: seq<Attribute>, name: string, value: string)
    requires !HasAttribute(attrs, name)
    ensures IndexOfName(attrs + [Attribute(name, value)], name) == Some(|attrs|)
    ensures forall n | n != name :: IndexOfName(attrs + [Attribute(name, value)], n) == IndexOfName(attrs, n)
  {
    var r := attrs + [Attribute(name, value)];
    forall n | n != name ensures IndexOfName(r, n) == IndexOfName(attrs, n) {
      AppendKeepsIndex(attrs, Attribute(name, value), n);
    }
    assert forall k | 0 <= k < |attrs| :: r[k].name != name;
    assert r[|attrs|].name == name;
  }

  lemma AppendKeepsIndex(attrs: seq<Attribute>, a: Attribute, n: string)
    requires a.name != n
    ensures IndexOfName(attrs + [a], n) == IndexOfName(attrs, n)
  {
    var r := attrs + [a];
    assert forall k | 0 <= k < |attrs| :: r[k] == attrs[k];
    var ir, ia := IndexOfName(r, n), IndexOfName(attrs, n);
    if ir.Some? {
      assert ir.value < |attrs|;
    }
    if ia.Some? {
      assert r[ia.value].name == n;
    }
  }

  /** `removeAttributeNode(attrs[i])`: drops the i-th attribute, shifting the later ones down. */
  function RemoveAt(attrs: seq<Attribute>, i: nat): (r: seq<Attribute>)
    requires i < |attrs|
    ensures |r| == |attrs| - 1
    ensures forall k | 0 <= k < i :: r[k] == attrs[k]
    ensures forall k | i <= k < |r| :: r[k] == attrs[k + 1]
    ensures UniqueNames(attrs) ==> UniqueNames(r)
    ensures UniqueNames(attrs) ==> GetAttribute(r, attrs[i].name) == None
    ensures UniqueNames(attrs) ==> forall n | n != attrs[i].name :: GetAttribute(r, n) == GetAttribute(attrs, n)
  {
    RemovalKeepsOthers(attrs, i);
    attrs[..i] + attrs[i + 1..]
  }

  lemma RemovalKeepsOthers(attrs: seq<Attribute>, i: nat)
    requires i < |attrs|
    ensures UniqueNames(attrs) ==> UniqueNames(attrs[..i] + attrs[i + 1..])
    ensures UniqueNames(attrs) ==> GetAttribute(attrs[..i] + attrs[i + 1..], attrs[i].name) == None
    ensures UniqueNames(attrs) ==>
      forall n | n != attrs[i].name :: GetAttribute(attrs[..i] + attrs[i + 1..], n) == GetAttribute(attrs, n)
  {
    if !UniqueNames(attrs) {
      return;
    }
    var r := attrs[..i] + attrs[i + 1..];
    assert forall k | 0 <= k < |r| :: r[k] == attrs[if k < i then k else k + 1];
    forall n | n != attrs[i].name ensures GetAttribute(r, n) == GetAttribute(attrs, n) {
      if HasAttribute(attrs, n) {
        var j :| 0 <= j < |attrs| && attrs[j].name == n;
        GetAttributeAt(attrs, j);
        var k := if j < i then j else j - 1;
        assert r[k] == attrs[j];
        GetAttributeAt(r, k);
      } else {
        assert !HasAttribute(r, n);
      }
    }
  }

  /** `removeAttribute(name)`: the attribute of that name, if any, is dropped; the others keep their order. */
  function RemoveAttribute(attrs: seq<Attribute>, name: string): (r: seq<Attribute>)
    ensures |r| <= |attrs|
    ensures !HasAttribute(attrs, name) ==> r == attrs
    ensures UniqueNames(attrs) ==> UniqueNames(r)
    ensures UniqueNames(attrs) ==> GetAttribute(r, name) == None
    ensures UniqueNames(attrs) ==> forall n | n != name :: GetAttribute(r, n) == GetAttribute(attrs, n)
  {
    match IndexOfName(attrs, name)
    case Some(i) => RemoveAt(attrs, i)
    case None => attrs
  }
}
