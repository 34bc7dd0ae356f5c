/**
 * `prefixIds(element, prefix)`: every element below `element` gets the id
 * `prefix.oldId` (an element without an id counts as having the empty one),
 * and every `url(#id)` reference in any attribute value below `element` whose
 * id was recorded by the first pass is rewritten to the new id.
 */
module PrefixIds {
  import opened Wrappers
  import opened Dom
  import Seqs

  // ---------------------------------------------------------------------------
  // The `url(#id)` references of an attribute value

  const UrlOpen: string := "url(#"

  /**
   * The id of the reference `/url\(#([^)]+)\)/` matches at the start of `s`:
   * the text between `url(#` and the first `)` after it, which must not be empty.
   */
  function ReferenceAt(s: string): (r: Option<string>)
    ensures r.Some? ==> 0 < |r.value| && |r.value| + 6 <= |s| && ')' !in r.value
    ensures r.Some? ==> s[..|r.value| + 6] == UrlOpen + r.value + ")"
    ensures |s| < 5 || s[..5] != UrlOpen ==> r.None?
  {
    if |s| < 5 || s[..5] != UrlOpen then None
    else
      match Seqs.IndexOf(s[5..], ')')
      case Some(k) => if k == 0 then None else Some(s[5..5 + k])
      case None => None
  }

  lemma ReferenceAtReference(id: string, rest: string)
    requires id != [] && ')' !in id
    ensures ReferenceAt(UrlOpen + id + ")" + rest) == Some(id)
  {
    var s := UrlOpen + id + ")" + rest;
    assert s[..5] == UrlOpen;
    assert s[5..] == id + ")" + rest;
    assert s[5..][|id|] == ')';
    assert s[5..][..|id|] == id;
    assert s[5..5 + |id|] == id;
  }

  /**
   * `value.replace(/url\(#([^)]+)\)/g, …)`: scanning from the left, each
   * reference whose id the lookup answers is replaced by `url(#newId)`; every
   * other reference and every other character is kept.
   */
  function RewriteUrls(s: string, lookup: string -> Option<string>): string
    decreases |s|
  {
    if s == [] then []
    else
      match ReferenceAt(s)
      case Some(id) =>
        (match lookup(id) case Some(newId) => UrlOpen + newId + ")" case None => s[..|id| + 6])
        + RewriteUrls(s[|id| + 6..], lookup)
      case None => [s[0]] + RewriteUrls(s[1..], lookup)
  }

  /** A reference is replaced by the looked-up id, or kept when the lookup has none; the scan goes on after it. */
  lemma ReferenceRewritten(id: string, rest: string, lookup: string -> Option<string>)
    requires id != [] && ')' !in id
    ensures RewriteUrls(UrlOpen + id + ")" + rest, lookup) ==
      (match lookup(id) case Some(newId) => UrlOpen + newId + ")" case None => UrlOpen + id + ")")
      + RewriteUrls(rest, lookup)
  {
    var s := UrlOpen + id + ")" + rest;
    ReferenceAtReference(id, rest);
    assert s[|id| + 6..] == rest;
    assert s[..|id| + 6] == UrlOpen + id + ")";
  }

  /** A character that cannot start a reference is copied. */
  lemma PlainCharacterKept(c: char, rest: string, lookup: string -> Option<string>)
    requires c != 'u'
    ensures RewriteUrls([c] + rest, lookup) == [c] + RewriteUrls(rest, lookup)
  {
    assert ([c] + rest)[1..] == rest;
    assert ([c] + rest)[0] != UrlOpen[0];
  }

  /** `url(#` starts at position `p` of `s`. */
  predicate OpensAt(s: string, p: nat)
  {
    p + 5 <= |s| && s[p..p + 5] == UrlOpen
  }

  /** `s` holds no `url(#` at all. */
  predicate NoReference(s: string)
  {
    forall p: nat | p < |s| :: !OpensAt(s, p)
  }

  /** A value without `url(#` is left as it is. */
  lemma {:induction false} NoReferenceUnchanged(s: string, lookup: string -> Option<string>)
    requires NoReference(s)
    ensures RewriteUrls(s, lookup) == s
    decreases |s|
  {
    if s != [] {
      assert !OpensAt(s, 0);
      assert |s| >= 5 ==> s[..5] == s[0..0 + 5];
      forall p: nat | p < |s[1..]|
        ensures !OpensAt(s[1..], p)
      {
        if p + 5 <= |s[1..]| {
          assert s[1..][p..p + 5] == s[p + 1..p + 1 + 5];
          assert !OpensAt(s, p + 1);
        }
      }
      NoReferenceUnchanged(s[1..], lookup);
      assert s == [s[0]] + s[1..];
    }
  }

  /** With a lookup that answers nothing, every value is left as it is. */
  lemma {:induction false} NothingFoundUnchanged(s: string, lookup: string -> Option<string>)
    requires forall id :: lookup(id).None?
    ensures RewriteUrls(s, lookup) == s
    decreases |s|
  {
    if s != [] {
      match ReferenceAt(s)
      case Some(id) =>
        NothingFoundUnchanged(s[|id| + 6..], lookup);
        Seqs.TakeDrop(s, |id| + 6);
      case None =>
        NothingFoundUnchanged(s[1..], lookup);
        Seqs.TakeDrop(s, 1);
        assert s[..1] == [s[0]];
    }
  }

  /** Joining two values with `.` never creates a `url(#`. */
  lemma DotJoinHasNoReference(a: string, b: string)
    requires NoReference(a) && NoReference(b)
    ensures NoReference(a + "." + b)
  {
    var s := a + "." + b;
    forall p: nat | p < |s|
      ensures !OpensAt(s, p)
    {
      if p + 5 <= |s| {
        if p + 5 <= |a| {
          assert s[p..p + 5] == a[p..p + 5];
          assert !OpensAt(a, p);
        } else if p > |a| {
          var q: nat := p - |a| - 1;
          assert s[p..p + 5] == b[q..q + 5];
          assert !OpensAt(b, q);
        } else {
          assert s[|a|] == '.';
          assert s[p..p + 5][|a| - p] == s[|a|];
          assert UrlOpen[|a| - p] != '.';
        }
      }
    }
  }

  // ---------------------------------------------------------------------------
  // The replacement table

  /** `element.id`: the `id` attribute, or the empty string when there is none. */
  function IdOf(attrs: seq<Attribute>): string
  {
    match GetAttribute(attrs, "id") case Some(v) => v case None => ""
  }

  /** The ids of every element of the forest. */
  function Ids(cs: seq<Node>): set<string>
    decreases cs
  {
    if cs == [] then {}
    else
      (match cs[0] case Element(_, attrs, kids) => {IdOf(attrs)} + Ids(kids) case _ => {})
      + Ids(cs[1..])
  }

  /** The table the first pass fills: each id it meets, mapped to its prefixed form. */
  function Table(cs: seq<Node>, prefix: string): (t: map<string, string>)
    ensures t.Keys == Ids(cs)
    ensures forall id | id in t :: t[id] == prefix + "." + id
  {
    map id | id in Ids(cs) :: prefix + "." + id
  }

  predicate IsElementItem(i: Item)
  {
    i.node.Element?
  }

  /** The ids of the elements of a listing. */
  function IdsIn(items: seq<Item>): set<string>
    decreases |items|
  {
    if items == [] then {}
    else
      var last := items[|items| - 1];
      IdsIn(items[..|items| - 1]) + (if last.node.Element? then {IdOf(last.node.attributes)} else {})
  }

  lemma {:induction false} IdsInConcat(a: seq<Item>, b: seq<Item>)
    ensures IdsIn(a + b) == IdsIn(a) + IdsIn(b)
    decreases |b|
  {
    if b == [] {
      assert a + b == a;
    } else {
      var init := b[..|b| - 1];
      assert (a + b)[..|a + b| - 1] == a + init;
      IdsInConcat(a, init);
    }
  }

  /** The elements listed in document order carry exactly the ids of the forest. */
  lemma {:induction false} ListedIds(cs: seq<Node>, depth: nat)
    ensures IdsIn(Seqs.Filter(IsElementItem, Preorder(cs, depth))) == Ids(cs)
    decreases cs
  {
    if cs != [] {
      var c := cs[0];
      var head := Item(depth, Shallow(c));
      var inner := Seqs.Filter(IsElementItem, Preorder(ElementChildren(c), depth + 1));
      var after := Seqs.Filter(IsElementItem, Preorder(cs[1..], depth));
      var first := if IsElementItem(head) then [head] else [];
      assert cs == [c] + cs[1..];
      PreorderCons(c, cs[1..], depth);
      Seqs.FilterSplit(IsElementItem, head, Preorder(ElementChildren(c), depth + 1), Preorder(cs[1..], depth));
      IdsInConcat(first + inner, after);
      IdsInConcat(first, inner);
      assert IdsIn(first) == if c.Element? then {IdOf(c.attributes)} else {} by {
        if c.Element? {
          assert first[..0] == [];
        }
      }
      ListedIds(cs[1..], depth);
      if c.Element? {
        ListedIds(c.childNodes, depth + 1);
      }
    }
  }

  /**
   * The first pass: `querySelectorAll('*')` lists the elements below in
   * document order, and each one in turn stores its id under the key it has,
   * mapped to `prefix.id`. The table it leaves is `Table`.
   */
  method FirstPass(cs: seq<Node>, prefix: string) returns (replacement: map<string, string>)
    ensures replacement == Table(cs, prefix)
  {
    var elements := Seqs.Filter(IsElementItem, Preorder(cs, 0));
    replacement := map[];
    for i := 0 to |elements|
      invariant replacement == map id | id in IdsIn(elements[..i]) :: prefix + "." + id
    {
      assert IsElementItem(elements[i]);
      var id := IdOf(elements[i].node.attributes);
      assert elements[..i + 1][..i] == elements[..i];
      replacement := replacement[id := prefix + "." + id];
    }
    assert elements[..|elements|] == elements;
    ListedIds(cs, 0);
  }

  /** `replacement[id]` and its truthiness test, reading only what the first pass stored. */
  function Replacement(table: map<string, string>): string -> Option<string>
  {
    id => if id in table && table[id] != "" then Some(table[id]) else None
  }

  // ---------------------------------------------------------------------------
  // Both passes

  /** The first pass on one element: `id` is set to its new value. */
  function NewIdOf(prefix: string): string -> string
  {
    id => prefix + "." + id
  }

  /** One element's attributes after both passes: `id` set to its new value, then every value rewritten. */
  function PrefixedAttributes(attrs: seq<Attribute>, newId: string -> string, lookup: string -> Option<string>): (r: seq<Attribute>)
    ensures |r| == |SetAttribute(attrs, "id", newId(IdOf(attrs)))|
    ensures forall k | 0 <= k < |r| :: r[k].name == SetAttribute(attrs, "id", newId(IdOf(attrs)))[k].name
  {
    var withId := SetAttribute(attrs, "id", newId(IdOf(attrs)));
    seq(|withId|, k requires 0 <= k < |withId| => Attribute(withId[k].name, RewriteUrls(withId[k].value, lookup)))
  }

  lemma PrefixedAttributesGet(attrs: seq<Attribute>, newId: string -> string, lookup: string -> Option<string>, name: string)
    requires UniqueNames(attrs)
    ensures UniqueNames(PrefixedAttributes(attrs, newId, lookup))
    ensures GetAttribute(PrefixedAttributes(attrs, newId, lookup), name) ==
      match GetAttribute(SetAttribute(attrs, "id", newId(IdOf(attrs))), name)
      case Some(v) => Some(RewriteUrls(v, lookup))
      case None => None
  {
    var withId := SetAttribute(attrs, "id", newId(IdOf(attrs)));
    var r := PrefixedAttributes(attrs, newId, lookup);
    SameNamesSameIndex(r, withId, name);
  }

  function ChildrenPrefixed(cs: seq<Node>, newId: string -> string, lookup: string -> Option<string>): (r: seq<Node>)
    ensures |r| == |cs|
    decreases cs
  {
    if cs == [] then []
    else
      var c := match cs[0]
        case Element(tag, attrs, kids) => Element(tag, PrefixedAttributes(attrs, newId, lookup), ChildrenPrefixed(kids, newId, lookup))
        case _ => cs[0];
      [c] + ChildrenPrefixed(cs[1..], newId, lookup)
  }

  /**
   * `prefixIds(element, prefix)`: the first pass over the elements below
   * `element` records and sets the new ids; the second rewrites the
   * references in every attribute value of those elements. The element
   * itself is left alone.
   */
  function PrefixIds(element: Node, prefix: string): (r: Node)
    requires IsParent(element)
    ensures IsParent(r) && Shallow(r) == Shallow(element) && |r.childNodes| == |element.childNodes|
  {
    element.(childNodes := ChildrenPrefixed(element.childNodes, NewIdOf(prefix), Replacement(Table(element.childNodes, prefix))))
  }

  // ---------------------------------------------------------------------------
  // What the passes promise

  /**
   * Each element below gets the id `prefix.oldId` (the old id being empty
   * when there was none), provided neither part holds a `url(#` reference the
   * second pass would rewrite.
   */
  lemma IdsBecomePrefixed(attrs: seq<Attribute>, prefix: string, table: map<string, string>)
    requires UniqueNames(attrs) && NoReference(prefix) && NoReference(IdOf(attrs))
    ensures GetAttribute(PrefixedAttributes(attrs, NewIdOf(prefix), Replacement(table)), "id") == Some(prefix + "." + IdOf(attrs))
  {
    PrefixedAttributesGet(attrs, NewIdOf(prefix), Replacement(table), "id");
    assert NoReference(".");
    DotJoinHasNoReference(prefix, IdOf(attrs));
    NoReferenceUnchanged(prefix + "." + IdOf(attrs), Replacement(table));
  }

  /** Every other attribute keeps its place and name; its value has its references rewritten. */
  lemma OtherAttributesRewritten(attrs: seq<Attribute>, prefix: string, table: map<string, string>, name: string)
    requires UniqueNames(attrs) && name != "id"
    ensures GetAttribute(PrefixedAttributes(attrs, NewIdOf(prefix), Replacement(table)), name) ==
      match GetAttribute(attrs, name)
      case Some(v) => Some(RewriteUrls(v, Replacement(table)))
      case None => None
  {
    PrefixedAttributesGet(attrs, NewIdOf(prefix), Replacement(table), name);
  }

  /**
   * A reference to an id some element below had becomes a reference to its
   * prefixed form; a reference to any other id is kept as it is.
   */
  lemma ReferencesFollowIds(cs: seq<Node>, prefix: string, id: string, rest: string)
    requires id != [] && ')' !in id
    ensures id in Ids(cs) ==>
      RewriteUrls(UrlOpen + id + ")" + rest, Replacement(Table(cs, prefix)))
      == UrlOpen + prefix + "." + id + ")" + RewriteUrls(rest, Replacement(Table(cs, prefix)))
    ensures id !in Ids(cs) ==>
      RewriteUrls(UrlOpen + id + ")" + rest, Replacement(Table(cs, prefix)))
      == UrlOpen + id + ")" + RewriteUrls(rest, Replacement(Table(cs, prefix)))
  {
    ReferenceRewritten(id, rest, Replacement(Table(cs, prefix)));
    if id in Ids(cs) {
      assert Table(cs, prefix)[id] == prefix + "." + id;
      Seqs.Associative(UrlOpen, prefix, ".");
      Seqs.Associative(UrlOpen + prefix, ".", id);
      Seqs.Associative(UrlOpen, prefix + ".", id);
    }
  }

  /** One node with its attributes passed through both passes. */
  function PrefixOne(n: Node, newId: string -> string, lookup: string -> Option<string>): Node
  {
    if n.Element? then n.(attributes := PrefixedAttributes(n.attributes, newId, lookup)) else n
  }

  /** Every item of a listing with its node passed through both passes, at its depth, in order. */
  function PrefixAll(items: seq<Item>, newId: string -> string, lookup: string -> Option<string>): (r: seq<Item>)
    ensures |r| == |items|
    ensures forall k | 0 <= k < |items| :: r[k] == Item(items[k].depth, PrefixOne(items[k].node, newId, lookup))
  {
    seq(|items|, k requires 0 <= k < |items| => Item(items[k].depth, PrefixOne(items[k].node, newId, lookup)))
  }

  lemma PrefixAllConcat(a: seq<Item>, b: seq<Item>, newId: string -> string, lookup: string -> Option<string>)
    ensures PrefixAll(a + b, newId, lookup) == PrefixAll(a, newId, lookup) + PrefixAll(b, newId, lookup)
  {
  }

  lemma PrefixAllSplit(x: Item, a: seq<Item>, b: seq<Item>, newId: string -> string, lookup: string -> Option<string>)
    ensures PrefixAll([x] + a + b, newId, lookup)
      == [Item(x.depth, PrefixOne(x.node, newId, lookup))] + PrefixAll(a, newId, lookup) + PrefixAll(b, newId, lookup)
  {
    PrefixAllConcat([x] + a, b, newId, lookup);
    PrefixAllConcat([x], a, newId, lookup);
    assert PrefixAll([x], newId, lookup) == [Item(x.depth, PrefixOne(x.node, newId, lookup))];
  }

  lemma PrefixedChildHead(c: Node, newId: string -> string, lookup: string -> Option<string>)
    ensures Shallow(ChildrenPrefixed([c], newId, lookup)[0]) == PrefixOne(Shallow(c), newId, lookup)
    ensures ElementChildren(ChildrenPrefixed([c], newId, lookup)[0]) == ChildrenPrefixed(ElementChildren(c), newId, lookup)
  {
  }

  lemma ChildrenPrefixedCons(c: Node, more: seq<Node>, newId: string -> string, lookup: string -> Option<string>)
    ensures ChildrenPrefixed([c] + more, newId, lookup) == [ChildrenPrefixed([c], newId, lookup)[0]] + ChildrenPrefixed(more, newId, lookup)
  {
    assert ([c] + more)[1..] == more;
  }

  /**
   * Only attributes change: the nodes below the element are the same nodes at
   * the same depths and in the same order, each element with its attributes
   * passed through both passes.
   */
  lemma {:induction false} OnlyAttributesChange(cs: seq<Node>, newId: string -> string, lookup: string -> Option<string>, depth: nat)
    ensures Preorder(ChildrenPrefixed(cs, newId, lookup), depth) == PrefixAll(Preorder(cs, depth), newId, lookup)
    decreases cs
  {
    if cs != [] {
      var c, rest := cs[0], ChildrenPrefixed(cs[1..], newId, lookup);
      var d := ChildrenPrefixed([c], newId, lookup)[0];
      Seqs.HeadTail(cs);
      ChildrenPrefixedCons(c, cs[1..], newId, lookup);
      PrefixedChildHead(c, newId, lookup);
      PreorderCons(c, cs[1..], depth);
      PreorderCons(d, rest, depth);
      OnlyAttributesChange(cs[1..], newId, lookup, depth);
      PrefixAllSplit(Item(depth, Shallow(c)), Preorder(ElementChildren(c), depth + 1), Preorder(cs[1..], depth), newId, lookup);
      match c
      case Element(_, _, kids) =>
        OnlyAttributesChange(kids, newId, lookup, depth + 1);
      case _ =>
    }
  }

  /**
   * `prefixIds` changes attributes only: listing what is below the container
   * afterwards gives the nodes listed before, at the same depths and in the
   * same order, each element with its id set to `prefix.id` and its
   * references rewritten through the table of the first pass.
   */
  lemma PrefixIdsChangesOnlyAttributes(element: Node, prefix: string)
    requires IsParent(element)
    ensures Preorder(PrefixIds(element, prefix).childNodes, 0)
      == PrefixAll(Preorder(element.childNodes, 0), NewIdOf(prefix), Replacement(Table(element.childNodes, prefix)))
  {
    OnlyAttributesChange(element.childNodes, NewIdOf(prefix), Replacement(Table(element.childNodes, prefix)), 0);
  }

  // ---------------------------------------------------------------------------
  // The table as written: a plain object

  /**
   * What a plain JavaScript object yields for a key it does not own: the
   * members it inherits from `Object.prototype`, as `String()` prints them in
   * V8 (a native function prints as its source stub, the prototype itself as
   * `[object Object]`); `None` for `undefined`.
   */
  function Inherited(key: string): Option<string>
  {
    if key == "__proto__" then Some("[object Object]")
    else if key == "constructor" then Some("function Object() { [native code] }")
    else if key in {"hasOwnProperty", "isPrototypeOf", "propertyIsEnumerable", "toLocaleString", "toString",
                    "valueOf", "__defineGetter__", "__defineSetter__", "__lookupGetter__", "__lookupSetter__"}
    then Some("function " + key + "() { [native code] }")
    else None
  }

  /**
   * `replacement[id]` and its truthiness test as written: `replacement` is
   * `{}`, so an id it does not own falls through to `Object.prototype`, and an
   * assignment to the key `__proto__` is never stored as an own key.
   */
  function ReplacementAsWritten(table: map<string, string>): string -> Option<string>
  {
    id => if id in table && id != "__proto__" then (if table[id] != "" then Some(table[id]) else None) else Inherited(id)
  }

  /** The first pass as written: `replacement.__proto__` reads back as `Object.prototype`. */
  function NewIdOfAsWritten(prefix: string): string -> string
  {
    id => if id == "__proto__" then "[object Object]" else prefix + "." + id
  }

  /** `prefixIds` exactly as written, with the table held in a plain object. */
  function PrefixIdsAsWritten(element: Node, prefix: string): (r: Node)
    requires IsParent(element)
    ensures IsParent(r) && Shallow(r) == Shallow(element) && |r.childNodes| == |element.childNodes|
  {
    element.(childNodes := ChildrenPrefixed(element.childNodes, NewIdOfAsWritten(prefix), ReplacementAsWritten(Table(element.childNodes, prefix))))
  }

  /** Where no element has such an id, the two tables agree, except on the names `Object.prototype` supplies. */
  lemma AsWrittenAgreesOnOwnIds(table: map<string, string>, id: string)
    requires id != "__proto__" && (id in table || Inherited(id).None?)
    ensures ReplacementAsWritten(table)(id) == Replacement(table)(id)
  {
  }

  lemma InheritedToString()
    ensures Inherited("toString") == Some("function toString() { [native code] }")
  {
    assert "toString"[0] != "__proto__"[0] && "toString"[0] != "constructor"[0];
    assert "toString" in {"hasOwnProperty", "isPrototypeOf", "propertyIsEnumerable", "toLocaleString", "toString",
                          "valueOf", "__defineGetter__", "__defineSetter__", "__lookupGetter__", "__lookupSetter__"};
    assert "function " + "toString" + "() { [native code] }" == "function toString() { [native code] }";
  }

  /** The reference `url(#toString)`, when no element has the id `toString`. */
  const ToStringReference: string := UrlOpen + "toString" + ")"

  /** What the code as written makes of it: the printed form of `Object.prototype.toString`. */
  const ToStringRewritten: string := UrlOpen + "function toString() { [native code] }" + ")"

  lemma ToStringReferenceAsWritten(table: map<string, string>)
    requires "toString" !in table
    ensures RewriteUrls(ToStringReference, ReplacementAsWritten(table)) == ToStringRewritten
  {
    InheritedToString();
    assert ReplacementAsWritten(table)("toString") == Some("function toString() { [native code] }");
    ReferenceRewritten("toString", "", ReplacementAsWritten(table));
    assert ToStringReference == UrlOpen + "toString" + ")" + "";
  }

  lemma ToStringReferenceKept(table: map<string, string>)
    requires "toString" !in table
    ensures RewriteUrls(ToStringReference, Replacement(table)) == ToStringReference
  {
    ReferenceRewritten("toString", "", Replacement(table));
    assert ToStringReference == UrlOpen + "toString" + ")" + "";
  }

  lemma UseHref(newId: string -> string, lookup: string -> Option<string>)
    ensures GetAttribute(PrefixedAttributes([Attribute("href", ToStringReference)], newId, lookup), "href")
      == Some(RewriteUrls(ToStringReference, lookup))
  {
    var attrs := [Attribute("href", ToStringReference)];
    GetAttributeAt(attrs, 0);
    PrefixedAttributesGet(attrs, newId, lookup, "href");
  }

  /**
   * The discrepancy: below an `svg` element whose only child is a `use`
   * element referring to `url(#toString)`, no element has the id `toString`,
   * yet the code as written rewrites the reference to the printed form of
   * `Object.prototype.toString`; the corrected table leaves it alone.
   */
  lemma UnknownReferenceRewrittenAsWritten(prefix: string)
    ensures var svg := Element("svg", [], [Element("use", [Attribute("href", ToStringReference)], [])]);
      && GetAttribute(PrefixIdsAsWritten(svg, prefix).childNodes[0].attributes, "href") == Some(ToStringRewritten)
      && GetAttribute(PrefixIds(svg, prefix).childNodes[0].attributes, "href") == Some(ToStringReference)
  {
    var attrs := [Attribute("href", ToStringReference)];
    var cs := [Element("use", attrs, [])];
    assert Ids(cs) == {""} by {
      assert IdOf(attrs) == "";
      assert cs[1..] == [];
    }
    var table := Table(cs, prefix);
    ToStringReferenceAsWritten(table);
    ToStringReferenceKept(table);
    UseHref(NewIdOfAsWritten(prefix), ReplacementAsWritten(table));
    UseHref(NewIdOf(prefix), Replacement(table));
    assert ChildrenPrefixed(cs, NewIdOfAsWritten(prefix), ReplacementAsWritten(table))[0].attributes
      == PrefixedAttributes(attrs, NewIdOfAsWritten(prefix), ReplacementAsWritten(table));
    assert ChildrenPrefixed(cs, NewIdOf(prefix), Replacement(table))[0].attributes
      == PrefixedAttributes(attrs, NewIdOf(prefix), Replacement(table));
  }
}
