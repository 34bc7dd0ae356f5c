/**
 * `filterByNamespace` and `filterAttributesByNamespace`: prune and rename the
 * prefixed elements and attributes of a tree according to an options object
 * with a `primary` prefix (kept, prefix dropped), a `whitelist` (prefixes
 * kept) and a `blacklist` (prefixes removed). `primary` is tested first, then
 * `whitelist`, and `blacklist` only when there is no whitelist.
 */
module NamespaceFilter {
  import opened Wrappers
  import opened Dom
  import Seqs

  /**
   * The options object. A field that is absent is `None`. Any array is truthy,
   * so `whitelist == Some([])` is a whitelist that admits nothing.
   */
  datatype Options = Options(primary: Option<string>, whitelist: Option<seq<string>>, blacklist: Option<seq<string>>)

  predicate IsPrimary(opts: Options, ns: string)
  {
    opts.primary == Some(ns)
  }

  /** Whether a prefix other than `primary` survives: the whitelist decides if there is one, else the blacklist. */
  predicate Admitted(opts: Options, ns: string)
  {
    if opts.whitelist.Some? then ns in opts.whitelist.value
    else if opts.blacklist.Some? then ns !in opts.blacklist.value
    else true
  }

  /** A qualified name that filtering leaves alone: unprefixed, or with an admitted prefix other than `primary`. */
  predicate Kept(opts: Options, name: string)
  {
    !HasColon(name) || (!IsPrimary(opts, Prefix(name)) && Admitted(opts, Prefix(name)))
  }

  // ---------------------------------------------------------------------------
  // Attributes

  /** One turn of the backward attribute loop, on the attribute at index `i`. */
  function AttributeStep(attrs: seq<Attribute>, i: nat, opts: Options): (r: seq<Attribute>)
    requires i < |attrs|
    ensures |r| >= |attrs| - 1
  {
    var a := attrs[i];
    if !HasColon(a.name) then attrs
    else if IsPrimary(opts, Prefix(a.name)) then SetAttribute(RemoveAt(attrs, i), LocalPart(a.name), a.value)
    else if opts.whitelist.Some? then (if Prefix(a.name) in opts.whitelist.value then attrs else RemoveAt(attrs, i))
    else if opts.blacklist.Some? then (if Prefix(a.name) in opts.blacklist.value then RemoveAt(attrs, i) else attrs)
    else attrs
  }

  /** The attribute loop when indices `i - 1` down to `0` remain to be visited. */
  function AttributesFrom(attrs: seq<Attribute>, i: nat, opts: Options): seq<Attribute>
    requires i <= |attrs|
    decreases i
  {
    if i == 0 then attrs else AttributesFrom(AttributeStep(attrs, i - 1, opts), i - 1, opts)
  }

  lemma AttributesFromUnfold(attrs: seq<Attribute>, i: nat, opts: Options)
    requires 0 < i <= |attrs|
    ensures AttributesFrom(attrs, i, opts) == AttributesFrom(AttributeStep(attrs, i - 1, opts), i - 1, opts)
  {
  }

  /** The attribute list `filterAttributesByNamespace` leaves. */
  function AttributesFiltered(attrs: seq<Attribute>, opts: Options): seq<Attribute>
  {
    AttributesFrom(attrs, |attrs|, opts)
  }

  /** The value of the first attribute in `attrs` that `primary` renames to `name`, if any. */
  function RenamedValue(attrs: seq<Attribute>, name: string, opts: Options): Option<string>
  {
    if attrs == [] then None
    else if HasColon(attrs[0].name) && IsPrimary(opts, Prefix(attrs[0].name)) && LocalPart(attrs[0].name) == name
    then Some(attrs[0].value)
    else RenamedValue(attrs[1..], name, opts)
  }

  /** Two lists that agree on every name and on every prefixed attribute. */
  predicate AgreeOnPrefixed(a: seq<Attribute>, b: seq<Attribute>)
  {
    |a| == |b| &&
    forall k | 0 <= k < |a| :: a[k].name == b[k].name && (HasColon(a[k].name) ==> a[k] == b[k])
  }

  lemma {:induction false} RenamedValueAgree(a: seq<Attribute>, b: seq<Attribute>, name: string, opts: Options)
    requires AgreeOnPrefixed(a, b)
    ensures RenamedValue(a, name, opts) == RenamedValue(b, name, opts)
  {
    if a != [] {
      RenamedValueAgree(a[1..], b[1..], name, opts);
    }
  }

  lemma {:induction false} RenamedValueSnoc(a: seq<Attribute>, x: Attribute, name: string, opts: Options)
    ensures RenamedValue(a + [x], name, opts) ==
      if RenamedValue(a, name, opts).Some? then RenamedValue(a, name, opts)
      else if HasColon(x.name) && IsPrimary(opts, Prefix(x.name)) && LocalPart(x.name) == name then Some(x.value)
      else None
  {
    if a == [] {
      assert [x][1..] == [];
    } else {
      assert (a + [x])[1..] == a[1..] + [x];
      RenamedValueSnoc(a[1..], x, name, opts);
    }
  }

  /** One turn keeps the names unique. */
  lemma AttributeStepUnique(attrs: seq<Attribute>, i: nat, opts: Options)
    requires UniqueNames(attrs) && i < |attrs|
    ensures UniqueNames(AttributeStep(attrs, i, opts))
  {
  }

  /** One turn keeps the names of the unvisited attributes and every prefixed one among them. */
  lemma AttributeStepFacts(attrs: seq<Attribute>, i: nat, opts: Options)
    requires UniqueNames(attrs) && i < |attrs|
    ensures AgreeOnPrefixed(AttributeStep(attrs, i, opts)[..i], attrs[..i])
  {
    var a := attrs[i];
    if HasColon(a.name) && IsPrimary(opts, Prefix(a.name)) {
      var removed := RemoveAt(attrs, i);
      var r := SetAttribute(removed, LocalPart(a.name), a.value);
      assert forall k | 0 <= k < i :: r[k].name == removed[k].name == attrs[k].name;
      forall k | 0 <= k < i && HasColon(attrs[k].name) ensures r[k] == attrs[k] {
        assert removed[k].name != LocalPart(a.name);
      }
    }
  }

  /** What one turn does to the value of each name. */
  lemma AttributeStepGet(attrs: seq<Attribute>, i: nat, opts: Options, name: string)
    requires UniqueNames(attrs) && i < |attrs|
    ensures GetAttribute(AttributeStep(attrs, i, opts), name) ==
      if !HasColon(attrs[i].name) then GetAttribute(attrs, name)
      else if name == attrs[i].name then (if Kept(opts, name) then GetAttribute(attrs, name) else None)
      else if IsPrimary(opts, Prefix(attrs[i].name)) && name == LocalPart(attrs[i].name) then Some(attrs[i].value)
      else GetAttribute(attrs, name)
  {
    var a := attrs[i];
    if HasColon(a.name) && IsPrimary(opts, Prefix(a.name)) {
      assert LocalPart(a.name) != a.name;
    }
  }

  /** Names among the first `i` attributes, before and after a turn on index `i`. */
  lemma AttributeStepPrefix(attrs: seq<Attribute>, i: nat, opts: Options, name: string)
    requires UniqueNames(attrs) && i < |attrs|
    ensures HasAttribute(AttributeStep(attrs, i, opts)[..i], name) == HasAttribute(attrs[..i], name)
    ensures RenamedValue(AttributeStep(attrs, i, opts)[..i], name, opts) == RenamedValue(attrs[..i], name, opts)
  {
    var next := AttributeStep(attrs, i, opts);
    AttributeStepFacts(attrs, i, opts);
    RenamedValueAgree(next[..i], attrs[..i], name, opts);
    if HasAttribute(attrs[..i], name) {
      var k :| 0 <= k < i && attrs[..i][k].name == name;
      assert next[..i][k].name == name;
    }
  }

  lemma AttributesPrefixSnoc(attrs: seq<Attribute>, i: nat, name: string)
    requires UniqueNames(attrs) && 0 < i <= |attrs|
    ensures HasAttribute(attrs[..i], name) == (HasAttribute(attrs[..i - 1], name) || attrs[i - 1].name == name)
    ensures attrs[i - 1].name == name ==> !HasAttribute(attrs[..i - 1], name)
  {
    if HasAttribute(attrs[..i], name) && attrs[i - 1].name != name {
      var k :| 0 <= k < i && attrs[..i][k].name == name;
      assert attrs[..i - 1][k].name == name;
    }
    if HasAttribute(attrs[..i - 1], name) {
      var k :| 0 <= k < i - 1 && attrs[..i - 1][k].name == name;
      assert attrs[k].name == name;
    }
  }

  /**
   * The value the backward attribute loop leaves for `name` once indices
   * `i - 1` down to `0` have been visited (`attrs` being the list at that point).
   */
  function ExpectedFrom(attrs: seq<Attribute>, i: nat, opts: Options, name: string): Option<string>
    requires i <= |attrs|
  {
    if HasColon(name) then
      (if HasAttribute(attrs[..i], name) && !Kept(opts, name) then None else GetAttribute(attrs, name))
    else
      (match RenamedValue(attrs[..i], name, opts)
       case Some(v) => Some(v)
       case None => GetAttribute(attrs, name))
  }

  lemma ExpectedStepPrefixed(attrs: seq<Attribute>, i: nat, opts: Options, name: string)
    requires UniqueNames(attrs) && 0 < i <= |attrs| && HasColon(name)
    ensures ExpectedFrom(AttributeStep(attrs, i - 1, opts), i - 1, opts, name) == ExpectedFrom(attrs, i, opts, name)
  {
    AttributeStepGet(attrs, i - 1, opts, name);
    AttributeStepPrefix(attrs, i - 1, opts, name);
    AttributesPrefixSnoc(attrs, i, name);
    if attrs[i - 1].name == name {
      GetAttributeAt(attrs, i - 1);
    }
  }

  lemma ExpectedStepUnprefixed(attrs: seq<Attribute>, i: nat, opts: Options, name: string)
    requires UniqueNames(attrs) && 0 < i <= |attrs| && !HasColon(name)
    ensures ExpectedFrom(AttributeStep(attrs, i - 1, opts), i - 1, opts, name) == ExpectedFrom(attrs, i, opts, name)
  {
    var a := attrs[i - 1];
    AttributeStepGet(attrs, i - 1, opts, name);
    AttributeStepPrefix(attrs, i - 1, opts, name);
    Seqs.TakeSnoc(attrs, i);
    RenamedValueSnoc(attrs[..i - 1], a, name, opts);
  }

  /** The backward attribute loop keeps the names of the list unique. */
  lemma {:induction false} AttributesFromUnique(attrs: seq<Attribute>, i: nat, opts: Options)
    requires UniqueNames(attrs) && i <= |attrs|
    ensures UniqueNames(AttributesFrom(attrs, i, opts))
    decreases i
  {
    if i > 0 {
      AttributeStepUnique(attrs, i - 1, opts);
      AttributesFromUnique(AttributeStep(attrs, i - 1, opts), i - 1, opts);
    }
  }

  /** One turn of the loop keeps the expected value of `name`. */
  lemma ExpectedStep(attrs: seq<Attribute>, i: nat, opts: Options, name: string)
    requires UniqueNames(attrs) && 0 < i <= |attrs|
    ensures ExpectedFrom(AttributeStep(attrs, i - 1, opts), i - 1, opts, name) == ExpectedFrom(attrs, i, opts, name)
  {
    if HasColon(name) {
      ExpectedStepPrefixed(attrs, i, opts, name);
    } else {
      ExpectedStepUnprefixed(attrs, i, opts, name);
    }
  }

  /** `UniqueNames`, one head at a time. */
  predicate Distinct(attrs: seq<Attribute>)
  {
    attrs == [] || (!HasAttribute(attrs[1..], attrs[0].name) && Distinct(attrs[1..]))
  }

  lemma {:induction false} DistinctUnique(attrs: seq<Attribute>)
    ensures Distinct(attrs) <==> UniqueNames(attrs)
  {
    if attrs != [] {
      DistinctUnique(attrs[1..]);
      UniqueHead(attrs);
    }
  }

  /** Names are distinct when the first one is not repeated and the rest are distinct. */
  lemma UniqueHead(attrs: seq<Attribute>)
    requires attrs != []
    ensures UniqueNames(attrs) <==> !HasAttribute(attrs[1..], attrs[0].name) && UniqueNames(attrs[1..])
  {
    var t := attrs[1..];
    if HasAttribute(t, attrs[0].name) {
      var k :| 0 <= k < |t| && t[k].name == attrs[0].name;
      assert attrs[k + 1].name == attrs[0].name;
    }
    if UniqueNames(attrs) {
      forall i, j | 0 <= i < j < |t| ensures t[i].name != t[j].name {
        assert t[i] == attrs[i + 1] && t[j] == attrs[j + 1];
      }
    }
    if !HasAttribute(t, attrs[0].name) && UniqueNames(t) {
      forall i, j | 0 <= i < j < |attrs| ensures attrs[i].name != attrs[j].name {
        if i == 0 {
          assert t[j - 1] == attrs[j];
        } else {
          assert t[i - 1] == attrs[i] && t[j - 1] == attrs[j];
        }
      }
    }
  }

  /** The invariant of the backward attribute loop, name by name. */
  lemma {:induction false} AttributesFromGet(attrs: seq<Attribute>, i: nat, opts: Options, name: string)
    requires Distinct(attrs) && i <= |attrs|
    ensures GetAttribute(AttributesFrom(attrs, i, opts), name) == ExpectedFrom(attrs, i, opts, name)
    decreases i
  {
    if i == 0 {
      ExpectedAtStart(attrs, opts, name);
    } else {
      DistinctStep(attrs, i, opts);
      AttributesFromGet(AttributeStep(attrs, i - 1, opts), i - 1, opts, name);
      AttributesFromStep(attrs, i, opts, name);
    }
  }

  lemma DistinctStep(attrs: seq<Attribute>, i: nat, opts: Options)
    requires Distinct(attrs) && 0 < i <= |attrs|
    ensures Distinct(AttributeStep(attrs, i - 1, opts))
  {
    DistinctUnique(attrs);
    AttributeStepUnique(attrs, i - 1, opts);
    DistinctUnique(AttributeStep(attrs, i - 1, opts));
  }

  /** The inductive step of `AttributesFromGet`. */
  lemma AttributesFromStep(attrs: seq<Attribute>, i: nat, opts: Options, name: string)
    requires Distinct(attrs) && 0 < i <= |attrs|
    requires GetAttribute(AttributesFrom(AttributeStep(attrs, i - 1, opts), i - 1, opts), name) ==
      ExpectedFrom(AttributeStep(attrs, i - 1, opts), i - 1, opts, name)
    ensures GetAttribute(AttributesFrom(attrs, i, opts), name) == ExpectedFrom(attrs, i, opts, name)
  {
    DistinctUnique(attrs);
    ExpectedStep(attrs, i, opts, name);
  }

  /** Before the loop, every name has its own value. */
  lemma ExpectedAtStart(attrs: seq<Attribute>, opts: Options, name: string)
    ensures ExpectedFrom(attrs, 0, opts, name) == GetAttribute(attrs, name)
  {
    assert attrs[..0] == [];
  }

  /**
   * `filterAttributesByNamespace`, name by name: a prefixed attribute stays
   * exactly when its prefix is not `primary` and is admitted (whitelist over
   * blacklist); an unprefixed name takes the value of the first
   * `primary`-prefixed attribute with that local name, overwriting any value it
   * had, and otherwise keeps its own value.
   */
  lemma AttributesFilteredGet(attrs: seq<Attribute>, opts: Options, name: string)
    requires UniqueNames(attrs)
    ensures UniqueNames(AttributesFiltered(attrs, opts))
    ensures GetAttribute(AttributesFiltered(attrs, opts), name) ==
      if HasColon(name) then
        (if Kept(opts, name) then GetAttribute(attrs, name) else None)
      else
        (match RenamedValue(attrs, name, opts)
         case Some(v) => Some(v)
         case None => GetAttribute(attrs, name))
  {
    AttributesFromUnique(attrs, |attrs|, opts);
    DistinctUnique(attrs);
    AttributesFromGet(attrs, |attrs|, opts, name);
    assert attrs[..|attrs|] == attrs;
    if !HasColon(name) {
      match RenamedValue(attrs, name, opts)
      case Some(v) =>
      case None =>
    }
  }

  /** An attribute list already clean for `opts`: every prefixed name is kept. */
  predicate CleanAttributes(attrs: seq<Attribute>, opts: Options)
  {
    forall k | 0 <= k < |attrs| :: Kept(opts, attrs[k].name)
  }

  lemma {:induction false} CleanAttributesFrom(attrs: seq<Attribute>, i: nat, opts: Options)
    requires i <= |attrs| && CleanAttributes(attrs[..i], opts)
    ensures AttributesFrom(attrs, i, opts) == attrs
    decreases i
  {
    if i > 0 {
      assert attrs[..i][i - 1] == attrs[i - 1];
      assert attrs[..i - 1] == attrs[..i][..i - 1];
      CleanAttributesFrom(attrs, i - 1, opts);
    }
  }

  lemma FilteredAttributesClean(attrs: seq<Attribute>, opts: Options)
    requires UniqueNames(attrs)
    ensures UniqueNames(AttributesFiltered(attrs, opts))
    ensures CleanAttributes(AttributesFiltered(attrs, opts), opts)
  {
    var r := AttributesFiltered(attrs, opts);
    AttributesFilteredGet(attrs, opts, "");
    forall k | 0 <= k < |r| ensures Kept(opts, r[k].name) {
      AttributesFilteredGet(attrs, opts, r[k].name);
      assert HasAttribute(r, r[k].name);
    }
  }

  /** One turn of the backward attribute loop, on the attribute at index `i`. */
  method AttributeTurn(attrs: seq<Attribute>, i: nat, opts: Options) returns (next: seq<Attribute>)
    requires i < |attrs|
    ensures next == AttributeStep(attrs, i, opts)
    ensures i <= |next| && AttributesFrom(next, i, opts) == AttributesFrom(attrs, i + 1, opts)
  {
    AttributesFromUnfold(attrs, i + 1, opts);
    next := attrs;
    var attr := attrs[i];
    if HasColon(attr.name) {
      var namespace, attrName, value := Prefix(attr.name), LocalPart(attr.name), attr.value;
      if opts.primary == Some(namespace) {
        next := SetAttribute(RemoveAt(attrs, i), attrName, value);
      } else if opts.whitelist.Some? {
        if namespace !in opts.whitelist.value {
          next := RemoveAt(attrs, i);
        }
      } else if opts.blacklist.Some? {
        if namespace in opts.blacklist.value {
          next := RemoveAt(attrs, i);
        }
      }
    }
  }

  /** `filterAttributesByNamespace`, with `options` absent (or not an object) as `None`. */
  method FilterAttributesByNamespace(container: Node, options: Option<Options>) returns (result: Node)
    requires options.Some? ==> container.Element?
    ensures options.None? ==> result == container
    ensures options.Some? ==> result == container.(attributes := AttributesFiltered(container.attributes, options.value))
  {
    if options.None? {
      return container;
    }
    var opts := options.value;
    var attrs := container.attributes;
    var i: nat := |attrs|;
    while i > 0
      invariant i <= |attrs|
      invariant AttributesFrom(attrs, i, opts) == AttributesFiltered(container.attributes, opts)
    {
      attrs := AttributeTurn(attrs, i - 1, opts);
      i := i - 1;
    }
    result := container.(attributes := attrs);
  }

  // ---------------------------------------------------------------------------
  // Elements

  /** The tree `filterByNamespace` leaves below an element, with `options` present. */
  function NamespaceFiltered(n: Node, opts: Options): (r: Node)
    ensures r.Element? <==> n.Element?
    ensures n.Element? ==> r.tagName == n.tagName && r.attributes == AttributesFiltered(n.attributes, opts)
    ensures n.Element? ==> |r.childNodes| <= |n.childNodes|
    ensures !n.Element? ==> r == n
    decreases n, 0
  {
    match n
    case Element(tag, attrs, cs) => Element(tag, AttributesFiltered(attrs, opts), ChildrenFiltered(cs, opts))
    case _ => n
  }

  /** The backward child loop: what stays in place of `c`, nothing when it is removed. */
  function ChildFiltered(c: Node, opts: Options): (r: seq<Node>)
    ensures |r| <= 1
    decreases c, 1
  {
    match c
    case Element(tag, attrs, cs) =>
      if !HasColon(tag) then [NamespaceFiltered(c, opts)]
      else if IsPrimary(opts, Prefix(tag)) then
        [Element(LocalPart(tag), AttributesFiltered(attrs, opts), ChildrenFiltered(cs, opts))]
      else if Admitted(opts, Prefix(tag)) then [NamespaceFiltered(c, opts)]
      else []
    case _ => [c]
  }

  function ChildrenFiltered(cs: seq<Node>, opts: Options): (r: seq<Node>)
    ensures |r| <= |cs|
    decreases cs
  {
    if cs == [] then [] else ChildFiltered(cs[0], opts) + ChildrenFiltered(cs[1..], opts)
  }

  /**
   * The fate of one child: it is removed exactly when it is an element whose
   * prefix is neither `primary` nor admitted; a kept element is renamed to
   * its local part exactly when its prefix is `primary`; every other node is
   * kept as it is.
   */
  lemma ChildFate(c: Node, opts: Options)
    ensures ChildFiltered(c, opts) == [] <==>
      c.Element? && HasColon(c.tagName) && !IsPrimary(opts, Prefix(c.tagName)) && !Admitted(opts, Prefix(c.tagName))
    ensures ChildFiltered(c, opts) != [] ==> |ChildFiltered(c, opts)| == 1
    ensures ChildFiltered(c, opts) != [] && c.Element? ==>
      ChildFiltered(c, opts)[0].Element? &&
      ChildFiltered(c, opts)[0].tagName == (if HasColon(c.tagName) && IsPrimary(opts, Prefix(c.tagName)) then LocalPart(c.tagName) else c.tagName) &&
      ChildFiltered(c, opts)[0].attributes == AttributesFiltered(c.attributes, opts) &&
      ChildFiltered(c, opts)[0].childNodes == ChildrenFiltered(c.childNodes, opts)
    ensures !c.Element? ==> ChildFiltered(c, opts) == [c]
  {
  }

  lemma {:induction false} ChildrenFilteredConcat(a: seq<Node>, b: seq<Node>, opts: Options)
    ensures ChildrenFiltered(a + b, opts) == ChildrenFiltered(a, opts) + ChildrenFiltered(b, opts)
  {
    if a == [] {
      assert a + b == b;
    } else {
      assert (a + b)[1..] == a[1..] + b;
      ChildrenFilteredConcat(a[1..], b, opts);
    }
  }

  lemma ChildrenFilteredUnfold(cs: seq<Node>, i: nat, opts: Options)
    requires i < |cs|
    ensures ChildrenFiltered(cs[i..], opts) == ChildFiltered(cs[i], opts) + ChildrenFiltered(cs[i + 1..], opts)
    ensures cs[..i + 1] == cs[..i] + [cs[i]]
  {
    assert cs[i..][1..] == cs[i + 1..];
  }

  /**
   * A tree already clean for `opts`: the element's attributes are clean, and
   * every descendant element has a kept tag name and clean attributes.
   */
  predicate Clean(n: Node, opts: Options)
    decreases n, 0
  {
    n.Element? ==>
      CleanAttributes(n.attributes, opts) &&
      forall k | 0 <= k < |n.childNodes| :: CleanChild(n.childNodes[k], opts)
  }

  predicate CleanChild(c: Node, opts: Options)
    decreases c, 1
  {
    Clean(c, opts) && (c.Element? ==> Kept(opts, c.tagName))
  }

  lemma {:induction false} ChildrenFilteredClean(cs: seq<Node>, opts: Options)
    requires forall k | 0 <= k < |cs| :: WellFormed(cs[k])
    ensures forall k | 0 <= k < |ChildrenFiltered(cs, opts)| :: CleanChild(ChildrenFiltered(cs, opts)[k], opts)
    decreases cs
  {
    if cs != [] {
      var c := cs[0];
      FilteredIsClean(c, opts);
      ChildrenFilteredClean(cs[1..], opts);
      if c.Element? && HasColon(c.tagName) && IsPrimary(opts, Prefix(c.tagName)) {
        var f := NamespaceFiltered(c, opts);
        assert Clean(Element(LocalPart(c.tagName), f.attributes, f.childNodes), opts);
      }
    }
  }

  /** After `filterByNamespace` every name left in the tree is unprefixed or carries an admitted, non-primary prefix. */
  lemma {:induction false} FilteredIsClean(n: Node, opts: Options)
    requires WellFormed(n)
    ensures Clean(NamespaceFiltered(n, opts), opts)
    decreases n, 1
  {
    if n.Element? {
      FilteredAttributesClean(n.attributes, opts);
      ChildrenFilteredClean(n.childNodes, opts);
    }
  }

  lemma {:induction false} ChildrenCleanUnchanged(cs: seq<Node>, opts: Options)
    requires forall k | 0 <= k < |cs| :: CleanChild(cs[k], opts)
    ensures ChildrenFiltered(cs, opts) == cs
    decreases cs
  {
    if cs != [] {
      CleanUnchanged(cs[0], opts);
      ChildrenCleanUnchanged(cs[1..], opts);
      assert cs == [cs[0]] + cs[1..];
    }
  }

  /** On a tree that is already clean, `filterByNamespace` changes nothing. */
  lemma {:induction false} CleanUnchanged(n: Node, opts: Options)
    requires Clean(n, opts)
    ensures NamespaceFiltered(n, opts) == n
    decreases n, 1
  {
    if n.Element? {
      CleanAttributesFrom(n.attributes, |n.attributes|, opts);
      assert n.attributes[..|n.attributes|] == n.attributes;
      ChildrenCleanUnchanged(n.childNodes, opts);
    }
  }

  /** Filtering a second time with the same options changes nothing. */
  lemma FilterIdempotent(n: Node, opts: Options)
    requires WellFormed(n)
    ensures NamespaceFiltered(NamespaceFiltered(n, opts), opts) == NamespaceFiltered(n, opts)
  {
    FilteredIsClean(n, opts);
    CleanUnchanged(NamespaceFiltered(n, opts), opts);
  }

  /** With no `primary`, no `whitelist` and no `blacklist`, nothing is removed or renamed. */
  lemma {:induction false} EmptyOptionsChangeNothing(n: Node)
    ensures NamespaceFiltered(n, Options(None, None, None)) == n
  {
    EverythingCleanForEmptyOptions(n);
    CleanUnchanged(n, Options(None, None, None));
  }

  lemma {:induction false} EverythingCleanForEmptyOptions(n: Node)
    ensures Clean(n, Options(None, None, None))
    decreases n
  {
    if n.Element? {
      forall k | 0 <= k < |n.childNodes| ensures CleanChild(n.childNodes[k], Options(None, None, None)) {
        EverythingCleanForEmptyOptions(n.childNodes[k]);
      }
    }
  }

  /** Non-element children are never removed: they stay, in their order, among the filtered children. */
  lemma {:induction false} NonElementsKept(cs: seq<Node>, opts: Options)
    ensures Seqs.Filter(NotElement, ChildrenFiltered(cs, opts)) == Seqs.Filter(NotElement, cs)
  {
    if cs != [] {
      var p := NotElement;
      NonElementsKept(cs[1..], opts);
      Seqs.FilterConcat(p, ChildFiltered(cs[0], opts), ChildrenFiltered(cs[1..], opts));
      var head := ChildFiltered(cs[0], opts);
      if cs[0].Element? {
        assert Seqs.Filter(p, head) == [] by {
          if head != [] {
            assert NamespaceFiltered(cs[0], opts).Element?;
            assert head == [head[0]] && head[0].Element?;
            assert head[1..] == [];
          }
        }
      } else {
        assert head == [cs[0]] && head[1..] == [];
      }
    }
  }

  /**
   * One turn of the backward child loop of `filterByNamespace`: what stays in
   * place of `child`, nothing when it is removed.
   */
  method ChildTurn(child: Node, options: Option<Options>) returns (replacement: seq<Node>)
    requires options.Some?
    ensures replacement == ChildFiltered(child, options.value)
    decreases child, 1
  {
    var opts := options.value;
    ChildFate(child, opts);
    replacement := [child];
    if child.Element? {
      if HasColon(child.tagName) {
        var namespace, tagName := Prefix(child.tagName), LocalPart(child.tagName);
        if opts.primary == Some(namespace) {
          // The filter never reads the container's own tag name, so renaming after the recursion is the same
          var filtered := FilterByNamespace(child, options);
          replacement := [filtered.(tagName := tagName)];
        } else if opts.whitelist.Some? {
          if namespace in opts.whitelist.value {
            var filtered := FilterByNamespace(child, options);
            replacement := [filtered];
          } else {
            replacement := [];
          }
        } else if opts.blacklist.Some? {
          if namespace in opts.blacklist.value {
            replacement := [];
          } else {
            var filtered := FilterByNamespace(child, options);
            replacement := [filtered];
          }
        } else {
          var filtered := FilterByNamespace(child, options);
          replacement := [filtered];
        }
      } else {
        var filtered := FilterByNamespace(child, options);
        replacement := [filtered];
      }
    }
  }

  /** The list of children around one turn of the backward child loop. */
  lemma ChildTurnFacts(cs: seq<Node>, i: nat, opts: Options, children: seq<Node>)
    requires i < |cs| && children == cs[..i + 1] + ChildrenFiltered(cs[i + 1..], opts)
    ensures children[i] == cs[i]
    ensures children[..i] + ChildFiltered(cs[i], opts) + children[i + 1..] == cs[..i] + ChildrenFiltered(cs[i..], opts)
  {
    ChildrenFilteredUnfold(cs, i, opts);
    var rest := ChildrenFiltered(cs[i + 1..], opts);
    assert children == cs[..i] + [cs[i]] + rest;
    assert children[..i] == cs[..i] && children[i + 1..] == rest;
  }

  /**
   * `filterByNamespace`: filters the container's attributes, then visits its
   * children from the last to the first, removing, renaming or recursing into
   * each prefixed element child and recursing into every other element child.
   */
  method FilterByNamespace(container: Node, options: Option<Options>) returns (result: Node)
    requires options.Some? ==> container.Element?
    ensures options.None? ==> result == container
    ensures options.Some? ==> result == NamespaceFiltered(container, options.value)
    ensures options.Some? && WellFormed(container) ==> Clean(result, options.value)
    decreases container, 0
  {
    if options.None? {
      return container;
    }
    var opts := options.value;
    result := FilterAttributesByNamespace(container, options);
    ghost var cs := container.childNodes;
    var children := container.childNodes;
    var i: nat := |children|;
    while i > 0
      invariant i <= |cs|
      invariant children == cs[..i] + ChildrenFiltered(cs[i..], opts)
    {
      i := i - 1;
      ChildTurnFacts(cs, i, opts, children);
      var replacement := ChildTurn(children[i], options);
      children := children[..i] + replacement + children[i + 1..];
    }
    assert cs[0..] == cs;
    result := result.(childNodes := children);
    if WellFormed(container) {
      FilteredIsClean(container, opts);
    }
  }
}
