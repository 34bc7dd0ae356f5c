/**
 * The helpers that move or drop whole child nodes: `empty`, `insertInto`,
 * `moveChildrenInto` and `removeAllTags`.
 */
module TreeHelpers {
  import opened Dom
  import Seqs

  /** `empty`: removes the first child until there is none. */
  method Empty(element: Node) returns (result: Node)
    ensures Children(result) == []
    ensures Shallow(result) == Shallow(element)
  {
    var children := Children(element);
    while children != []
      decreases |children|
    {
      children := children[1..];
    }
    result := if IsParent(element) then element.(childNodes := children) else element;
  }

  /**
   * `appendChild(node)` on a parent: a fragment gives up all its children,
   * which are appended in order, and is left empty; any other node is
   * appended itself. A document cannot be appended.
   */
  method AppendChild(parent: Node, node: Node) returns (newParent: Node, newNode: Node)
    requires IsParent(parent) && !node.Document?
    ensures newParent == parent.(childNodes := parent.childNodes + (if node.Fragment? then node.childNodes else [node]))
    ensures newNode == if node.Fragment? then Fragment([]) else node
  {
    if node.Fragment? {
      var children := parent.childNodes;
      var remaining := node.childNodes;
      while remaining != []
        invariant children + remaining == parent.childNodes + node.childNodes
        decreases |remaining|
      {
        children := children + [remaining[0]];
        remaining := remaining[1..];
      }
      newParent, newNode := parent.(childNodes := children), Fragment(remaining);
    } else {
      newParent, newNode := parent.(childNodes := parent.childNodes + [node]), node;
    }
  }

  /**
   * `insertInto`: the destination is emptied, then the source is appended to
   * it. The destination ends with the source as its only child, or with the
   * fragment's children when the source is a fragment, which is left empty.
   */
  method InsertInto(source: Node, destination: Node) returns (newSource: Node, newDestination: Node)
    requires IsParent(destination) && !source.Document?
    ensures Children(newDestination) == if source.Fragment? then source.childNodes else [source]
    ensures Shallow(newDestination) == Shallow(destination)
    ensures newSource == if source.Fragment? then Fragment([]) else source
  {
    newDestination := Empty(destination);
    newDestination, newSource := AppendChild(newDestination, source);
  }

  /**
   * `moveChildrenInto`: the destination is emptied, then the first child of the
   * source (an element, a document or a fragment) is appended to it until the
   * source has none. The destination ends with the source's children in their
   * order; the source ends empty.
   */
  method MoveChildrenInto(source: Node, destination: Node) returns (newSource: Node, newDestination: Node)
    requires IsParent(destination)
    ensures Children(newSource) == [] && Shallow(newSource) == Shallow(source)
    ensures Children(newDestination) == Children(source)
    ensures Shallow(newDestination) == Shallow(destination)
  {
    newDestination := Empty(destination);
    var moved := newDestination.childNodes;
    var remaining := Children(source);
    while remaining != []
      invariant moved + remaining == Children(source)
      decreases |remaining|
    {
      moved := moved + [remaining[0]];
      remaining := remaining[1..];
    }
    newSource := if IsParent(source) then source.(childNodes := remaining) else source;
    newDestination := newDestination.(childNodes := moved);
  }

  // ---------------------------------------------------------------------------
  // removeAllTags

  /** `getElementsByTagName(tagName)` selects the elements of that tag name, or every element for `*`. */
  predicate Matches(n: Node, tagName: string)
  {
    n.Element? && (tagName == "*" || n.tagName == tagName)
  }

  /** Whether `removeAllTags` detaches the element `n`: a match, and childless when `onlyIfEmpty` is set. */
  predicate Removed(n: Node, tagName: string, onlyIfEmpty: bool)
  {
    Matches(n, tagName) && (!onlyIfEmpty || n.childNodes == [])
  }

  /**
   * The tree `removeAllTags(container, tagName, onlyIfEmpty)` leaves. The
   * matches are collected below the container in document order before any is
   * removed, so an element is judged with its original children (its
   * descendants come after it) and removing it changes no element still to be
   * judged except its own descendants, which leave the tree with it.
   */
  function TagsRemoved(n: Node, tagName: string, onlyIfEmpty: bool): (r: Node)
    ensures Shallow(r) == Shallow(n)
    ensures IsParent(n) ==> |r.childNodes| <= |n.childNodes|
    ensures !IsParent(n) ==> r == n
    decreases n, 0
  {
    if IsParent(n) then n.(childNodes := ChildrenTagsRemoved(n.childNodes, tagName, onlyIfEmpty)) else n
  }

  /** What stays in place of one child: nothing when it is detached, else the child with its own descendants pruned. */
  function ChildTagsRemoved(c: Node, tagName: string, onlyIfEmpty: bool): (r: seq<Node>)
    ensures |r| <= 1
    decreases c, 1
  {
    if Removed(c, tagName, onlyIfEmpty) then []
    else if c.Element? then [TagsRemoved(c, tagName, onlyIfEmpty)]
    else [c]
  }

  function ChildrenTagsRemoved(cs: seq<Node>, tagName: string, onlyIfEmpty: bool): (r: seq<Node>)
    ensures |r| <= |cs|
    decreases cs, 2
  {
    if cs == [] then [] else ChildTagsRemoved(cs[0], tagName, onlyIfEmpty) + ChildrenTagsRemoved(cs[1..], tagName, onlyIfEmpty)
  }

  lemma ChildrenTagsRemovedCons(c: Node, rest: seq<Node>, tagName: string, onlyIfEmpty: bool)
    ensures ChildrenTagsRemoved([c] + rest, tagName, onlyIfEmpty)
      == ChildTagsRemoved(c, tagName, onlyIfEmpty) + ChildrenTagsRemoved(rest, tagName, onlyIfEmpty)
  {
    assert ([c] + rest)[1..] == rest;
  }

  /** No element below `n`, at any depth, matches. */
  predicate NoMatch(n: Node, tagName: string)
    decreases n, 0
  {
    IsParent(n) ==> forall k | 0 <= k < |n.childNodes| :: Unmatched(n.childNodes[k], tagName)
  }

  /** A child that does not match and, if it is an element, has no match below it. */
  predicate Unmatched(c: Node, tagName: string)
    decreases c, 1
  {
    !Matches(c, tagName) && (c.Element? ==> NoMatch(c, tagName))
  }

  lemma {:induction false} ChildrenPrunedHaveNoMatch(cs: seq<Node>, tagName: string)
    ensures forall k | 0 <= k < |ChildrenTagsRemoved(cs, tagName, false)| :: Unmatched(ChildrenTagsRemoved(cs, tagName, false)[k], tagName)
    decreases cs, 1
  {
    if cs != [] {
      ChildrenPrunedHaveNoMatch(cs[1..], tagName);
      if cs[0].Element? {
        PrunedHasNoMatch(cs[0], tagName);
      }
    }
  }

  /** Without `onlyIfEmpty`, no element of that tag name is left below the container. */
  lemma {:induction false} PrunedHasNoMatch(n: Node, tagName: string)
    ensures NoMatch(TagsRemoved(n, tagName, false), tagName)
    decreases n, 2
  {
    if IsParent(n) {
      ChildrenPrunedHaveNoMatch(n.childNodes, tagName);
    }
  }

  lemma {:induction false} ChildrenWithoutMatchUnchanged(cs: seq<Node>, tagName: string, onlyIfEmpty: bool)
    requires forall k | 0 <= k < |cs| :: Unmatched(cs[k], tagName)
    ensures ChildrenTagsRemoved(cs, tagName, onlyIfEmpty) == cs
    decreases cs, 1
  {
    if cs != [] {
      ChildrenWithoutMatchUnchanged(cs[1..], tagName, onlyIfEmpty);
      if cs[0].Element? {
        WithoutMatchUnchanged(cs[0], tagName, onlyIfEmpty);
      }
      assert cs == [cs[0]] + cs[1..];
    }
  }

  /** A container with nothing of that tag name below it is left as it is. */
  lemma {:induction false} WithoutMatchUnchanged(n: Node, tagName: string, onlyIfEmpty: bool)
    requires NoMatch(n, tagName)
    ensures TagsRemoved(n, tagName, onlyIfEmpty) == n
    decreases n, 2
  {
    if IsParent(n) {
      ChildrenWithoutMatchUnchanged(n.childNodes, tagName, onlyIfEmpty);
    }
  }

  /** Without `onlyIfEmpty`, a second call changes nothing. */
  lemma PruningIdempotent(n: Node, tagName: string)
    ensures TagsRemoved(TagsRemoved(n, tagName, false), tagName, false) == TagsRemoved(n, tagName, false)
  {
    PrunedHasNoMatch(n, tagName);
    WithoutMatchUnchanged(TagsRemoved(n, tagName, false), tagName, false);
  }

  // ---------------------------------------------------------------------------
  // removeAllTags on the document-order listing

  /** The number of items at the start of `items` deeper than `depth`. */
  function DeeperRun(items: seq<Item>, depth: nat): (r: nat)
    ensures r <= |items|
  {
    if items == [] || items[0].depth <= depth then 0 else 1 + DeeperRun(items[1..], depth)
  }

  /** The run counted is exactly the deeper items at the start: the one after it, if any, is not deeper. */
  lemma {:induction false} DeeperRunIsMaximal(items: seq<Item>, depth: nat)
    ensures forall k | 0 <= k < DeeperRun(items, depth) :: items[k].depth > depth
    ensures DeeperRun(items, depth) < |items| ==> items[DeeperRun(items, depth)].depth <= depth
    decreases items
  {
    if items != [] && items[0].depth > depth {
      DeeperRunIsMaximal(items[1..], depth);
      forall k | 0 < k < DeeperRun(items, depth)
        ensures items[k].depth > depth
      {
        assert items[k] == items[1..][k - 1];
      }
    }
  }

  /**
   * The listing `removeAllTags` leaves, worked out on the listing before it
   * in the order the snapshot visits the elements. An element is selected
   * when it matches and, with `onlyIfEmpty`, when no item below it follows
   * (it is childless); a selected element leaves together with the items
   * below it, which are the deeper items right after it. Every other item
   * stays where it is.
   */
  function Detached(items: seq<Item>, tagName: string, onlyIfEmpty: bool): seq<Item>
    decreases |items|
  {
    if items == [] then []
    else (if Selected(items, tagName, onlyIfEmpty) then [] else [items[0]]) + Detached(items[Passed(items, tagName, onlyIfEmpty)..], tagName, onlyIfEmpty)
  }

  /** Whether the first item is a selected element. */
  predicate Selected(items: seq<Item>, tagName: string, onlyIfEmpty: bool)
    requires items != []
  {
    Matches(items[0].node, tagName) && (!onlyIfEmpty || DeeperRun(items[1..], items[0].depth) == 0)
  }

  /** How many items the first one accounts for: itself, and when it is selected the items below it. */
  function Passed(items: seq<Item>, tagName: string, onlyIfEmpty: bool): (r: nat)
    requires items != []
    ensures 1 <= r <= |items|
  {
    if Selected(items, tagName, onlyIfEmpty) then 1 + DeeperRun(items[1..], items[0].depth) else 1
  }

  lemma {:induction false} PreorderDepths(cs: seq<Node>, depth: nat)
    ensures forall k | 0 <= k < |Preorder(cs, depth)| :: Preorder(cs, depth)[k].depth >= depth
    ensures cs != [] ==> Preorder(cs, depth) != [] && Preorder(cs, depth)[0].depth == depth
    decreases cs
  {
    if cs != [] {
      PreorderCons(cs[0], cs[1..], depth);
      if cs[0].Element? {
        PreorderDepths(cs[0].childNodes, depth + 1);
      }
      PreorderDepths(cs[1..], depth);
      assert cs == [cs[0]] + cs[1..];
    }
  }

  /** A run of deeper items ends where the next item is not deeper, even with more items after it. */
  lemma {:induction false} DeeperRunConcat(a: seq<Item>, b: seq<Item>, depth: nat)
    requires b == [] || b[0].depth <= depth
    ensures DeeperRun(a + b, depth) == DeeperRun(a, depth)
    decreases a
  {
    if a != [] {
      assert (a + b)[1..] == a[1..] + b;
      DeeperRunConcat(a[1..], b, depth);
    } else {
      assert a + b == b;
    }
  }

  /** A suffix of a run of deeper items is one too. */
  lemma {:induction false} DeeperRunSuffix(items: seq<Item>, depth: nat, j: nat)
    requires DeeperRun(items, depth) == |items| && j <= |items|
    ensures DeeperRun(items[j..], depth) == |items| - j
    decreases j
  {
    if j > 0 {
      assert items[j..] == items[1..][j - 1..];
      DeeperRunSuffix(items[1..], depth, j - 1);
    }
  }

  /** What follows a first item that is deeper than it does not change how that item is handled. */
  lemma PassedConcat(a: seq<Item>, b: seq<Item>, tagName: string, onlyIfEmpty: bool)
    requires a != [] && (b == [] || b[0].depth <= a[0].depth)
    ensures Selected(a + b, tagName, onlyIfEmpty) == Selected(a, tagName, onlyIfEmpty)
    ensures Passed(a + b, tagName, onlyIfEmpty) == Passed(a, tagName, onlyIfEmpty)
  {
    assert (a + b)[1..] == a[1..] + b;
    DeeperRunConcat(a[1..], b, a[0].depth);
  }

  /** Items all deeper than the next one are detached on their own. */
  lemma {:induction false} DetachedConcat(a: seq<Item>, b: seq<Item>, tagName: string, onlyIfEmpty: bool)
    requires b != [] ==> DeeperRun(a, b[0].depth) == |a|
    ensures Detached(a + b, tagName, onlyIfEmpty) == Detached(a, tagName, onlyIfEmpty) + Detached(b, tagName, onlyIfEmpty)
    decreases |a|
  {
    if a == [] {
      assert a + b == b;
    } else {
      var j := Passed(a, tagName, onlyIfEmpty);
      var first := if Selected(a, tagName, onlyIfEmpty) then [] else [a[0]];
      var rest := a[j..];
      assert Detached(a + b, tagName, onlyIfEmpty) == first + Detached(rest + b, tagName, onlyIfEmpty) by {
        PassedConcat(a, b, tagName, onlyIfEmpty);
        assert (a + b)[0] == a[0];
        assert (a + b)[j..] == rest + b;
      }
      assert Detached(a, tagName, onlyIfEmpty) == first + Detached(rest, tagName, onlyIfEmpty);
      assert b != [] ==> DeeperRun(rest, b[0].depth) == |rest| by {
        if b != [] {
          DeeperRunSuffix(a, b[0].depth, j);
        }
      }
      DetachedConcat(rest, b, tagName, onlyIfEmpty);
      Seqs.Associative(first, Detached(rest, tagName, onlyIfEmpty), Detached(b, tagName, onlyIfEmpty));
    }
  }

  /**
   * Both modes, at every depth: the document-order listing with depths after
   * `removeAllTags` is the listing before it with each selected element cut
   * out together with everything below it. Without `onlyIfEmpty` every match
   * goes with its subtree and every node outside a match stays; with it,
   * exactly the childless matches go.
   */
  lemma {:induction false} PrunedListing(cs: seq<Node>, tagName: string, onlyIfEmpty: bool, depth: nat)
    ensures Preorder(ChildrenTagsRemoved(cs, tagName, onlyIfEmpty), depth) == Detached(Preorder(cs, depth), tagName, onlyIfEmpty)
    decreases cs
  {
    if cs != [] {
      var c, rest := cs[0], cs[1..];
      var inner, after := Preorder(ElementChildren(c), depth + 1), Preorder(rest, depth);
      var head := Item(depth, Shallow(c));
      var prunedRest := ChildrenTagsRemoved(rest, tagName, onlyIfEmpty);
      assert Preorder(cs, depth) == [head] + inner + after by {
        assert cs == [c] + rest;
        PreorderCons(c, rest, depth);
      }
      assert ChildrenTagsRemoved(cs, tagName, onlyIfEmpty) == ChildTagsRemoved(c, tagName, onlyIfEmpty) + prunedRest by {
        assert cs == [c] + rest;
        ChildrenTagsRemovedCons(c, rest, tagName, onlyIfEmpty);
      }
      PrunedListing(rest, tagName, onlyIfEmpty, depth);
      assert DeeperRun(inner, depth) == |inner| && (inner == []) == (ElementChildren(c) == []) by {
        PreorderDepths(ElementChildren(c), depth + 1);
        DeeperRunAll(inner, depth);
      }
      assert after == [] || after[0].depth == depth by {
        PreorderDepths(rest, depth);
      }
      assert Matches(head.node, tagName) == Matches(c, tagName);
      if Removed(c, tagName, onlyIfEmpty) {
        assert ChildTagsRemoved(c, tagName, onlyIfEmpty) == [];
        assert [] + prunedRest == prunedRest;
        DetachedCut(head, inner, after, tagName, onlyIfEmpty);
      } else {
        DetachedKept(head, inner, after, tagName, onlyIfEmpty);
        var kept := if c.Element? then TagsRemoved(c, tagName, onlyIfEmpty) else c;
        assert ChildTagsRemoved(c, tagName, onlyIfEmpty) == [kept];
        assert Preorder(ElementChildren(kept), depth + 1) == Detached(inner, tagName, onlyIfEmpty) by {
          if c.Element? {
            PrunedListing(c.childNodes, tagName, onlyIfEmpty, depth + 1);
          }
        }
        PreorderCons(kept, prunedRest, depth);
      }
    }
  }

  /** A selected element leaves the listing with the items below it. */
  lemma DetachedCut(head: Item, inner: seq<Item>, after: seq<Item>, tagName: string, onlyIfEmpty: bool)
    requires Matches(head.node, tagName) && (!onlyIfEmpty || inner == [])
    requires DeeperRun(inner, head.depth) == |inner| && (after == [] || after[0].depth <= head.depth)
    ensures Detached([head] + inner + after, tagName, onlyIfEmpty) == Detached(after, tagName, onlyIfEmpty)
  {
    var items := [head] + inner + after;
    assert items[0] == head && items[1..] == inner + after;
    DeeperRunConcat(inner, after, head.depth);
    assert Passed(items, tagName, onlyIfEmpty) == 1 + |inner|;
    assert items[1 + |inner|..] == after;
  }

  /** Any other item stays in front of what is left of the items below it and after it. */
  lemma DetachedKept(head: Item, inner: seq<Item>, after: seq<Item>, tagName: string, onlyIfEmpty: bool)
    requires !(Matches(head.node, tagName) && (!onlyIfEmpty || inner == []))
    requires DeeperRun(inner, head.depth) == |inner| && (after == [] || after[0].depth == head.depth)
    ensures Detached([head] + inner + after, tagName, onlyIfEmpty)
      == [head] + Detached(inner, tagName, onlyIfEmpty) + Detached(after, tagName, onlyIfEmpty)
  {
    var items := [head] + inner + after;
    assert items[0] == head && items[1..] == inner + after;
    DeeperRunConcat(inner, after, head.depth);
    assert !Selected(items, tagName, onlyIfEmpty);
    DetachedConcat(inner, after, tagName, onlyIfEmpty);
    Seqs.Associative([head], Detached(inner, tagName, onlyIfEmpty), Detached(after, tagName, onlyIfEmpty));
  }

  lemma {:induction false} DeeperRunAll(items: seq<Item>, depth: nat)
    requires forall k | 0 <= k < |items| :: items[k].depth > depth
    ensures DeeperRun(items, depth) == |items|
    decreases items
  {
    if items != [] {
      DeeperRunAll(items[1..], depth);
    }
  }

  /**
   * The case `<a><b/><c/></a>` with tag name `b`: the sibling `c` of the
   * match stays, in both modes.
   */
  lemma SiblingOfMatchKept(onlyIfEmpty: bool)
    ensures ChildrenTagsRemoved([Element("a", [], [Element("b", [], []), Element("c", [], [])])], "b", onlyIfEmpty)
      == [Element("a", [], [Element("c", [], [])])]
  {
    var b, c := Element("b", [], []), Element("c", [], []);
    assert ChildrenTagsRemoved([c], "b", onlyIfEmpty) == [c];
    assert [b, c][1..] == [c];
    assert ChildrenTagsRemoved([b, c], "b", onlyIfEmpty) == [c];
  }

  /**
   * The case `<b/><b><x/></b>` with tag name `b` and `onlyIfEmpty`: the
   * childless `b` goes, the other stays.
   */
  lemma ChildlessMatchRemoved()
    ensures ChildrenTagsRemoved([Element("b", [], []), Element("b", [], [Element("x", [], [])])], "b", true)
      == [Element("b", [], [Element("x", [], [])])]
  {
    var x := Element("x", [], []);
    var full := Element("b", [], [x]);
    assert ChildrenTagsRemoved([x], "b", true) == [x];
    assert TagsRemoved(full, "b", true) == full;
    assert ChildTagsRemoved(full, "b", true) == [full];
    assert [Element("b", [], []), full][1..] == [full];
    assert ChildrenTagsRemoved([full], "b", true) == [full];
  }

  predicate NotMatching(tagName: string, i: Item)
  {
    !Matches(i.node, tagName)
  }

  /**
   * With `onlyIfEmpty`, only childless matches go: every node that does not
   * match stays, in document order and at its depth.
   */
  lemma {:induction false} OnlyEmptyMatchesRemoved(cs: seq<Node>, tagName: string, depth: nat)
    ensures Seqs.Filter(i => NotMatching(tagName, i), Preorder(ChildrenTagsRemoved(cs, tagName, true), depth))
      == Seqs.Filter(i => NotMatching(tagName, i), Preorder(cs, depth))
    decreases cs
  {
    if cs != [] {
      var p := i => NotMatching(tagName, i);
      var c, rest := cs[0], ChildrenTagsRemoved(cs[1..], tagName, true);
      var head := Item(depth, Shallow(c));
      assert cs == [c] + cs[1..];
      PreorderCons(c, cs[1..], depth);
      ChildrenTagsRemovedCons(c, cs[1..], tagName, true);
      Seqs.FilterSplit(p, head, Preorder(ElementChildren(c), depth + 1), Preorder(cs[1..], depth));
      OnlyEmptyMatchesRemoved(cs[1..], tagName, depth);
      if Removed(c, tagName, true) {
        assert ElementChildren(c) == [] && Preorder([], depth + 1) == [];
        assert !p(head);
        assert Seqs.Filter(p, Preorder(cs, depth)) == Seqs.Filter(p, Preorder(cs[1..], depth));
        assert ChildrenTagsRemoved(cs, tagName, true) == rest;
      } else {
        var kept := ChildTagsRemoved(c, tagName, true)[0];
        assert Shallow(kept) == Shallow(c);
        PreorderCons(kept, rest, depth);
        Seqs.FilterSplit(p, head, Preorder(ElementChildren(kept), depth + 1), Preorder(rest, depth));
        if c.Element? {
          OnlyEmptyMatchesRemoved(c.childNodes, tagName, depth + 1);
        }
      }
    }
  }

  /**
   * With `onlyIfEmpty`, a child element that has children is never removed:
   * it stays, pruned below, between what the children before it and the
   * children after it leave.
   */
  lemma {:induction false} KeptWithChildren(cs: seq<Node>, tagName: string, k: nat)
    requires k < |cs| && cs[k].Element? && cs[k].childNodes != []
    ensures TagsRemoved(cs[k], tagName, true) in ChildrenTagsRemoved(cs, tagName, true)
    ensures ChildrenTagsRemoved(cs, tagName, true)
      == ChildrenTagsRemoved(cs[..k], tagName, true) + [TagsRemoved(cs[k], tagName, true)] + ChildrenTagsRemoved(cs[k + 1..], tagName, true)
    decreases cs
  {
    assert cs == [cs[0]] + cs[1..];
    ChildrenTagsRemovedCons(cs[0], cs[1..], tagName, true);
    if k > 0 {
      KeptWithChildren(cs[1..], tagName, k - 1);
      assert cs[..k] == [cs[0]] + cs[1..][..k - 1];
      assert cs[1..][k - 1 + 1..] == cs[k + 1..];
      ChildrenTagsRemovedCons(cs[0], cs[1..][..k - 1], tagName, true);
    } else {
      assert cs[..0] == [];
    }
  }

  /**
   * With `onlyIfEmpty` a second call can remove more: a match is judged on
   * the children it had, so `<r><b><b/></b></r>` with tag `b` loses only the
   * inner `b`, and the outer `b`, now childless, goes on the next call.
   */
  lemma OnlyIfEmptyNotIdempotent()
    ensures var n := Element("r", [], [Element("b", [], [Element("b", [], [])])]);
      TagsRemoved(n, "b", true) == Element("r", [], [Element("b", [], [])])
      && TagsRemoved(TagsRemoved(n, "b", true), "b", true) == Element("r", [], [])
  {
    var inner := Element("b", [], []);
    var outer := Element("b", [], [inner]);
    assert ChildTagsRemoved(inner, "b", true) == [];
    assert ChildrenTagsRemoved([inner], "b", true) == [];
    assert TagsRemoved(outer, "b", true) == inner;
    assert ChildTagsRemoved(outer, "b", true) == [inner];
    assert ChildrenTagsRemoved([outer], "b", true) == [inner];
  }
}
