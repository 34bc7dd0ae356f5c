/** `removeComments`: drops every comment node below a container, at every depth. */
module Comments {
  import opened Dom
  import Seqs

  /**
   * The tree `removeComments` leaves: the container (an element, a document
   * or a fragment) keeps what it carries of its own, and its children are
   * cleaned; any other node has no children to visit.
   */
  function Uncommented(n: Node): (r: Node)
    ensures Shallow(r) == Shallow(n)
    ensures IsParent(n) ==> |r.childNodes| <= |n.childNodes|
    ensures !IsParent(n) ==> r == n
    decreases n, 0
  {
    if IsParent(n) then n.(childNodes := ChildrenUncommented(n.childNodes)) else n
  }

  /** What stays in place of one child: nothing for a comment, the cleaned element, any other node as it is. */
  function ChildUncommented(c: Node): seq<Node>
    decreases c, 1
  {
    if c.Comment? then [] else if c.Element? then [Uncommented(c)] else [c]
  }

  /** The backward child loop, applied to every child. */
  function ChildrenUncommented(cs: seq<Node>): (r: seq<Node>)
    ensures |r| <= |cs|
    decreases cs
  {
    if cs == [] then [] else ChildUncommented(cs[0]) + ChildrenUncommented(cs[1..])
  }

  lemma ChildrenUncommentedUnfold(cs: seq<Node>, i: nat)
    requires i < |cs|
    ensures ChildrenUncommented(cs[i..]) == ChildUncommented(cs[i]) + ChildrenUncommented(cs[i + 1..])
    ensures cs[..i + 1] == cs[..i] + [cs[i]]
  {
    assert cs[i..][1..] == cs[i + 1..];
  }

  /** The list of children around one turn of the backward child loop. */
  lemma ChildTurnFacts(cs: seq<Node>, i: nat, children: seq<Node>)
    requires i < |cs| && children == cs[..i + 1] + ChildrenUncommented(cs[i + 1..])
    ensures children[i] == cs[i]
    ensures children[..i] + ChildUncommented(cs[i]) + children[i + 1..] == cs[..i] + ChildrenUncommented(cs[i..])
  {
    ChildrenUncommentedUnfold(cs, i);
    var rest := ChildrenUncommented(cs[i + 1..]);
    assert children == cs[..i] + [cs[i]] + rest;
    assert children[..i] == cs[..i] && children[i + 1..] == rest;
  }

  /** No comment among the children of `c`, nor below any child element, at any depth. */
  predicate NoComments(n: Node)
    decreases n, 0
  {
    IsParent(n) ==> forall k | 0 <= k < |n.childNodes| :: CommentFree(n.childNodes[k])
  }

  /** A child that is no comment and, if it is an element, holds none. */
  predicate CommentFree(c: Node)
    decreases c, 1
  {
    !c.Comment? && (c.Element? ==> NoComments(c))
  }

  lemma {:induction false} ChildrenUncommentedHaveNoComments(cs: seq<Node>)
    ensures forall k | 0 <= k < |ChildrenUncommented(cs)| :: CommentFree(ChildrenUncommented(cs)[k])
    decreases cs
  {
    if cs != [] {
      if cs[0].Element? {
        UncommentedHasNoComments(cs[0]);
      }
      ChildrenUncommentedHaveNoComments(cs[1..]);
    }
  }

  /** Afterwards no comment remains in the container or in any descendant. */
  lemma {:induction false} UncommentedHasNoComments(n: Node)
    ensures NoComments(Uncommented(n))
    decreases n, 1
  {
    if IsParent(n) {
      ChildrenUncommentedHaveNoComments(n.childNodes);
    }
  }

  /**
   * Every node that is not a comment stays, in its original document order,
   * at its original depth, with its own tag, attributes or text: listing the
   * nodes below the container in document order after the pass gives the
   * list before it with the comments struck out. Since a comment has no
   * children, each node that stays keeps its parent.
   */
  lemma {:induction false} UncommentedKeepsOrder(cs: seq<Node>, depth: nat)
    ensures Preorder(ChildrenUncommented(cs), depth) == Seqs.Filter(NotComment, Preorder(cs, depth))
    decreases cs, 0
  {
    if cs != [] {
      assert cs == [cs[0]] + cs[1..];
      PreorderConcat([cs[0]], cs[1..], depth);
      Seqs.FilterConcat(NotComment, Preorder([cs[0]], depth), Preorder(cs[1..], depth));
      PreorderConcat(ChildUncommented(cs[0]), ChildrenUncommented(cs[1..]), depth);
      ChildUncommentedKeepsOrder(cs[0], depth);
      UncommentedKeepsOrder(cs[1..], depth);
    }
  }

  lemma {:induction false} ChildUncommentedKeepsOrder(c: Node, depth: nat)
    ensures Preorder(ChildUncommented(c), depth) == Seqs.Filter(NotComment, Preorder([c], depth))
    decreases c, 1
  {
    PreorderCons(c, [], depth);
    var head := Item(depth, Shallow(c));
    match c
    case Element(tag, attrs, kids) =>
      var cleaned := Element(tag, attrs, ChildrenUncommented(kids));
      assert ChildUncommented(c) == [cleaned];
      PreorderCons(cleaned, [], depth);
      assert Preorder([cleaned], depth) == [head] + Preorder(ChildrenUncommented(kids), depth + 1) + [];
      Seqs.FilterSplit(NotComment, head, Preorder(kids, depth + 1), []);
      UncommentedKeepsOrder(kids, depth + 1);
    case Comment(_) =>
      assert Preorder([c], depth) == [head];
      Seqs.FilterCons(NotComment, head, []);
    case _ =>
      assert Preorder([c], depth) == [head];
      Seqs.FilterCons(NotComment, head, []);
      assert ChildUncommented(c) == [c];
  }

  lemma {:induction false} CommentFreeChildrenUnchanged(cs: seq<Node>)
    requires forall k | 0 <= k < |cs| :: CommentFree(cs[k])
    ensures ChildrenUncommented(cs) == cs
    decreases cs
  {
    if cs != [] {
      if cs[0].Element? {
        CommentFreeUnchanged(cs[0]);
      }
      CommentFreeChildrenUnchanged(cs[1..]);
      assert cs == [cs[0]] + cs[1..];
    }
  }

  /** A tree without comments is left as it is; in particular a second pass changes nothing. */
  lemma {:induction false} CommentFreeUnchanged(n: Node)
    requires NoComments(n)
    ensures Uncommented(n) == n
    decreases n, 1
  {
    if IsParent(n) {
      CommentFreeChildrenUnchanged(n.childNodes);
    }
  }

  lemma RemoveCommentsIdempotent(n: Node)
    ensures Uncommented(Uncommented(n)) == Uncommented(n)
  {
    UncommentedHasNoComments(n);
    CommentFreeUnchanged(Uncommented(n));
  }

  /**
   * `removeComments`: visits the children from the last to the first, removing
   * each comment and recursing into each element.
   */
  method RemoveComments(container: Node) returns (result: Node)
    ensures result == Uncommented(container)
    decreases container
  {
    if !IsParent(container) {
      // Other nodes have no children to visit
      return container;
    }
    ghost var cs := container.childNodes;
    var children := container.childNodes;
    var i: nat := |children|;
    while i > 0
      invariant i <= |cs|
      invariant children == cs[..i] + ChildrenUncommented(cs[i..])
    {
      i := i - 1;
      ChildTurnFacts(cs, i, children);
      var child := children[i];
      // What stays in place of the child: nothing when it is a comment
      var replacement := [child];
      if child.Comment? {
        replacement := [];
      } else if child.Element? {
        var cleaned := RemoveComments(child);
        replacement := [cleaned];
      }
      children := children[..i] + replacement + children[i + 1..];
    }
    assert cs[0..] == cs;
    result := container.(childNodes := children);
  }
}
