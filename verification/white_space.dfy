/**
 * `removeWhiteSpaces`: below a container, either drops every text node made
 * only of white space, or (in the `onlyWhiteLines` mode) merges runs of
 * adjacent text nodes and shortens a white-space-only value that ends a line
 * to its last line break and the indentation after it.
 */
module WhiteSpace {
  import opened Wrappers
  import opened Dom
  import Seqs

  // ---------------------------------------------------------------------------
  // The two regular expressions

  /** A character of the `\s` class of JavaScript regular expressions (white space and line terminators). */
  predicate IsSpace(c: char)
  {
    c == '\t' || c == '\n' || c == '\U{000B}' || c == '\U{000C}' || c == '\r' || c == ' '
    || c == '\U{00A0}' || c == '\U{1680}' || ('\U{2000}' <= c <= '\U{200A}')
    || c == '\U{2028}' || c == '\U{2029}' || c == '\U{202F}' || c == '\U{205F}'
    || c == '\U{3000}' || c == '\U{FEFF}'
  }

  predicate NotSpace(c: char)
  {
    !IsSpace(c)
  }

  /** `!/\S/.test(s)`: no character of `s` lies outside `\s`. */
  predicate Blank(s: string)
  {
    forall k | 0 <= k < |s| :: IsSpace(s[k])
  }

  predicate IsIndent(c: char)
  {
    c == '\t' || c == ' '
  }

  /** Length of the longest suffix of `s` made of tabs and spaces. */
  function TrailingIndent(s: string): (r: nat)
    ensures r <= |s|
    ensures forall k | |s| - r <= k < |s| :: IsIndent(s[k])
    ensures r < |s| ==> !IsIndent(s[|s| - r - 1])
  {
    if s == [] || !IsIndent(s[|s| - 1]) then 0 else 1 + TrailingIndent(s[..|s| - 1])
  }

  /** Whether `/^\s*(\n[\t ]*)$/` matches `s`: white space only, with a line break followed by tabs and spaces at the end. */
  predicate IsWhiteLine(s: string)
  {
    Blank(s) && TrailingIndent(s) < |s| && s[|s| - TrailingIndent(s) - 1] == '\n'
  }

  /** `s.replace(/^\s*(\n[\t ]*)$/, '$1')`. */
  function Collapse(s: string): (r: string)
    ensures |r| <= |s|
    ensures IsWhiteLine(s) ==> 0 < |r| && r == s[|s| - |r|..] && r[0] == '\n' && forall k | 1 <= k < |r| :: IsIndent(r[k])
    ensures !IsWhiteLine(s) ==> r == s
  {
    if IsWhiteLine(s) then s[|s| - TrailingIndent(s) - 1..] else s
  }

  /**
   * The regular expression matches exactly when some line break `s[i]` has only
   * white space before it and only tabs and spaces after it; the capture group,
   * which replaces the whole value, is then `s[i..]`.
   */
  lemma CollapseMatch(s: string, i: nat)
    requires i < |s| && s[i] == '\n' && Blank(s[..i])
    requires forall k | i < k < |s| :: IsIndent(s[k])
    ensures Collapse(s) == s[i..]
  {
    var r := TrailingIndent(s);
    // s[i] is not a tab or a space, and everything after it is
    assert !IsIndent(s[i]);
    assert r <= |s| - i - 1;
    assert r >= |s| - i - 1;
    assert forall k | 0 <= k < |s| :: IsSpace(s[k]) by {
      forall k | 0 <= k < |s| ensures IsSpace(s[k]) {
        if k < i {
          assert s[k] == s[..i][k];
        }
      }
    }
  }

  /** Where no line break meets that condition the value is left as it is. */
  lemma CollapseNoMatch(s: string)
    requires forall i | 0 <= i < |s| && s[i] == '\n' :: !(Blank(s[..i]) && forall k | i < k < |s| :: IsIndent(s[k]))
    ensures Collapse(s) == s
  {
    WhiteLineBreak(s);
  }

  /** A white line has such a line break: the one before its trailing tabs and spaces. */
  lemma WhiteLineBreak(s: string)
    ensures IsWhiteLine(s) ==>
      var i := |s| - TrailingIndent(s) - 1;
      s[i] == '\n' && Blank(s[..i]) && forall k | i < k < |s| :: IsIndent(s[k])
  {
  }

  /** Shortening a value never loses a character outside `\s`. */
  lemma CollapseKeepsVisible(s: string)
    ensures Seqs.Filter(NotSpace, Collapse(s)) == Seqs.Filter(NotSpace, s)
  {
    if IsWhiteLine(s) {
      BlankHasNothingVisible(s);
      BlankHasNothingVisible(Collapse(s));
    }
  }

  lemma {:induction false} BlankHasNothingVisible(s: string)
    requires Blank(s)
    ensures Seqs.Filter(NotSpace, s) == []
    decreases s
  {
    if s != [] {
      BlankHasNothingVisible(s[1..]);
    }
  }

  /** Shortening is idempotent: a shortened white line is already as short as it gets. */
  lemma CollapseIdempotent(s: string)
    ensures Collapse(Collapse(s)) == Collapse(s)
  {
    if IsWhiteLine(s) {
      var r := Collapse(s);
      assert Blank(r[..0]);
      CollapseMatch(r, 0);
      assert r[0..] == r;
    }
  }

  // ---------------------------------------------------------------------------
  // The tree the pass leaves

  /** The tree `removeWhiteSpaces(n, onlyWhiteLines)` leaves. */
  function WhiteSpaceRemoved(n: Node, onlyWhiteLines: bool): (r: Node)
    ensures Shallow(r) == Shallow(n)
    ensures IsParent(n) ==> |r.childNodes| <= |n.childNodes|
    ensures !IsParent(n) ==> r == n
    decreases n, 0
  {
    if IsParent(n) then n.(childNodes := ChildrenWhiteSpaceRemoved(n.childNodes, onlyWhiteLines)) else n
  }

  /**
   * One turn of the backward child loop: `rest` is what the loop has made of
   * the later children. In the `onlyWhiteLines` mode a text node followed by a
   * text node (the text node of the current run) is merged into it, the
   * earlier value first; otherwise only a white-space-only text node is
   * removed. Elements are recursed into; every other node stays.
   */
  function Step(c: Node, rest: seq<Node>, onlyWhiteLines: bool): seq<Node>
    decreases c, 1
  {
    match c
    case Text(v) =>
      if onlyWhiteLines then
        if rest != [] && rest[0].Text? then [Text(Collapse(v + rest[0].nodeValue))] + rest[1..]
        else [Text(Collapse(v))] + rest
      else if Blank(v) then rest
      else [c] + rest
    case Element(_, _, _) => [WhiteSpaceRemoved(c, onlyWhiteLines)] + rest
    case _ => [c] + rest
  }

  /** The children after the loop: the turns folded from the last child to the first. */
  function ChildrenWhiteSpaceRemoved(cs: seq<Node>, onlyWhiteLines: bool): (r: seq<Node>)
    ensures |r| <= |cs|
    ensures onlyWhiteLines && cs != [] ==> r != [] && (r[0].Text? <==> cs[0].Text?)
    decreases cs, 2
  {
    if cs == [] then [] else Step(cs[0], ChildrenWhiteSpaceRemoved(cs[1..], onlyWhiteLines), onlyWhiteLines)
  }

  lemma ChildrenUnfold(cs: seq<Node>, i: nat, onlyWhiteLines: bool)
    requires i < |cs|
    ensures ChildrenWhiteSpaceRemoved(cs[i..], onlyWhiteLines)
      == Step(cs[i], ChildrenWhiteSpaceRemoved(cs[i + 1..], onlyWhiteLines), onlyWhiteLines)
    ensures cs[..i + 1] == cs[..i] + [cs[i]]
  {
    assert cs[i..][1..] == cs[i + 1..];
  }

  /**
   * One turn of the loop on the text node at index `i`, preceded by the
   * untouched children `pre` and followed by what the loop has made of the
   * later ones, `done`. `lastTextNode` is the position of the text node the
   * current run has been merged into, which is always `i + 1`.
   */
  method TextTurn(ghost pre: seq<Node>, ghost done: seq<Node>, children: seq<Node>, i: nat, lastTextNode: Option<nat>, onlyWhiteLines: bool)
    returns (newChildren: seq<Node>, newLastTextNode: Option<nat>)
    requires |pre| == i < |children| && children[i].Text? && children == pre + [children[i]] + done
    requires lastTextNode == if onlyWhiteLines && done != [] && done[0].Text? then Some(i + 1) else None
    ensures newChildren == pre + Step(children[i], done, onlyWhiteLines)
    ensures var d := Step(children[i], done, onlyWhiteLines);
      newLastTextNode == if onlyWhiteLines && d != [] && d[0].Text? then Some(i) else None
  {
    var child := children[i];
    newChildren, newLastTextNode := children, lastTextNode;
    if onlyWhiteLines {
      if lastTextNode.Some? {
        // When several text nodes follow one another
        var last := lastTextNode.value;
        assert children[last] == done[0];
        var merged := Text(Collapse(child.nodeValue + children[last].nodeValue));
        Seqs.SpliceMerge(pre, child, done, merged);
        newChildren := children[last := merged];
        newChildren := newChildren[..i] + newChildren[i + 1..];
        // The removal moved the merged text node down by one place
        newLastTextNode := Some(last - 1);
      } else {
        var collapsed := Text(Collapse(child.nodeValue));
        Seqs.SpliceReplace(pre, child, done, collapsed);
        newChildren := children[i := collapsed];
        newLastTextNode := Some(i);
      }
    } else if Blank(child.nodeValue) {
      Seqs.SpliceRemove(pre, child, done);
      newChildren := children[..i] + children[i + 1..];
    } else {
      assert children == pre + ([child] + done);
    }
  }

  /** One turn of the loop on a child that is not a text node: elements are recursed into. */
  method OtherTurn(ghost pre: seq<Node>, ghost done: seq<Node>, children: seq<Node>, i: nat, onlyWhiteLines: bool)
    returns (newChildren: seq<Node>)
    requires |pre| == i < |children| && !children[i].Text? && children == pre + [children[i]] + done
    ensures newChildren == pre + Step(children[i], done, onlyWhiteLines)
    ensures var d := Step(children[i], done, onlyWhiteLines); d != [] && !d[0].Text?
    decreases children[i], 1
  {
    var child := children[i];
    newChildren := children;
    if child.Element? {
      var cleaned := RemoveWhiteSpaces(child, onlyWhiteLines);
      Seqs.SpliceReplace(pre, child, done, cleaned);
      newChildren := children[i := cleaned];
    } else {
      assert children == pre + ([child] + done);
    }
  }

  /** One turn of the loop, on the child at index `i`, whatever its kind. */
  method Turn(ghost pre: seq<Node>, ghost done: seq<Node>, children: seq<Node>, i: nat, lastTextNode: Option<nat>, onlyWhiteLines: bool)
    returns (newChildren: seq<Node>, newLastTextNode: Option<nat>)
    requires |pre| == i < |children| && children == pre + [children[i]] + done
    requires lastTextNode == if onlyWhiteLines && done != [] && done[0].Text? then Some(i + 1) else None
    ensures newChildren == pre + Step(children[i], done, onlyWhiteLines)
    ensures var d := Step(children[i], done, onlyWhiteLines);
      newLastTextNode == if onlyWhiteLines && d != [] && d[0].Text? then Some(i) else None
    decreases children[i], 2
  {
    if children[i].Text? {
      newChildren, newLastTextNode := TextTurn(pre, done, children, i, lastTextNode, onlyWhiteLines);
    } else {
      newChildren := OtherTurn(pre, done, children, i, onlyWhiteLines);
      newLastTextNode := None;
    }
  }

  /**
   * `removeWhiteSpaces`: visits the children from the last to the first,
   * remembering the text node the current run of text nodes has been merged
   * into so far (by its position, which is always just after the child being
   * visited).
   */
  method RemoveWhiteSpaces(container: Node, onlyWhiteLines: bool) returns (result: Node)
    ensures result == WhiteSpaceRemoved(container, onlyWhiteLines)
    decreases container, 0
  {
    if !IsParent(container) {
      // Other nodes have no children to visit
      return container;
    }
    ghost var cs := container.childNodes;
    var children := container.childNodes;
    var lastTextNode: Option<nat> := None;
    var i: nat := |children|;
    // What the loop has made of the children it has visited
    ghost var done: seq<Node> := [];
    while i > 0
      invariant i <= |cs|
      invariant done == ChildrenWhiteSpaceRemoved(cs[i..], onlyWhiteLines)
      invariant children == cs[..i] + done
      invariant lastTextNode == if onlyWhiteLines && done != [] && done[0].Text? then Some(i) else None
    {
      i := i - 1;
      var child := children[i];
      ghost var pre := cs[..i];
      assert child == cs[i] && children == pre + [child] + done
        && Step(child, done, onlyWhiteLines) == ChildrenWhiteSpaceRemoved(cs[i..], onlyWhiteLines) by {
        ChildrenUnfold(cs, i, onlyWhiteLines);
      }
      assert container.childNodes[i] == child;
      children, lastTextNode := Turn(pre, done, children, i, lastTextNode, onlyWhiteLines);
      done := Step(child, done, onlyWhiteLines);
    }
    assert cs[0..] == cs;
    result := container.(childNodes := children);
  }

  // ---------------------------------------------------------------------------
  // What the pass promises

  /** A text node made only of white space. */
  predicate BlankText(n: Node)
  {
    n.Text? && Blank(n.nodeValue)
  }

  predicate NotBlankText(i: Item)
  {
    !BlankText(i.node)
  }

  /** No white-space-only text node below `n`, at any depth. */
  predicate NoBlankText(n: Node)
    decreases n, 0
  {
    IsParent(n) ==> forall k | 0 <= k < |n.childNodes| :: Stripped(n.childNodes[k])
  }

  /** A child that is not blank text and, if it is an element, holds none. */
  predicate Stripped(c: Node)
    decreases c, 1
  {
    !BlankText(c) && (c.Element? ==> NoBlankText(c))
  }

  lemma {:induction false} ChildrenStrippedHaveNoBlankText(cs: seq<Node>)
    ensures forall k | 0 <= k < |ChildrenWhiteSpaceRemoved(cs, false)| :: Stripped(ChildrenWhiteSpaceRemoved(cs, false)[k])
    decreases cs, 1
  {
    if cs != [] {
      ChildrenStrippedHaveNoBlankText(cs[1..]);
      if cs[0].Element? {
        StrippedHasNoBlankText(cs[0]);
      }
    }
  }

  /** Outside the `onlyWhiteLines` mode, no white-space-only text node remains below the container. */
  lemma {:induction false} StrippedHasNoBlankText(n: Node)
    ensures NoBlankText(WhiteSpaceRemoved(n, false))
    decreases n, 2
  {
    if IsParent(n) {
      ChildrenStrippedHaveNoBlankText(n.childNodes);
    }
  }

  lemma {:induction false} CleanChildrenUnchanged(cs: seq<Node>)
    requires forall k | 0 <= k < |cs| :: Stripped(cs[k])
    ensures ChildrenWhiteSpaceRemoved(cs, false) == cs
    decreases cs, 1
  {
    if cs != [] {
      CleanChildrenUnchanged(cs[1..]);
      if cs[0].Element? {
        CleanUnchanged(cs[0]);
      }
      assert cs == [cs[0]] + cs[1..];
    }
  }

  /** A tree without white-space-only text is left as it is; so a second pass in this mode changes nothing. */
  lemma {:induction false} CleanUnchanged(n: Node)
    requires NoBlankText(n)
    ensures WhiteSpaceRemoved(n, false) == n
    decreases n, 2
  {
    if IsParent(n) {
      CleanChildrenUnchanged(n.childNodes);
    }
  }

  lemma StrippingIdempotent(n: Node)
    ensures WhiteSpaceRemoved(WhiteSpaceRemoved(n, false), false) == WhiteSpaceRemoved(n, false)
  {
    StrippedHasNoBlankText(n);
    CleanUnchanged(WhiteSpaceRemoved(n, false));
  }

  /**
   * Outside the `onlyWhiteLines` mode every other node stays, in document
   * order and at its depth: the nodes below the container afterwards are the
   * ones before with the white-space-only text nodes struck out. A text node
   * has no children, so each node that stays keeps its parent.
   */
  lemma {:induction false} StrippedKeepsOrder(cs: seq<Node>, depth: nat)
    ensures Preorder(ChildrenWhiteSpaceRemoved(cs, false), depth) == Seqs.Filter(NotBlankText, Preorder(cs, depth))
    decreases cs
  {
    if cs != [] {
      var c, rest := cs[0], ChildrenWhiteSpaceRemoved(cs[1..], false);
      var head := Item(depth, Shallow(c));
      assert cs == [c] + cs[1..];
      PreorderCons(c, cs[1..], depth);
      Seqs.FilterSplit(NotBlankText, head, Preorder(ElementChildren(c), depth + 1), Preorder(cs[1..], depth));
      StrippedKeepsOrder(cs[1..], depth);
      match c
      case Text(v) =>
        if !Blank(v) {
          PreorderCons(c, rest, depth);
        }
      case Element(_, _, kids) =>
        StrippedKeepsOrder(kids, depth + 1);
        PreorderCons(WhiteSpaceRemoved(c, false), rest, depth);
      case _ =>
        PreorderCons(c, rest, depth);
    }
  }

  /** In the `onlyWhiteLines` mode no two text nodes are next to each other anywhere below `n`. */
  predicate NoAdjacentTexts(n: Node)
    decreases n
  {
    IsParent(n) ==>
      (forall k | 0 <= k < |n.childNodes| - 1 :: !(n.childNodes[k].Text? && n.childNodes[k + 1].Text?))
      && forall k | 0 <= k < |n.childNodes| :: n.childNodes[k].Element? ==> NoAdjacentTexts(n.childNodes[k])
  }

  /** In the `onlyWhiteLines` mode, no two text children are left next to each other. */
  lemma {:induction false} ChildrenMergedUnmixed(cs: seq<Node>)
    ensures forall k | 0 <= k < |ChildrenWhiteSpaceRemoved(cs, true)| - 1 ::
      !(ChildrenWhiteSpaceRemoved(cs, true)[k].Text? && ChildrenWhiteSpaceRemoved(cs, true)[k + 1].Text?)
    decreases cs
  {
    if cs != [] {
      ChildrenMergedUnmixed(cs[1..]);
      var rest := ChildrenWhiteSpaceRemoved(cs[1..], true);
      var r := ChildrenWhiteSpaceRemoved(cs, true);
      assert r == Step(cs[0], rest, true);
      if cs[0].Text? && rest != [] && rest[0].Text? {
        assert r == [r[0]] + rest[1..];
        assert |rest| > 1 ==> !rest[1].Text?;
        forall k | 0 <= k < |r| - 1
          ensures !(r[k].Text? && r[k + 1].Text?)
        {
          if k > 0 {
            assert r[k] == rest[k] && r[k + 1] == rest[k + 1];
          }
        }
      } else {
        assert r == [r[0]] + rest;
        assert cs[0].Text? ==> rest == [] || !rest[0].Text?;
        assert !cs[0].Text? ==> !r[0].Text?;
        forall k | 0 <= k < |r| - 1
          ensures !(r[k].Text? && r[k + 1].Text?)
        {
          if k > 0 {
            assert r[k] == rest[k - 1] && r[k + 1] == rest[k];
          }
        }
      }
    }
  }

  lemma {:induction false} ChildrenMergedHaveNoAdjacentTexts(cs: seq<Node>)
    ensures forall k | 0 <= k < |ChildrenWhiteSpaceRemoved(cs, true)| ::
      ChildrenWhiteSpaceRemoved(cs, true)[k].Element? ==> NoAdjacentTexts(ChildrenWhiteSpaceRemoved(cs, true)[k])
    decreases cs, 1
  {
    if cs != [] {
      ChildrenMergedHaveNoAdjacentTexts(cs[1..]);
      var rest := ChildrenWhiteSpaceRemoved(cs[1..], true);
      if cs[0].Element? {
        MergedHasNoAdjacentTexts(cs[0]);
      } else if cs[0].Text? && rest != [] && rest[0].Text? {
        assert forall k | 0 <= k < |rest[1..]| :: rest[1..][k] == rest[k + 1];
      }
    }
  }

  /** After the `onlyWhiteLines` mode, every run of text nodes below the container is a single text node. */
  lemma {:induction false} MergedHasNoAdjacentTexts(n: Node)
    ensures NoAdjacentTexts(WhiteSpaceRemoved(n, true))
    decreases n, 2
  {
    if IsParent(n) {
      ChildrenMergedUnmixed(n.childNodes);
      ChildrenMergedHaveNoAdjacentTexts(n.childNodes);
    }
  }

  /** A text value the shortening leaves alone. */
  predicate Settled(n: Node)
  {
    n.Text? ==> Collapse(n.nodeValue) == n.nodeValue
  }

  /** No two adjacent text nodes and no text value left to shorten, at any depth below `n`. */
  predicate MergedForm(n: Node)
    decreases n
  {
    IsParent(n) ==>
      (forall k | 0 <= k < |n.childNodes| - 1 :: !(n.childNodes[k].Text? && n.childNodes[k + 1].Text?))
      && forall k | 0 <= k < |n.childNodes| :: Settled(n.childNodes[k]) && (n.childNodes[k].Element? ==> MergedForm(n.childNodes[k]))
  }

  lemma {:induction false} ChildrenMergedInMergedForm(cs: seq<Node>)
    ensures forall k | 0 <= k < |ChildrenWhiteSpaceRemoved(cs, true)| ::
      Settled(ChildrenWhiteSpaceRemoved(cs, true)[k])
      && (ChildrenWhiteSpaceRemoved(cs, true)[k].Element? ==> MergedForm(ChildrenWhiteSpaceRemoved(cs, true)[k]))
    decreases cs, 1
  {
    if cs != [] {
      ChildrenMergedInMergedForm(cs[1..]);
      var rest := ChildrenWhiteSpaceRemoved(cs[1..], true);
      match cs[0]
      case Element(_, _, _) =>
        MergedInMergedForm(cs[0]);
      case Text(v) =>
        if rest != [] && rest[0].Text? {
          CollapseIdempotent(v + rest[0].nodeValue);
          assert forall k | 0 <= k < |rest[1..]| :: rest[1..][k] == rest[k + 1];
        } else {
          CollapseIdempotent(v);
        }
      case _ =>
    }
  }

  lemma {:induction false} MergedInMergedForm(n: Node)
    ensures MergedForm(WhiteSpaceRemoved(n, true))
    decreases n, 2
  {
    if IsParent(n) {
      ChildrenMergedUnmixed(n.childNodes);
      ChildrenMergedInMergedForm(n.childNodes);
    }
  }

  lemma {:induction false} MergedFormChildrenUnchanged(cs: seq<Node>)
    requires forall k | 0 <= k < |cs| - 1 :: !(cs[k].Text? && cs[k + 1].Text?)
    requires forall k | 0 <= k < |cs| :: Settled(cs[k]) && (cs[k].Element? ==> MergedForm(cs[k]))
    ensures ChildrenWhiteSpaceRemoved(cs, true) == cs
    decreases cs, 1
  {
    if cs != [] {
      assert forall k | 0 <= k < |cs[1..]| :: cs[1..][k] == cs[k + 1];
      MergedFormChildrenUnchanged(cs[1..]);
      if cs[0].Element? {
        MergedFormUnchanged(cs[0]);
      } else if cs[0].Text? && |cs| > 1 {
        assert !cs[1].Text?;
      }
      assert cs == [cs[0]] + cs[1..];
    }
  }

  /** A tree already in merged form is left as it is. */
  lemma {:induction false} MergedFormUnchanged(n: Node)
    requires MergedForm(n)
    ensures WhiteSpaceRemoved(n, true) == n
    decreases n, 2
  {
    if IsParent(n) {
      MergedFormChildrenUnchanged(n.childNodes);
    }
  }

  /** A second pass in the `onlyWhiteLines` mode changes nothing. */
  lemma MergingIdempotent(n: Node)
    ensures WhiteSpaceRemoved(WhiteSpaceRemoved(n, true), true) == WhiteSpaceRemoved(n, true)
  {
    MergedInMergedForm(n);
    MergedFormUnchanged(WhiteSpaceRemoved(n, true));
  }

  /**
   * The `onlyWhiteLines` mode keeps every node that is not a text node, in
   * document order and at its depth, with its own tag, attributes or data.
   */
  lemma {:induction false} MergedKeepsOtherNodes(cs: seq<Node>, depth: nat)
    ensures Seqs.Filter(NotText, Preorder(ChildrenWhiteSpaceRemoved(cs, true), depth)) == Seqs.Filter(NotText, Preorder(cs, depth))
    decreases cs
  {
    if cs != [] {
      var c, rest := cs[0], ChildrenWhiteSpaceRemoved(cs[1..], true);
      MergedKeepsOtherNodes(cs[1..], depth);
      if c.Element? {
        MergedKeepsOtherNodes(c.childNodes, depth + 1);
      }
      StepKeepsOtherNodes(c, rest, depth);
      assert cs == [c] + cs[1..];
      PreorderConcat([c], cs[1..], depth);
      Seqs.FilterConcat(NotText, Preorder([c], depth), Preorder(cs[1..], depth));
    }
  }

  /** What one turn of the merging loop does to the non-text nodes. */
  lemma StepKeepsOtherNodes(c: Node, rest: seq<Node>, depth: nat)
    requires c.Element? ==>
      Seqs.Filter(NotText, Preorder(ChildrenWhiteSpaceRemoved(c.childNodes, true), depth + 1))
      == Seqs.Filter(NotText, Preorder(c.childNodes, depth + 1))
    ensures Seqs.Filter(NotText, Preorder(Step(c, rest, true), depth))
      == Seqs.Filter(NotText, Preorder([c], depth)) + Seqs.Filter(NotText, Preorder(rest, depth))
  {
    PreorderCons(c, [], depth);
    match c
    case Text(v) =>
      assert Seqs.Filter(NotText, Preorder([c], depth)) == [] by {
        Seqs.FilterCons(NotText, Item(depth, c), []);
      }
      if rest != [] && rest[0].Text? {
        TextsMergedKeepOtherNodes(Text(Collapse(v + rest[0].nodeValue)), rest, depth);
      } else {
        TextPrependedKeepsOtherNodes(Text(Collapse(v)), rest, depth);
      }
    case Element(_, _, kids) =>
      ElementKeptAmongOtherNodes(c, rest, depth);
    case _ =>
      PreorderCons(c, rest, depth);
      Seqs.FilterConcat(NotText, Preorder([c], depth), Preorder(rest, depth));
  }

  lemma ElementKeptAmongOtherNodes(c: Node, rest: seq<Node>, depth: nat)
    requires c.Element?
    requires Seqs.Filter(NotText, Preorder(ChildrenWhiteSpaceRemoved(c.childNodes, true), depth + 1))
      == Seqs.Filter(NotText, Preorder(c.childNodes, depth + 1))
    ensures Seqs.Filter(NotText, Preorder([WhiteSpaceRemoved(c, true)] + rest, depth))
      == Seqs.Filter(NotText, Preorder([c], depth)) + Seqs.Filter(NotText, Preorder(rest, depth))
  {
    var kids := c.childNodes;
    var d := WhiteSpaceRemoved(c, true);
    var head := Item(depth, Shallow(c));
    PreorderCons(c, [], depth);
    PreorderCons(d, rest, depth);
    assert Preorder([c], depth) == [head] + Preorder(kids, depth + 1);
    assert Shallow(d) == Shallow(c) && ElementChildren(d) == ChildrenWhiteSpaceRemoved(kids, true);
    Seqs.FilterSplit(NotText, head, Preorder(ElementChildren(d), depth + 1), Preorder(rest, depth));
    Seqs.FilterConcat(NotText, [head], Preorder(kids, depth + 1));
  }

  lemma TextPrependedKeepsOtherNodes(t: Node, rest: seq<Node>, depth: nat)
    requires t.Text?
    ensures Seqs.Filter(NotText, Preorder([t] + rest, depth)) == Seqs.Filter(NotText, Preorder(rest, depth))
  {
    PreorderCons(t, rest, depth);
    assert Preorder([t] + rest, depth) == [Item(depth, t)] + Preorder(rest, depth);
    Seqs.FilterCons(NotText, Item(depth, t), Preorder(rest, depth));
  }

  lemma TextsMergedKeepOtherNodes(t: Node, rest: seq<Node>, depth: nat)
    requires t.Text? && rest != [] && rest[0].Text?
    ensures Seqs.Filter(NotText, Preorder([t] + rest[1..], depth)) == Seqs.Filter(NotText, Preorder(rest, depth))
  {
    TextPrependedKeepsOtherNodes(t, rest[1..], depth);
    assert rest == [rest[0]] + rest[1..];
    TextPrependedKeepsOtherNodes(rest[0], rest[1..], depth);
  }

  // ---------------------------------------------------------------------------
  // The `onlyWhiteLines` mode, read run by run

  /** The number of text nodes `cs` starts with. */
  function TextRun(cs: seq<Node>): (r: nat)
    ensures r <= |cs|
    ensures forall k | 0 <= k < r :: cs[k].Text?
    ensures r < |cs| ==> !cs[r].Text?
  {
    if cs == [] || !cs[0].Text? then 0 else 1 + TextRun(cs[1..])
  }

  predicate AllTexts(ts: seq<Node>)
  {
    forall k | 0 <= k < |ts| :: ts[k].Text?
  }

  /**
   * The value a run of adjacent text nodes ends with: the last value
   * shortened, then each earlier value, from the last to the first, put in
   * front of what the later ones made and the whole shortened again.
   */
  function RunValue(ts: seq<Node>): string
    requires ts != [] && AllTexts(ts)
  {
    if |ts| == 1 then Collapse(ts[0].nodeValue) else Collapse(ts[0].nodeValue + RunValue(ts[1..]))
  }

  /**
   * The children the `onlyWhiteLines` mode leaves, read from the first child
   * to the last: each maximal run of adjacent text nodes becomes one text node
   * in the run's place, holding the run's value; an element (which ends any
   * run) is merged below in the same way; every other node stays.
   */
  function MergedRuns(cs: seq<Node>): (r: seq<Node>)
    decreases cs
  {
    if cs == [] then []
    else if cs[0].Text? then
      var n := TextRun(cs);
      [Text(RunValue(cs[..n]))] + MergedRuns(cs[n..])
    else if cs[0].Element? then [cs[0].(childNodes := MergedRuns(cs[0].childNodes))] + MergedRuns(cs[1..])
    else [cs[0]] + MergedRuns(cs[1..])
  }

  lemma MergedRunsHead(cs: seq<Node>)
    ensures cs != [] ==> MergedRuns(cs) != [] && (MergedRuns(cs)[0].Text? <==> cs[0].Text?)
  {
  }

  /**
   * The backward loop with its `$lastTextNode` merges runs exactly: in the
   * `onlyWhiteLines` mode every maximal run of adjacent text nodes, at any
   * depth, becomes one text node at the run's place, valued as `RunValue`
   * says, and a node that is not a text node ends a run.
   */
  lemma {:induction false} MergingJoinsRuns(cs: seq<Node>)
    ensures ChildrenWhiteSpaceRemoved(cs, true) == MergedRuns(cs)
    decreases cs
  {
    if cs != [] {
      var c := cs[0];
      MergingJoinsRuns(cs[1..]);
      match c
      case Text(v) =>
        var m := TextRun(cs[1..]);
        assert TextRun(cs) == 1 + m;
        if m > 0 {
          assert cs[..1 + m][1..] == cs[1..][..m];
          assert cs[1 + m..] == cs[1..][m..];
        } else {
          MergedRunsHead(cs[1..]);
          assert cs[..1] == [c];
          assert cs[1..] == cs[1..][0..];
        }
      case Element(_, _, kids) =>
        MergingJoinsRuns(kids);
        assert WhiteSpaceRemoved(c, true) == c.(childNodes := MergedRuns(kids));
      case _ =>
    }
  }

  /**
   * An element ends a run: `[a, <b/>, c, d]` becomes `[a, <b/>, cd]`, never
   * `[acd, <b/>]`.
   */
  lemma ElementEndsRun()
    ensures ChildrenWhiteSpaceRemoved([Text("a"), Element("b", [], []), Text("c"), Text("d")], true)
      == [Text("a"), Element("b", [], []), Text("cd")]
  {
    var b := Element("b", [], []);
    var cs := [Text("a"), b, Text("c"), Text("d")];
    MergingJoinsRuns(cs);
    TwoTextsMerged();
    assert cs[1..][1..] == [Text("c"), Text("d")];
    assert MergedRuns(cs[1..]) == [b, Text("cd")] by {
      assert MergedRuns([]) == [];
      assert b.(childNodes := MergedRuns([])) == b;
    }
    assert TextRun(cs) == 1;
    assert cs[..1] == [Text("a")] && cs[1..] == [b, Text("c"), Text("d")];
    VisibleStartKept("a");
  }

  lemma TwoTextsMerged()
    ensures MergedRuns([Text("c"), Text("d")]) == [Text("cd")]
  {
    var ts := [Text("c"), Text("d")];
    assert TextRun(ts[1..]) == 1;
    assert TextRun(ts) == 2;
    assert ts[..2] == ts && ts[2..] == [];
    VisibleStartKept("d");
    VisibleStartKept("c" + "d");
    assert ts[1..] == [Text("d")];
    assert RunValue(ts) == "cd";
  }

  /**
   * The run's value is shortened at each step, not once at the end: the
   * texts `a` and ` \n ` end as `a\n `, while shortening their concatenation
   * would leave `a \n ` as it is.
   */
  lemma RunShortenedStepByStep()
    ensures RunValue([Text("a"), Text(" \n ")]) == "a\n "
    ensures Collapse("a" + " \n ") == "a \n "
  {
    var w := " \n ";
    WhiteLineShortened(w);
    assert [Text("a"), Text(w)][1..] == [Text(w)];
    assert "a" + "\n " == "a\n ";
    assert !IsSpace('a');
    VisibleStartKept("a\n ");
    VisibleStartKept("a" + w);
  }

  lemma WhiteLineShortened(w: string)
    requires w == " \n "
    ensures Collapse(w) == "\n "
  {
    assert IsIndent(w[2]) && !IsIndent(w[1]);
    assert TrailingIndent(w[..2]) == 0;
    assert TrailingIndent(w) == 1;
    assert IsSpace(w[0]) && IsSpace(w[1]) && IsSpace(w[2]);
    assert IsWhiteLine(w);
    assert w[1..] == "\n ";
  }

  /** A value that starts with a visible character is never shortened. */
  lemma VisibleStartKept(s: string)
    requires s != [] && !IsSpace(s[0])
    ensures Collapse(s) == s
  {
  }

  /**
   * Neither mode loses a character outside `\s`: the container's text content,
   * with the white space struck out, is the same afterwards.
   */
  lemma {:induction false} VisibleTextKept(cs: seq<Node>, onlyWhiteLines: bool)
    ensures Seqs.Filter(NotSpace, TextContent(ChildrenWhiteSpaceRemoved(cs, onlyWhiteLines)))
      == Seqs.Filter(NotSpace, TextContent(cs))
    decreases cs
  {
    if cs != [] {
      var c, rest := cs[0], ChildrenWhiteSpaceRemoved(cs[1..], onlyWhiteLines);
      VisibleTextKept(cs[1..], onlyWhiteLines);
      if c.Element? {
        VisibleTextKept(c.childNodes, onlyWhiteLines);
      }
      StepKeepsVisible(c, rest, onlyWhiteLines);
      assert cs == [c] + cs[1..];
      TextContentConcat([c], cs[1..]);
      Seqs.FilterConcat(NotSpace, TextContent([c]), TextContent(cs[1..]));
    }
  }

  /** What one turn of the loop does to the visible text. */
  lemma StepKeepsVisible(c: Node, rest: seq<Node>, onlyWhiteLines: bool)
    requires c.Element? ==>
      Seqs.Filter(NotSpace, TextContent(ChildrenWhiteSpaceRemoved(c.childNodes, onlyWhiteLines)))
      == Seqs.Filter(NotSpace, TextContent(c.childNodes))
    ensures Seqs.Filter(NotSpace, TextContent(Step(c, rest, onlyWhiteLines)))
      == Seqs.Filter(NotSpace, TextContent([c])) + Seqs.Filter(NotSpace, TextContent(rest))
  {
    TextContentCons(c, []);
    match c
    case Text(v) =>
      assert TextContent([c]) == v;
      if onlyWhiteLines {
        if rest != [] && rest[0].Text? {
          TextsMergedKeepVisible(v, rest);
        } else {
          TextPrependedKeepsVisible(Collapse(v), rest);
          CollapseKeepsVisible(v);
        }
      } else if Blank(v) {
        BlankHasNothingVisible(v);
      } else {
        TextPrependedKeepsVisible(v, rest);
      }
    case Element(_, _, kids) =>
      ElementKeepsVisible(c, rest, onlyWhiteLines);
    case _ =>
      TextContentCons(c, rest);
      assert TextContent([c]) == "";
      assert Seqs.Filter(NotSpace, "") == [];
      assert TextContent(Step(c, rest, onlyWhiteLines)) == TextContent(rest);
  }

  lemma ElementKeepsVisible(c: Node, rest: seq<Node>, onlyWhiteLines: bool)
    requires c.Element?
    requires Seqs.Filter(NotSpace, TextContent(ChildrenWhiteSpaceRemoved(c.childNodes, onlyWhiteLines)))
      == Seqs.Filter(NotSpace, TextContent(c.childNodes))
    ensures Seqs.Filter(NotSpace, TextContent([WhiteSpaceRemoved(c, onlyWhiteLines)] + rest))
      == Seqs.Filter(NotSpace, TextContent([c])) + Seqs.Filter(NotSpace, TextContent(rest))
  {
    var d := WhiteSpaceRemoved(c, onlyWhiteLines);
    TextContentCons(c, []);
    TextContentCons(d, rest);
    assert TextContent([c]) == TextContent(c.childNodes);
    assert Children(d) == ChildrenWhiteSpaceRemoved(c.childNodes, onlyWhiteLines);
    Seqs.FilterConcat(NotSpace, TextContent(Children(d)), TextContent(rest));
  }

  lemma TextPrependedKeepsVisible(v: string, rest: seq<Node>)
    ensures Seqs.Filter(NotSpace, TextContent([Text(v)] + rest))
      == Seqs.Filter(NotSpace, v) + Seqs.Filter(NotSpace, TextContent(rest))
  {
    TextContentCons(Text(v), rest);
    Seqs.FilterConcat(NotSpace, v, TextContent(rest));
  }

  lemma TextsMergedKeepVisible(v: string, rest: seq<Node>)
    requires rest != [] && rest[0].Text?
    ensures Seqs.Filter(NotSpace, TextContent([Text(Collapse(v + rest[0].nodeValue))] + rest[1..]))
      == Seqs.Filter(NotSpace, v) + Seqs.Filter(NotSpace, TextContent(rest))
  {
    var u := rest[0].nodeValue;
    MergeKeepsVisible(v, u);
    assert rest == [Text(u)] + rest[1..];
    JoinedTextKeepsVisible(Collapse(v + u), v, u, rest[1..]);
  }

  lemma MergeKeepsVisible(v: string, u: string)
    ensures Seqs.Filter(NotSpace, Collapse(v + u)) == Seqs.Filter(NotSpace, v) + Seqs.Filter(NotSpace, u)
  {
    CollapseKeepsVisible(v + u);
    Seqs.FilterConcat(NotSpace, v, u);
  }

  lemma JoinedTextKeepsVisible(w: string, v: string, u: string, later: seq<Node>)
    requires Seqs.Filter(NotSpace, w) == Seqs.Filter(NotSpace, v) + Seqs.Filter(NotSpace, u)
    ensures Seqs.Filter(NotSpace, TextContent([Text(w)] + later))
      == Seqs.Filter(NotSpace, v) + Seqs.Filter(NotSpace, TextContent([Text(u)] + later))
  {
    TextPrependedKeepsVisible(w, later);
    TextPrependedKeepsVisible(u, later);
    Seqs.Associative(Seqs.Filter(NotSpace, v), Seqs.Filter(NotSpace, u), Seqs.Filter(NotSpace, TextContent(later)));
  }



}
