/** Whole trees of nodes, and duplicating them. */
module Trees {
  import opened Bytes
  import opened Nodes
  import opened Wrappers

  const CIRCULAR_LIMIT: nat := 10000

  /** What a node and everything below it stand for. */
  datatype Tree = Tree(payload: Payload, key: Option<bytes>, kids: seq<Tree>)

  function Height(t: Tree): nat
    decreases t, 1
  {
    if t.kids == [] then 0 else 1 + MaxHeight(t.kids)
  }

  function MaxHeight(ts: seq<Tree>): nat
    decreases ts, 0
  {
    if ts == [] then 0
    else
      var h, rest := Height(ts[0]), MaxHeight(ts[1..]);
      if h < rest then rest else h
  }

  /** There are nodes in it, one below another, `n` steps down. */
  predicate GoesDown(t: Tree, n: nat)
    decreases n
  {
    n == 0 || exists i :: 0 <= i < |t.kids| && GoesDown(t.kids[i], n - 1)
  }

  /** The height of a tree is how far it goes down. */
  lemma {:induction false} HeightIsDepth(t: Tree, n: nat)
    ensures GoesDown(t, n) <==> n <= Height(t)
    decreases n
  {
    if n > 0 {
      forall i | 0 <= i < |t.kids| ensures GoesDown(t.kids[i], n - 1) <==> n - 1 <= Height(t.kids[i]) {
        HeightIsDepth(t.kids[i], n - 1);
      }
      if t.kids != [] {
        MaxHeightReached(t.kids, n - 1);
      }
    }
  }

  lemma {:induction false} MaxHeightReached(ts: seq<Tree>, n: nat)
    requires ts != []
    ensures n <= MaxHeight(ts) <==> exists i :: 0 <= i < |ts| && n <= Height(ts[i])
  {
    if |ts| > 1 {
      MaxHeightReached(ts[1..], n);
      assert forall i :: 0 < i < |ts| ==> ts[i] == ts[1..][i - 1];
    }
  }

  /** Two nodes share nothing. */
  ghost predicate Apart(m: Node, n: Node)
    reads m`below, n`below
  {
    m != n && m !in n.below && n !in m.below && m.below !! n.below
  }

  /** A node whose children, and theirs, form sibling lists, no node occurring twice anywhere. A node's
      own `next` and `prev` belong to its parent. */
  ghost predicate IsTree(n: Node)
    reads n`child, n`kids, n`below, n.below
    decreases n.below
  {
    && n !in n.below
    && (forall k :: k in n.kids ==> k in n.below && k.below < n.below)
    && Children(n, n.kids)
    && (forall k :: k in n.kids ==> IsTree(k))
    && (forall i, j :: 0 <= i < j < |n.kids| ==> Apart(n.kids[i], n.kids[j]))
  }

  ghost function TreeOf(n: Node): Tree
    requires IsTree(n)
    reads n`child, n`kids, n`below, n`payload, n`key, n.below
    decreases n.below, |n.kids| + 1
  {
    Tree(n.payload, n.key, TreesOf(n.kids, n.below))
  }

  ghost function TreesOf(s: seq<Node>, bound: set<Node>): (r: seq<Tree>)
    requires forall k :: k in s ==> k in bound && k.below < bound
    requires forall k :: k in s ==> IsTree(k)
    reads bound
    ensures |r| == |s|
    decreases bound, |s|
  {
    if s == [] then [] else [TreeOf(s[0])] + TreesOf(s[1..], bound)
  }

  lemma {:induction false} TreesOfAt(s: seq<Node>, bound: set<Node>, i: nat)
    requires forall k :: k in s ==> k in bound && k.below < bound
    requires forall k :: k in s ==> IsTree(k)
    requires i < |s|
    ensures TreesOf(s, bound)[i] == TreeOf(s[i])
  {
    if i > 0 {
      TreesOfAt(s[1..], bound, i - 1);
    }
  }

  // ----- duplicating -----

  /** Finished trees, apart from each other and all within `all`. */
  ghost predicate Forest(copies: seq<Node>, all: set<Node>)
    reads all
  {
    && (forall k :: k in copies ==> k in all && k !in k.below && k.below < all)
    && (forall k :: k in copies ==> IsTree(k))
    && (forall i, j :: 0 <= i < j < |copies| ==> Apart(copies[i], copies[j]))
  }

  /** A child list that is still being built: all links but the head's `prev`, which is set last. */
  ghost predicate Chain(item: Node, copies: seq<Node>)
    reads item`child, copies
  {
    && item.child == (if copies == [] then null else copies[0])
    && (forall i :: 0 <= i < |copies| - 1 ==> copies[i].next == copies[i + 1])
    && (forall i :: 0 < i < |copies| ==> copies[i].prev == copies[i - 1])
    && (copies != [] ==> copies[|copies| - 1].next == null)
  }

  /** The forest stands for the first of these trees. */
  ghost predicate Matches(copies: seq<Node>, all: set<Node>, trees: seq<Tree>)
    requires Forest(copies, all)
    reads all
  {
    |copies| <= |trees| && forall i :: 0 <= i < |copies| ==> TreeOf(copies[i]) == trees[i]
  }

  twostate predicate OnlyLinksChanged(n: Node)
    reads n
  {
    n.child == old(n.child) && n.kids == old(n.kids) && n.below == old(n.below) && n.payload == old(n.payload) &&
    n.key == old(n.key)
  }

  /** Links between siblings are no part of the siblings' own trees. */
  twostate lemma Unlinked(n: Node)
    requires old(IsTree(n))
    requires OnlyLinksChanged(n) && unchanged(n.below)
    ensures IsTree(n) && TreeOf(n) == old(TreeOf(n))
  {
  }

  lemma ForestAppend(copies: seq<Node>, all: set<Node>, n: Node, trees: seq<Tree>)
    requires Forest(copies, all) && Matches(copies, all, trees)
    requires IsTree(n) && n !in n.below && n !in all && n.below !! all
    requires |copies| < |trees| && TreeOf(n) == trees[|copies|]
    ensures Forest(copies + [n], all + {n} + n.below) && Matches(copies + [n], all + {n} + n.below, trees)
  {
    hide IsTree, TreeOf;
    var more := copies + [n];
    assert forall i :: 0 <= i < |copies| ==> more[i] == copies[i];
    forall i, j | 0 <= i < j < |more|
      ensures Apart(more[i], more[j])
    {
      if j < |copies| {
        assert Apart(copies[i], copies[j]);
      } else {
        assert copies[i] in copies;
      }
    }
  }

  lemma NotBelow(n: Node)
    requires IsTree(n)
    ensures n !in n.below
  {
  }

  /** Joining the last node to a new one leaves every tree as it was. */
  method Join(last: Node, newChild: Node, ghost copies: seq<Node>, ghost all: set<Node>, ghost trees: seq<Tree>)
    requires Forest(copies, all) && Matches(copies, all, trees) && copies != [] && last == copies[|copies| - 1]
    requires IsTree(newChild) && newChild !in all && newChild.below !! all
    modifies last`next, newChild`prev
    ensures Forest(copies, all) && Matches(copies, all, trees)
    ensures IsTree(newChild) && TreeOf(newChild) == old(TreeOf(newChild))
    ensures last.next == newChild && newChild.prev == last
  {
    hide IsTree, TreeOf;
    NotBelow(newChild);
    forall i | 0 <= i < |copies|
      ensures last !in copies[i].below && newChild !in copies[i].below
    {
      assert copies[i] in copies;
      if i < |copies| - 1 { assert Apart(copies[i], copies[|copies| - 1]); }
    }
    last.next := newChild;
    newChild.prev := last;
    forall k | k in copies
      ensures IsTree(k) && TreeOf(k) == old(TreeOf(k))
    {
      Unlinked(k);
    }
    Unlinked(newChild);
    assert forall i, j :: 0 <= i < j < |copies| ==> old(Apart(copies[i], copies[j])) && Apart(copies[i], copies[j]);
  }

  /** One more child at the end of the list. */
  method Link(item: Node, last: Node?, newChild: Node, ghost copies: seq<Node>, ghost all: set<Node>,
              ghost trees: seq<Tree>)
    requires Forest(copies, all) && Matches(copies, all, trees) && Chain(item, copies) && item !in all
    requires last == if copies == [] then null else copies[|copies| - 1]
    requires IsTree(newChild) && newChild.next == null && newChild !in all && newChild.below !! all
    requires item != newChild && item !in newChild.below
    requires |copies| < |trees| && TreeOf(newChild) == trees[|copies|]
    modifies item`child, Only(last)`next, newChild`prev
    ensures Forest(copies + [newChild], all + {newChild} + newChild.below)
    ensures Matches(copies + [newChild], all + {newChild} + newChild.below, trees)
    ensures Chain(item, copies + [newChild]) && item.child == if last == null then newChild else old(item.child)
  {
    hide IsTree, TreeOf, Forest, Matches;
    NotBelow(newChild);
    Distinct(copies, all);
    if last != null {
      Join(last, newChild, copies, all, trees);
    } else {
      item.child := newChild;
      Unlinked(newChild);
      assert copies == [];
    }
    ForestAppend(copies, all, newChild, trees);
    ghost var more := copies + [newChild];
    assert forall i :: 0 <= i < |copies| ==> more[i] == copies[i];
  }

  /** The head's `prev` is set, and the node is a finished tree. */
  method Close(item: Node, last: Node?, ghost copies: seq<Node>, ghost all: set<Node>, ghost trees: seq<Tree>)
    requires Forest(copies, all) && Matches(copies, all, trees) && Chain(item, copies)
    requires item !in all && |copies| == |trees|
    requires last == if copies == [] then null else copies[|copies| - 1]
    modifies Only(item.child)`prev, item`kids, item`below
    ensures IsTree(item) && TreeOf(item) == Tree(item.payload, item.key, trees) && item.below == all
  {
    hide IsTree, TreeOf;
    Distinct(copies, all);
    if item.child != null {
      item.child.prev := last;
    }
    item.kids, item.below := copies, all;
    forall i | 0 <= i < |copies|
      ensures item.child !in copies[i].below
    {
      assert copies[i] in copies && copies[0] in copies;
      if i > 0 { assert old(Apart(copies[0], copies[i])); }
    }
    forall k | k in copies
      ensures IsTree(k) && TreeOf(k) == old(TreeOf(k))
    {
      Unlinked(k);
    }
    assert forall i, j :: 0 <= i < j < |copies| ==> old(Apart(copies[i], copies[j])) && Apart(copies[i], copies[j]);
    TreesMatch(copies, all, trees);
    FinishedTree(item, trees);
  }

  lemma Distinct(copies: seq<Node>, all: set<Node>)
    requires Forest(copies, all)
    ensures forall k :: k in copies ==> k in all
    ensures forall i, j :: 0 <= i < j < |copies| ==> copies[i] != copies[j]
  {
    assert forall i, j :: 0 <= i < j < |copies| ==> Apart(copies[i], copies[j]);
  }

  lemma TreesMatch(copies: seq<Node>, all: set<Node>, trees: seq<Tree>)
    requires Forest(copies, all) && Matches(copies, all, trees) && |copies| == |trees|
    ensures TreesOf(copies, all) == trees
  {
    hide IsTree, TreeOf;
    forall i | 0 <= i < |copies|
      ensures TreesOf(copies, all)[i] == trees[i]
    {
      TreesOfAt(copies, all, i);
    }
  }

  lemma FinishedTree(item: Node, trees: seq<Tree>)
    requires item !in item.below && Forest(item.kids, item.below) && Children(item, item.kids)
    requires TreesOf(item.kids, item.below) == trees
    ensures IsTree(item) && TreeOf(item) == Tree(item.payload, item.key, trees)
  {
  }

  lemma {:induction false} HeightAt(ts: seq<Tree>, i: nat)
    requires i < |ts|
    ensures Height(ts[i]) <= MaxHeight(ts)
  {
    if i > 0 {
      HeightAt(ts[1..], i - 1);
    }
  }

  lemma {:induction false} HeightReached(ts: seq<Tree>, bound: nat)
    requires forall i :: 0 <= i < |ts| ==> Height(ts[i]) <= bound
    ensures MaxHeight(ts) <= bound
  {
    if ts != [] {
      assert Height(ts[0]) <= bound;
      HeightReached(ts[1..], bound);
    }
  }

  /** The first `n` of these trees, one level further down, are within the limit. */
  ghost predicate Fit(trees: seq<Tree>, n: nat, depth: nat) {
    n <= |trees| && forall j :: 0 <= j < n ==> depth + 1 + Height(trees[j]) <= CIRCULAR_LIMIT
  }

  lemma FitNone(trees: seq<Tree>, depth: nat)
    ensures Fit(trees, 0, depth)
  {
  }

  lemma FitNext(trees: seq<Tree>, n: nat, depth: nat)
    requires Fit(trees, n, depth) && n < |trees|
    ensures Height(trees[n]) <= MaxHeight(trees)
    ensures depth + 1 + Height(trees[n]) <= CIRCULAR_LIMIT ==> Fit(trees, n + 1, depth)
  {
    HeightAt(trees, n);
  }

  lemma FitAll(trees: seq<Tree>, depth: nat)
    requires Fit(trees, |trees|, depth)
    ensures trees != [] ==> depth + 1 + MaxHeight(trees) <= CIRCULAR_LIMIT
  {
    if trees != [] {
      assert depth + 1 + Height(trees[0]) <= CIRCULAR_LIMIT;
      HeightReached(trees, CIRCULAR_LIMIT - depth - 1);
    }
  }

  /** What a loop over the children of a tree needs to know at the `i`-th. */
  lemma AtChild(item: Node, i: nat)
    requires IsTree(item) && i < |item.kids|
    ensures var k := item.kids[i];
            && k in item.below && k.below < item.below && IsTree(k)
            && k.next == (if i + 1 < |item.kids| then item.kids[i + 1] else null)
            && TreesOf(item.kids, item.below)[i] == TreeOf(k)
            && item !in item.below
  {
    hide TreeOf;
    assert item.kids[i] in item.kids;
    TreesOfAt(item.kids, item.below, i);
  }

  lemma AtStart(item: Node)
    requires IsTree(item)
    ensures item.child == if item.kids == [] then null else item.kids[0]
    ensures forall k :: k in item.kids ==> k in item.below && k.below < item.below && IsTree(k)
    ensures TreeOf(item) == Tree(item.payload, item.key, TreesOf(item.kids, item.below))
  {
  }

  lemma HeightIs(t: Tree)
    ensures t.kids == [] ==> Height(t) == 0
    ensures t.kids != [] ==> Height(t) == 1 + MaxHeight(t.kids)
  {
  }

  /** How far the duplicate of a node has come. */
  ghost predicate Built(newItem: Node, last: Node?, copies: seq<Node>, all: set<Node>, trees: seq<Tree>)
    reads newItem, all
  {
    && newItem !in all && newItem.next == null && newItem.prev == null
    && last == (if copies == [] then null else copies[|copies| - 1])
    && Forest(copies, all) && Matches(copies, all, trees) && Chain(newItem, copies)
  }

  /** The trees still to be copied, and where the walk over the children of `item` stands. */
  ghost predicate Walking(item: Node, child: Node?, at: nat, trees: seq<Tree>)
    reads item, item.below
  {
    && IsTree(item) && TreeOf(item).kids == trees && at <= |item.kids| == |trees|
    && child == if at < |item.kids| then item.kids[at] else null
  }

  lemma WalkStarts(item: Node)
    requires IsTree(item)
    ensures Walking(item, item.child, 0, TreeOf(item).kids)
  {
    AtStart(item);
  }

  lemma WalkAt(item: Node, child: Node?, at: nat, trees: seq<Tree>)
    requires Walking(item, child, at, trees)
    ensures child != null ==>
              && at < |trees| && IsTree(child) && TreeOf(child) == trees[at]
              && child in item.below && child.below < item.below && item !in item.below
              && Walking(item, child.next, at + 1, trees)
    ensures child == null ==> at == |trees|
  {
    AtStart(item);
    if at < |item.kids| { AtChild(item, at); }
  }

  /** The new child joins the list that is being built. */
  method LinkBuilt(newItem: Node, last: Node?, newChild: Node, ghost copies: seq<Node>, ghost all: set<Node>,
                   ghost trees: seq<Tree>)
    requires Built(newItem, last, copies, all, trees) && |copies| < |trees|
    requires IsTree(newChild) && TreeOf(newChild) == trees[|copies|] && newChild.next == null
    requires newChild !in all && newChild.below !! all && newItem != newChild && newItem !in newChild.below
    modifies newItem`child, Only(last)`next, newChild`prev
    ensures Built(newItem, newChild, copies + [newChild], all + {newChild} + newChild.below, trees)
  {
    hide IsTree, TreeOf, Forest, Chain, Matches;
    LastIsIn(last, copies, all);
    Link(newItem, last, newChild, copies, all, trees);
  }

  lemma LastIsIn(last: Node?, copies: seq<Node>, all: set<Node>)
    requires Forest(copies, all) && last == if copies == [] then null else copies[|copies| - 1]
    ensures last != null ==> last in all
  {
    if copies != [] { assert copies[|copies| - 1] in copies; }
  }

  /** `cJSON_Duplicate_rec`: a new tree of new nodes, with the same contents all the way down, unless
      the tree is too deep. */
  method DuplicateRec(item: Node?, depth: nat, recurse: bool) returns (r: Node?)
    requires item != null ==> IsTree(item)
    requires depth <= CIRCULAR_LIMIT
    ensures item == null ==> r == null
    ensures item != null ==> (r != null <==> !recurse || depth + Height(old(TreeOf(item))) <= CIRCULAR_LIMIT)
    ensures r != null ==> fresh(r) && fresh(r.below) && r.next == null && r.prev == null
    ensures r != null ==> IsTree(r)
    ensures r != null ==> TreeOf(r) == if recurse then old(TreeOf(item)) else Tree(item.payload, item.key, [])
    decreases if item == null then {} else item.below + {item}, 0
  {
    if item == null {
      return null;
    }
    hide IsTree, TreeOf, Height;
    var newItem := new Node(item.payload, item.key);
    LoneNode(newItem);
    if !recurse {
      return newItem;
    }
    var ok := CopyChildren(item, newItem, depth);
    r := if ok then newItem else null;
  }

  /** The loop over the children of `item`. */
  method CopyLoop(item: Node, newItem: Node, depth: nat, ghost trees: seq<Tree>)
    returns (ok: bool, last: Node?, ghost copies: seq<Node>, ghost all: set<Node>)
    requires Walking(item, item.child, 0, trees) && Built(newItem, null, [], {}, trees)
    requires newItem != item && newItem !in item.below && depth <= CIRCULAR_LIMIT
    modifies newItem`child
    ensures ok ==> fresh(all) && Built(newItem, last, copies, all, trees) && |copies| == |trees|
    ensures ok ==> Fit(trees, |trees|, depth)
    ensures !ok ==> trees != [] && depth + 1 + MaxHeight(trees) > CIRCULAR_LIMIT
    decreases item.below, 2
  {
    hide IsTree, TreeOf, Height, MaxHeight, Built, Walking, Fit;
    var child: Node? := item.child;
    last, copies, all := null, [], {};
    FitNone(trees, depth);
    while child != null
      invariant (last != null ==> fresh(last)) && fresh(all)
      invariant Walking(item, child, |copies|, trees) && Built(newItem, last, copies, all, trees)
      invariant Fit(trees, |copies|, depth)
      decreases |trees| - |copies|
    {
      WalkAt(item, child, |copies|, trees);
      FitNext(trees, |copies|, depth);
      if depth >= CIRCULAR_LIMIT {
        ok := false;
        return;
      }
      var newChild := DuplicateRec(child, depth + 1, true);
      if newChild == null {
        ok := false;
        return;
      }
      LinkBuilt(newItem, last, newChild, copies, all, trees);
      copies, all := copies + [newChild], all + {newChild} + newChild.below;
      last, child := newChild, child.next;
    }
    WalkAt(item, child, |copies|, trees);
    ok := true;
  }

  /** All children of `item` duplicated under the new node. */
  method CopyChildren(item: Node, newItem: Node, depth: nat) returns (ok: bool)
    requires IsTree(item) && newItem != item && newItem !in item.below && depth <= CIRCULAR_LIMIT
    requires newItem.child == null && newItem.next == null && newItem.prev == null
    modifies newItem
    ensures ok <==> depth + Height(old(TreeOf(item))) <= CIRCULAR_LIMIT
    ensures ok ==> fresh(newItem.below) && newItem.next == null && newItem.prev == null
    ensures ok ==> IsTree(newItem) &&
                   TreeOf(newItem) == Tree(old(newItem.payload), old(newItem.key), old(TreeOf(item).kids))
    decreases item.below, 3
  {
    ghost var trees := TreeOf(item).kids;
    HeightIs(TreeOf(item));
    WalkStarts(item);
    NothingBuilt(newItem, trees);
    hide IsTree, TreeOf, Height, MaxHeight, Built, Walking, Fit;
    var last;
    ghost var copies, all;
    ok, last, copies, all := CopyLoop(item, newItem, depth, trees);
    if ok {
      FitAll(trees, depth);
      CloseBuilt(newItem, last, copies, all, trees);
    }
  }

  method CloseBuilt(newItem: Node, last: Node?, ghost copies: seq<Node>, ghost all: set<Node>, ghost trees: seq<Tree>)
    requires Built(newItem, last, copies, all, trees) && |copies| == |trees|
    modifies all`prev, newItem`kids, newItem`below
    ensures IsTree(newItem) && TreeOf(newItem) == Tree(newItem.payload, newItem.key, trees) && newItem.below == all
    ensures newItem.next == null && newItem.prev == null
  {
    assert newItem.child != null ==> newItem.child in all by {
      if copies != [] { assert copies[0] in copies; }
    }
    hide IsTree, TreeOf, Forest, Matches, Chain;
    Close(newItem, last, copies, all, trees);
  }

  lemma NothingBuilt(newItem: Node, trees: seq<Tree>)
    requires newItem.child == null && newItem.next == null && newItem.prev == null
    ensures Built(newItem, null, [], {}, trees)
  {
  }

  lemma LoneNode(n: Node)
    requires n.child == null && n.kids == [] && n.below == {}
    ensures IsTree(n) && TreeOf(n) == Tree(n.payload, n.key, [])
  {
  }
}
