/** Editing the children of a node when the children are whole trees. */
module TreeEdits {
  import opened Nodes
  import opened Trees

  /** The nodes are finished trees that stand for these. */
  ghost predicate Stand(s: seq<Node>, trees: seq<Tree>)
    reads s, set k, n | k in s && n in k.below :: n
  {
    |s| == |trees| && forall i :: 0 <= i < |s| ==> IsTree(s[i]) && TreeOf(s[i]) == trees[i]
  }

  /** They share nothing with each other and nothing with `p`. */
  ghost predicate Separate(p: Node, s: seq<Node>)
    reads s`below
  {
    && (forall i, j :: 0 <= i < j < |s| ==> Apart(s[i], s[j]))
    && (forall i :: 0 <= i < |s| ==> p != s[i] && p !in s[i].below)
  }

  ghost function Total(s: seq<Node>): set<Node>
    reads s`below
  {
    Set(s) + set k, n | k in s && n in k.below :: n
  }

  lemma KidsStand(p: Node)
    requires IsTree(p)
    ensures Stand(p.kids, TreeOf(p).kids) && Separate(p, p.kids) && Children(p, p.kids)
    ensures TreeOf(p) == Tree(p.payload, p.key, TreeOf(p).kids) && Total(p.kids) <= p.below
  {
    forall i | 0 <= i < |p.kids|
      ensures IsTree(p.kids[i]) && TreeOf(p.kids[i]) == TreeOf(p).kids[i] && p.kids[i].below < p.below
    {
      AtChild(p, i);
      AtStart(p);
    }
  }

  lemma TheyStand(s: seq<Node>, trees: seq<Tree>)
    requires |s| == |trees| && forall i :: 0 <= i < |s| ==> IsTree(s[i]) && TreeOf(s[i]) == trees[i]
    ensures Stand(s, trees)
  {
  }

  /** With a list of trees as its children, `p` is a tree. */
  method Regrow(p: Node, ghost s: seq<Node>, ghost trees: seq<Tree>)
    requires Children(p, s) && Stand(s, trees) && Separate(p, s)
    modifies p`kids, p`below
    ensures IsTree(p) && TreeOf(p) == Tree(p.payload, p.key, trees) && p.kids == s && p.below == Total(s)
  {
    hide IsTree, TreeOf, Stand, Separate, Forest, TreesOf;
    AreForest(p, s, trees);
    var all := Total(s);
    p.kids, p.below := s, all;
    FinishedTree(p, trees);
  }

  lemma AreForest(p: Node, s: seq<Node>, trees: seq<Tree>)
    requires Stand(s, trees) && Separate(p, s)
    ensures p !in Total(s) && Forest(s, Total(s)) && TreesOf(s, Total(s)) == trees
  {
    hide IsTree, TreeOf;
    forall k | k in s
      ensures k in Total(s) && k !in k.below && k.below < Total(s) && IsTree(k)
    {
      NotBelow(k);
    }
    TreesMatch(s, Total(s), trees);
  }

  // ----- the sequences -----

  lemma WithoutOne(p: Node, s: seq<Node>, trees: seq<Tree>, k: nat)
    requires Stand(s, trees) && Separate(p, s) && k < |s|
    ensures Stand(Without(s, k), Without(trees, k)) && Separate(p, Without(s, k))
    ensures IsTree(s[k]) && TreeOf(s[k]) == trees[k]
    ensures s[k] !in Total(Without(s, k)) && s[k].below !! Total(Without(s, k))
  {
    hide IsTree, TreeOf;
    var t := Without(s, k);
    assert forall i :: 0 <= i < k ==> t[i] == s[i];
    assert forall i :: k <= i < |t| ==> t[i] == s[i + 1];
    forall i | 0 <= i < |t|
      ensures Apart(s[k], t[i])
    {
      var j := if i < k then i else i + 1;
      assert Apart(s[if j < k then j else k], s[if j < k then k else j]);
    }
  }

  lemma WithOne(p: Node, s: seq<Node>, trees: seq<Tree>, k: nat, n: Node)
    requires Stand(s, trees) && Separate(p, s) && k <= |s|
    requires IsTree(n) && Apart(p, n) && n !in Total(s) && n.below !! Total(s)
    ensures Stand(With(s, k, n), With(trees, k, TreeOf(n))) && Separate(p, With(s, k, n))
  {
    hide IsTree, TreeOf;
    var t := With(s, k, n);
    forall i, j | 0 <= i < j < |t|
      ensures Apart(t[i], t[j])
    {
      if i != k && j != k {
        assert Apart(s[if i < k then i else i - 1], s[if j < k then j else j - 1]);
      } else {
        assert t[if i == k then j else i] in s;
      }
    }
  }

  lemma ReplacedOne(p: Node, s: seq<Node>, trees: seq<Tree>, k: nat, n: Node)
    requires Stand(s, trees) && Separate(p, s) && k < |s|
    requires IsTree(n) && Apart(p, n) && n !in Total(s) && n.below !! Total(s)
    ensures Stand(s[k := n], trees[k := TreeOf(n)]) && Separate(p, s[k := n])
    ensures IsTree(s[k]) && TreeOf(s[k]) == trees[k]
    ensures s[k] !in Total(s[k := n]) && s[k].below !! Total(s[k := n])
  {
    hide IsTree, TreeOf, Stand, Separate, Total, With, Without, Set;
    AllStand(s, trees);
    WithoutOne(p, s, trees, k);
    var t := Without(s, k);
    TotalOfOne(s, k);
    PutBack(s, k, n);
    PutBack(trees, k, TreeOf(n));
    WithOne(p, t, Without(trees, k), k, n);
    TotalOfWith(t, k, n);
  }

  lemma PutBack<T>(s: seq<T>, k: nat, x: T)
    requires k < |s|
    ensures |Without(s, k)| == |s| - 1 && With(Without(s, k), k, x) == s[k := x]
  {
  }

  lemma TotalOfWith(t: seq<Node>, k: nat, n: Node)
    requires k <= |t|
    ensures Total(With(t, k, n)) == Total(t) + {n} + n.below
  {
    assert forall x :: x in With(t, k, n) <==> x == n || x in t;
  }

  lemma TotalOfOne(s: seq<Node>, k: nat)
    requires k < |s|
    ensures s[k] in Total(s) && s[k].below <= Total(s) && Total(Without(s, k)) <= Total(s)
  {
    assert s[k] in s && forall x :: x in Without(s, k) ==> x in s;
  }

  /** Links of the siblings are outside the siblings' own trees. */
  lemma OutsideTrees(p: Node, s: seq<Node>)
    requires Separate(p, s) && forall k :: k in s ==> IsTree(k)
    ensures forall k, l :: k in s && l in s ==> l !in k.below
    ensures p !in s && forall k :: k in s ==> p !in k.below
  {
    hide IsTree;
    forall k, l | k in s && l in s
      ensures l !in k.below
    {
      var i :| 0 <= i < |s| && s[i] == k;
      var j :| 0 <= j < |s| && s[j] == l;
      if i == j {
        NotBelow(k);
      } else {
        assert Apart(s[if i < j then i else j], s[if i < j then j else i]);
      }
    }
  }

  // ----- the edits -----

  /** Detaching the `k`-th child: two trees, without it and it. */
  method DetachTree(p: Node, item: Node, ghost k: nat)
    requires IsTree(p) && k < |p.kids| && item == p.kids[k]
    modifies p`child, p`kids, p`below, Set(p.kids)`next, Set(p.kids)`prev
    ensures IsTree(p) && TreeOf(p) == old(TreeOf(p)).(kids := Without(old(TreeOf(p).kids), k))
    ensures IsTree(item) && TreeOf(item) == old(TreeOf(p).kids[k]) && item.next == null && item.prev == null
    ensures Apart(p, item)
  {
    hide IsTree, TreeOf, Children, Stand, Separate, Total;
    ghost var s, trees := p.kids, TreeOf(p).kids;
    KidsStand(p);
    AllStand(s, trees);
    OutsideTrees(p, s);
    assert item in s;
    var r := DetachItemViaPointer(p, item, s, k);
    forall i | 0 <= i < |s|
      ensures IsTree(s[i]) && TreeOf(s[i]) == trees[i]
    {
      assert s[i] in s;
      Unlinked(s[i]);
    }
    TheyStand(s, trees);
    WithoutOne(p, s, trees, k);
    Regrow(p, Without(s, k), Without(trees, k));
  }

  /** Appending a tree. */
  method AppendTree(p: Node, item: Node)
    requires IsTree(p) && IsTree(item) && Apart(p, item) && (p.kids == [] || item.next == null)
    modifies p`child, p`kids, p`below, item`next, item`prev, Set(p.kids)`next, Set(p.kids)`prev
    ensures IsTree(p) && TreeOf(p) == old(TreeOf(p)).(kids := old(TreeOf(p).kids) + [old(TreeOf(item))])
  {
    hide IsTree, TreeOf, Children, Stand, Separate, Total;
    ghost var s, trees, tree := p.kids, TreeOf(p).kids, TreeOf(item);
    Before(p, item);
    var ok := AddItemToArray(p, item, s);
    forall i | 0 <= i < |s|
      ensures IsTree(s[i]) && TreeOf(s[i]) == trees[i]
    {
      assert s[i] in s;
      Unlinked(s[i]);
    }
    Unlinked(item);
    TheyStand(s, trees);
    WithOne(p, s, trees, |s|, item);
    assert With(s, |s|, item) == s + [item] && With(trees, |trees|, tree) == trees + [tree];
    Regrow(p, s + [item], trees + [tree]);
  }

  /** Inserting a tree in front of the `which`-th child, or at the end. */
  method InsertTree(p: Node, which: nat, item: Node)
    requires IsTree(p) && IsTree(item) && Apart(p, item)
    requires which < |p.kids| || p.kids == [] || item.next == null
    modifies p`child, p`kids, p`below, item`next, item`prev, Set(p.kids)`next, Set(p.kids)`prev
    ensures IsTree(p)
    ensures var kids := old(TreeOf(p).kids);
            TreeOf(p) == old(TreeOf(p)).(kids :=
              With(kids, if which < |kids| then which else |kids|, old(TreeOf(item))))
  {
    hide IsTree, TreeOf, Children, Stand, Separate, Total;
    ghost var s, trees, tree := p.kids, TreeOf(p).kids, TreeOf(item);
    ghost var k := if which < |s| then which else |s|;
    Before(p, item);
    var ok := InsertItemInArray(p, which, item, s);
    forall i | 0 <= i < |s|
      ensures IsTree(s[i]) && TreeOf(s[i]) == trees[i]
    {
      assert s[i] in s;
      Unlinked(s[i]);
    }
    Unlinked(item);
    TheyStand(s, trees);
    WithOne(p, s, trees, k, item);
    Regrow(p, With(s, k, item), With(trees, k, tree));
  }

  /** Replacing the `k`-th child by a tree. */
  method ReplaceTree(p: Node, item: Node, replacement: Node, ghost k: nat)
    requires IsTree(p) && k < |p.kids| && item == p.kids[k]
    requires IsTree(replacement) && Apart(p, replacement)
    modifies p`child, p`kids, p`below, replacement`next, replacement`prev, Set(p.kids)`next, Set(p.kids)`prev
    ensures IsTree(p) && TreeOf(p) == old(TreeOf(p)).(kids := old(TreeOf(p).kids)[k := old(TreeOf(replacement))])
    ensures IsTree(item) && TreeOf(item) == old(TreeOf(p).kids[k]) && item.next == null && item.prev == null
    ensures Apart(p, item)
  {
    hide IsTree, TreeOf, Children, Stand, Separate, Total;
    ghost var s, trees, tree := p.kids, TreeOf(p).kids, TreeOf(replacement);
    Before(p, replacement);
    assert item in s;
    var ok := ReplaceItemViaPointer(p, item, replacement, s, k);
    forall i | 0 <= i < |s|
      ensures IsTree(s[i]) && TreeOf(s[i]) == trees[i]
    {
      assert s[i] in s;
      Unlinked(s[i]);
    }
    Unlinked(replacement);
    TheyStand(s, trees);
    ReplacedOne(p, s, trees, k, replacement);
    Regrow(p, s[k := replacement], trees[k := tree]);
  }

  /** What holds before a node joins the children of another. */
  lemma Before(p: Node, item: Node)
    requires IsTree(p) && IsTree(item) && Apart(p, item)
    ensures var s, trees := p.kids, TreeOf(p).kids;
            && Children(p, s) && Stand(s, trees) && Separate(p, s)
            && |s| == |trees| && (forall i :: 0 <= i < |s| ==> IsTree(s[i]) && TreeOf(s[i]) == trees[i])
            && TreeOf(p) == Tree(p.payload, p.key, trees)
            && (forall k, l :: k in s && l in s ==> l !in k.below)
            && item !in Total(s) && item.below !! Total(s) && item !in s && item !in item.below
            && (forall k :: k in s ==> item !in k.below && k !in item.below && k != item)
            && p !in s && (forall k :: k in s ==> p !in k.below) && p != item && p !in item.below
  {
    hide IsTree, TreeOf;
    KidsStand(p);
    AllStand(p.kids, TreeOf(p).kids);
    OutsideTrees(p, p.kids);
    NotBelow(item);
    assert forall k :: k in p.kids ==> k in Total(p.kids) && k.below <= Total(p.kids);
  }

  lemma AllStand(s: seq<Node>, trees: seq<Tree>)
    requires Stand(s, trees)
    ensures |s| == |trees| && forall i :: 0 <= i < |s| ==> IsTree(s[i]) && TreeOf(s[i]) == trees[i]
    ensures forall k :: k in s ==> IsTree(k)
  {
    hide IsTree, TreeOf;
  }
}
