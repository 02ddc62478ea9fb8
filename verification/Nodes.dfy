/** The heap of JSON nodes: siblings linked by `next`, ended by null, with the head's `prev` at the tail. */
module Nodes {
  import opened Bytes
  import opened Wrappers

  /** Kind and scalar contents of a node. */
  datatype Payload =
    | NullItem
    | FalseItem
    | TrueItem
    | NumberItem(value: real)
    | StringItem(text: bytes)
    | ArrayItem
    | ObjectItem

  class Node {
    var next: Node?
    var prev: Node?
    var child: Node?
    var payload: Payload
    var key: Option<bytes>
    /** In a finished tree: the child sequence, and all nodes below this one. */
    ghost var kids: seq<Node>
    ghost var below: set<Node>

    constructor (payload: Payload, key: Option<bytes>)
      ensures next == null && prev == null && child == null && this.payload == payload && this.key == key
      ensures kids == [] && below == {}
    {
      kids, below := [], {};
      next, prev, child := null, null, null;
      this.payload, this.key := payload, key;
    }
  }

  /** The nodes of `s`, in this order, form a sibling list. Acyclic, since no node occurs twice and the
      last has no successor. */
  ghost predicate IsList(s: seq<Node>)
    reads s
  {
    && (forall i, j :: 0 <= i < j < |s| ==> s[i] != s[j])
    && (forall i :: 0 <= i < |s| - 1 ==> s[i].next == s[i + 1])
    && (forall i :: 0 < i < |s| ==> s[i].prev == s[i - 1])
    && (s != [] ==> s[0].prev == s[|s| - 1] && s[|s| - 1].next == null)
  }

  ghost predicate Children(parent: Node, s: seq<Node>)
    reads parent`child, s
  {
    && parent !in s
    && parent.child == (if s == [] then null else s[0])
    && IsList(s)
  }

  /** The same parent has no other child sequence. */
  lemma {:induction false} ListIsUnique(s: seq<Node>, t: seq<Node>)
    requires IsList(s) && IsList(t)
    requires (s == [] <==> t == []) && (s != [] ==> s[0] == t[0])
    ensures s == t
  {
    var n := if |s| < |t| then |s| else |t|;
    assert s != [] ==> |s| == |t| by {
      if s != [] {
        CommonNodes(s, t, n - 1);
      }
    }
    if s != [] {
      forall i | 0 <= i < n ensures s[i] == t[i] {
        CommonNodes(s, t, i);
      }
    }
  }

  lemma {:induction false} CommonNodes(s: seq<Node>, t: seq<Node>, i: nat)
    requires IsList(s) && IsList(t) && i < |s| && i < |t| && s[0] == t[0]
    ensures s[i] == t[i]
  {
    if i > 0 {
      CommonNodes(s, t, i - 1);
      assert s[i - 1].next == s[i] && t[i - 1].next == t[i];
    }
  }

  function Only(n: Node?): set<Node> {
    if n == null then {} else {n}
  }

  ghost function Set(s: seq<Node>): set<Node> {
    set x | x in s
  }

  /** `add_item_to_array`. The list stays one exactly when the new item has no successor of its own, or
      is the first: only an empty list clears the item's `next`. */
  method AddItemToArray(parent: Node?, item: Node?, ghost s: seq<Node>) returns (ok: bool)
    requires parent != null ==> Children(parent, s)
    requires item != null ==> item !in s
    modifies Only(parent)`child, Only(item)`next, Only(item)`prev, Set(s)`next, Set(s)`prev
    ensures ok <==> parent != null && item != null && parent != item
    ensures ok ==> (Children(parent, s + [item]) <==> s == [] || old(item.next) == null)
    ensures ok && s == [] ==> parent.child == item && item.prev == item && item.next == null
    ensures ok && s != [] ==> parent.child == s[0] && item.next == old(item.next) && item.prev == s[|s| - 1]
    ensures ok && s != [] ==> s[|s| - 1].next == item && s[0].prev == item
    ensures !ok && parent != null ==> Children(parent, s)
  {
    if item == null || parent == null || parent == item {
      return false;
    }
    var child := parent.child;
    if child == null {
      parent.child := item;
      item.prev := item;
      item.next := null;
      assert s + [item] == [item];
    } else {
      if child.prev != null {
        child.prev.next := item;
        item.prev := child.prev;
        parent.child.prev := item;
      }
      ghost var t := s + [item];
      assert t[|t| - 1] == item && t[0] == child;
      assert forall i :: 0 <= i < |s| ==> t[i] == s[i];
    }
    ok := true;
  }

  /** Appending to one child a node that still has a successor: all links are as after any append, but the list goes on
      behind the node, so these two are not the children. */
  method AppendWithSuccessor(parent: Node, first: Node, item: Node) returns (ok: bool)
    requires Children(parent, [first]) && item.next != null && item != first && item != parent
    modifies parent`child, item`next, item`prev, first`next, first`prev
    ensures ok && parent.child == first && first.next == item && first.prev == item && item.prev == first
    ensures item.next == old(item.next) && !Children(parent, [first, item])
  {
    assert [first][0] == first;
    ok := AddItemToArray(parent, item, [first]);
    assert [first] + [item] == [first, item];
  }

  lemma NoChildren(parent: Node)
    requires parent.child == null
    ensures Children(parent, [])
  {
  }

  /** `get_array_item`: the walk along `next`. */
  method GetArrayItem(parent: Node?, index: nat, ghost s: seq<Node>) returns (r: Node?)
    requires parent != null ==> Children(parent, s)
    ensures r == if parent != null && index < |s| then s[index] else null
  {
    if parent == null {
      return null;
    }
    r := parent.child;
    var left := index;
    ghost var at: nat := 0;
    while r != null && left > 0
      invariant at + left == index && at <= |s|
      invariant r == if at < |s| then s[at] else null
    {
      left := left - 1;
      r := r.next;
      at := at + 1;
    }
  }

  /** The child sequence without its `k`-th node. */
  function Without<T>(s: seq<T>, k: nat): seq<T>
    requires k < |s|
  {
    s[..k] + s[k + 1..]
  }

  /** `cJSON_DetachItemViaPointer` on a child, or on a node that is in no list. */
  method DetachItemViaPointer(parent: Node?, item: Node?, ghost s: seq<Node>, ghost k: nat) returns (r: Node?)
    requires parent != null ==> Children(parent, s)
    requires parent != null && item != null ==> if k < |s| then item == s[k] else item !in s && item.prev == null
    modifies Only(parent)`child, Only(item)`next, Only(item)`prev, Set(s)`next, Set(s)`prev
    ensures r == if parent != null && item != null && k < |s| then item else null
    ensures r != null ==> Children(parent, Without(s, k)) && item.next == null && item.prev == null
    ensures r == null && parent != null ==> Children(parent, s)
    ensures r == null && item != null ==> item.next == old(item.next) && item.prev == old(item.prev)
  {
    if parent != null && item != null && k < |s| {
      Neighbours(s, k);
    }
    if parent == null || item == null || (item != parent.child && item.prev == null) {
      return null;
    }
    if item != parent.child {
      item.prev.next := item.next;
    }
    if item.next != null {
      item.next.prev := item.prev;
    }
    if item == parent.child {
      parent.child := item.next;
    } else if item.next == null {
      parent.child.prev := item.prev;
    }
    item.prev := null;
    item.next := null;
    ghost var t := Without(s, k);
    assert forall i :: 0 <= i < k ==> t[i] == s[i];
    assert forall i :: k <= i < |t| ==> t[i] == s[i + 1];
    r := item;
  }

  /** The links of the `k`-th node of a list. */
  lemma Neighbours(s: seq<Node>, k: nat)
    requires IsList(s) && k < |s|
    ensures s[k].next == if k + 1 < |s| then s[k + 1] else null
    ensures s[k].prev == if k > 0 then s[k - 1] else s[|s| - 1]
    ensures k > 0 ==> s[k] != s[0]
  {
  }

  /** `cJSON_DetachItemFromArray`. */
  method DetachItemFromArray(parent: Node?, which: int, ghost s: seq<Node>) returns (r: Node?)
    requires parent != null ==> Children(parent, s)
    modifies Only(parent)`child, Set(s)`next, Set(s)`prev
    ensures r == if parent != null && 0 <= which < |s| then s[which] else null
    ensures r != null ==> Children(parent, Without(s, which)) && r.next == null && r.prev == null
    ensures r == null && parent != null ==> Children(parent, s)
  {
    if which < 0 {
      return null;
    }
    var item := GetArrayItem(parent, which, s);
    r := DetachItemViaPointer(parent, item, s, which);
  }

  function With<T>(s: seq<T>, k: nat, x: T): seq<T>
    requires k <= |s|
  {
    s[..k] + [x] + s[k..]
  }

  /** `cJSON_InsertItemInArray`: in front of the `which`-th child, or at the end if there are not that many. At the
      end, as for appending, the list stays one exactly when the item has no successor or is the first. */
  method InsertItemInArray(parent: Node?, which: int, item: Node?, ghost s: seq<Node>) returns (ok: bool)
    requires parent != null ==> Children(parent, s)
    requires item != null ==> item !in s && item != parent
    modifies Only(parent)`child, Only(item)`next, Only(item)`prev, Set(s)`next, Set(s)`prev
    ensures ok <==> which >= 0 && item != null && parent != null
    ensures ok ==> (Children(parent, With(s, if which < |s| then which else |s|, item)) <==>
                    which < |s| || s == [] || old(item.next) == null)
    ensures !ok && parent != null ==> Children(parent, s)
  {
    if which < 0 || item == null {
      return false;
    }
    var after := GetArrayItem(parent, which, s);
    if after == null {
      ok := AddItemToArray(parent, item, s);
      assert parent != null ==> s + [item] == With(s, |s|, item);
      return;
    }
    Neighbours(s, which);
    if after != parent.child && after.prev == null {
      return false;
    }
    LinkBefore(parent, after, item, s, which);
    ok := true;
  }

  /** A new node in front of the `k`-th. */
  method LinkBefore(parent: Node, after: Node, item: Node, ghost s: seq<Node>, ghost k: nat)
    requires Children(parent, s) && k < |s| && after == s[k] && item !in s && item != parent
    modifies parent`child, item`next, item`prev, Set(s)`next, Set(s)`prev
    ensures Children(parent, With(s, k, item))
  {
    Neighbours(s, k);
    item.next := after;
    item.prev := after.prev;
    after.prev := item;
    if after == parent.child {
      parent.child := item;
    } else {
      item.prev.next := item;
    }
    ghost var t := With(s, k, item);
    assert t[k] == item;
    assert forall i :: 0 <= i < k ==> t[i] == s[i];
    assert forall i :: k < i < |t| ==> t[i] == s[i - 1];
  }

  /** `cJSON_ReplaceItemViaPointer` with a new item that is in no list. */
  method ReplaceItemViaPointer(parent: Node?, item: Node?, replacement: Node?, ghost s: seq<Node>, ghost k: nat)
    returns (ok: bool)
    requires parent != null ==> Children(parent, s)
    requires parent != null && item != null ==> k < |s| && item == s[k]
    requires replacement != null ==> replacement != parent && (replacement == item || replacement !in s)
    modifies Only(parent)`child, Only(item)`next, Only(item)`prev, Only(replacement)`next, Only(replacement)`prev
    modifies Set(s)`next, Set(s)`prev
    ensures ok <==> parent != null && item != null && replacement != null && s != []
    ensures ok ==> Children(parent, s[k := replacement])
    ensures ok && replacement != item ==> item.next == null && item.prev == null
    ensures !ok && parent != null ==> Children(parent, s)
  {
    if parent == null || parent.child == null || replacement == null || item == null {
      return false;
    }
    if replacement == item {
      return true;
    }
    Neighbours(s, k);
    replacement.next := item.next;
    replacement.prev := item.prev;
    if replacement.next != null {
      replacement.next.prev := replacement;
    }
    if parent.child == item {
      if parent.child.prev == parent.child {
        replacement.prev := replacement;
      }
      parent.child := replacement;
    } else {
      if replacement.prev != null {
        replacement.prev.next := replacement;
      }
      if replacement.next == null {
        parent.child.prev := replacement;
      }
    }
    item.next := null;
    item.prev := null;
    ghost var t := s[k := replacement];
    assert t[k] == replacement;
    assert forall i :: 0 <= i < |s| && i != k ==> t[i] == s[i];
    ok := true;
  }
}
