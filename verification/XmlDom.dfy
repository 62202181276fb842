/** The linked structures of the document tree: the child list of a node and the
    attribute ring of an element, rewired in place. */
module XmlDom {

  // ------------------------------------------------------------- child lists

  function IndexOf<T(==)>(s: seq<T>, x: T): (i: nat)
    requires x in s
    ensures i < |s| && s[i] == x && forall j | 0 <= j < i :: s[j] != x
  {
    if s[0] == x then 0 else 1 + IndexOf(s[1..], x)
  }

  function InsertedBefore<T(==)>(s: seq<T>, x: T, y: T): seq<T>
    requires x in s
  {
    var i := IndexOf(s, x);
    s[..i] + [y] + s[i..]
  }

  function InsertedAfter<T(==)>(s: seq<T>, x: T, y: T): seq<T>
    requires x in s
  {
    var i := IndexOf(s, x);
    s[..i + 1] + [y] + s[i + 1..]
  }

  function Replaced<T(==)>(s: seq<T>, x: T, y: T): seq<T>
    requires x in s
  {
    s[IndexOf(s, x) := y]
  }

  lemma ReplacedSplice<T>(s: seq<T>, x: T, y: T)
    requires x in s
    ensures Replaced(s, x, y) == s[..IndexOf(s, x)] + [y] + s[IndexOf(s, x) + 1..]
  {
  }

  function Removed<T(==)>(s: seq<T>, x: T): seq<T>
    requires x in s
  {
    var i := IndexOf(s, x);
    s[..i] + s[i + 1..]
  }

  /** The new element stands directly before the one at `i`, and all else in order. */
  lemma InsertedBeforeAt<T>(s: seq<T>, i: nat, y: T)
    requires i < |s| && Distinct(s)
    ensures var r := InsertedBefore(s, s[i], y);
            |r| == |s| + 1 && r[i] == y && r[i + 1] == s[i]
            && (forall j | 0 <= j < i :: r[j] == s[j]) && (forall j | i < j <= |s| :: r[j] == s[j - 1])
  {
    IndexIs(s, i);
  }

  lemma InsertedAfterAt<T>(s: seq<T>, i: nat, y: T)
    requires i < |s| && Distinct(s)
    ensures var r := InsertedAfter(s, s[i], y);
            |r| == |s| + 1 && r[i] == s[i] && r[i + 1] == y
            && (forall j | 0 <= j <= i :: r[j] == s[j]) && (forall j | i + 1 < j <= |s| :: r[j] == s[j - 1])
  {
    IndexIs(s, i);
  }

  lemma ReplacedAt<T>(s: seq<T>, i: nat, y: T)
    requires i < |s| && Distinct(s)
    ensures var r := Replaced(s, s[i], y);
            |r| == |s| && r[i] == y && forall j | 0 <= j < |s| && j != i :: r[j] == s[j]
  {
    IndexIs(s, i);
  }

  lemma RemovedAt<T>(s: seq<T>, i: nat)
    requires i < |s| && Distinct(s)
    ensures var r := Removed(s, s[i]);
            |r| == |s| - 1 && (forall j | 0 <= j < i :: r[j] == s[j]) && (forall j | i < j < |s| :: r[j - 1] == s[j])
  {
    IndexIs(s, i);
  }

  lemma IndexIs<T>(s: seq<T>, i: nat)
    requires i < |s| && Distinct(s)
    ensures IndexOf(s, s[i]) == i
  {
  }

  ghost predicate Distinct<T>(s: seq<T>) {
    forall i, j | 0 <= i < j < |s| :: s[i] != s[j]
  }

  lemma DistinctSplice(s: seq<LinkedNode>, i: nat, k: nat, mid: seq<LinkedNode>)
    requires Distinct(s) && i <= k <= |s| && |mid| <= 1 && (mid != [] ==> mid[0] !in s)
    ensures Distinct(s[..i] + mid + s[k..])
  {
    var r := s[..i] + mid + s[k..];
    assert forall j | 0 <= j < i :: r[j] == s[j];
    assert forall j | i + |mid| <= j < |r| :: r[j] == s[j - i - |mid| + k];
  }

  /** Element `i`; null before the first and after the last. */
  function Item(s: seq<LinkedNode>, i: int): LinkedNode? {
    if 0 <= i < |s| then s[i] else null
  }

  class LinkedNode {
    const isDocument: bool
    const value: string
    var parent: LinkedNode?
    var firstChild: LinkedNode?
    var lastChild: LinkedNode?
    var prev: LinkedNode?
    var next: LinkedNode?
    /** The children, first to last. */
    ghost var children: seq<LinkedNode>

    constructor (value: string, isDocument: bool)
      ensures this.value == value && this.isDocument == isDocument
      ensures parent == null && prev == null && next == null && children == [] && Linked()
    {
      this.value, this.isDocument := value, isDocument;
      parent, firstChild, lastChild, prev, next, children := null, null, null, null, null, [];
    }

    /** The pointers of child `i`. */
    ghost predicate Wired(s: seq<LinkedNode>, i: nat)
      requires i < |s|
      reads s[i]
    {
      s[i].parent == this && s[i].prev == Item(s, i - 1) && s[i].next == Item(s, i + 1)
    }

    /** The pointers form a doubly linked list of the children. */
    ghost predicate Linked()
      reads this, children
    {
      && this !in children && Distinct(children)
      && firstChild == Item(children, 0) && lastChild == Item(children, |children| - 1)
      && forall i | 0 <= i < |children| :: Wired(children, i)
    }

    /** Only children point to this node as their parent. */
    ghost predicate Owns(node: LinkedNode)
      reads this, node
    {
      node.parent == this ==> node in children
    }

    /** Lets the pointer that leads forward to position `i` lead to `node`. */
    method LinkForward(ghost i: nat, before: LinkedNode?, node: LinkedNode?)
      requires Distinct(children) && i <= |children| && before == Item(children, i - 1)
      modifies this`firstChild, children`next
      ensures firstChild == if i == 0 then node else old(firstChild)
      ensures forall j | 0 <= j < |children| ::
                children[j].next == if j == i - 1 then node else old(children[j].next)
    {
      if before != null {
        before.next := node;
      } else {
        firstChild := node;
      }
    }

    /** Lets the pointer that leads back to position `i - 1` lead to `node`. */
    method LinkBack(ghost i: nat, after: LinkedNode?, node: LinkedNode?)
      requires Distinct(children) && i <= |children| && after == Item(children, i)
      modifies this`lastChild, children`prev
      ensures lastChild == if i == |children| then node else old(lastChild)
      ensures forall j | 0 <= j < |children| ::
                children[j].prev == if j == i then node else old(children[j].prev)
    {
      if after != null {
        after.prev := node;
      } else {
        lastChild := node;
      }
    }

    /** Child `j` of the list `s` is kept while positions `i` to `k` are replaced:
        only the pointers across that gap may differ. */
    ghost predicate Kept(s: seq<LinkedNode>, i: nat, k: nat, before: LinkedNode?, after: LinkedNode?, j: nat)
      requires j < |s|
      reads s[j]
    {
      && s[j].parent == this
      && s[j].prev == (if j == k then before else Item(s, j - 1))
      && s[j].next == (if j + 1 == i then after else Item(s, j + 1))
    }

    /** Rewires across the gap between two neighbours. */
    method LinkAcross(ghost i: nat, ghost k: nat, before: LinkedNode?, after: LinkedNode?,
                      left: LinkedNode?, right: LinkedNode?)
      requires Linked() && i <= k <= |children|
      requires before == Item(children, i - 1) && after == Item(children, k)
      modifies this`firstChild, this`lastChild, children`prev, children`next
      ensures forall j | 0 <= j < |children| :: Kept(children, i, k, left, right, j)
      ensures firstChild == (if i == 0 then right else old(firstChild))
      ensures lastChild == (if k == |children| then left else old(lastChild))
    {
      LinkBack(k, after, left);
      LinkForward(i, before, right);
      forall j | 0 <= j < |children| ensures Kept(children, i, k, left, right, j) {
        assert old(Wired(children, j));
      }
    }

    /** The list `s` with positions `i` to `k` replaced by no node or by one, and
        the neighbours rewired across the gap, is again linked. */
    lemma Spliced(s: seq<LinkedNode>, i: nat, k: nat, mid: seq<LinkedNode>)
      requires Distinct(s) && i <= k <= |s| && |mid| <= 1
      requires this !in s && (mid != [] ==> mid[0] !in s && mid[0] != this)
      requires children == s[..i] + mid + s[k..]
      requires var before := if mid == [] then Item(s, i - 1) else mid[0];
               var after := if mid == [] then Item(s, k) else mid[0];
               && (forall j | 0 <= j < i || k <= j < |s| :: Kept(s, i, k, before, after, j))
               && firstChild == (if i == 0 then after else Item(s, 0))
               && lastChild == (if k == |s| then before else Item(s, |s| - 1))
      requires mid != [] ==> mid[0].parent == this && mid[0].prev == Item(s, i - 1) && mid[0].next == Item(s, k)
      ensures Linked()
    {
      DistinctSplice(s, i, k, mid);
      var n := |mid|;
      var before := if mid == [] then Item(s, i - 1) else mid[0];
      var after := if mid == [] then Item(s, k) else mid[0];
      hide Distinct;
      forall j | 0 <= j < |children| ensures Wired(children, j) {
        if j < i {
          assert Kept(s, i, k, before, after, j);
        } else if j >= i + n {
          assert Kept(s, i, k, before, after, j - n + k - i);
        }
      }
    }

    /** A node is put between two neighbours, in the place of what is between them. */
    method PutBetween(ghost i: nat, ghost k: nat, before: LinkedNode?, after: LinkedNode?, node: LinkedNode)
      requires Linked() && i <= k <= |children| && node !in children && node != this
      requires before == Item(children, i - 1) && after == Item(children, k)
      modifies this`firstChild, this`lastChild, this`children, children`prev, children`next
      modifies node`parent, node`prev, node`next
      ensures Linked() && children == old(children)[..i] + [node] + old(children)[k..]
    {
      ghost var s := children;
      node.parent := this;
      node.prev := before;
      node.next := after;
      LinkAcross(i, k, before, after, node, node);
      children := children[..i] + [node] + children[k..];
      hide Distinct;
      Spliced(s, i, k, [node]);
    }

    /** A node with the value of this one, not linked anywhere. */
    method Clone() returns (node: LinkedNode)
      ensures fresh(node) && node.value == value && node.isDocument == isDocument
      ensures node.parent == null && node.children == [] && node.Linked()
    {
      node := new LinkedNode(value, isDocument);
    }

    method LinkEndChild(node: LinkedNode) returns (linked: LinkedNode?)
      requires Linked() && node != this && node !in children
      modifies this`firstChild, this`lastChild, this`children, children`prev, children`next
      modifies node`parent, node`prev, node`next
      ensures Linked()
      ensures linked == (if node.isDocument then null else node)
      ensures children == if node.isDocument then old(children) else old(children) + [node]
    {
      if node.isDocument {
        return null;
      }
      assert lastChild != null ==> Wired(children, |children| - 1);
      PutBetween(|children|, |children|, lastChild, null, node);
      linked := node;
    }

    method InsertBeforeChild(beforeThis: LinkedNode?, addThis: LinkedNode) returns (node: LinkedNode?)
      requires Linked() && (beforeThis != null ==> Owns(beforeThis))
      modifies this`firstChild, this`lastChild, this`children, children`prev, children`next
      ensures Linked()
      ensures node == null <==> beforeThis == null || old(beforeThis.parent) != this || addThis.isDocument
      ensures node == null ==> children == old(children)
      ensures node != null ==> fresh(node) && node.value == addThis.value
                               && beforeThis in old(children)
                               && children == InsertedBefore(old(children), beforeThis, node)
    {
      if beforeThis == null || beforeThis.parent != this || addThis.isDocument {
        return null;
      }
      var copy := addThis.Clone();
      ghost var i := IndexOf(children, beforeThis);
      assert Wired(children, i);
      PutBetween(i, i, beforeThis.prev, beforeThis, copy);
      node := copy;
    }

    method InsertAfterChild(afterThis: LinkedNode?, addThis: LinkedNode) returns (node: LinkedNode?)
      requires Linked() && (afterThis != null ==> Owns(afterThis))
      modifies this`firstChild, this`lastChild, this`children, children`prev, children`next
      ensures Linked()
      ensures node == null <==> afterThis == null || old(afterThis.parent) != this || addThis.isDocument
      ensures node == null ==> children == old(children)
      ensures node != null ==> fresh(node) && node.value == addThis.value
                               && afterThis in old(children)
                               && children == InsertedAfter(old(children), afterThis, node)
    {
      if afterThis == null || afterThis.parent != this || addThis.isDocument {
        return null;
      }
      var copy := addThis.Clone();
      ghost var i := IndexOf(children, afterThis);
      assert Wired(children, i);
      PutBetween(i + 1, i + 1, afterThis, afterThis.next, copy);
      node := copy;
    }

    method ReplaceChild(replaceThis: LinkedNode, withThis: LinkedNode) returns (node: LinkedNode?)
      requires Linked() && Owns(replaceThis)
      modifies this`firstChild, this`lastChild, this`children, children`prev, children`next
      ensures Linked()
      ensures node == null <==> old(replaceThis.parent) != this
      ensures node == null ==> children == old(children)
      ensures node != null ==> fresh(node) && node.value == withThis.value
                               && replaceThis in old(children) && children == Replaced(old(children), replaceThis, node)
    {
      if replaceThis.parent != this {
        return null;
      }
      var copy := withThis.Clone();
      ghost var i := IndexOf(children, replaceThis);
      assert Wired(children, i);
      ReplacedSplice(children, replaceThis, copy);
      PutBetween(i, i + 1, replaceThis.prev, replaceThis.next, copy);
      node := copy;
    }

    method RemoveChild(removeThis: LinkedNode) returns (removed: bool)
      requires Linked() && Owns(removeThis)
      modifies this`firstChild, this`lastChild, this`children, children`prev, children`next
      ensures Linked()
      ensures removed <==> old(removeThis.parent) == this
      ensures !removed ==> children == old(children)
      ensures removed ==> removeThis in old(children) && children == Removed(old(children), removeThis)
    {
      if removeThis.parent != this {
        return false;
      }
      ghost var s := children;
      ghost var i := IndexOf(s, removeThis);
      ghost var k := i + 1;
      var before, after := removeThis.prev, removeThis.next;
      assert Wired(children, i);
      LinkAcross(i, k, before, after, before, after);
      children := children[..i] + [] + children[k..];
      removed := true;
      Spliced(s, i, k, []);
    }

    /** The first child with a value. */
    method FirstChild(wanted: string) returns (node: LinkedNode?)
      requires Linked()
      ensures node == null ==> forall c | c in children :: c.value != wanted
      ensures node != null ==> node in children && node.value == wanted
                               && forall j | 0 <= j < IndexOf(children, node) :: children[j].value != wanted
    {
      node := firstChild;
      ghost var i := 0;
      while node != null
        invariant 0 <= i <= |children| && node == Item(children, i)
        invariant forall j | 0 <= j < i :: children[j].value != wanted
        decreases |children| - i
      {
        if node.value == wanted {
          return;
        }
        assert Wired(children, i);
        node := node.next;
        i := i + 1;
      }
    }
  }
}
