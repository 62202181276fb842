/** The attributes of an element: a ring of nodes closed by a sentinel, whose
    members are told from the sentinel by having a name or a value. */
module XmlAttributeRing {
  import opened XmlDom

  class AttributeNode {
    var name: string
    var value: string
    var prev: AttributeNode?
    var next: AttributeNode?

    constructor (name: string, value: string)
      ensures this.name == name && this.value == value && prev == null && next == null
    {
      this.name, this.value, prev, next := name, value, null, null;
    }

    predicate Blank()
      reads this
    {
      value == "" && name == ""
    }

    /** The following attribute; a blank one counts as the sentinel. */
    method Next() returns (node: AttributeNode?)
      requires next != null
      ensures node == if next.Blank() then null else next
    {
      if next.value == "" && next.name == "" {
        return null;
      }
      node := next;
    }
  }

  /** The attributes met on the way from the first by `Next`: the walk stops at the
      first blank attribute that is not itself the first. */
  ghost function Walk(s: seq<AttributeNode>, i: nat): (r: seq<AttributeNode>)
    requires i <= |s|
    reads s
    decreases |s| - i
  {
    if i == |s| || (i > 0 && s[i].Blank()) then [] else [s[i]] + Walk(s, i + 1)
  }

  /** The walk visits every attribute exactly when none after the first is blank. */
  lemma {:induction false} WalkVisitsAllIff(s: seq<AttributeNode>, i: nat)
    requires i <= |s|
    ensures Walk(s, i) <= s[i..]
    ensures Walk(s, i) == s[i..] <==> forall j | i <= j < |s| && j > 0 :: !s[j].Blank()
    decreases |s| - i
  {
    if i < |s| {
      assert s[i..] == [s[i]] + s[i + 1..];
      WalkVisitsAllIff(s, i + 1);
      var w := Walk(s, i + 1);
      assert ([s[i]] + w)[1..] == w && s[i..][1..] == s[i + 1..];
    }
  }

  /** The walk ends before the first blank attribute that is not itself the first. */
  lemma {:induction false} WalkStopsAt(s: seq<AttributeNode>, i: nat, k: nat)
    requires i <= k < |s| && k > 0 && s[k].Blank() && forall j | i <= j < k && j > 0 :: !s[j].Blank()
    ensures Walk(s, i) == s[i..k]
    decreases k - i
  {
    if i < k {
      WalkStopsAt(s, i + 1, k);
      assert s[i..k] == [s[i]] + s[i + 1..k];
    }
  }

  class AttributeSet {
    const sentinel: AttributeNode
    /** The attributes, oldest first. */
    ghost var stored: seq<AttributeNode>

    constructor ()
      ensures Ring() && stored == [] && fresh(sentinel)
    {
      sentinel := new AttributeNode("", "");
      stored := [];
      new;
      sentinel.next, sentinel.prev := sentinel, sentinel;
    }

    /** Attribute `i` of a list; the sentinel before the first and after the last. */
    ghost function At(s: seq<AttributeNode>, i: int): AttributeNode {
      if 0 <= i < |s| then s[i] else sentinel
    }

    ghost predicate Wired(s: seq<AttributeNode>, i: nat)
      requires i < |s|
      reads s[i]
    {
      s[i].prev == At(s, i - 1) && s[i].next == At(s, i + 1)
    }

    /** The pointers close a ring through the attributes and the sentinel. */
    ghost predicate Ring()
      reads this, sentinel, stored
    {
      && sentinel !in stored && sentinel.Blank() && Distinct(stored)
      && sentinel.next == At(stored, 0) && sentinel.prev == At(stored, |stored| - 1)
      && forall i | 0 <= i < |stored| :: Wired(stored, i)
    }

    ghost predicate Names(s: seq<AttributeNode>)
      reads s
    {
      forall i, j | 0 <= i < j < |s| :: s[i].name != s[j].name
    }

    method Add(addMe: AttributeNode)
      requires Ring() && addMe !in stored && addMe != sentinel
      requires forall a | a in stored :: a.name != addMe.name
      modifies this`stored, stored`next, sentinel`next, sentinel`prev, addMe`next, addMe`prev
      ensures Ring() && stored == old(stored) + [addMe]
      ensures old(Names(stored)) ==> Names(stored)
    {
      ghost var s := stored;
      assert s != [] ==> Wired(s, |s| - 1);
      addMe.next := sentinel;
      addMe.prev := sentinel.prev;
      sentinel.prev.next := addMe;
      sentinel.prev := addMe;
      stored := stored + [addMe];
      forall j | 0 <= j < |stored| ensures Wired(stored, j) {
        if j < |s| {
          assert old(Wired(s, j));
        }
      }
    }

    /** Takes an attribute out; one that is not stored changes nothing. */
    method Remove(removeMe: AttributeNode)
      requires Ring()
      modifies this`stored, stored`next, stored`prev, sentinel`next, sentinel`prev
      ensures Ring()
      ensures stored == if removeMe in old(stored) then Removed(old(stored), removeMe) else old(stored)
      ensures removeMe in old(stored) ==> removeMe.next == null && removeMe.prev == null
    {
      ghost var s := stored;
      ghost var i := 0;
      var node := sentinel.next;
      while node != sentinel
        invariant stored == s && Ring() && unchanged(sentinel) && unchanged(s)
        invariant 0 <= i <= |s| && node == At(s, i) && removeMe !in s[..i]
        decreases |s| - i
      {
        assert Wired(s, i);
        if node == removeMe {
          Unlink(node, i);
          assert IndexOf(s, removeMe) == i;
          return;
        }
        node := node.next;
        i := i + 1;
      }
    }

    method Unlink(node: AttributeNode, ghost i: nat)
      requires Ring() && i < |stored| && stored[i] == node
      modifies this`stored, stored`next, stored`prev, sentinel`next, sentinel`prev
      ensures Ring() && stored == old(stored)[..i] + old(stored)[i + 1..]
      ensures node.next == null && node.prev == null
    {
      ghost var s := stored;
      assert Wired(s, i);
      assert i > 0 ==> Wired(s, i - 1);
      assert i + 1 < |s| ==> Wired(s, i + 1);
      node.prev.next := node.next;
      node.next.prev := node.prev;
      node.next := null;
      node.prev := null;
      stored := s[..i] + s[i + 1..];
      forall j | 0 <= j < |s| && j != i ensures Kept(s, i, j) {
        assert old(Wired(s, j));
      }
      RingWithout(s, i);
    }

    /** Attribute `j` of the list `s` is kept while attribute `i` is taken out. */
    ghost predicate Kept(s: seq<AttributeNode>, i: nat, j: nat)
      requires j < |s|
      reads s[j]
    {
      && s[j].prev == At(s, if j == i + 1 then i - 1 else j - 1)
      && s[j].next == At(s, if j + 1 == i then i + 1 else j + 1)
    }

    lemma RingWithout(s: seq<AttributeNode>, i: nat)
      requires i < |s| && stored == s[..i] + s[i + 1..] && Distinct(s) && sentinel !in s && sentinel.Blank()
      requires forall j | 0 <= j < |s| && j != i :: Kept(s, i, j)
      requires sentinel.next == At(s, if i == 0 then 1 else 0)
      requires sentinel.prev == At(s, if i == |s| - 1 then i - 1 else |s| - 1)
      ensures Ring()
    {
      DistinctWithout(s, i);
      hide Distinct, AttributeNode.Blank;
      forall j | 0 <= j < |stored| ensures Wired(stored, j) {
        assert Kept(s, i, if j < i then j else j + 1);
      }
    }

    lemma DistinctWithout(s: seq<AttributeNode>, i: nat)
      requires i < |s| && Distinct(s)
      ensures Distinct(s[..i] + s[i + 1..])
    {
      var r := s[..i] + s[i + 1..];
      assert forall j | 0 <= j < |r| :: r[j] == s[if j < i then j else j + 1];
    }

    /** The oldest attribute with a name. */
    method Find(name: string) returns (node: AttributeNode?)
      requires Ring()
      ensures node == null ==> forall a | a in stored :: a.name != name
      ensures node != null ==> node in stored && node.name == name
                               && forall j | 0 <= j < IndexOf(stored, node) :: stored[j].name != name
    {
      node := sentinel.next;
      ghost var i := 0;
      while node != sentinel
        invariant 0 <= i <= |stored| && node == At(stored, i)
        invariant forall j | 0 <= j < i :: stored[j].name != name
        decreases |stored| - i
      {
        if node.name == name {
          return;
        }
        assert Wired(stored, i);
        node := node.next;
        i := i + 1;
      }
      node := null;
    }

    method First() returns (node: AttributeNode?)
      requires Ring()
      ensures node == if stored == [] then null else stored[0]
    {
      node := if sentinel.next == sentinel then null else sentinel.next;
    }

    /** What a loop from `First` by `Next` goes through. */
    method Visit() returns (visited: seq<AttributeNode>)
      requires Ring()
      ensures visited == Walk(stored, 0)
    {
      visited := [];
      ghost var i := 0;
      var node := First();
      while node != null
        invariant 0 <= i <= |stored|
        invariant node != null ==> i < |stored| && node == stored[i] && (i > 0 ==> !node.Blank())
        invariant node == null ==> i == |stored| || (i > 0 && stored[i].Blank())
        invariant Walk(stored, 0) == visited + Walk(stored, i)
        decreases |stored| - i, node != null
      {
        assert Wired(stored, i);
        ghost var later := Walk(stored, i + 1);
        assert visited + ([node] + later) == visited + [node] + later;
        visited := visited + [node];
        node := node.Next();
        i := i + 1;
      }
    }
  }
}
