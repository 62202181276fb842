/** The group address index of the objects: a list of pairs kept sorted by address,
    pairs with equal addresses in the order they came. */
module ObjectIndex {

  datatype Pair<T> = Pair(address: nat, member: T)

  ghost predicate Sorted<T>(s: seq<Pair<T>>) {
    forall i, j | 0 <= i < j < |s| :: s[i].address <= s[j].address
  }

  function Insert<T>(s: seq<Pair<T>>, a: nat, x: T): seq<Pair<T>> {
    if s == [] || a < s[0].address then [Pair(a, x)] + s else [s[0]] + Insert(s[1..], a, x)
  }

  function Erase<T(==)>(s: seq<Pair<T>>, a: nat, x: T): seq<Pair<T>> {
    if s == [] then [] else (if s[0] == Pair(a, x) then [] else [s[0]]) + Erase(s[1..], a, x)
  }

  function InsertAll<T>(s: seq<Pair<T>>, addresses: seq<nat>, x: T): seq<Pair<T>>
    decreases |addresses|
  {
    if addresses == [] then s else InsertAll(Insert(s, addresses[0], x), addresses[1..], x)
  }

  /** Address 0 stands for none and is passed over. */
  function EraseAll<T(==)>(s: seq<Pair<T>>, addresses: seq<nat>, x: T): seq<Pair<T>>
    decreases |addresses|
  {
    if addresses == [] then s
    else EraseAll(if addresses[0] == 0 then s else Erase(s, addresses[0], x), addresses[1..], x)
  }

  /** The objects with an address, in order. */
  function Range<T>(s: seq<Pair<T>>, a: nat): seq<T> {
    if s == [] then [] else (if s[0].address == a then [s[0].member] else []) + Range(s[1..], a)
  }

  /** The addresses an object is entered under: its own unless 0, and every listener
      address. */
  function Addresses(gad: nat, listeners: seq<nat>): seq<nat> {
    (if gad != 0 then [gad] else []) + listeners
  }

  /** An object is entered once under its own address and as often under an address as its
      listener list names it. */
  lemma AddressesCount(gad: nat, listeners: seq<nat>, a: nat)
    requires a != 0
    ensures multiset(Addresses(gad, listeners))[a] == (if gad == a then 1 else 0) + multiset(listeners)[a]
  {
  }

  function Count<T(==)>(s: seq<Pair<T>>, a: nat, x: T): nat {
    multiset(s)[Pair(a, x)]
  }

  // ---------------------------------------------------------------- counts

  lemma HeadTail<X>(s: seq<X>)
    requires s != []
    ensures multiset(s) == multiset{s[0]} + multiset(s[1..])
  {
    assert s == [s[0]] + s[1..];
  }

  lemma {:induction false} InsertCounts<T>(s: seq<Pair<T>>, a: nat, x: T)
    ensures multiset(Insert(s, a, x)) == multiset(s) + multiset{Pair(a, x)}
  {
    if s != [] && a >= s[0].address {
      HeadTail(s);
      InsertCounts(s[1..], a, x);
    }
  }

  lemma {:induction false} InsertKeepsOrder<T>(s: seq<Pair<T>>, a: nat, x: T)
    requires Sorted(s)
    ensures Sorted(Insert(s, a, x))
  {
    if s != [] && a >= s[0].address {
      InsertKeepsOrder(s[1..], a, x);
      InsertCounts(s[1..], a, x);
      FirstIsLeast(s[0], Insert(s[1..], a, x), s[1..], Pair(a, x));
    }
  }

  lemma FirstIsLeast<T>(first: Pair<T>, r: seq<Pair<T>>, s: seq<Pair<T>>, x: Pair<T>)
    requires Sorted(r) && multiset(r) == multiset(s) + multiset{x} && first.address <= x.address
    requires forall p | p in s :: first.address <= p.address
    ensures Sorted([first] + r)
  {
    forall i | 0 <= i < |r| ensures first.address <= r[i].address {
      assert r[i] in multiset(r);
      assert r[i] in multiset(s) || r[i] == x;
    }
  }

  lemma {:induction false} EraseCounts<T>(s: seq<Pair<T>>, a: nat, x: T)
    ensures multiset(Erase(s, a, x)) == multiset(s)[Pair(a, x) := 0]
  {
    if s != [] {
      HeadTail(s);
      EraseCounts(s[1..], a, x);
    }
  }

  lemma {:induction false} EraseKeepsOrder<T>(s: seq<Pair<T>>, a: nat, x: T)
    requires Sorted(s)
    ensures Sorted(Erase(s, a, x))
  {
    if s != [] {
      EraseKeepsOrder(s[1..], a, x);
      EraseCounts(s[1..], a, x);
      var r := Erase(s[1..], a, x);
      forall i | 0 <= i < |r| ensures s[0].address <= r[i].address {
        assert r[i] in multiset(r);
        assert r[i] in multiset(s[1..]);
      }
    }
  }

  /** Entering an object under some addresses counts each as often as it is named. */
  lemma {:induction false} InsertAllCounts<T>(s: seq<Pair<T>>, addresses: seq<nat>, x: T)
    requires Sorted(s)
    ensures Sorted(InsertAll(s, addresses, x))
    ensures forall b, y :: Count(InsertAll(s, addresses, x), b, y)
                           == Count(s, b, y) + if y == x then multiset(addresses)[b] else 0
    decreases |addresses|
  {
    if addresses != [] {
      var a := addresses[0];
      InsertCounts(s, a, x);
      InsertKeepsOrder(s, a, x);
      HeadTail(addresses);
      InsertAllCounts(Insert(s, a, x), addresses[1..], x);
    }
  }

  /** Withdrawing an object from some addresses leaves no pair of it there, except
      at address 0, and every other pair as it was. */
  lemma {:induction false} EraseAllCounts<T>(s: seq<Pair<T>>, addresses: seq<nat>, x: T)
    requires Sorted(s)
    ensures Sorted(EraseAll(s, addresses, x))
    ensures forall b, y :: Count(EraseAll(s, addresses, x), b, y)
                           == if y == x && b != 0 && b in addresses then 0 else Count(s, b, y)
    decreases |addresses|
  {
    if addresses != [] {
      var a := addresses[0];
      var r := if a == 0 then s else Erase(s, a, x);
      EraseCounts(s, a, x);
      EraseKeepsOrder(s, a, x);
      EraseAllCounts(r, addresses[1..], x);
      assert forall b :: b in addresses <==> b == a || b in addresses[1..];
    }
  }

  lemma {:induction false} RangeCounts<T>(s: seq<Pair<T>>, a: nat, x: T)
    ensures multiset(Range(s, a))[x] == Count(s, a, x)
  {
    if s != [] {
      HeadTail(s);
      RangeCounts(s[1..], a, x);
    }
  }

  lemma {:induction false} NothingToErase<T>(s: seq<Pair<T>>, a: nat, x: T)
    requires forall i | 0 <= i < |s| :: s[i].address != a
    ensures Erase(s, a, x) == s
  {
    if s != [] {
      NothingToErase(s[1..], a, x);
    }
  }

  lemma RangeStep<T>(s: seq<Pair<T>>, i: nat, a: nat)
    requires i < |s|
    ensures Range(s[i..], a) == (if s[i].address == a then [s[i].member] else []) + Range(s[i + 1..], a)
  {
    assert s[i..][1..] == s[i + 1..];
  }

  /** The list with the pairs from position `i` on erased. */
  function Progress<T(==)>(s: seq<Pair<T>>, i: nat, a: nat, x: T): seq<Pair<T>>
    requires i <= |s|
  {
    s[..i] + Erase(s[i..], a, x)
  }

  lemma ProgressStarts<T>(s: seq<Pair<T>>, a: nat, x: T)
    ensures Progress(s, 0, a, x) == Erase(s, a, x)
  {
    assert s[..0] == [] && s[0..] == s;
  }

  lemma ProgressEnds<T>(s: seq<Pair<T>>, i: nat, a: nat, x: T)
    requires i <= |s| && forall j | i <= j < |s| :: s[j].address != a
    ensures Progress(s, i, a, x) == s
  {
    NothingToErase(s[i..], a, x);
    assert s[..i] + s[i..] == s;
  }

  lemma KeepPair<T>(s: seq<Pair<T>>, i: nat, a: nat, x: T)
    requires i < |s| && s[i] != Pair(a, x)
    ensures Progress(s, i + 1, a, x) == Progress(s, i, a, x)
  {
    assert s[i..][1..] == s[i + 1..];
    assert s[..i] + ([s[i]] + Erase(s[i + 1..], a, x)) == s[..i + 1] + Erase(s[i + 1..], a, x);
  }

  lemma DropPair<T>(s: seq<Pair<T>>, i: nat, a: nat, x: T)
    requires Sorted(s) && i < |s| && s[i] == Pair(a, x)
    ensures var r := s[..i] + s[i + 1..];
            Sorted(r) && Progress(r, i, a, x) == Progress(s, i, a, x)
  {
    var r := s[..i] + s[i + 1..];
    assert s[i..][1..] == s[i + 1..] == r[i..];
    assert r[..i] == s[..i];
  }

  /** Objects with one address are told in the order in which they were entered. */
  lemma {:induction false} RangeOfInserted<T>(s: seq<Pair<T>>, a: nat, x: T, b: nat)
    requires Sorted(s)
    ensures Range(Insert(s, a, x), b) == if a == b then Range(s, b) + [x] else Range(s, b)
  {
    if s == [] || a < s[0].address {
      var r := [Pair(a, x)] + s;
      assert r[1..] == s;
      if s != [] && a == b {
        NoneBelow(s, b);
      }
    } else {
      var r := [s[0]] + Insert(s[1..], a, x);
      assert r[1..] == Insert(s[1..], a, x);
      RangeOfInserted(s[1..], a, x, b);
    }
  }

  /** The objects but one, in order. */
  function Others<T(==)>(s: seq<T>, x: T): seq<T> {
    if s == [] then [] else (if s[0] == x then [] else [s[0]]) + Others(s[1..], x)
  }

  lemma RangeCons<T>(p: Pair<T>, s: seq<Pair<T>>, a: nat)
    ensures Range([p] + s, a) == if p.address == a then [p.member] + Range(s, a) else Range(s, a)
  {
    assert ([p] + s)[1..] == s;
  }

  lemma EraseCons<T>(p: Pair<T>, s: seq<Pair<T>>, a: nat, x: T)
    ensures Erase([p] + s, a, x) == if p == Pair(a, x) then Erase(s, a, x) else [p] + Erase(s, a, x)
  {
    assert ([p] + s)[1..] == s;
  }

  lemma OthersCons<T>(y: T, s: seq<T>, x: T)
    ensures Others([y] + s, x) == if y == x then Others(s, x) else [y] + Others(s, x)
  {
    assert ([y] + s)[1..] == s;
  }

  /** Withdrawing an object leaves the others in order. */
  lemma {:induction false} RangeOfErased<T>(s: seq<Pair<T>>, a: nat, x: T, b: nat)
    ensures Range(Erase(s, a, x), b) == if a == b then Others(Range(s, b), x) else Range(s, b)
  {
    if s != [] {
      var p, t := s[0], s[1..];
      assert s == [p] + t;
      hide Range, Erase, Others;
      RangeOfErased(t, a, x, b);
      EraseCons(p, t, a, x);
      RangeCons(p, t, b);
      RangeCons(p, Erase(t, a, x), b);
      OthersCons(p.member, Range(t, b), x);
    }
  }

  lemma {:induction false} NoneBelow<T>(s: seq<Pair<T>>, a: nat)
    requires forall p | p in s :: a < p.address
    ensures Range(s, a) == []
  {
    if s != [] {
      assert forall p | p in s[1..] :: p in s;
      NoneBelow(s[1..], a);
    }
  }

  /** Entering an object that has no pairs and withdrawing it again restores the
      counts exactly when no listener address is 0. */
  lemma WithdrawnIff<T>(s: seq<Pair<T>>, gad: nat, listeners: seq<nat>, x: T)
    requires Sorted(s) && forall a :: Count(s, a, x) == 0
    ensures multiset(EraseAll(InsertAll(s, Addresses(gad, listeners), x), [gad] + listeners, x)) == multiset(s)
            <==> 0 !in listeners
  {
    var added := InsertAll(s, Addresses(gad, listeners), x);
    var back := EraseAll(added, [gad] + listeners, x);
    InsertAllCounts(s, Addresses(gad, listeners), x);
    EraseAllCounts(added, [gad] + listeners, x);
    if 0 in listeners {
      assert Count(back, 0, x) > 0;
    } else {
      SameCounts(back, s);
    }
  }

  lemma SameCounts<T>(s: seq<Pair<T>>, r: seq<Pair<T>>)
    requires forall a, x :: Count(s, a, x) == Count(r, a, x)
    ensures multiset(s) == multiset(r)
  {
    forall p: Pair<T> ensures multiset(s)[p] == multiset(r)[p] {
      assert Count(s, p.address, p.member) == Count(r, p.address, p.member);
    }
    assert multiset(s) <= multiset(r) && multiset(r) <= multiset(s);
  }
}
