/** The registered objects and their group address index. */
module ObjectController {
  import opened Options
  import opened ObjectIndex

  class GroupObject {
    const id: string
    var gad: nat
    var listeners: seq<nat>
    var references: nat

    constructor (id: string, gad: nat, listeners: seq<nat>)
      ensures this.id == id && this.gad == gad && this.listeners == listeners && references == 0
    {
      this.id, this.gad, this.listeners, references := id, gad, listeners, 0;
    }

    /** The addresses the object answers to. */
    function Entered(): seq<nat>
      reads this
    {
      Addresses(gad, listeners)
    }
  }

  /** One object of a configuration. `readable` tells whether its type and id are
      accepted; `gad` and `listeners` are absent where the entry does not name any. */
  datatype Entry = Entry(id: string, delete: bool, readable: bool, gad: Option<nat>, listeners: Option<seq<nat>>)
  datatype Status = Success | DuplicateId | StillInUse | NotFound | Unreadable

  /** What a configuration determines of an object, and how often it is in use. */
  datatype Settings = Settings(gad: nat, listeners: seq<nat>, references: nat)

  /** The settings by id; `lost` are the ids of objects that a failed call took out of
      the index and left registered. */
  datatype Registry = Registry(settings: map<string, Settings>, lost: set<string>)

  /** The effect of one entry of a configuration. */
  function Imported(r: Registry, e: Entry): (Registry, Status) {
    if e.id in r.settings then
      var s := r.settings[e.id];
      if e.delete && s.references > 0 then (r.(lost := r.lost + {e.id}), StillInUse)
      else if e.delete then (Registry(r.settings - {e.id}, r.lost - {e.id}), Success)
      else if !e.readable then (r.(lost := r.lost + {e.id}), Unreadable)
      else
        var named := Settings(e.gad.OrElse(s.gad), e.listeners.OrElse(s.listeners), s.references);
        (Registry(r.settings[e.id := named], r.lost - {e.id}), Success)
    else if e.delete then (r, NotFound)
    else if !e.readable then (r, Unreadable)
    else (r.(settings := r.settings[e.id := Settings(e.gad.OrElse(0), e.listeners.OrElse([]), 0)]), Success)
  }

  /** The effect of a configuration: the first failing entry ends it. */
  function ImportedAll(r: Registry, entries: seq<Entry>): (Registry, Status)
    decreases |entries|
  {
    if entries == [] then (r, Success)
    else
      var (after, status) := Imported(r, entries[0]);
      if status == Success then ImportedAll(after, entries[1..]) else (after, status)
  }

  /** What an entry does to the settings: a successful one that does not delete leaves the
      addresses it names, the old ones (none for a new object) where it names none, and an
      object that is in the index. Other objects keep their settings. */
  lemma ImportedIs(r: Registry, e: Entry)
    ensures var (after, status) := Imported(r, e);
            var known := e.id in r.settings;
            && status == (if e.delete then
                            if !known then NotFound
                            else if r.settings[e.id].references > 0 then StillInUse
                            else Success
                          else if e.readable then Success else Unreadable)
            && (forall id | id != e.id ::
                  && (id in after.settings <==> id in r.settings) && (id in after.lost <==> id in r.lost)
                  && (id in r.settings ==> after.settings[id] == r.settings[id]))
            && (status == Success && e.delete ==> e.id !in after.settings)
            && (status == Success && !e.delete ==>
                  && e.id in after.settings && (known ==> e.id !in after.lost)
                  && after.settings[e.id].gad
                     == (match e.gad case Some(g) => g case None => if known then r.settings[e.id].gad else 0)
                  && after.settings[e.id].listeners
                     == (match e.listeners
                         case Some(l) => l
                         case None => if known then r.settings[e.id].listeners else [])
                  && after.settings[e.id].references == (if known then r.settings[e.id].references else 0))
            && (status != Success ==> after.settings == r.settings && (e.id in after.lost <==> known || e.id in r.lost))
  {
  }

  /** A configuration is taken entry by entry, and ends with the first that fails. */
  lemma {:induction false} ImportedInParts(r: Registry, a: seq<Entry>, b: seq<Entry>)
    ensures ImportedAll(r, []) == (r, Success)
    ensures forall e :: ImportedAll(r, [e]) == Imported(r, e)
    ensures var (after, status) := ImportedAll(r, a);
            ImportedAll(r, a + b) == if status == Success then ImportedAll(after, b) else (after, status)
    decreases |a|
  {
    hide Imported;
    if a == [] {
      assert a + b == b;
    } else {
      assert (a + b)[1..] == a[1..] + b;
      ImportedInParts(Imported(r, a[0]).0, a[1..], b);
    }
  }

  /** Registering an object under a new id. */
  function Added(r: Registry, id: string, s: Settings): (Registry, Status) {
    if id in r.settings then (r, DuplicateId) else (r.(settings := r.settings[id := s]), Success)
  }

  /** Removing the object with an id, if there is one. */
  function Dropped(r: Registry, id: string): (Registry, Status) {
    if id !in r.settings then (r, Success)
    else if r.settings[id].references > 0 then (r.(lost := r.lost + {id}), StillInUse)
    else (Registry(r.settings - {id}, r.lost - {id}), Success)
  }

  datatype Call = Add(id: string, settings: Settings) | Remove(id: string) | Import(entries: seq<Entry>)

  function Applied(r: Registry, call: Call): (Registry, Status) {
    match call
    case Add(id, settings) => Added(r, id, settings)
    case Remove(id) => Dropped(r, id)
    case Import(entries) => ImportedAll(r, entries)
  }

  function AppliedAll(r: Registry, calls: seq<Call>): Registry
    decreases |calls|
  {
    if calls == [] then r else AppliedAll(Applied(r, calls[0]).0, calls[1..])
  }

  lemma {:induction false} AppliedInOrder(r: Registry, calls: seq<Call>, last: Call)
    ensures AppliedAll(r, []) == r
    ensures AppliedAll(r, calls + [last]) == Applied(AppliedAll(r, calls), last).0
    decreases |calls|
  {
    hide Applied;
    if calls != [] {
      assert (calls + [last])[1..] == calls[1..] + [last];
      AppliedInOrder(Applied(r, calls[0]).0, calls[1..], last);
    } else {
      assert calls + [last] == [last];
    }
  }

  ghost predicate AllSucceed(r: Registry, calls: seq<Call>)
    decreases |calls|
  {
    calls != [] ==> Applied(r, calls[0]).1 == Success && AllSucceed(Applied(r, calls[0]).0, calls[1..])
  }

  lemma {:induction false} ImportLosesNone(r: Registry, entries: seq<Entry>)
    requires r.lost == {} && ImportedAll(r, entries).1 == Success
    ensures ImportedAll(r, entries).0.lost == {}
    decreases |entries|
  {
    if entries != [] {
      ImportLosesNone(Imported(r, entries[0]).0, entries[1..]);
    }
  }

  /** Calls that all succeed take no object out of the index that stays registered. */
  lemma {:induction false} SuccessLosesNone(r: Registry, calls: seq<Call>)
    requires r.lost == {} && AllSucceed(r, calls)
    ensures AppliedAll(r, calls).lost == {}
    decreases |calls|
  {
    if calls != [] {
      if calls[0].Import? {
        ImportLosesNone(r, calls[0].entries);
      }
      SuccessLosesNone(Applied(r, calls[0]).0, calls[1..]);
    }
  }

  class Controller {
    var objects: map<string, GroupObject>
    var index: seq<Pair<GroupObject>>
    /** Objects that a failed call took out of the index and left registered. */
    ghost var lost: set<GroupObject>

    constructor ()
      ensures Valid() && objects == map[] && index == [] && lost == {}
    {
      objects, index, lost := map[], [], {};
    }

    /** The index holds each object under each address other than 0 as often as its
        own address and its listener addresses name it. */
    ghost predicate Agrees(o: GroupObject)
      reads this, o
    {
      AgreesIn(index, lost, o)
    }

    static ghost predicate AgreesIn(s: seq<Pair<GroupObject>>, lost: set<GroupObject>, o: GroupObject)
      reads o
    {
      forall a :: a != 0 ==> Count(s, a, o) == if o in lost then 0 else multiset(o.Entered())[a]
    }

    predicate Registered(o: GroupObject)
      reads this
    {
      o.id in objects && objects[o.id] == o
    }

    ghost predicate Valid()
      reads this, objects.Values
    {
      && Sorted(index)
      && (forall id | id in objects :: objects[id].id == id && Agrees(objects[id]))
      && (forall o | o in lost :: Registered(o))
      && (forall p | p in index && p.address != 0 :: Registered(p.member))
    }

    /** What `Valid` says of a single address. */
    lemma AgreesAt(o: GroupObject, a: nat)
      requires Valid() && a != 0
      ensures Count(index, a, o) == if Registered(o) && o !in lost then multiset(o.Entered())[a] else 0
    {
      if Registered(o) {
        assert Agrees(objects[o.id]);
      } else {
        assert Pair(a, o) !in index;
      }
    }

    /** Withdraws an object from the pairs with one address. */
    method RemoveObjectFromAddressMap(gad: nat, member: GroupObject)
      requires Sorted(index)
      modifies this`index
      ensures index == if gad == 0 then old(index) else Erase(old(index), gad, member)
    {
      if gad == 0 {
        return;
      }
      ghost var s := index;
      hide Erase, Progress;
      ProgressStarts(s, gad, member);
      var i := 0;
      while i < |index| && index[i].address < gad
        invariant 0 <= i <= |index| && index == s
        invariant Progress(index, i, gad, member) == Erase(s, gad, member)
      {
        KeepPair(index, i, gad, member);
        i := i + 1;
      }
      while i < |index| && index[i].address == gad
        invariant 0 <= i <= |index| && Sorted(index)
        invariant i < |index| ==> index[i].address >= gad
        invariant Progress(index, i, gad, member) == Erase(s, gad, member)
        decreases |index| - i
      {
        if index[i].member == member {
          DropPair(index, i, gad, member);
          index := index[..i] + index[i + 1..];
        } else {
          KeepPair(index, i, gad, member);
          i := i + 1;
        }
      }
      ProgressEnds(index, i, gad, member);
    }

    /** The pairs of an object under its own and its listener addresses are withdrawn. */
    method Withdraw(member: GroupObject)
      requires Sorted(index)
      modifies this`index
      ensures index == EraseAll(old(index), [member.gad] + member.listeners, member)
    {
      ghost var erased := EraseAll(index, [member.gad] + member.listeners, member);
      EraseAllCounts(index, [member.gad], member);
      EraseKeepsOrder(index, member.gad, member);
      RemoveObjectFromAddressMap(member.gad, member);
      var k := 0;
      while k < |member.listeners|
        invariant 0 <= k <= |member.listeners| && Sorted(index)
        invariant erased == EraseAll(index, member.listeners[k..], member)
      {
        EraseKeepsOrder(index, member.listeners[k], member);
        RemoveObjectFromAddressMap(member.listeners[k], member);
        k := k + 1;
      }
    }

    method Enter(member: GroupObject)
      modifies this`index
      ensures index == InsertAll(old(index), member.Entered(), member)
    {
      ghost var all := InsertAll(index, member.Entered(), member);
      assert member.gad == 0 ==> member.Entered() == member.listeners;
      if member.gad != 0 {
        index := Insert(index, member.gad, member);
      }
      assert member.gad != 0 ==> member.Entered()[1..] == member.listeners;
      var k := 0;
      while k < |member.listeners|
        invariant 0 <= k <= |member.listeners|
        invariant all == InsertAll(index, member.listeners[k..], member)
      {
        index := Insert(index, member.listeners[k], member);
        k := k + 1;
      }
    }

    /** Entering one object in an index without pairs of it keeps the agreement of
        every other object and establishes its own. */
    lemma EnteredAgrees(before: seq<Pair<GroupObject>>, member: GroupObject)
      requires Sorted(before) && index == InsertAll(before, member.Entered(), member)
      requires Registered(member) && member !in lost
      requires forall a :: a != 0 ==> Count(before, a, member) == 0
      requires forall id | id in objects ::
                 objects[id].id == id && (id != member.id ==> AgreesIn(before, lost, objects[id]))
      requires forall o | o in lost :: Registered(o)
      requires forall p | p in before && p.address != 0 :: Registered(p.member)
      ensures Valid()
    {
      InsertAllCounts(before, member.Entered(), member);
      hide InsertAll, GroupObject.Entered, Sorted;
      forall id | id in objects ensures Agrees(objects[id]) {
        if id != member.id {
          assert AgreesIn(before, lost, objects[id]);
        }
      }
      forall p | p in index && p.address != 0 ensures Registered(p.member) {
        assert Count(index, p.address, p.member) > 0;
        if p.member != member {
          assert p in before by { assert Count(before, p.address, p.member) > 0; }
        }
      }
    }

    /** Withdrawing an object leaves no pair of it but at address 0, and the pairs of
        every other object. */
    lemma WithdrawnLeaves(before: seq<Pair<GroupObject>>, wasLost: set<GroupObject>, member: GroupObject)
      requires Sorted(before) && AgreesIn(before, wasLost, member)
      requires index == EraseAll(before, [member.gad] + member.listeners, member)
      ensures Sorted(index)
      ensures forall a :: a != 0 ==> Count(index, a, member) == 0
      ensures forall a, o :: o != member ==> Count(index, a, o) == Count(before, a, o)
      ensures forall p | p in index :: p in before
    {
      EraseAllCounts(before, [member.gad] + member.listeners, member);
      forall a | a != 0 ensures Count(index, a, member) == 0 {
        if a !in [member.gad] + member.listeners {
          assert a !in member.Entered();
        }
      }
      forall p | p in index ensures p in before {
        assert Count(index, p.address, p.member) > 0;
      }
    }

    /** The settings of an object. */
    static function Now(o: GroupObject): Settings
      reads o
    {
      Settings(o.gad, o.listeners, o.references)
    }

    /** The registered objects in terms of their settings. */
    ghost function Current(): Registry
      reads this, objects.Values
    {
      Registry(map id | id in objects :: Now(objects[id]),
               set id | id in objects && objects[id] in lost)
    }

    /** What is left when an object has been withdrawn and is lost or unregistered. */
    lemma RemovedAgrees(before: seq<Pair<GroupObject>>, wasLost: set<GroupObject>, member: GroupObject)
      requires Sorted(before) && AgreesIn(before, wasLost, member)
      requires index == EraseAll(before, [member.gad] + member.listeners, member)
      requires forall id | id in objects ::
                 objects[id].id == id && (objects[id] != member ==> AgreesIn(before, wasLost, objects[id]))
      requires forall o | o != member :: o in lost <==> o in wasLost
      requires forall o | o in lost :: Registered(o)
      requires Registered(member) ==> member in lost
      requires forall p | p in before && p.address != 0 :: p.member == member || Registered(p.member)
      ensures Valid()
    {
      WithdrawnLeaves(before, wasLost, member);
      hide EraseAll, GroupObject.Entered, Sorted;
      forall id | id in objects ensures Agrees(objects[id]) {
        if objects[id] != member {
          assert AgreesIn(before, wasLost, objects[id]);
        }
      }
      forall p | p in index && p.address != 0 ensures Registered(p.member) {
        assert Count(index, p.address, p.member) > 0;
        assert p in before;
      }
    }

    method AddObject(member: GroupObject) returns (status: Status)
      requires Valid()
      modifies this`objects, this`index
      ensures Valid() && lost == old(lost)
      ensures (Current(), status) == Added(old(Current()), member.id, Now(member))
      ensures status == if member.id in old(objects) then DuplicateId else Success
      ensures status == DuplicateId ==> objects == old(objects) && index == old(index)
      ensures status == Success ==> objects == old(objects)[member.id := member]
    {
      if member.id in objects {
        return DuplicateId;
      }
      assert member !in lost;
      Register(member);
      hide Valid;
      assert Current().settings == old(Current()).settings[member.id := Now(member)];
      assert Current().lost == old(Current()).lost;
      status := Success;
    }

    method Register(member: GroupObject)
      requires Valid() && member.id !in objects
      modifies this`objects, this`index
      ensures Valid() && objects == old(objects)[member.id := member]
    {
      forall a | a != 0 ensures Count(index, a, member) == 0 {
        AgreesAt(member, a);
      }
      assert forall id | id in objects :: Agrees(objects[id]);
      hide Sorted, AgreesIn, GroupObject.Entered, InsertAll;
      objects := objects[member.id := member];
      Enter(member);
      EnteredAgrees(old(index), member);
    }

    /** An object still in use stays registered but is no longer in the index. */
    method RemoveObject(member: GroupObject) returns (status: Status)
      requires Valid() && (member.id in objects ==> Registered(member))
      modifies this`objects, this`index, this`lost
      ensures Valid() && (Current(), status) == Dropped(old(Current()), member.id)
      ensures status == if member.id in old(objects) && member.references > 0 then StillInUse else Success
      ensures objects == if status == Success then old(objects) - {member.id} else old(objects)
      ensures lost == if member.id !in old(objects) then old(lost)
                      else if status == Success then old(lost) - {member}
                      else old(lost) + {member}
      ensures member.id !in old(objects) ==> index == old(index)
    {
      if member.id !in objects {
        return Success;
      }
      ghost var ids := Current().lost;
      assert (ids + {member.id}) - {member.id} == ids - {member.id};
      TakeOut(member);
      if member.references > 0 {
        return StillInUse;
      }
      Unregister(member);
      status := Success;
    }

    /** A registered object is taken out of the index. */
    method TakeOut(member: GroupObject)
      requires Valid() && Registered(member)
      modifies this`index, this`lost
      ensures Valid() && lost == old(lost) + {member}
      ensures Current() == old(Current()).(lost := old(Current()).lost + {member.id})
    {
      assert forall id | id in objects :: Agrees(objects[id]);
      hide Sorted, GroupObject.Entered, AgreesIn, EraseAll;
      Withdraw(member);
      lost := lost + {member};
      RemovedAgrees(old(index), old(lost), member);
    }

    /** An object out of the index takes new settings. */
    method Configure(member: GroupObject, gad: nat, listeners: seq<nat>)
      requires Valid() && Registered(member) && member in lost
      modifies member`gad, member`listeners
      ensures Valid() && member.gad == gad && member.listeners == listeners
      ensures Current() == old(Current()).(settings :=
                old(Current()).settings[member.id := Settings(gad, listeners, member.references)])
    {
      assert forall id | id in objects :: Agrees(objects[id]);
      member.gad := gad;
      member.listeners := listeners;
      assert Agrees(member);
      assert forall id | id in objects && id != member.id :: objects[id] != member;
    }

    /** An object out of the index is entered again. */
    method PutIn(member: GroupObject)
      requires Valid() && Registered(member) && member in lost
      modifies this`index, this`lost
      ensures Valid() && lost == old(lost) - {member}
      ensures Current() == old(Current()).(lost := old(Current()).lost - {member.id})
    {
      ghost var rest := lost - {member};
      OthersAgree(member, rest);
      hide AgreesIn, Sorted, GroupObject.Entered, InsertAll;
      lost := rest;
      Enter(member);
      EnteredAgrees(old(index), member);
    }

    lemma OthersAgree(member: GroupObject, rest: set<GroupObject>)
      requires Valid() && Registered(member) && member in lost && rest == lost - {member}
      ensures forall a :: a != 0 ==> Count(index, a, member) == 0
      ensures forall id | id in objects && id != member.id :: AgreesIn(index, rest, objects[id])
    {
      hide Sorted, GroupObject.Entered;
      assert Agrees(objects[member.id]);
      forall id | id in objects && id != member.id ensures AgreesIn(index, rest, objects[id]) {
        assert Agrees(objects[id]);
      }
    }

    /** Imports one entry. Success leaves the object at the addresses named, or removes
        it; a failure leaves the settings of all objects as they were. */
    method ImportEntry(e: Entry) returns (status: Status)
      requires Valid()
      modifies this`objects, this`index, this`lost, objects.Values
      ensures Valid() && (Current(), status) == Imported(old(Current()), e)
      ensures forall id | id in objects :: objects[id] in old(objects.Values) || fresh(objects[id])
      ensures status == if e.delete then
                          if e.id !in old(objects) then NotFound
                          else if old(objects[e.id].references) > 0 then StillInUse
                          else Success
                        else if e.readable then Success else Unreadable
      ensures forall id | id != e.id || status != Success ::
                && (id in objects <==> id in old(objects))
                && (id in objects ==> objects[id] == old(objects)[id])
                && (id in objects ==> objects[id].gad == old(objects[id].gad))
                && (id in objects ==> objects[id].listeners == old(objects[id].listeners))
      ensures status == Success ==> (e.id in objects <==> !e.delete)
      ensures status == Success && !e.delete ==>
                && objects[e.id].gad
                   == (match e.gad case Some(g) => g
                                   case None => old(if e.id in objects then objects[e.id].gad else 0))
                && objects[e.id].listeners
                   == (match e.listeners case Some(l) => l
                                         case None => old(if e.id in objects then objects[e.id].listeners else []))
      ensures status == Success && !e.delete ==>
                forall dest :: dest != 0 ==>
                  multiset(Range(index, dest))[objects[e.id]]
                  == (if objects[e.id].gad == dest then 1 else 0) + multiset(objects[e.id].listeners)[dest]
    {
      ghost var r := Current();
      ImportedIs(r, e);
      hide Imported;
      assert forall id | id in objects :: id in r.settings && r.settings[id] == Now(objects[id]);
      assert e.id in r.settings <==> e.id in objects;
      status := Import(e);
      ghost var after := Current();
      hide Valid;
      assert forall id :: id in after.settings <==> id in objects;
      assert forall id | id in objects :: after.settings[id] == Now(objects[id]);
      assert e.id in after.settings ==> after.settings[e.id] == Now(objects[e.id]);
      if status == Success && !e.delete {
        ToldNamed(objects[e.id]);
      }
    }

    /** An object that is not lost is told of messages to its own and its listener
        addresses. */
    lemma ToldNamed(o: GroupObject)
      requires Valid() && Registered(o) && o !in lost
      ensures forall dest :: dest != 0 ==>
                multiset(Range(index, dest))[o] == (if o.gad == dest then 1 else 0) + multiset(o.listeners)[dest]
    {
      hide Valid;
      forall dest | dest != 0
        ensures multiset(Range(index, dest))[o] == (if o.gad == dest then 1 else 0) + multiset(o.listeners)[dest]
      {
        AgreesAt(o, dest);
        RangeCounts(index, dest, o);
        AddressesCount(o.gad, o.listeners, dest);
      }
    }

    method Import(e: Entry) returns (status: Status)
      requires Valid()
      modifies this`objects, this`index, this`lost, objects.Values
      ensures Valid() && (Current(), status) == Imported(old(Current()), e)
      ensures forall id | id in objects :: objects[id] in old(objects.Values) || fresh(objects[id])
      ensures forall id | id in objects && id in old(objects) :: objects[id] == old(objects)[id]
      ensures status == Success && !e.delete ==> e.id in objects && objects[e.id] !in lost
    {
      ghost var r := Current();
      assert (r.lost + {e.id}) - {e.id} == r.lost - {e.id};
      if e.id in objects {
        var member := objects[e.id];
        TakeOut(member);
        if e.delete {
          if member.references > 0 {
            return StillInUse;
          }
          Unregister(member);
        } else {
          if !e.readable {
            return Unreadable;
          }
          Configure(member, e.gad.OrElse(member.gad), e.listeners.OrElse(member.listeners));
          PutIn(member);
        }
      } else {
        if e.delete {
          return NotFound;
        }
        if !e.readable {
          return Unreadable;
        }
        AddNew(e.id, e.gad.OrElse(0), e.listeners.OrElse([]));
      }
      status := Success;
    }

    method AddNew(id: string, gad: nat, listeners: seq<nat>)
      requires Valid() && id !in objects
      modifies this`objects, this`index
      ensures Valid() && lost == old(lost)
      ensures id in objects && fresh(objects[id]) && objects == old(objects)[id := objects[id]]
      ensures Current() == old(Current()).(settings := old(Current()).settings[id := Settings(gad, listeners, 0)])
    {
      var member := new GroupObject(id, gad, listeners);
      assert member !in lost;
      var status := AddObject(member);
      assert Current().settings == old(Current()).settings[id := Settings(gad, listeners, 0)];
    }

    method Unregister(member: GroupObject)
      requires Valid() && Registered(member) && member in lost
      modifies this`objects, this`lost
      ensures Valid() && objects == old(objects) - {member.id} && lost == old(lost) - {member}
      ensures Current() == Registry(old(Current()).settings - {member.id}, old(Current()).lost - {member.id})
    {
      assert forall id | id in objects :: Agrees(objects[id]);
      AbsentPairs(member);
      hide AgreesIn, Sorted;
      objects := objects - {member.id};
      lost := lost - {member};
      DroppedAgrees(old(lost), member);
      assert Current().settings == old(Current()).settings - {member.id};
      assert Current().lost == old(Current()).lost - {member.id};
    }

    lemma DroppedAgrees(wasLost: set<GroupObject>, member: GroupObject)
      requires Sorted(index) && lost == wasLost - {member}
      requires forall id | id in objects ::
                 objects[id].id == id && objects[id] != member && AgreesIn(index, wasLost, objects[id])
      requires forall o | o in lost :: Registered(o)
      requires forall p | p in index && p.address != 0 :: Registered(p.member)
      ensures Valid()
    {
      hide Sorted, GroupObject.Entered;
      forall id | id in objects ensures Agrees(objects[id]) {
        assert AgreesIn(index, wasLost, objects[id]);
      }
    }

    lemma AbsentPairs(member: GroupObject)
      requires Valid() && Registered(member) && member in lost
      ensures forall p | p in index && p.address != 0 :: p.member != member
    {
      forall p | p in index && p.address != 0 ensures p.member != member {
        assert Count(index, p.address, p.member) > 0;
        AgreesAt(member, p.address);
      }
    }

    method ImportXml(entries: seq<Entry>) returns (status: Status)
      requires Valid()
      modifies this`objects, this`index, this`lost, objects.Values
      ensures Valid() && (Current(), status) == ImportedAll(old(Current()), entries)
    {
      status := Success;
      var k := 0;
      while k < |entries| && status == Success
        invariant 0 <= k <= |entries| && Valid()
        invariant forall id | id in objects :: objects[id] in old(objects.Values) || fresh(objects[id])
        invariant status == Success ==> ImportedAll(old(Current()), entries) == ImportedAll(Current(), entries[k..])
        invariant status != Success ==> ImportedAll(old(Current()), entries) == (Current(), status)
      {
        assert entries[k..][1..] == entries[k + 1..];
        status := ImportEntry(entries[k]);
        k := k + 1;
      }
    }

    /** A list of objects is what a scan of all registered objects for an address would
        tell: each as often as its own address and its listener addresses name it. */
    ghost predicate IsScan(told: seq<GroupObject>, dest: nat)
      reads this, objects.Values
    {
      && (forall o | o in told :: Registered(o))
      && (forall id | id in objects :: objects[id].id == id ==>
            multiset(told)[objects[id]] == multiset(objects[id].Entered())[dest])
    }

    /** Passes a message on to the objects in the index under an address, in order. That
        is a scan of all registered objects exactly when no object that a failed call
        took out of the index names the address. */
    method OnWrite(dest: nat) returns (told: seq<GroupObject>)
      requires Valid()
      ensures told == Range(index, dest)
      ensures dest != 0 ==> (IsScan(told, dest) <==> forall o | o in lost :: dest !in o.Entered())
      ensures dest != 0 && Current().lost == {} ==> IsScan(told, dest)
    {
      told := EqualRange(dest);
      if dest != 0 {
        ToldCounts(dest);
      }
    }

    method EqualRange(dest: nat) returns (found: seq<GroupObject>)
      requires Sorted(index)
      ensures found == Range(index, dest)
    {
      found := [];
      hide Range;
      var i := 0;
      while i < |index| && index[i].address < dest
        invariant 0 <= i <= |index| && Range(index, dest) == Range(index[i..], dest)
      {
        RangeStep(index, i, dest);
        i := i + 1;
      }
      while i < |index| && index[i].address == dest
        invariant 0 <= i <= |index| && Range(index, dest) == found + Range(index[i..], dest)
        invariant i < |index| ==> index[i].address >= dest
      {
        RangeStep(index, i, dest);
        found := found + [index[i].member];
        i := i + 1;
      }
      NoneBelow(index[i..], dest);
    }

    lemma ToldCounts(dest: nat)
      requires Valid() && dest != 0
      ensures IsScan(Range(index, dest), dest) <==> forall o | o in lost :: dest !in o.Entered()
      ensures Current().lost == {} ==> lost == {}
    {
      var told := Range(index, dest);
      hide Range, Sorted, GroupObject.Entered;
      forall o | o in told ensures Registered(o) {
        RangeCounts(index, dest, o);
        assert Pair(dest, o) in index;
      }
      forall id | id in objects
        ensures multiset(told)[objects[id]]
                == if objects[id] in lost then 0 else multiset(objects[id].Entered())[dest]
      {
        AgreesAt(objects[id], dest);
        RangeCounts(index, dest, objects[id]);
      }
      forall o | o in lost
        ensures o.id in objects && objects[o.id] == o && o.id in Current().lost
        ensures dest in o.Entered() <==> multiset(told)[objects[o.id]] != multiset(o.Entered())[dest]
      {
        assert Registered(o);
      }
      if forall o | o in lost :: dest !in o.Entered() {
        assert IsScan(told, dest);
      } else {
        var o :| o in lost && dest in o.Entered();
        assert multiset(told)[objects[o.id]] != multiset(objects[o.id].Entered())[dest];
      }
    }
  }
}
