// The intrusive list of base/condition_variable_win.cc: events linked into a circular,
// doubly linked ring through a list holder, and the two rings a condition variable keeps.
module EventRing {
  import opened Wrappers
  import opened CvLists

  class Event {
    var handle: int   // 0 for a list holder
    var next: Event
    var prev: Event

    static ghost predicate LinkAt(r: seq<Event>, i: nat)
      requires i < |r|
      reads r
    {
      r[i].next == r[Succ(|r|, i)] && r[Succ(|r|, i)].prev == r[i]
    }

    // Every link of the ring, in both directions, and no event twice.
    static ghost predicate Ring(r: seq<Event>)
      reads r
    {
      r != [] && Distinct(r) && forall i :: 0 <= i < |r| ==> LinkAt(r, i)
    }

    // In no list: a ring of one.
    ghost predicate Alone()
      reads this
    {
      next == this && prev == this
    }

    static ghost function Nodes(list: Event, items: seq<Event>): seq<Event> {
      [list] + items
    }

    // This event is a list holder for exactly these elements, in this order.
    ghost predicate IsList(items: seq<Event>)
      reads this, items
    {
      handle == 0 && Ring(Nodes(this, items)) && forall e :: e in items ==> e.handle != 0
    }

    constructor ()
      ensures handle == 0 && Alone()
    {
      handle := 0;
      next := this;
      prev := this;
    }

    // Changes a list holder into an element; CreateEvent supplies the handle.
    method InitListElement(created: int)
      requires handle == 0 && created != 0 && Alone()
      modifies this`handle
      ensures handle == created && Alone()
    {
      handle := created;
    }

    predicate IsSingleton()
      reads this
    {
      next == this
    }

    predicate ValidateLinks()
      reads this, next, prev
    {
      next.prev == this && prev.next == this
    }

    method PushBack(other: Event, ghost items: seq<Event>)
      requires IsList(items)
      requires other.handle != 0 && other.Alone() && other !in items
      modifies this, items, other
      ensures IsList(items + [other])
      ensures handle == old(handle) && other.handle == old(other.handle)
      ensures forall e :: e in items ==> e.handle == old(e.handle)
    {
      ghost var r := Nodes(this, items);
      assert LinkAt(r, |r| - 1);
      other.prev := prev;
      other.next := this;
      prev.next := other;
      prev := other;
      assert Nodes(this, items + [other]) == r + [other];
      forall i | 0 <= i < |r| + 1
        ensures LinkAt(r + [other], i)
      {
        assert i < |r| - 1 ==> old(LinkAt(r, i));
      }
    }

    method PopFront(ghost items: seq<Event>) returns (e: Event)
      requires IsList(items) && items != []
      modifies this, items
      ensures e == items[0] && e !in items[1..] && IsList(items[1..]) && e.Alone()
      ensures handle == old(handle) && forall x :: x in items ==> x.handle == old(x.handle)
    {
      ghost var r := Nodes(this, items);
      assert LinkAt(r, 0);
      assert r[..1] + r[2..] == Nodes(this, items[1..]);
      e := next.Extract(r, 1);
    }

    method PopBack(ghost items: seq<Event>) returns (e: Event)
      requires IsList(items) && items != []
      modifies this, items
      ensures e == items[|items| - 1] && e !in items[..|items| - 1]
      ensures IsList(items[..|items| - 1]) && e.Alone()
      ensures handle == old(handle) && forall x :: x in items ==> x.handle == old(x.handle)
    {
      ghost var r := Nodes(this, items);
      assert LinkAt(r, |r| - 1);
      assert r[..|r| - 1] + r[|r|..] == Nodes(this, items[..|items| - 1]);
      e := prev.Extract(r, |r| - 1);
      assert forall i :: 0 <= i < |items| ==> r[i+1] == items[i];
    }

    // Pulls the element at position k out of its ring r, whether or not it is alone there.
    method Extract(ghost r: seq<Event>, ghost k: nat) returns (e: Event)
      requires Ring(r) && k < |r| && r[k] == this
      modifies r
      ensures e == this && Alone()
      ensures |r| > 1 ==> Ring(r[..k] + r[k+1..])
      ensures |r| == 1 ==> unchanged(this)
      ensures forall x :: x in r ==> x.handle == old(x.handle)
    {
      ghost var rest, pred := r[..k] + r[k+1..], if k == 0 then |r| - 1 else k - 1;
      assert LinkAt(r, k) && LinkAt(r, pred);
      if next != this {
        next.prev := prev;
        prev.next := next;
        prev := this;
        next := this;
        forall i | 0 <= i < |rest|
          ensures LinkAt(rest, i)
        {
          assert old(LinkAt(r, if i < k then i else i + 1));
        }
      }
      return this;
    }
  }

  // A ring whose links are untouched is still a ring.
  twostate lemma RingUnchanged(r: seq<Event>)
    requires old(Event.Ring(r))
    requires forall e :: e in r ==> e.next == old(e.next) && e.prev == old(e.prev)
    ensures Event.Ring(r)
  {
    forall i | 0 <= i < |r|
      ensures Event.LinkAt(r, i)
    {
      assert old(Event.LinkAt(r, i));
    }
  }

  // The local check of the DCHECKs follows from the whole-ring invariant, everywhere.
  lemma RingValidates(r: seq<Event>, k: nat)
    requires Event.Ring(r) && k < |r|
    ensures r[k].ValidateLinks()
    ensures r[k].IsSingleton() <==> |r| == 1
  {
    var pred := if k == 0 then |r| - 1 else k - 1;
    assert Event.LinkAt(r, k) && Event.LinkAt(r, pred);
  }

  /** The private state of a ConditionVariable. The two lists share no event, and the events
      popped from them (held) are singletons in the hands of the threads that own them. */
  class ConditionVariable {
    const waitingList: Event
    const recyclingList: Event
    var recyclingListSize: int
    var allocationCounter: nat

    ghost var waiting: seq<Event>
    ghost var recycling: seq<Event>
    ghost var held: set<Event>
    ghost var Repr: set<object>

    static ghost predicate HeldOk(e: Event)
      reads e
    {
      e.handle != 0 && e.Alone()
    }

    // Every event is in one ring only, or held.
    static ghost predicate Apart(waiting: seq<Event>, recycling: seq<Event>, held: set<Event>, all: set<object>) {
      && (forall e :: e in waiting ==> e in all && e !in recycling && e !in held)
      && (forall e :: e in recycling ==> e in all && e !in held)
      && held <= all
    }

    ghost predicate Valid()
      reads this, Repr
      ensures Valid() ==> this in Repr
    {
      && this in Repr
      && Apart(Event.Nodes(waitingList, waiting), Event.Nodes(recyclingList, recycling), held, Repr)
      && waitingList.IsList(waiting) && recyclingList.IsList(recycling)
      && (forall e :: e in held ==> HeldOk(e))
      && recyclingListSize == |recycling|
    }

    ghost function Abs(): Lists<Event>
      reads this
    {
      Lists(waiting, recycling, recyclingListSize, allocationCounter)
    }

    constructor ()
      ensures Valid() && fresh(Repr)
      ensures Abs() == Lists([], [], 0, 0) && held == {}
    {
      waitingList := new Event();
      recyclingList := new Event();
      recyclingListSize := 0;
      allocationCounter := 0;
      waiting, recycling, held := [], [], {};
      new;
      assert [waitingList] + [] == [waitingList] && [recyclingList] + [] == [recyclingList];
      assert Event.LinkAt([waitingList], 0) && Event.LinkAt([recyclingList], 0);
      Repr := {this, waitingList, recyclingList};
    }

    // ----- Single list operations with their bookkeeping: events change hands through held -----

    method AllocateEvent(created: int) returns (e: Event)
      requires Valid() && created != 0
      modifies this
      ensures Valid() && Repr == old(Repr) + {e} && fresh(e)
      ensures Abs() == old(Abs()).(allocations := old(allocationCounter) + 1) && held == old(held) + {e}
    {
      e := new Event();
      e.InitListElement(created);
      allocationCounter := allocationCounter + 1;
      held, Repr := held + {e}, Repr + {e};
    }

    method TakeRecycled() returns (e: Event)
      requires Valid() && recycling != []
      modifies this, Repr
      ensures Valid() && Repr == old(Repr)
      ensures e == old(recycling)[0] && held == old(held) + {e}
      ensures Abs() == old(Abs()).(recycling := old(recycling)[1..], recyclingSize := old(recyclingListSize) - 1)
    {
      ghost var nodes := Event.Nodes(recyclingList, recycling);
      assert forall i :: 0 <= i < |recycling| ==> nodes[i+1] == recycling[i];
      label popping:
      e := recyclingList.PopFront(recycling);
      RingUnchanged@popping(Event.Nodes(waitingList, waiting));
      recycling := recycling[1..];
      held := held + {e};
      recyclingListSize := recyclingListSize - 1;
    }

    method AppendWaiting(e: Event)
      requires Valid() && e in held
      modifies this, Repr
      ensures Valid() && Repr == old(Repr)
      ensures Abs() == old(Abs()).(waiting := old(waiting) + [e]) && held == old(held) - {e}
    {
      assert forall x :: x in waiting ==> x in Event.Nodes(waitingList, waiting);
      label pushing:
      waitingList.PushBack(e, waiting);
      RingUnchanged@pushing(Event.Nodes(recyclingList, recycling));
      waiting, held := waiting + [e], held - {e};
    }

    method AppendRecycled(e: Event)
      requires Valid() && e in held
      modifies this, Repr
      ensures Valid() && Repr == old(Repr)
      ensures Abs() == old(Abs()).(recycling := old(recycling) + [e], recyclingSize := old(recyclingListSize) + 1)
      ensures held == old(held) - {e}
    {
      assert forall x :: x in recycling ==> x in Event.Nodes(recyclingList, recycling);
      label pushing:
      recyclingList.PushBack(e, recycling);
      RingUnchanged@pushing(Event.Nodes(waitingList, waiting));
      recycling, held := recycling + [e], held - {e};
      recyclingListSize := recyclingListSize + 1;
    }

    // Taking item k out of a list takes node k + 1 out of its ring.
    static lemma NodesWithout(list: Event, items: seq<Event>, k: nat)
      requires k < |items|
      ensures var nodes := Event.Nodes(list, items);
              nodes[k+1] == items[k] && nodes[..k+1] + nodes[k+2..] == Event.Nodes(list, items[..k] + items[k+1..])
    {
      var nodes := Event.Nodes(list, items);
      assert nodes[..k+1] == [list] + items[..k] && nodes[k+2..] == items[k+1..];
    }

    // Where e sits in its ring: among the waiting events, or alone.
    lemma WhereIs(e: Event) returns (ring: seq<Event>, at: nat)
      requires Valid() && (e in waiting || e in held)
      ensures Event.Ring(ring) && at < |ring| && ring[at] == e && e !in Without(waiting, e)
      ensures if e in held then ring == [e] && Without(waiting, e) == waiting
              else ring == Event.Nodes(waitingList, waiting)
                   && ring[..at] + ring[at+1..] == Event.Nodes(waitingList, Without(waiting, e))
      ensures forall x :: x in Without(waiting, e) ==> x in waiting
      ensures forall x :: x in ring ==> x !in Event.Nodes(recyclingList, recycling) && (x == e || x !in held)
      ensures e in held ==> forall x :: x in ring ==> x !in Event.Nodes(waitingList, waiting)
    {
      if e in waiting {
        var k := WithoutMeans(waiting, e);
        NodesWithout(waitingList, waiting, k);
        ring, at := Event.Nodes(waitingList, waiting), k + 1;
        OnlyOnce(waiting, k);
      } else {
        ring, at := [e], 0;
        assert Event.LinkAt(ring, 0);
        assert e !in Event.Nodes(waitingList, waiting);
        assert forall x :: x in waiting ==> x in Event.Nodes(waitingList, waiting);
      }
    }

    lemma OnlyOnce(items: seq<Event>, k: nat)
      requires k < |items| && Distinct(Event.Nodes(waitingList, items))
      ensures items[k] !in items[..k] + items[k+1..]
      ensures forall x :: x in items[..k] + items[k+1..] ==> x in items
    {
      var nodes := Event.Nodes(waitingList, items);
      assert forall i :: 0 <= i < |items| ==> nodes[i+1] == items[i];
    }

    // An event taken out of the waiting list, if it is there, goes into its thread's hands.
    static lemma ApartWithout(list: Event, waiting: seq<Event>, rest: seq<Event>, recycling: seq<Event>,
                              held: set<Event>, all: set<object>, e: Event)
      requires Apart(Event.Nodes(list, waiting), recycling, held, all) && (e in waiting || e in held)
      requires e !in rest && e != list && forall x :: x in rest ==> x in waiting
      ensures Apart(Event.Nodes(list, rest), recycling, held + {e}, all)
    {
      var nodes := Event.Nodes(list, waiting);
      assert list in nodes && forall x :: x in waiting ==> x in nodes;
    }

    // Extract, not knowing whether the event is still listed: what becomes of the rings.
    method ExtractFromRing(e: Event)
      requires Valid() && (e in waiting || e in held)
      modifies Repr - {this}
      ensures waitingList.IsList(Without(waiting, e)) && recyclingList.IsList(recycling)
      ensures forall x :: x in held + {e} ==> HeldOk(x)
    {
      ghost var ring, at := WhereIs(e);
      NotTheList(e);
      label extracting:
      var _ := e.Extract(ring, at);
      RingUnchanged@extracting(Event.Nodes(recyclingList, recycling));
      if e in held {
        RingUnchanged@extracting(Event.Nodes(waitingList, waiting));
      }
    }

    method ExtractUsed(e: Event)
      requires Valid() && (e in waiting || e in held)
      modifies this`waiting, this`held, Repr - {this}
      ensures Valid()
      ensures Abs() == old(Abs()).(waiting := Without(old(waiting), e)) && held == old(held) + {e}
    {
      ghost var _, _ := WhereIs(e);
      NotTheList(e);
      ApartWithout(waitingList, waiting, Without(waiting, e), Event.Nodes(recyclingList, recycling), held, Repr, e);
      ExtractFromRing(e);
      waiting, held := Without(waiting, e), held + {e};
    }

    lemma NotTheList(e: Event)
      requires Valid() && (e in waiting || e in held)
      ensures e != waitingList
    {
      assert waitingList in Event.Nodes(waitingList, waiting);
    }

    // ----- The methods called with internal_lock_ held -----

    method GetEventForWaiting(created: int) returns (e: Event)
      requires Valid() && created != 0
      modifies this, Repr
      ensures Valid() && fresh(Repr - old(Repr))
      ensures e == TakenEvent(old(Abs()), e) && Abs() == Take(old(Abs()), e)
      ensures waiting == old(waiting) + [e] && e.handle != 0
      // An event is reused when there is one, the one recycled longest ago.
      ensures if old(recycling) == [] then
                fresh(e) && allocationCounter == old(allocationCounter) + 1 && recycling == []
              else
                && e == old(recycling)[0] && recycling == old(recycling)[1..]
                && allocationCounter == old(allocationCounter)
      ensures held == old(held)
    {
      if recyclingListSize == 0 {
        e := AllocateEvent(created);
      } else {
        e := TakeRecycled();
      }
      AppendWaiting(e);
    }

    method RecycleEvent(usedEvent: Event)
      requires Valid() && (usedEvent in waiting || usedEvent in held)
      modifies this, Repr
      ensures Valid() && Repr == old(Repr)
      ensures Abs() == Recycle(old(Abs()), usedEvent)
      ensures held == old(held) - {usedEvent} && recycling == old(recycling) + [usedEvent] && usedEvent !in waiting
    {
      ExtractUsed(usedEvent);
      AppendRecycled(usedEvent);
    }

    lemma NobodyWaits()
      requires Valid()
      ensures waitingList.IsSingleton() <==> waiting == []
    {
      RingValidates(Event.Nodes(waitingList, waiting), 0);
    }

    // One PopBack from the waiting list, with its bookkeeping.
    method PopWaiting() returns (e: Event)
      requires Valid() && waiting != []
      modifies this`waiting, this`held, waitingList, waiting
      ensures Valid()
      ensures e == old(waiting)[|old(waiting)| - 1] && waiting == old(waiting)[..|old(waiting)| - 1]
      ensures held == old(held) + {e} && forall x :: x in held ==> x.handle == old(x.handle)
    {
      ghost var n := |waiting| - 1;
      ghost var last, rest := waiting[n], waiting[..n];
      WaitingApart();
      NotTheList(last);
      OnlyOnce(waiting, n);
      ApartWithout(waitingList, waiting, rest, Event.Nodes(recyclingList, recycling), held, Repr, last);
      label popping:
      e := waitingList.PopBack(waiting);
      RingUnchanged@popping(Event.Nodes(recyclingList, recycling));
      waiting, held := rest, held + {e};
    }

    lemma WaitingApart()
      requires Valid()
      ensures forall x :: x in waiting ==> x !in Event.Nodes(recyclingList, recycling) && x !in held
      ensures waitingList !in Event.Nodes(recyclingList, recycling) && waitingList !in held
    {
      var nodes := Event.Nodes(waitingList, waiting);
      assert waitingList in nodes && forall x :: x in waiting ==> x in nodes;
    }

    static ghost predicate HandlesOf(events: seq<Event>, handles: seq<int>)
      reads events
    {
      |handles| == |events| && forall i :: 0 <= i < |events| ==> handles[i] == events[i].handle
    }

    // Pops the last waiter and pushes its handle.
    method PushHandle(handles: seq<int>, ghost popped: seq<Event>)
      returns (handles': seq<int>, ghost popped': seq<Event>)
      requires Valid() && waiting != [] && HandlesOf(popped, handles) && forall e :: e in popped ==> e in held
      modifies this`waiting, this`held, waitingList, waiting
      ensures Valid() && waiting == old(waiting)[..|old(waiting)| - 1]
      ensures popped' == popped + [old(waiting)[|old(waiting)| - 1]] && HandlesOf(popped', handles')
      ensures held == old(held) + {old(waiting)[|old(waiting)| - 1]}
    {
      var e := PopWaiting();
      assert HandlesOf(popped, handles);
      handles', popped' := handles + [e.handle], popped + [e];
    }

    static lemma PoppedOne(all: seq<Event>, rest: seq<Event>, popped: seq<Event>)
      requires rest != [] && Reverse(all) == popped + Reverse(rest)
      ensures var n := |rest| - 1; Reverse(all) == popped + [rest[n]] + Reverse(rest[..n])
    {
      ReverseLast(rest);
      ConcatAssoc(popped, [rest[|rest| - 1]], Reverse(rest[..|rest| - 1]));
    }

    // The loop of Broadcast.
    method PopAll() returns (handles: seq<int>, ghost popped: seq<Event>)
      requires Valid()
      modifies this`waiting, this`held, Repr - {this}
      ensures Valid() && waiting == [] && popped == Reverse(old(waiting))
      ensures forall e :: e in held <==> e in old(held) || e in popped
      ensures HandlesOf(popped, handles)
    {
      handles, popped := [], [];
      while !waitingList.IsSingleton()
        invariant Valid() && Reverse(old(waiting)) == popped + Reverse(waiting)
        invariant (forall e :: e in held <==> e in old(held) || e in popped) && HandlesOf(popped, handles)
        decreases |waiting|
      {
        NobodyWaits();
        PoppedOne(old(waiting), waiting, popped);
        handles, popped := PushHandle(handles, popped);
      }
      NobodyWaits();
    }

    // The locked part of Broadcast: pops the whole waiting list on a stack of handles.
    method BroadcastLocked() returns (handles: seq<int>, ghost popped: seq<Event>)
      requires Valid()
      modifies this`waiting, this`held, Repr - {this}
      ensures Valid()
      ensures popped == BroadcastHandles(old(Abs())) && Abs() == AfterBroadcast(old(Abs()))
      // The waiter of longest standing ends on top of the stack.
      ensures waiting == [] && |popped| == |old(waiting)|
      ensures forall i :: 0 <= i < |popped| ==> popped[i] == old(waiting)[|popped| - 1 - i]
      ensures forall e :: e in held <==> e in old(held) || e in popped
      ensures HandlesOf(popped, handles)
    {
      handles, popped := PopAll();
    }

    // The locked part of Signal: at most one handle, the last waiter's.
    method SignalLocked() returns (handles: seq<int>, ghost popped: seq<Event>)
      requires Valid()
      modifies this`waiting, this`held, waitingList, waiting
      ensures Valid()
      ensures popped == SignalHandles(old(Abs())) && Abs() == AfterSignal(old(Abs()))
      ensures old(waiting) == waiting + popped && |popped| == if old(waiting) == [] then 0 else 1
      ensures forall e :: e in held <==> e in old(held) || e in popped
      ensures HandlesOf(popped, handles)
    {
      NobodyWaits();
      handles, popped := [], [];
      if !waitingList.IsSingleton() {
        var e := PopWaiting();
        handles, popped := [e.handle], [e];
      }
    }
  }
}
