// The private lists of base/condition_variable_win.cc, as values. E is whatever stands
// for an event: a heap object in EventRing, a number in ConditionVariableSteps.
module CvLists {
  import opened Wrappers

  datatype Lists<E> = Lists(waiting: seq<E>, recycling: seq<E>, recyclingSize: int, allocations: nat)

  // s without its first e, if there is one.
  function Without<E(==)>(s: seq<E>, e: E): (r: seq<E>)
    ensures e !in s ==> r == s
    ensures forall x :: x in r ==> x in s
  {
    if s == [] then []
    else if s[0] == e then s[1..]
    else [s[0]] + Without(s[1..], e)
  }

  // An event is popped from the recycling list whenever the recorded size is not zero.
  predicate PopsSafely<E>(l: Lists<E>) {
    l.recyclingSize == 0 || |l.recycling| > 0
  }

  // GetEventForWaiting: reuse the oldest recycled event, or count a new one.
  function TakenEvent<E>(l: Lists<E>, created: E): E
    requires PopsSafely(l)
  {
    if l.recyclingSize == 0 then created else l.recycling[0]
  }

  function Take<E>(l: Lists<E>, created: E): Lists<E>
    requires PopsSafely(l)
  {
    if l.recyclingSize == 0 then
      l.(waiting := l.waiting + [created], allocations := l.allocations + 1)
    else
      l.(waiting := l.waiting + [l.recycling[0]], recycling := l.recycling[1..],
         recyclingSize := l.recyclingSize - 1)
  }

  // RecycleEvent: leave the waiting list if still there, then join the recycling list.
  function Recycle<E(==)>(l: Lists<E>, e: E): Lists<E> {
    l.(waiting := Without(l.waiting, e), recycling := l.recycling + [e], recyclingSize := l.recyclingSize + 1)
  }

  // What Broadcast and Signal pop, as a stack whose top is the last element.
  function BroadcastHandles<E>(l: Lists<E>): seq<E> {
    Reverse(l.waiting)
  }

  function SignalHandles<E>(l: Lists<E>): seq<E> {
    if l.waiting == [] then [] else [l.waiting[|l.waiting| - 1]]
  }

  function AfterBroadcast<E>(l: Lists<E>): Lists<E> {
    l.(waiting := [])
  }

  function AfterSignal<E>(l: Lists<E>): Lists<E> {
    if l.waiting == [] then l else l.(waiting := l.waiting[..|l.waiting| - 1])
  }

  lemma {:induction false} WithoutMeans<E>(s: seq<E>, e: E) returns (k: nat)
    requires e in s
    ensures k < |s| && s[k] == e && e !in s[..k] && Without(s, e) == s[..k] + s[k+1..]
  {
    if s[0] == e {
      k := 0;
    } else {
      var k' := WithoutMeans(s[1..], e);
      k := k' + 1;
      assert s[..k] == [s[0]] + s[1..][..k'];
    }
  }
}
