// base/linked_ptr.h on the heap: linked_ptr objects threaded into circular singly linked
// rings, one ring for each shared object.
module LinkedPtrs {
  import opened Wrappers
  import opened SharedOwnership

  class LinkedPtr {
    var value: int        // the raw pointer; 0 is NULL
    var next: LinkedPtr

    // Uninitialised storage; one of Heap's construction methods fills it in.
    constructor ()
      ensures value == 0 && next == this
    {
      value := 0;
      next := this;
    }

    static ghost predicate LinkAt(r: seq<LinkedPtr>, i: nat)
      requires i < |r|
      reads r
    {
      r[i].next == r[Succ(|r|, i)]
    }

    static ghost predicate AllTo(r: seq<LinkedPtr>, obj: int)
      reads r
    {
      forall p :: p in r ==> p.value == obj
    }

    // r is a whole circle, and all of it points to obj.
    static ghost predicate Ring(r: seq<LinkedPtr>, obj: int)
      reads r
    {
      r != [] && Distinct(r) && AllTo(r, obj) && forall i :: 0 <= i < |r| ==> LinkAt(r, i)
    }

    // ----- linked_ptr_internal -----

    method JoinNew()
      modifies this`next
      ensures next == this
    {
      next := this;
    }

    method Join(ptr: LinkedPtr, ghost r: seq<LinkedPtr>, ghost k: nat)
      requires Ring(r, ptr.value) && k < |r| && r[k] == ptr
      requires this !in r && value == ptr.value
      modifies this`next, ptr`next
      ensures Ring(r[..k+1] + [this] + r[k+1..], value)
    {
      ghost var r' := r[..k+1] + [this] + r[k+1..];
      assert LinkAt(r, k);
      WithOneMore(r, k, this);
      next := ptr.next;
      ptr.next := this;
      forall i | 0 <= i < |r'|
        ensures LinkAt(r', i)
      {
        assert i < k ==> old(LinkAt(r, i));
        assert i > k + 1 ==> old(LinkAt(r, i - 1));
      }
    }

    // The walk ends at the predecessor, wherever this is in its circle.
    method Depart(ghost r: seq<LinkedPtr>, ghost k: nat) returns (last: bool)
      requires Ring(r, value) && k < |r| && r[k] == this
      modifies r
      ensures last <==> |r| == 1
      ensures !last ==> Ring(r[..k] + r[k+1..], value)
      ensures value == old(value) && next == old(next)
    {
      assert LinkAt(r, k);
      if next == this {
        return true;
      }
      var p := next;
      ghost var j: nat := Succ(|r|, k);
      while p.next != this
        invariant j < |r| && j != k && p == r[j]
        decreases if j <= k then k - j else |r| - j + k
      {
        assert LinkAt(r, j);
        p := p.next;
        j := Succ(|r|, j);
      }
      assert LinkAt(r, j);
      ghost var rest := r[..k] + r[k+1..];
      WithoutOne(r, k);
      p.next := next;
      forall i | 0 <= i < |rest|
        ensures LinkAt(rest, i)
      {
        ghost var was := if i < k then i else i + 1;
        assert rest[i] == r[was] && old(LinkAt(r, was));
        ghost var after := Succ(|rest|, i);
        assert rest[after] == r[if after < k then after else after + 1];
      }
      last := false;
    }
  }

  // A ring of untouched linked_ptrs is still a ring.
  twostate lemma RingUnchanged(r: seq<LinkedPtr>)
    requires forall p :: p in r ==> p.next == old(p.next) && p.value == old(p.value)
    ensures forall obj :: old(LinkedPtr.Ring(r, obj)) ==> LinkedPtr.Ring(r, obj)
  {
    forall obj | old(LinkedPtr.Ring(r, obj))
      ensures LinkedPtr.Ring(r, obj)
    {
      forall i | 0 <= i < |r|
        ensures LinkedPtr.LinkAt(r, i)
      {
        assert old(LinkedPtr.LinkAt(r, i));
      }
    }
  }

  // A member taken out of a sequence, and one put in behind position k.
  lemma WithoutOne(r: seq<LinkedPtr>, k: nat)
    requires Distinct(r) && k < |r|
    ensures var rest := r[..k] + r[k+1..];
            r[k] !in rest && Distinct(rest) && forall q :: q in r <==> q in rest || q == r[k]
    ensures |r| == 1 ==> r == [r[k]]
  {
  }

  lemma WithOneMore(r: seq<LinkedPtr>, k: nat, p: LinkedPtr)
    requires Distinct(r) && k < |r| && p !in r
    ensures var more := r[..k+1] + [p] + r[k+1..]; Distinct(more) && forall q :: q in more <==> q in r || q == p
  {
    var more := r[..k+1] + [p] + r[k+1..];
    forall q
      ensures q in more <==> q in r || q == p
    {
      assert r == r[..k+1] + r[k+1..];
    }
    forall i, j | 0 <= i < j < |more|
      ensures more[i] != more[j]
    {
      assert more[i] == if i <= k then r[i] else if i == k + 1 then p else r[i-1];
      assert more[j] == if j <= k then r[j] else if j == k + 1 then p else r[j-1];
    }
  }

  /** All live linked_ptrs, and the objects they have deleted. Every shared object has one
      ring, which holds exactly the linked_ptrs to it; a null linked_ptr is alone. */
  class Heap {
    var deleted: seq<int>
    ghost var live: set<LinkedPtr>
    ghost var rings: map<int, seq<LinkedPtr>>
    ghost var captured: set<int>
    ghost var released: set<int>

    ghost predicate RingsOk()
      reads this, live
    {
      forall obj :: obj in rings ==> RingOk(obj)
    }

    ghost predicate RingOk(obj: int)
      requires obj in rings
      reads this, live
    {
      obj != 0 && (forall p :: p in rings[obj] ==> p in live) && LinkedPtr.Ring(rings[obj], obj)
    }

    ghost predicate PlacedOk(p: LinkedPtr)
      reads this, p
    {
      if p.value == 0 then p.next == p else p.value in rings && p in rings[p.value]
    }

    ghost predicate Valid()
      reads this, live
    {
      RingsOk() && rings.Keys <= captured && forall p :: p in live ==> PlacedOk(p)
    }

    ghost function Abs(): Shares<LinkedPtr>
      reads this, live
    {
      Shares(map p | p in live :: p.value, captured, deleted, released)
    }

    ghost predicate PointedTo(obj: int)
      reads this, live
    {
      exists x :: x in live && x.value == obj
    }

    constructor ()
      ensures Valid() && live == {} && Abs() == Shares(map[], {}, [], {})
    {
      deleted := [];
      live, rings, captured, released := {}, map[], {}, {};
    }

    lemma HeldMeans(obj: int)
      ensures HeldIn(Abs().held, obj) <==> PointedTo(obj)
    {
      if x :| x in live && x.value == obj {
        assert x in Abs().held && Abs().held[x] == obj;
      }
    }

    // Where p sits in its ring.
    lemma WhereIs(p: LinkedPtr) returns (r: seq<LinkedPtr>, k: nat)
      requires Valid() && p in live
      ensures LinkedPtr.Ring(r, p.value) && k < |r| && r[k] == p
      ensures forall q :: q in r ==> q in live
      ensures if p.value == 0 then r == [p] else r == rings[p.value]
      ensures forall q :: q in live && q !in r ==> q.value != p.value || p.value == 0
    {
      assert PlacedOk(p);
      if p.value == 0 {
        r, k := [p], 0;
        assert LinkedPtr.LinkAt(r, 0);
      } else {
        r := rings[p.value];
        k :| 0 <= k < |r| && r[k] == p;
      }
      forall q | q in live && q !in r
        ensures q.value != p.value || p.value == 0
      {
        assert PlacedOk(q);
      }
    }

    // Another holder of p's object is another member of p's ring.
    lemma SoleHolder(p: LinkedPtr, r: seq<LinkedPtr>, k: nat)
      requires Valid() && p in live && p.value != 0
      requires p.value in rings && r == rings[p.value] && k < |r| && r[k] == p
      ensures HeldIn(Abs().held - {p}, p.value) <==> |r| > 1
    {
      var rest := Abs().held - {p};
      if |r| > 1 {
        var q := if k == 0 then r[1] else r[0];
        assert q in r && q != p;
        assert q in rest && rest[q] == p.value;
      } else if q :| q in rest && rest[q] == p.value {
        assert PlacedOk(q);
      }
    }

    // ----- The private depart(), capture() and copy() of linked_ptr -----

    // The ring that p is to leave, and what will be left of it.
    lemma BeforeLeaving(p: LinkedPtr) returns (r: seq<LinkedPtr>, k: nat, rest: seq<LinkedPtr>)
      requires Valid() && p in live
      ensures LinkedPtr.Ring(r, p.value) && k < |r| && r[k] == p && rest == r[..k] + r[k+1..]
      ensures p !in rest && forall q :: q in r <==> q in rest || q == p
      ensures forall q :: q in r ==> q in live
      ensures if p.value == 0 then r == [p] else r == rings[p.value]
      ensures |r| == 1 ==> r == [p] && p.next == p
      ensures p.value != 0 ==> (HeldIn(Abs().held - {p}, p.value) <==> |r| > 1)
      ensures forall o, q :: o in rings && o != p.value && q in rings[o] ==> q !in r
    {
      r, k := WhereIs(p);
      rest := r[..k] + r[k+1..];
      WithoutOne(r, k);
      assert LinkedPtr.LinkAt(r, k);
      if p.value != 0 {
        SoleHolder(p, r, k);
      }
      OtherRings(p, r);
    }

    // What is left of p's ring when p is gone; p may be any member.
    method LeaveRing(p: LinkedPtr) returns (last: bool, ghost rest: seq<LinkedPtr>)
      requires Valid() && p in live
      modifies live
      ensures Abs() == old(Abs()) && forall q :: q in live ==> q.value == old(q.value)
      ensures last <==> p.value == 0 || !HeldIn(old(Abs()).held - {p}, p.value)
      ensures !last ==> LinkedPtr.Ring(rest, p.value) && forall q :: q in rings[p.value] <==> q in rest || q == p
      ensures !last ==> p !in rest
      ensures last ==> p.next == p && (p.value != 0 ==> rings[p.value] == [p])
      ensures forall o :: o in rings && o != p.value ==> RingOk(o)
      ensures forall q :: q in live && q != p ==> PlacedOk(q)
    {
      ghost var r, k;
      r, k, rest := BeforeLeaving(p);
      label departing:
      last := p.Depart(r, k);
      OthersKept@departing(r);
      OthersPlaced@departing(r);
    }

    // Only members of p's ring are in it.
    lemma OtherRings(p: LinkedPtr, r: seq<LinkedPtr>)
      requires Valid() && p in live && LinkedPtr.Ring(r, p.value) && (p.value == 0 ==> r == [p])
      ensures forall o, q :: o in rings && o != p.value && q in rings[o] ==> q !in r
    {
      forall o, q | o in rings && o != p.value && q in rings[o]
        ensures q !in r
      {
        assert RingOk(o);
      }
    }

    method Depart(p: LinkedPtr)
      requires Valid() && p in live
      modifies this, live
      ensures Valid() && live == old(live) - {p}
      ensures Abs() == Drop(old(Abs()), p)
      ensures forall x :: x in old(live) ==> x.value == old(x.value)
    {
      var last;
      ghost var rest;
      last, rest := LeaveRing(p);
      label left:
      if last {
        if p.value != 0 {
          deleted := deleted + [p.value];
        }
      }
      live := live - {p};
      if p.value != 0 {
        rings := if last then rings - {p.value} else rings[p.value := rest];
      }
      forall o | o in rings
        ensures RingOk(o)
      {
        assert o != p.value ==> old@left(RingOk(o));
      }
      assert Abs().held == old(Abs()).held - {p};
    }

    // Changing only members of r leaves every other ring alone.
    twostate lemma OthersKept(r: seq<LinkedPtr>)
      requires old(Valid()) && OnlyLinksOf(r)
      ensures forall o :: o in rings && (forall p :: p in rings[o] ==> p !in r) ==> RingOk(o)
    {
      forall o | o in rings && forall p :: p in rings[o] ==> p !in r
        ensures RingOk(o)
      {
        assert old(RingOk(o));
        RingUnchanged(rings[o]);
      }
    }

    twostate predicate OnlyLinksOf(r: seq<LinkedPtr>)
      reads this, live
    {
      && rings == old(rings) && live == old(live)
      && forall p :: p in live ==> p.value == old(p.value) && (p !in r ==> p.next == old(p.next))
    }

    // Nor does it matter where the others belong, unless one of them was null.
    twostate lemma OthersPlaced(r: seq<LinkedPtr>)
      requires old(Valid()) && OnlyLinksOf(r)
      ensures forall q :: q in live && (q.value != 0 || q !in r) ==> PlacedOk(q)
    {
      forall q | q in live && (q.value != 0 || q !in r)
        ensures PlacedOk(q)
      {
        assert old(PlacedOk(q));
      }
    }

    method Capture(p: LinkedPtr, obj: int)
      requires Valid() && p !in live && (obj == 0 || obj !in captured)
      modifies this, p
      ensures Valid() && live == old(live) + {p}
      ensures Abs() == Hold(old(Abs()), p, obj)
      ensures p.value == obj
    {
      label capturing:
      p.value := obj;
      p.JoinNew();
      forall o | o in rings
        ensures LinkedPtr.Ring(rings[o], o)
      {
        RingUnchanged@capturing(rings[o]);
      }
      live := live + {p};
      if obj != 0 {
        assert LinkedPtr.LinkAt([p], 0);
        rings, captured := rings[obj := [p]], captured + {obj};
      }
      assert Abs().held == old(Abs()).held[p := obj];
    }

    // Joins the ring of q, if it has one.
    method JoinRing(p: LinkedPtr, q: LinkedPtr) returns (ghost more: seq<LinkedPtr>)
      requires Valid() && p !in live && q in live
      modifies p, q
      ensures forall x :: x in live ==> x.value == old(x.value)
      ensures p.value == q.value
      ensures if p.value == 0 then p.next == p
              else LinkedPtr.Ring(more, p.value) && forall x :: x in more <==> x in rings[p.value] || x == p
      ensures forall o :: o in rings && o != p.value ==> RingOk(o)
      ensures forall x :: x in live ==> PlacedOk(x)
    {
      ghost var r, k := WhereIs(q);
      more := r[..k+1] + [p] + r[k+1..];
      OtherRings(q, r);
      WithOneMore(r, k, p);
      label copying:
      p.value := q.value;
      if p.value != 0 {
        RingUnchanged@copying(r);
        p.Join(q, r, k);
      } else {
        p.JoinNew();
      }
      OthersKept@copying(r);
      OthersPlaced@copying(r);
      if p.value == 0 {
        assert old(PlacedOk(q));
      }
    }

    method CopyFrom(p: LinkedPtr, q: LinkedPtr)
      requires Valid() && p !in live && q in live
      modifies this, p, q
      ensures Valid() && live == old(live) + {p}
      ensures p.value == q.value && forall x :: x in old(live) ==> x.value == old(x.value)
      ensures Abs() == old(Abs()).(held := old(Abs()).held[p := q.value])
    {
      ghost var more := JoinRing(p, q);
      label joined:
      live := live + {p};
      if p.value != 0 {
        assert old@joined(PlacedOk(q));
        rings := rings[p.value := more];
      }
      forall o | o in rings
        ensures RingOk(o)
      {
        assert o != p.value ==> old@joined(RingOk(o));
      }
      forall x | x in live
        ensures PlacedOk(x)
      {
        assert x != p ==> old@joined(PlacedOk(x));
      }
      assert Abs().held == old(Abs()).held[p := q.value];
    }

    // ----- The public operations -----

    method Create(obj: int) returns (p: LinkedPtr)
      requires Valid() && (obj == 0 || obj !in captured)
      modifies this
      ensures Valid() && fresh(p) && live == old(live) + {p}
      ensures Abs() == Apply(old(Abs()), Op.Create(p, obj))
      ensures p.value == obj && forall x :: x in old(live) ==> x.value == old(x.value)
    {
      p := new LinkedPtr();
      Capture(p, obj);
    }

    method CreateCopy(q: LinkedPtr) returns (p: LinkedPtr)
      requires Valid() && q in live
      modifies this, q
      ensures Valid() && fresh(p) && live == old(live) + {p}
      ensures Abs() == Apply(old(Abs()), Op.CreateCopy(p, q))
      ensures p.value == old(q.value) && forall x :: x in old(live) ==> x.value == old(x.value)
    {
      p := new LinkedPtr();
      CopyFrom(p, q);
    }

    method Assign(p: LinkedPtr, q: LinkedPtr)
      requires Valid() && p in live && q in live
      modifies this, live
      ensures Valid() && live == old(live)
      ensures Abs() == Apply(old(Abs()), Op.Assign(p, q))
      ensures p.value == old(q.value)
      ensures forall x :: x in old(live) && x != p ==> x.value == old(x.value)
    {
      if q != p {
        Depart(p);
        assert Abs().held[q] == q.value;
        CopyFrom(p, q);
      }
    }

    method Reset(p: LinkedPtr, obj: int)
      requires Valid() && p in live && (obj == 0 || obj !in captured)
      modifies this, live
      ensures Valid() && live == old(live)
      ensures Abs() == Apply(old(Abs()), Op.Reset(p, obj))
      ensures p.value == obj
      ensures forall x :: x in old(live) && x != p ==> x.value == old(x.value)
    {
      Depart(p);
      Capture(p, obj);
    }

    method Destroy(p: LinkedPtr)
      requires Valid() && p in live
      modifies this, live
      ensures Valid() && live == old(live) - {p}
      ensures Abs() == Apply(old(Abs()), Op.Destroy(p))
      ensures forall x :: x in old(live) && x != p ==> x.value == old(x.value)
      // The object goes exactly when nobody else points to it.
      ensures deleted == old(deleted) + if p.value == 0 || PointedTo(p.value) then [] else [p.value]
    {
      Depart(p);
      HeldMeans(p.value);
    }

    // Sole ownership is required (the source CHECKs it).
    method Release(p: LinkedPtr) returns (v: int)
      requires Valid() && Enabled(Abs(), Op.Release(p))
      modifies this, live
      ensures Valid() && live == old(live) && v == old(p.value) && p.value == 0 && deleted == old(deleted)
      ensures forall x :: x in old(live) && x != p ==> x.value == old(x.value)
      ensures Abs() == Apply(old(Abs()), Op.Release(p))
    {
      var last;
      ghost var rest;
      last, rest := LeaveRing(p);
      label left:
      v := p.value;
      p.value := 0;
      ghost var without := rings - {v};
      if v != 0 {
        rings, released := without, released + {v};
      }
      forall o | o in rings
        ensures RingOk(o)
      {
        assert old@left(RingOk(o));
      }
      assert Abs().held == old(Abs()).held[p := 0];
    }

    // ----- What the links mean -----

    // Following n links from p leads to q.
    ghost predicate Reaches(p: LinkedPtr, q: LinkedPtr, n: nat)
      reads this, live
    {
      p in live && if n == 0 then p == q else Reaches(p.next, q, n - 1)
    }

    lemma {:induction false} StaysInRing(r: seq<LinkedPtr>, k: nat, obj: int, q: LinkedPtr, n: nat)
      requires LinkedPtr.Ring(r, obj) && k < |r| && Reaches(r[k], q, n)
      ensures q in r
      decreases n
    {
      if n > 0 {
        assert LinkedPtr.LinkAt(r, k);
        StaysInRing(r, Succ(|r|, k), obj, q, n - 1);
      }
    }

    lemma {:induction false} GoesRound(r: seq<LinkedPtr>, k: nat, obj: int, m: nat) returns (n: nat)
      requires LinkedPtr.Ring(r, obj) && k < |r| && m < |r| && (forall p :: p in r ==> p in live)
      ensures Reaches(r[k], r[m], n)
      decreases if k <= m then m - k else |r| - k + m
    {
      if k == m {
        n := 0;
      } else {
        assert LinkedPtr.LinkAt(r, k);
        var n' := GoesRound(r, Succ(|r|, k), obj, m);
        n := n' + 1;
      }
    }

    ghost predicate SameRing(p: LinkedPtr, q: LinkedPtr)
      reads this, live
    {
      exists n: nat :: Reaches(p, q, n)
    }

    /** Two linked_ptrs are in the same circle exactly when they share a non-null object. */
    lemma SameRingIffSameObject(p: LinkedPtr, q: LinkedPtr)
      requires Valid() && p in live && q in live
      ensures SameRing(p, q) <==> p == q || (p.value == q.value && p.value != 0)
    {
      var r, k := WhereIs(p);
      if p == q || (p.value == q.value && p.value != 0) {
        assert q in r;
        var m :| 0 <= m < |r| && r[m] == q;
        var n := GoesRound(r, k, p.value, m);
        assert Reaches(p, q, n);
        assert SameRing(p, q);
      } else if SameRing(p, q) {
        var n: nat :| Reaches(p, q, n);
        StaysInRing(r, k, p.value, q, n);
      }
    }
  }
}
