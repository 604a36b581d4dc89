// What base/linked_ptr.h promises, without its rings: who holds which object, and which
// objects have been deleted. P stands for a linked_ptr; object 0 is NULL.
module SharedOwnership {
  import opened Wrappers

  datatype Shares<P> = Shares(
    held: map<P, int>,      // every live linked_ptr and its raw pointer
    captured: set<int>,     // objects whose raw pointer was handed to a linked_ptr
    deleted: seq<int>,      // in order
    released: set<int>)     // handed back by release()

  datatype Op<P> =
    | Create(p: P, obj: int)
    | CreateCopy(p: P, q: P)
    | Assign(p: P, q: P)
    | Reset(p: P, obj: int)
    | Destroy(p: P)
    | Release(p: P)

  ghost predicate HeldIn<P>(held: map<P, int>, obj: int) {
    exists p :: p in held && held[p] == obj
  }

  // Each raw pointer is captured once, and release() needs a sole owner.
  ghost predicate Enabled<P>(s: Shares<P>, op: Op<P>) {
    match op
    case Create(p, obj) => p !in s.held && (obj == 0 || obj !in s.captured)
    case CreateCopy(p, q) => p !in s.held && q in s.held
    case Assign(p, q) => p in s.held && q in s.held
    case Reset(p, obj) => p in s.held && (obj == 0 || obj !in s.captured)
    case Destroy(p) => p in s.held
    case Release(p) => p in s.held && (s.held[p] == 0 || !HeldIn(s.held - {p}, s.held[p]))
  }

  // p gives up its object; the last holder deletes it.
  ghost function Drop<P>(s: Shares<P>, p: P): Shares<P>
    requires p in s.held
  {
    var rest, obj := s.held - {p}, s.held[p];
    s.(held := rest, deleted := if obj == 0 || HeldIn(rest, obj) then s.deleted else s.deleted + [obj])
  }

  ghost function Hold<P>(s: Shares<P>, p: P, obj: int): Shares<P> {
    s.(held := s.held[p := obj], captured := if obj == 0 then s.captured else s.captured + {obj})
  }

  ghost function Apply<P>(s: Shares<P>, op: Op<P>): Shares<P>
    requires Enabled(s, op)
  {
    match op
    case Create(p, obj) => Hold(s, p, obj)
    case CreateCopy(p, q) => s.(held := s.held[p := s.held[q]])
    case Assign(p, q) =>
      if p == q then s
      else
        var dropped := Drop(s, p);
        dropped.(held := dropped.held[p := s.held[q]])
    case Reset(p, obj) => Hold(Drop(s, p), p, obj)
    case Destroy(p) => Drop(s, p)
    case Release(p) =>
      s.(held := s.held[p := 0], released := if s.held[p] == 0 then s.released else s.released + {s.held[p]})
  }

  // Every captured object is held, deleted or released, and only one of these; it is
  // deleted at most once.
  ghost predicate Accounted<P>(s: Shares<P>) {
    && Distinct(s.deleted)
    && 0 !in s.captured
    && (forall obj :: obj in s.captured <==> obj in s.deleted || obj in s.released || (obj != 0 && HeldIn(s.held, obj)))
    && (forall obj :: obj in s.deleted ==> obj !in s.released && !HeldIn(s.held, obj))
    && (forall obj :: obj in s.released ==> !HeldIn(s.held, obj))
  }

  lemma DropHolders<P>(s: Shares<P>, p: P, obj: int)
    requires p in s.held
    ensures HeldIn(s.held, obj) <==> obj == s.held[p] || HeldIn(Drop(s, p).held, obj)
  {
    if q :| q in s.held && s.held[q] == obj {
      assert q != p ==> q in Drop(s, p).held;
    }
  }

  lemma HoldHolders<P>(held: map<P, int>, p: P, value: int, obj: int)
    requires p !in held
    ensures HeldIn(held[p := value], obj) <==> obj == value || HeldIn(held, obj)
  {
    var held' := held[p := value];
    assert p in held' && held'[p] == value;
    if q :| q in held && held[q] == obj {
      assert q in held' && held'[q] == obj;
    }
  }

  // Between departing and capturing again, an object may be in no state but held elsewhere.
  lemma DropAccounted<P>(s: Shares<P>, p: P)
    requires Accounted(s) && p in s.held
    ensures Accounted(Drop(s, p))
  {
    forall obj
      ensures HeldIn(s.held, obj) <==> obj == s.held[p] || HeldIn(Drop(s, p).held, obj)
    {
      DropHolders(s, p, obj);
    }
    assert HeldIn(s.held, s.held[p]);
  }

  lemma HoldAccounted<P>(s: Shares<P>, p: P, obj: int)
    requires Accounted(s) && p !in s.held && (obj == 0 || obj !in s.captured)
    ensures Accounted(Hold(s, p, obj))
  {
    forall o
      ensures HeldIn(s.held[p := obj], o) <==> o == obj || HeldIn(s.held, o)
    {
      HoldHolders(s.held, p, obj, o);
    }
  }

  lemma ShareAccounted<P>(s: Shares<P>, p: P, obj: int)
    requires Accounted(s) && p !in s.held && HeldIn(s.held, obj)
    ensures Accounted(s.(held := s.held[p := obj]))
  {
    forall o
      ensures HeldIn(s.held[p := obj], o) <==> HeldIn(s.held, o)
    {
      HoldHolders(s.held, p, obj, o);
    }
  }

  lemma ReleaseAccounted<P>(s: Shares<P>, p: P)
    requires Accounted(s) && Enabled(s, Release(p))
    ensures Accounted(Apply(s, Release(p)))
  {
    var rest, obj := s.held - {p}, s.held[p];
    assert s.held[p := 0] == rest[p := 0];
    assert Drop(s, p).held == rest;
    forall o
      ensures HeldIn(s.held, o) <==> o == obj || HeldIn(rest, o)
      ensures HeldIn(s.held[p := 0], o) <==> o == 0 || HeldIn(rest, o)
    {
      DropHolders(s, p, o);
      HoldHolders(rest, p, 0, o);
    }
  }

  lemma OpKeepsAccounted<P>(s: Shares<P>, op: Op<P>)
    requires Accounted(s) && Enabled(s, op)
    ensures Accounted(Apply(s, op))
  {
    match op
    case Create(p, obj) => HoldAccounted(s, p, obj);
    case CreateCopy(p, q) => ShareAccounted(s, p, s.held[q]);
    case Assign(p, q) =>
      if p != q {
        DropAccounted(s, p);
        assert q in Drop(s, p).held && Drop(s, p).held[q] == s.held[q];
        ShareAccounted(Drop(s, p), p, s.held[q]);
      }
    case Reset(p, obj) =>
      DropAccounted(s, p);
      HoldAccounted(Drop(s, p), p, obj);
    case Destroy(p) => DropAccounted(s, p);
    case Release(p) => ReleaseAccounted(s, p);
  }

  /** What each operation leaves its linked_ptr holding, if that is still there: the raw pointer
      given, what q held before, or nothing. Nobody else's pointer changes. */
  lemma WhoHoldsWhat<P>(s: Shares<P>, op: Op<P>)
    requires Enabled(s, op)
    ensures var held := Apply(s, op).held;
            match op
            case Create(p, obj) => Get(held, p) == Some(obj)
            case CreateCopy(p, q) => Get(held, p) == Some(s.held[q])
            case Assign(p, q) => Get(held, p) == Some(s.held[q]) && Get(held, q) == Some(s.held[q])
            case Reset(p, obj) => Get(held, p) == Some(obj)
            case Destroy(p) => p !in held
            case Release(p) => Get(held, p) == Some(0)
    ensures forall x :: x != op.p ==> Get(Apply(s, op).held, x) == Get(s.held, x)
  {
  }

  // ----- Whole runs -----

  ghost predicate IsRun<P>(states: seq<Shares<P>>, ops: seq<Op<P>>) {
    && |states| == |ops| + 1
    && states[0] == Shares(map[], {}, [], {})
    && forall i :: 0 <= i < |ops| ==> Enabled(states[i], ops[i]) && states[i+1] == Apply(states[i], ops[i])
  }

  /** Over any run each captured object is at all times in exactly one of three conditions:
      held by some linked_ptr, deleted exactly once, or handed back by release(). */
  lemma {:induction false} RunAccounted<P>(states: seq<Shares<P>>, ops: seq<Op<P>>, i: nat)
    requires IsRun(states, ops) && i < |states|
    ensures Accounted(states[i])
  {
    if i > 0 {
      RunAccounted(states, ops, i - 1);
      OpKeepsAccounted(states[i-1], ops[i-1]);
    }
  }

  /** Once every linked_ptr is gone, exactly the objects not handed back have been deleted. */
  lemma NoLeakNoDoubleDelete<P>(states: seq<Shares<P>>, ops: seq<Op<P>>, i: nat)
    requires IsRun(states, ops) && i < |states| && states[i].held == map[]
    ensures Distinct(states[i].deleted)
    ensures forall obj :: obj in states[i].deleted <==> obj in states[i].captured && obj !in states[i].released
  {
    RunAccounted(states, ops, i);
  }

  /** An operation deletes an object iff it takes away its last holder and is no release(). */
  lemma DeletedByLastHolder<P>(states: seq<Shares<P>>, ops: seq<Op<P>>, i: nat, obj: int)
    requires IsRun(states, ops) && i < |ops| && obj != 0
    ensures states[i].deleted <= states[i+1].deleted
    ensures obj in states[i+1].deleted && obj !in states[i].deleted <==>
            HeldIn(states[i].held, obj) && !HeldIn(states[i+1].held, obj) && !ops[i].Release?
  {
    var s, op := states[i], ops[i];
    RunAccounted(states, ops, i);
    RunAccounted(states, ops, i + 1);
    match op
    case Create(p, o) => HoldHolders(s.held, p, o, obj);
    case CreateCopy(p, q) => HoldHolders(s.held, p, s.held[q], obj);
    case Assign(p, q) =>
      DropHolders(s, p, obj);
      if p != q {
        HoldHolders(Drop(s, p).held, p, s.held[q], obj);
        assert q in Drop(s, p).held && Drop(s, p).held[q] == s.held[q];
      }
    case Reset(p, o) =>
      DropHolders(s, p, obj);
      HoldHolders(Drop(s, p).held, p, o, obj);
    case Destroy(p) => DropHolders(s, p, obj);
    case Release(p) =>
  }
}
