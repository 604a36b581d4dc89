// base/atomicops_internals_arm_gcc.h: the retry loops themselves, one call at a time. The
// other threads act on the shared word before every access that the call makes.
module AtomicLoops {
  import opened Wrappers
  import opened Atomics

  // An operation that has acted on the word, and whose it is.
  datatype Action = Action(mine: bool, op: Op, result: Word)

  // The word after the operations of a history, in order.
  ghost function Replay(start: Word, history: seq<Action>): Word {
    if history == [] then start
    else
      var n := |history| - 1;
      Atomically(history[n].op, Replay(start, history[..n])).word
  }

  // Every operation got the result that it has when it acts atomically at its place.
  ghost predicate Consistent(start: Word, history: seq<Action>) {
    forall k :: 0 <= k < |history| ==>
      history[k].result == Atomically(history[k].op, Replay(start, history[..k])).result
  }

  lemma ReplaySnoc(start: Word, history: seq<Action>, d: Action)
    requires Consistent(start, history) && d.result == Atomically(d.op, Replay(start, history)).result
    ensures Consistent(start, history + [d])
    ensures Replay(start, history + [d]) == Atomically(d.op, Replay(start, history)).word
  {
    var longer := history + [d];
    assert longer[..|history|] == history;
    forall k | 0 <= k < |longer|
      ensures longer[k].result == Atomically(longer[k].op, Replay(start, longer[..k])).result
    {
      assert k < |history| ==> longer[..k] == history[..k];
    }
  }

  ghost predicate NoneMine(history: seq<Action>) {
    forall d :: d in history ==> !d.mine
  }

  // after is before, then operations of others, then this one.
  ghost predicate ActedLast(before: seq<Action>, after: seq<Action>, op: Op, result: Word) {
    && |before| < |after| && before <= after
    && after[|after| - 1] == Action(true, op, result)
    && NoneMine(after[|before|..|after| - 1])
  }

  // What that operation made of the word it found.
  ghost predicate LastDid(start: Word, history: seq<Action>, word: Word, op: Op, result: Word) {
    history != [] && Does(op, Replay(start, history[..|history| - 1]), word, result)
  }

  ghost predicate OthersActed(before: seq<Action>, after: seq<Action>) {
    before <= after && NoneMine(after[|before|..])
  }

  lemma OthersThenOthers(a: seq<Action>, b: seq<Action>, c: seq<Action>)
    requires OthersActed(a, b) && OthersActed(b, c)
    ensures OthersActed(a, c)
  {
    assert c[|a|..] == b[|a|..] + c[|b|..];
  }

  lemma OthersThenMine(a: seq<Action>, b: seq<Action>, op: Op, result: Word)
    requires OthersActed(a, b)
    ensures ActedLast(a, b + [Action(true, op, result)], op, result)
  {
    var c := b + [Action(true, op, result)];
    assert c[|a|..|c| - 1] == b[|a|..];
  }

  class SharedWord {
    var word: Word
    ghost const start: Word
    ghost var history: seq<Action>

    ghost predicate Valid()
      reads this
    {
      Consistent(start, history) && word == Replay(start, history)
    }

    constructor (start: Word)
      ensures Valid() && word == start && history == []
    {
      word, this.start, history := start, start, [];
    }

    // Any number of operations of other threads.
    method Interfere()
      requires Valid()
      modifies this
      ensures Valid() && OthersActed(old(history), history)
    {
      var n: nat :| n >= 0;
      for i := 0 to n
        invariant Valid() && OthersActed(old(history), history)
      {
        var op: Op := *;
        ghost var d, before := Action(false, op, Atomically(op, word).result), history;
        ReplaySnoc(start, history, d);
        word := Atomically(op, word).word;
        history := history + [d];
        assert history[|old(history)|..] == before[|old(history)|..] + [d];
      }
    }

    method Load() returns (value: Word)
      requires Valid()
      modifies this
      ensures Valid() && value == word && OthersActed(old(history), history)
    {
      Interfere();
      value := word;
    }

    // The kernel helper. It may fail although the word is as expected; when it succeeds,
    // the caller's operation takes effect.
    method Cmpxchg(oldValue: Word, newValue: Word, ghost op: Op, ghost result: Word) returns (failed: bool)
      requires Valid() && Atomically(op, oldValue) == Effect(newValue, result)
      modifies this
      ensures Valid()
      ensures if failed then OthersActed(old(history), history)
              else ActedLast(old(history), history, op, result) && LastDid(start, history, word, op, result)
    {
      Interfere();
      failed := *;
      if !failed {
        failed := word != oldValue;
      }
      if !failed {
        ReplaySnoc(start, history, Action(true, op, result));
        OthersThenMine(old(history), history, op, result);
        AtomicallyDoes(op, word);
        assert (history + [Action(true, op, result)])[..|history|] == history;
        word := newValue;
        history := history + [Action(true, op, result)];
      }
    }

    // rounds bounds how often each loop goes round; None is a call that has not come to an
    // end by then.
    method CompareAndSwap(oldValue: Word, newValue: Word, rounds: nat) returns (r: Option<Word>)
      requires Valid()
      modifies this
      ensures Valid()
      ensures match r
              case Some(result) =>
                && ActedLast(old(history), history, Op.CompareAndSwap(oldValue, newValue), result)
                && LastDid(start, history, word, Op.CompareAndSwap(oldValue, newValue), result)
              case None => OthersActed(old(history), history)
    {
      ghost var op := Op.CompareAndSwap(oldValue, newValue);
      var prevValue := Load();
      for i := 0 to rounds
        invariant Valid() && OthersActed(old(history), history)
      {
        ghost var before := history;
        var failed := Cmpxchg(oldValue, newValue, op, oldValue);
        if !failed {
          ActedSince(old(history), before, history, op, oldValue);
          return Some(oldValue);
        }
        OthersThenOthers(old(history), before, history);
        before := history;
        prevValue := Load();
        OthersThenOthers(old(history), before, history);
        if prevValue != oldValue {
          // The re-read is the instant at which the operation fails.
          ReplaySnoc(start, history, Action(true, op, prevValue));
          OthersThenMine(old(history), history, op, prevValue);
          assert (history + [Action(true, op, prevValue)])[..|history|] == history;
          history := history + [Action(true, op, prevValue)];
          return Some(prevValue);
        }
      }
      return None;
    }

    lemma ActedSince(a: seq<Action>, b: seq<Action>, c: seq<Action>, op: Op, result: Word)
      requires OthersActed(a, b) && ActedLast(b, c, op, result)
      ensures ActedLast(a, c, op, result)
    {
      assert c[|a|..|c| - 1] == b[|a|..] + c[|b|..|c| - 1];
    }

    method AtomicExchange(newValue: Word, rounds: nat) returns (r: Option<Word>)
      requires Valid()
      modifies this
      ensures Valid()
      ensures match r
              case Some(result) =>
                && ActedLast(old(history), history, Op.Exchange(newValue), result)
                && LastDid(start, history, word, Op.Exchange(newValue), result)
              case None => OthersActed(old(history), history)
    {
      for i := 0 to rounds
        invariant Valid() && OthersActed(old(history), history)
      {
        ghost var before := history;
        var oldValue := Load();
        OthersThenOthers(old(history), before, history);
        before := history;
        var failed := Cmpxchg(oldValue, newValue, Op.Exchange(newValue), oldValue);
        if !failed {
          ActedSince(old(history), before, history, Op.Exchange(newValue), oldValue);
          return Some(oldValue);
        }
        OthersThenOthers(old(history), before, history);
      }
      return None;
    }

    method AtomicIncrement(increment: Word, rounds: nat) returns (r: Option<Word>)
      requires Valid()
      modifies this
      ensures Valid()
      ensures match r
              case Some(result) =>
                && ActedLast(old(history), history, Op.Increment(increment), result)
                && LastDid(start, history, word, Op.Increment(increment), result)
              case None => OthersActed(old(history), history)
    {
      for i := 0 to rounds
        invariant Valid() && OthersActed(old(history), history)
      {
        // Atomic exchange of the value read with an incremented one.
        ghost var before := history;
        var oldValue := Load();
        OthersThenOthers(old(history), before, history);
        before := history;
        var newValue := Wrap(oldValue + increment);
        var failed := Cmpxchg(oldValue, newValue, Op.Increment(increment), newValue);
        if !failed {
          ActedSince(old(history), before, history, Op.Increment(increment), newValue);
          return Some(newValue);
        }
        OthersThenOthers(old(history), before, history);
      }
      return None;
    }
  }
}
