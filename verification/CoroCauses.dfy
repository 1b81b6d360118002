/**
 With what the requests on the coroutine queue complete (avboost/include/boost/async_coro_queue.hpp): what each call posts,
 read off the state before it, and for every completion of a run the call that caused it.
 */
module CoroCauses {
  import opened CoroQueue

  // ---------- what a push posts ----------

  /** The first pending pop that has not timed out. */
  ghost predicate FirstLive(ws: seq<PopWaiter>, k: nat)
  {
    k < |ws| && !ws[k].timedOut && forall i :: 0 <= i < k ==> ws[i].timedOut
  }

  ghost predicate NoneLive(ws: seq<PopWaiter>)
  {
    forall i :: 0 <= i < |ws| ==> ws[i].timedOut
  }

  lemma {:induction false} DeliverGives<T>(cap: Capacity, s: State<T>, v: T, k: nat)
    requires FirstLive(s.handlers, k)
    ensures Deliver(cap, s, v)
         == s.(handlers := s.handlers[k + 1..], posted := s.posted + [Popped(s.handlers[k].id, v)])
    decreases k
  {
    if k > 0 {
      var rest := s.(handlers := s.handlers[1..]);
      assert FirstLive(rest.handlers, k - 1);
      DeliverGives(cap, rest, v, k - 1);
      assert rest.handlers[k..] == s.handlers[k + 1..];
    }
  }

  lemma {:induction false} DeliverStores<T>(cap: Capacity, s: State<T>, v: T)
    requires NoneLive(s.handlers)
    ensures Deliver(cap, s, v) == Store(cap, s.(handlers := []), v)
    decreases |s.handlers|
  {
    if s.handlers != [] {
      DeliverStores(cap, s.(handlers := s.handlers[1..]), v);
    }
  }

  /** The completions with success of waits, in order. */
  ghost predicate WakesInOrder<T>(cs: seq<Completion<T>>, ids: seq<nat>)
  {
    |cs| == |ids| && forall i :: 0 <= i < |ids| ==> cs[i] == Woken(ids[i])
  }

  lemma RunMore<T>(cap: Capacity, ops: seq<Op<T>>, op: Op<T>)
    ensures Run(cap, ops + [op]) == Step(cap, Run(cap, ops), op)
  {
    assert (ops + [op])[..|ops|] == ops;
  }

  /**
   In every run a push wakes all pending waits with success, in order, and before anything else. Then the first pending
   pop that has not timed out gets the value, and those before it are forgotten.
   */
  lemma PushGives<T>(cap: Capacity, ops: seq<Op<T>>, v: T, k: nat)
    requires FirstLive(Run(cap, ops).handlers, k)
    ensures var s, r := Run(cap, ops), Run(cap, ops + [DoPush(v)]);
            && (exists woken ::
                  && WakesInOrder(woken, s.waits)
                  && r.posted == s.posted + woken + [Popped(s.handlers[k].id, v)])
            && r.waits == [] && r.handlers == s.handlers[k + 1..] && r.list == s.list && r.dropped == s.dropped
  {
    RunMore(cap, ops, DoPush(v));
    var s := Run(cap, ops);
    DeliverGives(cap, s.(waits := [], posted := s.posted + WokenAll(s.waits)), v, k);
    assert WakesInOrder<T>(WokenAll(s.waits), s.waits);
  }

  /**
   Without such a pop a push wakes the waits and stores the value at the end. Only a full ring loses a value, its oldest;
   a ring without room loses the new one.
   */
  lemma PushStores<T>(cap: Capacity, ops: seq<Op<T>>, v: T)
    requires NoneLive(Run(cap, ops).handlers)
    ensures var s, r := Run(cap, ops), Run(cap, ops + [DoPush(v)]);
            && (exists woken :: WakesInOrder(woken, s.waits) && r.posted == s.posted + woken)
            && r.waits == [] && r.handlers == []
            && (cap.Unbounded? || |s.list| < cap.n ==> r.list == s.list + [v] && r.dropped == s.dropped)
            && (cap.Ring? && |s.list| == cap.n > 0 ==>
                  r.list == s.list[1..] + [v] && r.dropped == s.dropped + [s.list[0]])
            && (cap == Ring(0) ==> r.list == [] && r.dropped == s.dropped + [v])
  {
    RunMore(cap, ops, DoPush(v));
    var s := Run(cap, ops);
    DeliverStores(cap, s.(waits := [], posted := s.posted + WokenAll(s.waits)), v);
    assert WakesInOrder<T>(WokenAll(s.waits), s.waits);
    RingBounded(cap, ops);
  }

  /** A ring never holds more than its room. */
  lemma {:induction false} RingBounded<T>(cap: Capacity, ops: seq<Op<T>>)
    ensures cap.Ring? ==> |Run(cap, ops).list| <= cap.n
  {
    if ops != [] {
      var init, op := ops[..|ops| - 1], ops[|ops| - 1];
      RingBounded(cap, init);
      var s := Run(cap, init);
      match op {
        case DoPush(v) => DeliverShape(cap, s.(waits := [], posted := s.posted + WokenAll(s.waits)), v);
        case DoCancel => CancelShape(s);
        case _ =>
      }
    }
  }

  /** Without clears an unbounded list loses nothing, nor does a ring with room for all that was pushed. */
  lemma {:induction false} NothingLost<T>(cap: Capacity, ops: seq<Op<T>>)
    requires DoClear !in ops && (cap.Unbounded? || |Pushes(ops)| <= cap.n)
    ensures Run(cap, ops).dropped == []
    ensures |Run(cap, ops).list| <= |Pushes(ops)|
  {
    if ops != [] {
      var init, op := ops[..|ops| - 1], ops[|ops| - 1];
      NothingLost(cap, init);
      var s := Run(cap, init);
      match op {
        case DoPush(v) => DeliverShape(cap, s.(waits := [], posted := s.posted + WokenAll(s.waits)), v);
        case DoCancel => CancelShape(s);
        case _ =>
      }
    }
  }

  // ---------- what a cancel posts ----------

  /** The pops that have not timed out, in order. */
  ghost function Live(ws: seq<PopWaiter>): (r: seq<PopWaiter>)
    ensures forall i :: 0 <= i < |r| ==> r[i] in ws && !r[i].timedOut
    ensures forall w :: w in ws && !w.timedOut ==> w in r
  {
    if ws == [] then [] else (if ws[0].timedOut then [] else [ws[0]]) + Live(ws[1..])
  }

  ghost predicate CancelsInOrder<T>(cs: seq<Completion<T>>, ws: seq<PopWaiter>)
  {
    |cs| == |ws| && forall i :: 0 <= i < |ws| ==> cs[i] == PopCanceled(ws[i].id)
  }

  lemma {:induction false} CancelPopsPosts<T>(s: State<T>) returns (cs: seq<Completion<T>>)
    ensures CancelsInOrder(cs, Live(s.handlers))
    ensures CancelPops(s) == s.(handlers := [], posted := s.posted + cs)
    decreases |s.handlers|
  {
    hide Live;
    if s.handlers == [] {
      cs := [];
      LiveNone();
      assert s.posted + cs == s.posted;
    } else {
      var w, ws := s.handlers[0], s.handlers[1..];
      if w.timedOut {
        LiveMore(w, ws);
        cs := CancelPopsPosts(State(s.list, ws, s.waits, s.posted, s.dropped));
      } else {
        var c: Completion<T> := PopCanceled(w.id);
        var more := CancelPopsPosts(State(s.list, ws, s.waits, s.posted + [c], s.dropped));
        LiveMore(w, ws);
        cs := [c] + more;
        assert s.posted + cs == s.posted + [c] + more;
      }
      assert [w] + ws == s.handlers;
    }
  }

  lemma LiveNone()
    ensures Live([]) == []
  {
  }

  lemma LiveMore(w: PopWaiter, ws: seq<PopWaiter>)
    ensures Live([w] + ws) == if w.timedOut then Live(ws) else [w] + Live(ws)
  {
    assert ([w] + ws)[1..] == ws;
  }

  /**
   In every run a cancel with some pop pending completes every pending wait and then every pending pop that has not timed
   out with an error, in order, and nothing is left pending. Without a pending pop it does nothing.
   */
  lemma CancelPosts<T>(cap: Capacity, ops: seq<Op<T>>) returns (cs: seq<Completion<T>>)
    ensures CancelsInOrder(cs, Live(Run(cap, ops).handlers))
    ensures var s, r := Run(cap, ops), Run(cap, ops + [DoCancel]);
            if s.handlers == [] then r == s
            else
              && |r.posted| == |s.posted| + |s.waits| + |cs| && s.posted <= r.posted
              && (forall i :: 0 <= i < |s.waits| ==> r.posted[|s.posted| + i] == WaitCanceled(s.waits[i]))
              && r.posted[|s.posted| + |s.waits|..] == cs
              && r.handlers == [] && r.waits == [] && r.list == s.list && r.dropped == s.dropped
  {
    RunMore(cap, ops, DoCancel);
    var s := Run(cap, ops);
    if s.handlers == [] {
      cs := CancelPopsPosts(s);
    } else {
      cs := CancelPopsPosts(s.(waits := [], posted := s.posted + WaitsCanceled(s.waits)));
    }
  }

  /** A clear is a cancel that also drops what is queued. */
  lemma ClearPosts<T>(cap: Capacity, ops: seq<Op<T>>)
    ensures var c := Run(cap, ops + [DoCancel]);
            Run(cap, ops + [DoClear]) == c.(list := [], dropped := c.dropped + Run(cap, ops).list)
  {
    RunMore(cap, ops, DoCancel);
    RunMore(cap, ops, DoClear);
    CancelShape(Run(cap, ops));
  }

  // ---------- why a request completed ----------

  /**
   Call k of the run completes with c: a wait is woken by a push, or at once when there is something to pop, and is
   canceled only by a cancel or a clear; a pop takes the oldest value, or waits for a push; it is canceled likewise.
   */
  ghost predicate Causes<T>(cap: Capacity, ops: seq<Op<T>>, k: nat, c: Completion<T>)
    requires k < |ops|
  {
    var s := Run(cap, ops[..k]);
    match c
    case Woken(id) => (ops[k] == DoWait(id) && s.list != []) || (ops[k].DoPush? && id in s.waits)
    case WaitCanceled(id) => (ops[k].DoCancel? || ops[k].DoClear?) && s.handlers != [] && id in s.waits
    case PopCanceled(id) => (ops[k].DoCancel? || ops[k].DoClear?) && PopWaiter(id, false) in s.handlers
    case Popped(id, v) =>
      || (ops[k] == DoPop(id) && s.list != [] && v == s.list[0])
      || (ops[k] == DoPush(v) && exists j: nat :: FirstLive(s.handlers, j) && s.handlers[j].id == id)
  }

  lemma {:induction false} LiveOrNone(ws: seq<PopWaiter>) returns (k: nat)
    ensures FirstLive(ws, k) || NoneLive(ws)
  {
    if ws == [] || !ws[0].timedOut {
      k := 0;
    } else {
      k := LiveOrNone(ws[1..]);
      if FirstLive(ws[1..], k) {
        k := k + 1;
      }
    }
  }

  lemma PushCauses<T>(cap: Capacity, ops: seq<Op<T>>, v: T, c: Completion<T>)
    requires c in Run(cap, ops + [DoPush(v)]).posted && c !in Run(cap, ops).posted
    ensures Causes(cap, ops + [DoPush(v)], |ops|, c)
  {
    assert (ops + [DoPush(v)])[..|ops|] == ops;
    var s := Run(cap, ops);
    var k := LiveOrNone(s.handlers);
    if FirstLive(s.handlers, k) {
      PushGives(cap, ops, v, k);
    } else {
      PushStores(cap, ops, v);
    }
  }

  lemma NewIsBehind<T>(before: seq<T>, after: seq<T>, i: nat)
    requires before <= after && i < |after| && after[i] !in before
    ensures i >= |before|
  {
  }

  lemma CancelCauses<T>(cap: Capacity, ops: seq<Op<T>>, op: Op<T>, c: Completion<T>)
    requires op.DoCancel? || op.DoClear?
    requires c in Run(cap, ops + [op]).posted && c !in Run(cap, ops).posted
    ensures Causes(cap, ops + [op], |ops|, c)
  {
    hide Run, Live;
    assert (ops + [op])[..|ops|] == ops;
    var s, r := Run(cap, ops), Run(cap, ops + [DoCancel]);
    var cs := CancelPosts(cap, ops);
    ClearPosts(cap, ops);
    var i :| 0 <= i < |r.posted| && r.posted[i] == c;
    var n := |s.posted| + |s.waits|;
    NewIsBehind(s.posted, r.posted, i);
    if i >= n {
      assert c == cs[i - n];
      assert Live(s.handlers)[i - n] in s.handlers;
    } else {
      assert c == WaitCanceled(s.waits[i - |s.posted|]);
    }
  }

  lemma CauseStays<T>(cap: Capacity, ops: seq<Op<T>>, op: Op<T>, k: nat, c: Completion<T>)
    requires k < |ops| && Causes(cap, ops, k, c)
    ensures Causes(cap, ops + [op], k, c)
  {
    assert (ops + [op])[..k] == ops[..k];
  }

  /** In every run each completion has such a cause. */
  lemma {:induction false} EveryCompletionCaused<T>(cap: Capacity, ops: seq<Op<T>>, c: Completion<T>)
    requires c in Run(cap, ops).posted
    ensures exists k :: 0 <= k < |ops| && Causes(cap, ops, k, c)
  {
    hide Causes, Push, Cancel, Clear;
    if ops != [] {
      var init, op := ops[..|ops| - 1], ops[|ops| - 1];
      assert ops == init + [op];
      if c in Run(cap, init).posted {
        EveryCompletionCaused(cap, init, c);
        var k :| 0 <= k < |init| && Causes(cap, init, k, c);
        CauseStays(cap, init, op, k, c);
      } else if op.DoPush? {
        PushCauses(cap, init, op.value, c);
      } else if op.DoCancel? || op.DoClear? {
        CancelCauses(cap, init, op, c);
      } else {
        OthersCause(cap, init, op, c);
      }
    }
  }

  lemma OthersCause<T>(cap: Capacity, ops: seq<Op<T>>, op: Op<T>, c: Completion<T>)
    requires op.DoPop? || op.DoWait? || op.DoTimeOut?
    requires c in Run(cap, ops + [op]).posted && c !in Run(cap, ops).posted
    ensures Causes(cap, ops + [op], |ops|, c)
  {
    RunMore(cap, ops, op);
    assert (ops + [op])[..|ops|] == ops;
  }

  /** Without a cancel or a clear no request completes with an error. */
  lemma NoErrorUncanceled<T>(cap: Capacity, ops: seq<Op<T>>, c: Completion<T>)
    requires DoCancel !in ops && DoClear !in ops && c in Run(cap, ops).posted
    ensures c.Woken? || c.Popped?
  {
    EveryCompletionCaused(cap, ops, c);
    var k :| 0 <= k < |ops| && Causes(cap, ops, k, c);
    assert ops[k] in ops;
  }
}
