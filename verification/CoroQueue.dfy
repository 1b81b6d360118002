/**
 The coroutine queue (avboost/include/boost/async_coro_queue.hpp): values are pushed by producers and popped, or waited
 for, by coroutines that sleep while the queue is empty. Completions go through a first-in-first-out executor. A pop
 with a time limit shares a flag with its timer; the timer raising the flag is a step of the environment.
 */
module CoroQueue {

  datatype PopWaiter = PopWaiter(id: nat, timedOut: bool)

  /** What is posted to the executor. */
  datatype Completion<T> = Popped(id: nat, value: T) | PopCanceled(id: nat) | Woken(id: nat) | WaitCanceled(id: nat)

  /** The container behind the queue: a list, or a ring that overwrites its oldest value. */
  datatype Capacity = Unbounded | Ring(n: nat)

  /** `dropped` records the values that were overwritten or cleared. */
  datatype State<T> = State(list: seq<T>, handlers: seq<PopWaiter>, waits: seq<nat>, posted: seq<Completion<T>>,
                            dropped: seq<T>)

  // ---------- steps ----------

  function Store<T>(cap: Capacity, s: State<T>, v: T): (r: State<T>)
  {
    match cap
    case Unbounded => s.(list := s.list + [v])
    case Ring(n) =>
      if n == 0 then s.(dropped := s.dropped + [v])
      else if |s.list| >= n then s.(list := s.list[1..] + [v], dropped := s.dropped + [s.list[0]])
      else s.(list := s.list + [v])
  }

  function WokenAll<T>(ids: seq<nat>): (cs: seq<Completion<T>>)
    ensures |cs| == |ids|
  {
    seq(|ids|, i requires 0 <= i < |ids| => Woken(ids[i]))
  }

  function WaitsCanceled<T>(ids: seq<nat>): (cs: seq<Completion<T>>)
    ensures |cs| == |ids|
  {
    seq(|ids|, i requires 0 <= i < |ids| => WaitCanceled(ids[i]))
  }

  /** Gives a value to the first waiter that has not timed out, or stores it. */
  function Deliver<T>(cap: Capacity, s: State<T>, v: T): (r: State<T>)
    decreases |s.handlers|
  {
    if s.handlers == [] then Store(cap, s, v)
    else if !s.handlers[0].timedOut then
      s.(handlers := s.handlers[1..], posted := s.posted + [Popped(s.handlers[0].id, v)])
    else Deliver(cap, s.(handlers := s.handlers[1..]), v)
  }

  function Push<T>(cap: Capacity, s: State<T>, v: T): (r: State<T>)
  {
    Deliver(cap, s.(waits := [], posted := s.posted + WokenAll(s.waits)), v)
  }

  function Pop<T>(s: State<T>, id: nat): (r: State<T>)
  {
    if s.list == [] then s.(handlers := s.handlers + [PopWaiter(id, false)])
    else s.(list := s.list[1..], posted := s.posted + [Popped(id, s.list[0])])
  }

  function Wait<T>(s: State<T>, id: nat): (r: State<T>)
  {
    if s.list == [] then s.(waits := s.waits + [id]) else s.(posted := s.posted + [Woken(id)])
  }

  function CancelPops<T>(s: State<T>): (r: State<T>)
    decreases |s.handlers|
  {
    if s.handlers == [] then s
    else if s.handlers[0].timedOut then CancelPops(s.(handlers := s.handlers[1..]))
    else CancelPops(s.(handlers := s.handlers[1..], posted := s.posted + [PopCanceled(s.handlers[0].id)]))
  }

  /** Waits are canceled only when some pop is pending. */
  function Cancel<T>(s: State<T>): (r: State<T>)
  {
    CancelPops(if s.handlers != [] then s.(waits := [], posted := s.posted + WaitsCanceled(s.waits)) else s)
  }

  function Clear<T>(s: State<T>): (r: State<T>)
  {
    var c := Cancel(s);
    c.(list := [], dropped := c.dropped + c.list)
  }

  function Flagged(ws: seq<PopWaiter>, id: nat): (r: seq<PopWaiter>)
    ensures |r| == |ws|
  {
    seq(|ws|, i requires 0 <= i < |ws| => if ws[i].id == id then ws[i].(timedOut := true) else ws[i])
  }

  /** The timer of a pop raises its flag. */
  function TimeOut<T>(s: State<T>, id: nat): (r: State<T>)
  {
    s.(handlers := Flagged(s.handlers, id))
  }

  // ---------- the queue object ----------

  class Queue<T> {
    const cap: Capacity
    var list: seq<T>
    var handlers: seq<PopWaiter>
    var waits: seq<nat>
    var posted: seq<Completion<T>>
    ghost var dropped: seq<T>

    ghost function Snapshot(): (s: State<T>)
      reads this
    {
      State(list, handlers, waits, posted, dropped)
    }

    constructor (cap: Capacity)
      ensures this.cap == cap && Snapshot() == State([], [], [], [], [])
    {
      this.cap := cap;
      list, handlers, waits, posted, dropped := [], [], [], [], [];
    }

    /** Appends to the container, which may overwrite its oldest value. */
    method PushBack(v: T)
      modifies this
      ensures Snapshot() == Store(cap, old(Snapshot()), v)
    {
      if cap.Ring? && cap.n == 0 {
        dropped := dropped + [v];
      } else {
        if cap.Ring? && |list| >= cap.n {
          dropped := dropped + [list[0]];
          list := list[1..];
        }
        list := list + [v];
      }
    }

    /** The assertions of the original hold whenever the invariant Idle does. */
    method PushValue(v: T)
      requires Idle(Snapshot())
      modifies this
      ensures Snapshot() == Push(cap, old(Snapshot()), v)
      decreases |handlers|
    {
      if |waits| != 0 {
        assert list == [];
        var i := 0;
        while i < |waits|
          invariant 0 <= i <= |waits| && posted == old(posted) + WokenAll(waits[..i])
          invariant list == old(list) && handlers == old(handlers) && waits == old(waits) && dropped == old(dropped)
        {
          posted := posted + [Woken(waits[i])];
          assert waits[..i + 1] == waits[..i] + [waits[i]];
          i := i + 1;
        }
        assert waits[..i] == waits;
        waits := [];
      }
      assert posted == old(posted) + WokenAll(old(waits));
      ghost var woken := Snapshot();
      if |handlers| != 0 {
        assert list == [];
        var w := handlers[0];
        handlers := handlers[1..];
        if !w.timedOut {
          posted := posted + [Popped(w.id, v)];
        } else {
          assert posted + WokenAll([]) == posted;
          PushValue(v);
        }
      } else {
        PushBack(v);
      }
    }

    method AsyncPop(id: nat)
      modifies this
      ensures Snapshot() == Pop(old(Snapshot()), id)
    {
      if |list| == 0 {
        handlers := handlers + [PopWaiter(id, false)];
      } else {
        posted := posted + [Popped(id, list[0])];
        list := list[1..];
      }
    }

    method AsyncWait(id: nat)
      modifies this
      ensures Snapshot() == Wait(old(Snapshot()), id)
    {
      if |list| == 0 {
        waits := waits + [id];
      } else {
        posted := posted + [Woken(id)];
      }
    }

    method CancelAll()
      modifies this
      ensures Snapshot() == Cancel(old(Snapshot()))
    {
      if |handlers| != 0 {
        var i := 0;
        while i < |waits|
          invariant 0 <= i <= |waits| && posted == old(posted) + WaitsCanceled(waits[..i])
          invariant list == old(list) && handlers == old(handlers) && waits == old(waits) && dropped == old(dropped)
        {
          posted := posted + [WaitCanceled(waits[i])];
          assert waits[..i + 1] == waits[..i] + [waits[i]];
          i := i + 1;
        }
        assert waits[..i] == waits;
        waits := [];
      }
      while |handlers| != 0
        invariant CancelPops(Snapshot()) == Cancel(old(Snapshot()))
        decreases |handlers|
      {
        if !handlers[0].timedOut {
          posted := posted + [PopCanceled(handlers[0].id)];
        }
        handlers := handlers[1..];
      }
    }

    method ClearAll()
      modifies this
      ensures Snapshot() == Clear(old(Snapshot()))
    {
      CancelAll();
      dropped := dropped + list;
      list := [];
    }
  }

  /** Nobody sleeps while there is something to pop. */
  ghost predicate Idle<T>(s: State<T>)
  {
    s.handlers != [] || s.waits != [] ==> s.list == []
  }

  // ---------- runs ----------

  datatype Op<T> = DoPush(value: T) | DoPop(id: nat) | DoWait(id: nat) | DoCancel | DoClear | DoTimeOut(id: nat)

  function Step<T>(cap: Capacity, s: State<T>, op: Op<T>): (r: State<T>)
  {
    match op
    case DoPush(v) => Push(cap, s, v)
    case DoPop(id) => Pop(s, id)
    case DoWait(id) => Wait(s, id)
    case DoCancel => Cancel(s)
    case DoClear => Clear(s)
    case DoTimeOut(id) => TimeOut(s, id)
  }

  function Start<T>(): (s: State<T>)
  {
    State([], [], [], [], [])
  }

  function Run<T>(cap: Capacity, ops: seq<Op<T>>): (s: State<T>)
  {
    if ops == [] then Start() else Step(cap, Run(cap, ops[..|ops| - 1]), ops[|ops| - 1])
  }

  /** What a push leaves alone, and what it can add. */
  lemma {:induction false} DeliverShape<T>(cap: Capacity, s: State<T>, v: T)
    ensures var r := Deliver(cap, s, v);
            && r.waits == s.waits
            && (r.handlers != [] ==> r.list == s.list)
            && ((r.list == s.list && r.dropped == s.dropped && exists id :: r.posted == s.posted + [Popped(id, v)])
                || (r.handlers == [] && r.posted == s.posted && r.list == Store(cap, s, v).list
                    && r.dropped == Store(cap, s, v).dropped))
    decreases |s.handlers|
  {
    if s.handlers != [] && s.handlers[0].timedOut {
      DeliverShape(cap, s.(handlers := s.handlers[1..]), v);
    }
  }

  lemma {:induction false} CancelPopsShape<T>(s: State<T>)
    ensures var r := CancelPops(s); r.handlers == [] && r.list == s.list && r.waits == s.waits && r.dropped == s.dropped
    decreases |s.handlers|
  {
    if s.handlers != [] {
      var rest := s.(handlers := s.handlers[1..]);
      if s.handlers[0].timedOut {
        CancelPopsShape(rest);
      } else {
        CancelPopsShape(rest.(posted := s.posted + [PopCanceled(s.handlers[0].id)]));
      }
    }
  }

  lemma IdleStep<T>(cap: Capacity, s: State<T>, op: Op<T>)
    requires Idle(s)
    ensures Idle(Step(cap, s, op))
  {
    match op {
      case DoPush(v) =>
        DeliverShape(cap, s.(waits := [], posted := s.posted + WokenAll(s.waits)), v);
      case DoCancel =>
        CancelShape(s);
      case DoClear =>
        CancelShape(s);
      case _ =>
    }
  }

  lemma CancelShape<T>(s: State<T>)
    ensures var r := Cancel(s);
            r.handlers == [] && r.list == s.list && r.dropped == s.dropped && r.waits == if s.handlers == [] then s.waits else []
  {
    CancelPopsShape(if s.handlers != [] then s.(waits := [], posted := s.posted + WaitsCanceled(s.waits)) else s);
  }

  /** In every reachable state nobody sleeps while there is something to pop, so both assertions in push hold. */
  lemma {:induction false} AlwaysIdle<T>(cap: Capacity, ops: seq<Op<T>>)
    ensures Idle(Run(cap, ops))
  {
    if ops != [] {
      AlwaysIdle(cap, ops[..|ops| - 1]);
      IdleStep(cap, Run(cap, ops[..|ops| - 1]), ops[|ops| - 1]);
    }
  }

  /** After a cancel nobody is pending exactly when some pop was pending before, or no wait was. */
  lemma CancelReachesAllIff<T>(s: State<T>)
    ensures Cancel(s).handlers == [] && Cancel(s).waits == [] <==> s.handlers != [] || s.waits == []
  {
    CancelShape(s);
  }

  /** A lone wait is not canceled. */
  lemma LoneWaitStays(cap: Capacity)
    ensures Run<int>(cap, [DoWait(7), DoCancel]).waits == [7]
  {
    var ops: seq<Op<int>> := [DoWait(7), DoCancel];
    assert ops[..1] == [DoWait(7)] && ops[..1][..0] == [];
    assert Run<int>(cap, ops[..1][..0]) == Start();
    assert Run<int>(cap, ops[..1]).waits == [7];
    CancelShape(Run<int>(cap, ops[..1]));
  }

  // ---------- pushes and pops match ----------

  ghost predicate OnlyPushPop<T>(ops: seq<Op<T>>)
  {
    forall i :: 0 <= i < |ops| ==> ops[i].DoPush? || ops[i].DoPop?
  }

  function Pushes<T>(ops: seq<Op<T>>): (vs: seq<T>)
  {
    if ops == [] then []
    else
      var op := ops[|ops| - 1];
      Pushes(ops[..|ops| - 1]) + (if op.DoPush? then [op.value] else [])
  }

  function PopIds<T>(ops: seq<Op<T>>): (ids: seq<nat>)
  {
    if ops == [] then []
    else
      var op := ops[|ops| - 1];
      PopIds(ops[..|ops| - 1]) + (if op.DoPop? then [op.id] else [])
  }

  function Min(a: nat, b: nat): (m: nat) { if a < b then a else b }

  /** The i-th pop with the i-th pushed value. */
  ghost function Pairs<T>(ids: seq<nat>, vs: seq<T>): (cs: seq<Completion<T>>)
    ensures |cs| == Min(|ids|, |vs|)
  {
    seq(Min(|ids|, |vs|), i requires 0 <= i < Min(|ids|, |vs|) => Popped(ids[i], vs[i]))
  }

  ghost function Fresh(ids: seq<nat>): (ws: seq<PopWaiter>)
    ensures |ws| == |ids|
  {
    seq(|ids|, i requires 0 <= i < |ids| => PopWaiter(ids[i], false))
  }

  ghost predicate Matched<T>(s: State<T>, ids: seq<nat>, vs: seq<T>)
  {
    var m := Min(|ids|, |vs|);
    s.posted == Pairs(ids, vs) && s.list == vs[m..] && s.handlers == Fresh(ids[m..]) && s.waits == []
  }

  lemma PushMatches<T>(s: State<T>, ids: seq<nat>, vs: seq<T>, v: T)
    requires Matched(s, ids, vs)
    ensures Matched(Push(Unbounded, s, v), ids, vs + [v])
  {
    assert s.posted + WokenAll(s.waits) == s.posted;
    if |ids| > |vs| {
      assert s.handlers[0] == PopWaiter(ids[|vs|], false);
      assert Pairs(ids, vs + [v]) == Pairs(ids, vs) + [Popped(ids[|vs|], v)];
      assert Fresh(ids[|vs|..])[1..] == Fresh(ids[|vs| + 1..]);
      assert (vs + [v])[|vs| + 1..] == [] && vs[|vs|..] == [];
    } else {
      assert ids[|ids|..] == [];
      assert Pairs(ids, vs + [v]) == Pairs(ids, vs);
      assert (vs + [v])[|ids|..] == vs[|ids|..] + [v];
    }
  }

  lemma PopMatches<T>(s: State<T>, ids: seq<nat>, vs: seq<T>, id: nat)
    requires Matched(s, ids, vs)
    ensures Matched(Pop(s, id), ids + [id], vs)
  {
    if |ids| < |vs| {
      assert s.list[0] == vs[|ids|];
      assert Pairs(ids + [id], vs) == Pairs(ids, vs) + [Popped(id, vs[|ids|])];
      assert vs[|ids|..][1..] == vs[|ids| + 1..];
      assert (ids + [id])[|ids| + 1..] == [] && ids[|ids|..] == [];
    } else {
      assert vs[|vs|..] == [];
      assert Pairs(ids + [id], vs) == Pairs(ids, vs);
      assert Fresh((ids + [id])[|vs|..]) == Fresh(ids[|vs|..]) + [PopWaiter(id, false)];
    }
  }

  /**
   In every interleaving of pushes and pops on an unbounded list, the i-th pop completes with the i-th pushed value, in that
   order, and as many pops have completed as there are both pushes and pops.
   */
  lemma {:induction false} PopsMatchPushes<T>(ops: seq<Op<T>>)
    requires OnlyPushPop(ops)
    ensures Matched(Run(Unbounded, ops), PopIds(ops), Pushes(ops))
  {
    if ops == [] {
      assert Pairs<T>([], []) == [] && Fresh([]) == [];
    } else {
      var init, op := ops[..|ops| - 1], ops[|ops| - 1];
      PopsMatchPushes(init);
      var s := Run(Unbounded, init);
      if op.DoPush? {
        PushMatches(s, PopIds(init), Pushes(init), op.value);
      } else {
        PopMatches(s, PopIds(init), Pushes(init), op.id);
      }
      assert PopIds(init) + [] == PopIds(init) && Pushes(init) + [] == Pushes(init);
    }
  }

  // ---------- every value is accounted for ----------

  /** The values handed to pops, in order. */
  function Delivered<T>(cs: seq<Completion<T>>): (vs: seq<T>)
  {
    if cs == [] then []
    else
      var c := cs[|cs| - 1];
      Delivered(cs[..|cs| - 1]) + (if c.Popped? then [c.value] else [])
  }

  lemma {:induction false} DeliveredConcat<T>(a: seq<Completion<T>>, b: seq<Completion<T>>)
    ensures Delivered(a + b) == Delivered(a) + Delivered(b)
  {
    if b == [] {
      assert a + b == a;
    } else {
      var k := |b| - 1;
      DeliveredConcat(a, b[..k]);
      assert (a + b)[..|a| + k] == a + b[..k];
    }
  }

  lemma {:induction false} NothingDelivered<T>(cs: seq<Completion<T>>)
    requires forall i :: 0 <= i < |cs| ==> !cs[i].Popped?
    ensures Delivered(cs) == []
  {
    if cs != [] {
      NothingDelivered(cs[..|cs| - 1]);
    }
  }

  ghost predicate Below(idx: seq<nat>, n: nat)
  {
    forall i :: 0 <= i < |idx| ==> idx[i] < n
  }

  ghost function Select<T>(vs: seq<T>, idx: seq<nat>): (r: seq<T>)
    requires Below(idx, |vs|)
    ensures |r| == |idx|
  {
    seq(|idx|, i requires 0 <= i < |idx| => vs[idx[i]])
  }

  ghost predicate Ascending(idx: seq<nat>)
  {
    forall i, j :: 0 <= i < j < |idx| ==> idx[i] < idx[j]
  }

  function Upto(n: nat): (s: seq<nat>)
  {
    if n == 0 then [] else Upto(n - 1) + [n - 1]
  }

  /**
   Of all values pushed, numbered in order, those in d were delivered, those in q are queued and those in x were dropped:
   each exactly once, and delivery keeps the order.
   */
  ghost predicate Accounted<T>(s: State<T>, vs: seq<T>, d: seq<nat>, q: seq<nat>, x: seq<nat>)
  {
    && Below(d, |vs|) && Below(q, |vs|) && Below(x, |vs|)
    && Delivered(s.posted) == Select(vs, d) && s.list == Select(vs, q) && s.dropped == Select(vs, x)
    && Ascending(d + q)
    && multiset(d) + multiset(q) + multiset(x) == multiset(Upto(|vs|))
  }

  lemma SelectMore<T>(vs: seq<T>, idx: seq<nat>, v: T)
    requires Below(idx, |vs|)
    ensures Below(idx, |vs + [v]|) && Select(vs + [v], idx) == Select(vs, idx)
    ensures Below(idx + [|vs|], |vs + [v]|) && Select(vs + [v], idx + [|vs|]) == Select(vs, idx) + [v]
  {
  }

  lemma AscendingMore(d: seq<nat>, q: seq<nat>, n: nat)
    requires Ascending(d + q) && Below(d, n) && Below(q, n)
    ensures Ascending(d + (q + [n]))
    ensures q == [] ==> Ascending(d + [n] + q)
    ensures q != [] ==> Ascending(d + (q[1..] + [n])) && Ascending(d + [q[0]] + q[1..])
  {
    var all := d + q;
    assert d + (q + [n]) == all + [n];
    assert q == [] ==> d + [n] + q == all + [n];
    if q != [] {
      assert d + [q[0]] + q[1..] == all;
      var fewer := d + q[1..];
      assert d + (q[1..] + [n]) == fewer + [n];
      forall i, j | 0 <= i < j < |fewer|
        ensures fewer[i] < fewer[j]
      {
        assert all[if i < |d| then i else i + 1] < all[if j < |d| then j else j + 1];
      }
    }
  }

  lemma AccountPosted<T>(s: State<T>, r: State<T>, vs: seq<T>, d: seq<nat>, q: seq<nat>, x: seq<nat>)
    requires Accounted(s, vs, d, q, x) && r.list == s.list && r.dropped == s.dropped
             && Delivered(r.posted) == Delivered(s.posted)
    ensures Accounted(r, vs, d, q, x)
  {
  }

  lemma AccountGiven<T>(s: State<T>, r: State<T>, v: T, vs: seq<T>, d: seq<nat>, q: seq<nat>, x: seq<nat>)
    requires Accounted(s, vs, d, q, x) && s.list == []
    requires r.list == s.list && r.dropped == s.dropped && Delivered(r.posted) == Delivered(s.posted) + [v]
    ensures Accounted(r, vs + [v], d + [|vs|], q, x)
  {
    hide Delivered;
    SelectMore(vs, d, v);
    SelectMore(vs, q, v);
    SelectMore(vs, x, v);
    AscendingMore(d, q, |vs|);
  }

  lemma AccountQueued<T>(s: State<T>, r: State<T>, v: T, vs: seq<T>, d: seq<nat>, q: seq<nat>, x: seq<nat>)
    requires Accounted(s, vs, d, q, x)
    requires r.list == s.list + [v] && r.dropped == s.dropped && Delivered(r.posted) == Delivered(s.posted)
    ensures Accounted(r, vs + [v], d, q + [|vs|], x)
  {
    hide Delivered;
    SelectMore(vs, d, v);
    SelectMore(vs, q, v);
    SelectMore(vs, x, v);
    AscendingMore(d, q, |vs|);
  }

  lemma AccountOverwritten<T>(s: State<T>, r: State<T>, v: T, vs: seq<T>, d: seq<nat>, q: seq<nat>, x: seq<nat>)
    requires Accounted(s, vs, d, q, x) && s.list != []
    requires r.list == s.list[1..] + [v] && r.dropped == s.dropped + [s.list[0]]
             && Delivered(r.posted) == Delivered(s.posted)
    ensures Accounted(r, vs + [v], d, q[1..] + [|vs|], x + [q[0]])
  {
    hide Delivered;
    SelectMore(vs, d, v);
    SelectMore(vs, q[1..], v);
    SelectMore(vs, x, v);
    AscendingMore(d, q, |vs|);
    assert q == [q[0]] + q[1..];
    assert Select(vs, q)[1..] == Select(vs, q[1..]);
    assert Select(vs + [v], x + [q[0]]) == Select(vs + [v], x) + [(vs + [v])[q[0]]];
  }

  lemma AccountLost<T>(s: State<T>, r: State<T>, v: T, vs: seq<T>, d: seq<nat>, q: seq<nat>, x: seq<nat>)
    requires Accounted(s, vs, d, q, x)
    requires r.list == s.list && r.dropped == s.dropped + [v] && Delivered(r.posted) == Delivered(s.posted)
    ensures Accounted(r, vs + [v], d, q, x + [|vs|])
  {
    hide Delivered;
    SelectMore(vs, d, v);
    SelectMore(vs, q, v);
    SelectMore(vs, x, v);
  }

  lemma AccountPush<T>(cap: Capacity, s: State<T>, v: T, vs: seq<T>, d: seq<nat>, q: seq<nat>, x: seq<nat>)
    returns (d': seq<nat>, q': seq<nat>, x': seq<nat>)
    requires Idle(s) && Accounted(s, vs, d, q, x)
    ensures Accounted(Push(cap, s, v), vs + [v], d', q', x')
  {
    hide Deliver, Accounted, Delivered;
    var n := |vs|;
    var woken := s.(waits := [], posted := s.posted + WokenAll(s.waits));
    DeliveredConcat(s.posted, WokenAll(s.waits));
    NothingDelivered<T>(WokenAll(s.waits));
    DeliverShape(cap, woken, v);
    var r := Deliver(cap, woken, v);
    d', q', x' := d, q, x;
    if r.posted != woken.posted {
      var id :| r.posted == woken.posted + [Popped(id, v)];
      DeliveredConcat(woken.posted, [Popped(id, v)]);
      DeliveredOne(id, v);
      PushedToWaiter(cap, woken, v);
      AccountGiven(s, r, v, vs, d, q, x);
      d' := d + [n];
    } else if cap.Unbounded? || (cap.n != 0 && |s.list| < cap.n) {
      AccountQueued(s, r, v, vs, d, q, x);
      q' := q + [n];
    } else if cap.n == 0 {
      AccountLost(s, r, v, vs, d, q, x);
      x' := x + [n];
    } else {
      QueuedSome(s, vs, d, q, x);
      AccountOverwritten(s, r, v, vs, d, q, x);
      q', x' := q[1..] + [n], x + [q[0]];
    }
  }

  lemma QueuedSome<T>(s: State<T>, vs: seq<T>, d: seq<nat>, q: seq<nat>, x: seq<nat>)
    requires Accounted(s, vs, d, q, x)
    ensures |q| == |s.list|
  {
  }

  lemma DeliveredOne<T>(id: nat, v: T)
    ensures Delivered([Popped(id, v)]) == [v]
  {
    var cs := [Popped(id, v)];
    assert cs[..0] == [] && Delivered(cs[..0]) == [];
  }

  /** A value goes to a waiter only when waiters are pending. */
  lemma {:induction false} PushedToWaiter<T>(cap: Capacity, s: State<T>, v: T)
    ensures Deliver(cap, s, v).posted != s.posted ==> s.handlers != []
    ensures Deliver(cap, s, v).posted != s.posted ==>
            Deliver(cap, s, v).list == s.list && Deliver(cap, s, v).dropped == s.dropped
    decreases |s.handlers|
  {
    if s.handlers != [] && s.handlers[0].timedOut {
      PushedToWaiter(cap, s.(handlers := s.handlers[1..]), v);
    }
  }

  lemma AccountTaken<T>(s: State<T>, r: State<T>, vs: seq<T>, d: seq<nat>, q: seq<nat>, x: seq<nat>)
    requires Accounted(s, vs, d, q, x) && s.list != []
    requires r.list == s.list[1..] && r.dropped == s.dropped && Delivered(r.posted) == Delivered(s.posted) + [s.list[0]]
    ensures Accounted(r, vs, d + [q[0]], q[1..], x)
  {
    hide Delivered;
    AscendingMore(d, q, |vs|);
    assert q == [q[0]] + q[1..];
    assert multiset(q) == multiset([q[0]]) + multiset(q[1..]);
    assert Select(vs, d + [q[0]]) == Select(vs, d) + [vs[q[0]]];
  }

  lemma AccountPop<T>(s: State<T>, id: nat, vs: seq<T>, d: seq<nat>, q: seq<nat>, x: seq<nat>)
    returns (d': seq<nat>, q': seq<nat>)
    requires Accounted(s, vs, d, q, x)
    ensures Accounted(Pop(s, id), vs, d', q', x)
  {
    hide Delivered, Accounted;
    d', q' := d, q;
    if s.list != [] {
      DeliveredConcat(s.posted, [Popped(id, s.list[0])]);
      DeliveredOne(id, s.list[0]);
      QueuedSome(s, vs, d, q, x);
      AccountTaken(s, Pop(s, id), vs, d, q, x);
      d', q' := d + [q[0]], q[1..];
    } else {
      AccountPosted(s, Pop(s, id), vs, d, q, x);
    }
  }

  lemma {:induction false} CancelDelivers<T>(s: State<T>)
    ensures Delivered(CancelPops(s).posted) == Delivered(s.posted)
    decreases |s.handlers|
  {
    if s.handlers != [] {
      var rest := s.(handlers := s.handlers[1..]);
      if s.handlers[0].timedOut {
        CancelDelivers(rest);
      } else {
        var c: Completion<T> := PopCanceled(s.handlers[0].id);
        CancelDelivers(rest.(posted := s.posted + [c]));
        DeliveredConcat(s.posted, [c]);
        NothingDelivered([c]);
      }
    }
  }

  lemma CancelAccounts<T>(s: State<T>)
    ensures Delivered(Cancel(s).posted) == Delivered(s.posted)
  {
    DeliveredConcat(s.posted, WaitsCanceled(s.waits));
    NothingDelivered<T>(WaitsCanceled(s.waits));
    CancelDelivers(if s.handlers != [] then s.(waits := [], posted := s.posted + WaitsCanceled(s.waits)) else s);
  }

  lemma AccountClear<T>(s: State<T>, vs: seq<T>, d: seq<nat>, q: seq<nat>, x: seq<nat>)
    requires Accounted(s, vs, d, q, x)
    ensures Accounted(Clear(s), vs, d, [], x + q)
  {
    CancelAccounts(s);
    CancelShape(s);
    AscendingFront(d, q);
    assert Select(vs, x + q) == Select(vs, x) + Select(vs, q);
  }

  lemma AscendingFront(d: seq<nat>, q: seq<nat>)
    requires Ascending(d + q)
    ensures Ascending(d + [])
  {
    var all := d + q;
    forall i, j | 0 <= i < j < |d|
      ensures (d + [])[i] < (d + [])[j]
    {
      assert all[i] < all[j];
    }
  }

  /**
   Over every run, with cancels, clears, timeouts and an overwriting ring: every value pushed has been delivered, is
   queued, or was overwritten or cleared, and values are delivered in the order in which they were pushed.
   */
  lemma {:induction false} ValuesAccounted<T>(cap: Capacity, ops: seq<Op<T>>)
    returns (d: seq<nat>, q: seq<nat>, x: seq<nat>)
    ensures Accounted(Run(cap, ops), Pushes(ops), d, q, x)
  {
    hide Accounted, Push, Pop, Cancel, Clear;
    if ops == [] {
      d, q, x := [], [], [];
      NothingAccounted<T>();
    } else {
      var init, op := ops[..|ops| - 1], ops[|ops| - 1];
      d, q, x := ValuesAccounted(cap, init);
      AlwaysIdle(cap, init);
      var s, vs := Run(cap, init), Pushes(init);
      assert vs + [] == vs;
      match op {
        case DoPush(v) => d, q, x := AccountPush(cap, s, v, vs, d, q, x);
        case DoPop(id) => d, q := AccountPop(s, id, vs, d, q, x);
        case DoWait(id) => AccountWait(s, id, vs, d, q, x);
        case DoCancel => AccountCancel(s, vs, d, q, x);
        case DoClear =>
          AccountClear(s, vs, d, q, x);
          q, x := [], x + q;
        case DoTimeOut(id) => AccountPosted(s, TimeOut(s, id), vs, d, q, x);
      }
    }
  }

  lemma NothingAccounted<T>()
    ensures Accounted<T>(Start(), [], [], [], [])
  {
  }

  lemma AccountWait<T>(s: State<T>, id: nat, vs: seq<T>, d: seq<nat>, q: seq<nat>, x: seq<nat>)
    requires Accounted(s, vs, d, q, x)
    ensures Accounted(Wait(s, id), vs, d, q, x)
  {
    DeliveredConcat(s.posted, [Woken(id)]);
    NothingDelivered<T>([Woken(id)]);
    AccountPosted(s, Wait(s, id), vs, d, q, x);
  }

  lemma AccountCancel<T>(s: State<T>, vs: seq<T>, d: seq<nat>, q: seq<nat>, x: seq<nat>)
    requires Accounted(s, vs, d, q, x)
    ensures Accounted(Cancel(s), vs, d, q, x)
  {
    CancelAccounts(s);
    CancelShape(s);
    AccountPosted(s, Cancel(s), vs, d, q, x);
  }

  // ---------- every request completes at most once ----------

  /** Whether a completion is one of a pop, or of a wait, with the given id. */
  predicate Completes<T>(c: Completion<T>, pops: bool, id: nat)
  {
    c.id == id && pops == (c.Popped? || c.PopCanceled?)
  }

  /** How often pops, or waits, with the given id have completed. */
  function Done<T>(cs: seq<Completion<T>>, pops: bool, id: nat): (n: nat)
  {
    if cs == [] then 0
    else Done(cs[..|cs| - 1], pops, id) + (if Completes(cs[|cs| - 1], pops, id) then 1 else 0)
  }

  lemma {:induction false} DoneConcat<T>(a: seq<Completion<T>>, b: seq<Completion<T>>, pops: bool, id: nat)
    ensures Done(a + b, pops, id) == Done(a, pops, id) + Done(b, pops, id)
  {
    if b == [] {
      assert a + b == a;
    } else {
      var k := |b| - 1;
      DoneConcat(a, b[..k], pops, id);
      assert (a + b)[..|a| + k] == a + b[..k];
    }
  }

  lemma DoneOneMore<T>(cs: seq<Completion<T>>, c: Completion<T>, pops: bool, id: nat)
    ensures Done(cs + [c], pops, id) == Done(cs, pops, id) + (if Completes(c, pops, id) then 1 else 0)
  {
    assert (cs + [c])[..|cs|] == cs;
  }

  function Occurs(ids: seq<nat>, id: nat): (n: nat)
  {
    if ids == [] then 0 else Occurs(ids[..|ids| - 1], id) + (if ids[|ids| - 1] == id then 1 else 0)
  }

  lemma OccursSnoc(ids: seq<nat>, x: nat, id: nat)
    ensures Occurs(ids + [x], id) == Occurs(ids, id) + (if x == id then 1 else 0)
  {
    assert (ids + [x])[..|ids|] == ids;
  }

  /** Completions of waits only, for the given ids. */
  lemma {:induction false} DoneWaits<T>(cs: seq<Completion<T>>, ids: seq<nat>, id: nat)
    requires |cs| == |ids| && forall i :: 0 <= i < |ids| ==> cs[i].id == ids[i] && (cs[i].Woken? || cs[i].WaitCanceled?)
    ensures Done(cs, false, id) == Occurs(ids, id) && Done(cs, true, id) == 0
  {
    if cs != [] {
      var k := |cs| - 1;
      DoneWaits(cs[..k], ids[..k], id);
    }
  }

  /** How many pops with the given id are pending. */
  function Sleeping(ws: seq<PopWaiter>, id: nat): (n: nat)
  {
    if ws == [] then 0 else (if ws[0].id == id then 1 else 0) + Sleeping(ws[1..], id)
  }

  lemma {:induction false} SleepingSnoc(ws: seq<PopWaiter>, w: PopWaiter, id: nat)
    ensures Sleeping(ws + [w], id) == Sleeping(ws, id) + (if w.id == id then 1 else 0)
  {
    if ws == [] {
      assert ws + [w] == [w] && [w][1..] == [];
    } else {
      SleepingSnoc(ws[1..], w, id);
      assert (ws + [w])[1..] == ws[1..] + [w];
    }
  }

  lemma {:induction false} SleepingFlagged(ws: seq<PopWaiter>, fired: nat, id: nat)
    ensures Sleeping(Flagged(ws, fired), id) == Sleeping(ws, id)
  {
    if ws != [] {
      SleepingFlagged(ws[1..], fired, id);
      assert Flagged(ws, fired)[1..] == Flagged(ws[1..], fired);
    }
  }

  function Pops<T>(s: State<T>, id: nat): (n: nat)
  {
    Done(s.posted, true, id) + Sleeping(s.handlers, id)
  }

  function Waits<T>(s: State<T>, id: nat): (n: nat)
  {
    Done(s.posted, false, id) + Occurs(s.waits, id)
  }

  /** The timer of no pending pop with this id has fired. */
  ghost predicate Awake<T>(s: State<T>, id: nat)
  {
    forall i :: 0 <= i < |s.handlers| && s.handlers[i].id == id ==> !s.handlers[i].timedOut
  }

  lemma {:induction false} DeliverMoves<T>(cap: Capacity, s: State<T>, v: T, id: nat)
    ensures Pops(Deliver(cap, s, v), id) <= Pops(s, id) && Waits(Deliver(cap, s, v), id) == Waits(s, id)
    ensures Awake(s, id) ==> Awake(Deliver(cap, s, v), id) && Pops(Deliver(cap, s, v), id) == Pops(s, id)
    decreases |s.handlers|
  {
    hide Done, Occurs;
    if s.handlers == [] {
    } else if s.handlers[0].timedOut {
      DeliverMoves(cap, s.(handlers := s.handlers[1..]), v, id);
    } else {
      var c := Popped(s.handlers[0].id, v);
      DoneOneMore(s.posted, c, true, id);
      DoneOneMore(s.posted, c, false, id);
    }
  }

  lemma {:induction false} CancelPopsMoves<T>(s: State<T>, id: nat)
    ensures Pops(CancelPops(s), id) <= Pops(s, id) && Waits(CancelPops(s), id) == Waits(s, id)
    ensures Awake(s, id) ==> Awake(CancelPops(s), id) && Pops(CancelPops(s), id) == Pops(s, id)
    decreases |s.handlers|
  {
    hide Done, Occurs;
    if s.handlers != [] {
      var rest := s.(handlers := s.handlers[1..]);
      if s.handlers[0].timedOut {
        CancelPopsMoves(rest, id);
      } else {
        var c: Completion<T> := PopCanceled(s.handlers[0].id);
        CancelPopsMoves(rest.(posted := s.posted + [c]), id);
        DoneOneMore(s.posted, c, true, id);
        DoneOneMore(s.posted, c, false, id);
      }
    }
  }

  lemma WakeMoves<T>(s: State<T>, cs: seq<Completion<T>>, id: nat)
    requires |cs| == |s.waits| && forall i :: 0 <= i < |cs| ==>
             cs[i].id == s.waits[i] && (cs[i].Woken? || cs[i].WaitCanceled?)
    ensures var r := s.(waits := [], posted := s.posted + cs); Pops(r, id) == Pops(s, id) && Waits(r, id) == Waits(s, id)
  {
    hide Done, Sleeping;
    DoneConcat(s.posted, cs, true, id);
    DoneConcat(s.posted, cs, false, id);
    DoneWaits(cs, s.waits, id);
  }

  lemma PushMoves<T>(cap: Capacity, s: State<T>, v: T, id: nat)
    ensures Pops(Push(cap, s, v), id) <= Pops(s, id) && Waits(Push(cap, s, v), id) == Waits(s, id)
    ensures Awake(s, id) ==> Awake(Push(cap, s, v), id) && Pops(Push(cap, s, v), id) == Pops(s, id)
  {
    hide Deliver, Pops, Waits;
    WakeMoves<T>(s, WokenAll(s.waits), id);
    DeliverMoves(cap, s.(waits := [], posted := s.posted + WokenAll(s.waits)), v, id);
  }

  lemma CancelMoves<T>(s: State<T>, id: nat)
    ensures Pops(Cancel(s), id) <= Pops(s, id) && Waits(Cancel(s), id) == Waits(s, id)
    ensures Awake(s, id) ==> Awake(Cancel(s), id) && Pops(Cancel(s), id) == Pops(s, id)
  {
    hide CancelPops, Pops, Waits;
    WakeMoves<T>(s, WaitsCanceled(s.waits), id);
    CancelPopsMoves(if s.handlers != [] then s.(waits := [], posted := s.posted + WaitsCanceled(s.waits)) else s, id);
  }

  lemma ClearMoves<T>(s: State<T>, id: nat)
    ensures Pops(Clear(s), id) <= Pops(s, id) && Waits(Clear(s), id) == Waits(s, id)
    ensures Awake(s, id) ==> Awake(Clear(s), id) && Pops(Clear(s), id) == Pops(s, id)
  {
    hide Cancel;
    CancelMoves(s, id);
  }

  lemma TimeOutMoves<T>(s: State<T>, fired: nat, id: nat)
    ensures Pops(TimeOut(s, fired), id) == Pops(s, id) && Waits(TimeOut(s, fired), id) == Waits(s, id)
    ensures fired != id && Awake(s, id) ==> Awake(TimeOut(s, fired), id)
  {
    SleepingFlagged(s.handlers, fired, id);
  }

  lemma PopRequest<T>(s: State<T>, x: nat, id: nat)
    ensures Pops(Pop(s, x), id) == Pops(s, id) + (if x == id then 1 else 0) && Waits(Pop(s, x), id) == Waits(s, id)
    ensures Awake(s, id) ==> Awake(Pop(s, x), id)
  {
    hide Done, Occurs, Sleeping;
    if s.list == [] {
      SleepingSnoc(s.handlers, PopWaiter(x, false), id);
    } else {
      DoneOneMore(s.posted, Popped(x, s.list[0]), true, id);
      DoneOneMore(s.posted, Popped(x, s.list[0]), false, id);
    }
  }

  lemma WaitRequest<T>(s: State<T>, x: nat, id: nat)
    ensures Waits(Wait(s, x), id) == Waits(s, id) + (if x == id then 1 else 0) && Pops(Wait(s, x), id) == Pops(s, id)
    ensures Done(Wait(s, x).posted, true, id) == Done(s.posted, true, id) && Wait(s, x).handlers == s.handlers
  {
    hide Done, Occurs, Sleeping;
    if s.list == [] {
      OccursSnoc(s.waits, x, id);
    } else {
      DoneOneMore(s.posted, Woken(x), true, id);
      DoneOneMore(s.posted, Woken(x), false, id);
    }
  }

  /** How many pop requests, or wait requests, were made with the given id. */
  function Requests<T(==)>(ops: seq<Op<T>>, pops: bool, id: nat): (n: nat)
  {
    if ops == [] then 0
    else
      Requests(ops[..|ops| - 1], pops, id) + (if ops[|ops| - 1] == (if pops then DoPop(id) else DoWait(id)) then 1 else 0)
  }

  /**
   Over every run, no pop request completes more than once; a pop request whose timer never fires, and every wait request,
   is pending or has completed exactly once.
   */
  lemma {:induction false} CompletesOnce<T>(cap: Capacity, ops: seq<Op<T>>, id: nat)
    ensures Done(Run(cap, ops).posted, true, id) + Sleeping(Run(cap, ops).handlers, id) <= Requests(ops, true, id)
    ensures DoTimeOut(id) !in ops ==>
              Done(Run(cap, ops).posted, true, id) + Sleeping(Run(cap, ops).handlers, id) == Requests(ops, true, id)
    ensures Done(Run(cap, ops).posted, false, id) + Occurs(Run(cap, ops).waits, id) == Requests(ops, false, id)
    ensures DoTimeOut(id) !in ops ==> Awake(Run(cap, ops), id)
  {
    hide Push, Pop, Wait, Cancel, Clear, TimeOut, Done, Sleeping, Occurs;
    if ops == [] {
      NothingDone<T>(id);
    } else {
      var init, op := ops[..|ops| - 1], ops[|ops| - 1];
      CompletesOnce(cap, init, id);
      var s := Run(cap, init);
      match op {
        case DoPush(v) => PushMoves(cap, s, v, id);
        case DoPop(x) => PopRequest(s, x, id);
        case DoWait(x) => WaitRequest(s, x, id);
        case DoCancel => CancelMoves(s, id);
        case DoClear => ClearMoves(s, id);
        case DoTimeOut(x) => TimeOutMoves(s, x, id);
      }
    }
  }

  lemma NothingDone<T>(id: nat)
    ensures Pops<T>(Start(), id) == 0 && Waits<T>(Start(), id) == 0
  {
  }

  // ---------- nothing is delivered to a pop that has timed out ----------

  ghost predicate AllFlagged(ws: seq<PopWaiter>, id: nat)
  {
    forall i :: 0 <= i < |ws| && ws[i].id == id ==> ws[i].timedOut
  }

  /** A step that gives nothing to `id`. */
  ghost predicate PassesBy<T>(s: State<T>, r: State<T>, id: nat)
  {
    AllFlagged(r.handlers, id) && Done(r.posted, true, id) == Done(s.posted, true, id)
  }

  lemma {:induction false} DeliverPassesBy<T>(cap: Capacity, s: State<T>, v: T, id: nat)
    requires AllFlagged(s.handlers, id)
    ensures PassesBy(s, Deliver(cap, s, v), id)
    decreases |s.handlers|
  {
    hide Done;
    if s.handlers == [] {
    } else if s.handlers[0].timedOut {
      DeliverPassesBy(cap, s.(handlers := s.handlers[1..]), v, id);
    } else {
      DoneOneMore(s.posted, Popped(s.handlers[0].id, v), true, id);
    }
  }

  lemma {:induction false} CancelPassesBy<T>(s: State<T>, id: nat)
    requires AllFlagged(s.handlers, id)
    ensures PassesBy(s, CancelPops(s), id)
    decreases |s.handlers|
  {
    hide Done;
    if s.handlers != [] {
      var rest := s.(handlers := s.handlers[1..]);
      if s.handlers[0].timedOut {
        CancelPassesBy(rest, id);
      } else {
        var c: Completion<T> := PopCanceled(s.handlers[0].id);
        CancelPassesBy(rest.(posted := s.posted + [c]), id);
        DoneOneMore(s.posted, c, true, id);
      }
    }
  }

  lemma StepPassesBy<T>(cap: Capacity, s: State<T>, op: Op<T>, id: nat)
    requires AllFlagged(s.handlers, id) && op != DoPop(id)
    ensures PassesBy(s, Step(cap, s, op), id)
  {
    hide Deliver, CancelPops, Done;
    match op {
      case DoPush(v) =>
        var woken := s.(waits := [], posted := s.posted + WokenAll(s.waits));
        DoneConcat(s.posted, WokenAll(s.waits), true, id);
        DoneWaits<T>(WokenAll(s.waits), s.waits, id);
        DeliverPassesBy(cap, woken, v, id);
      case DoPop(other) =>
        PopPassesBy(s, other, id);
      case DoWait(w) =>
        WaitRequest(s, w, id);
      case DoCancel =>
        CancelAllPassesBy(s, id);
      case DoClear =>
        CancelAllPassesBy(s, id);
      case DoTimeOut(_) =>
    }
  }

  lemma PopPassesBy<T>(s: State<T>, other: nat, id: nat)
    requires AllFlagged(s.handlers, id) && other != id
    ensures PassesBy(s, Pop(s, other), id)
  {
    hide Done;
    if s.list != [] {
      DoneOneMore(s.posted, Popped(other, s.list[0]), true, id);
    }
  }

  lemma CancelAllPassesBy<T>(s: State<T>, id: nat)
    requires AllFlagged(s.handlers, id)
    ensures PassesBy(s, Cancel(s), id)
  {
    hide CancelPops, Done;
    DoneConcat(s.posted, WaitsCanceled(s.waits), true, id);
    DoneWaits<T>(WaitsCanceled(s.waits), s.waits, id);
    CancelPassesBy(if s.handlers != [] then s.(waits := [], posted := s.posted + WaitsCanceled(s.waits)) else s, id);
  }

  /** Once the timer of a pop has fired, no later step of any run completes that pop, unless the id is used again. */
  lemma {:induction false} NoLateDelivery<T>(cap: Capacity, before: seq<Op<T>>, id: nat, after: seq<Op<T>>)
    requires forall i :: 0 <= i < |after| ==> after[i] != DoPop(id)
    ensures PassesBy(Run(cap, before), Run(cap, before + [DoTimeOut(id)] + after), id)
  {
    hide Step, Done;
    var fired := before + [DoTimeOut(id)];
    if after == [] {
      assert fired[..|before|] == before && fired + after == fired;
      TimeOutFlags(cap, Run(cap, before), id);
    } else {
      var k := |after| - 1;
      NoLateDelivery(cap, before, id, after[..k]);
      var ops := fired + after;
      assert ops[..|ops| - 1] == fired + after[..k] && ops[|ops| - 1] == after[k];
      StepPassesBy(cap, Run(cap, fired + after[..k]), after[k], id);
    }
  }

  lemma TimeOutFlags<T>(cap: Capacity, s: State<T>, id: nat)
    ensures PassesBy(s, Step(cap, s, DoTimeOut(id)), id)
  {
  }
}
