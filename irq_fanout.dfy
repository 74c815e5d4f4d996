/**
 * `interrupt_exception`: the fan-out of one interrupt trap to the handlers of
 * the pending IRQ lines. The calls it makes into the IRQ subsystem are
 * recorded as a trace of events, and the per-descriptor spinlocks as the
 * ghost set of lines whose lock is held.
 */
module IrqFanOut {
  import opened Wrappers
  import opened Handlers

  /** The number of interrupt lines in the IP field of the Cause register. */
  const IRQ_LINES := 8

  /** One call the fan-out makes, tagged with the line it concerns. */
  datatype Event<D> =
    | Lookup(line: nat, found: Option<D>)   // irq_dispatch_and_lock(line), and what it returned
    | Handle(line: nat, irq: D)             // irq->handler(irq)
    | Unlock(line: nat, irq: D)             // irq_spinlock_unlock(&irq->lock)

  /**
   * The IP field, bits 15:8 of the CP0 Cause register; PendingIsCauseBit
   * states which Cause bit each of its bits is.
   */
  function IpField(cause: bv32): (ip: bv32)
    ensures ip < 0x100
  {
    (cause >> 8) & 0xff
  }

  /** Line i is pending when bit i of the IP field is set. */
  predicate Pending(cause: bv32, i: nat)
    requires i < IRQ_LINES
  {
    IpField(cause) & (1 << i) != 0
  }

  /**
   * The IRQ registry seen by `irq_dispatch_and_lock`: the descriptor
   * registered for a line, or None (a NULL return) for a line without one.
   */
  function Find<D>(registry: map<nat, Option<D>>, line: nat): Option<D>
  {
    if line in registry then registry[line] else None
  }

  /** The calls made for line i: none when it is not pending. */
  function LineEvents<D>(cause: bv32, registry: map<nat, Option<D>>, i: nat): seq<Event<D>>
    requires i < IRQ_LINES
  {
    if !Pending(cause, i) then []
    else match Find(registry, i)
      case None => [Lookup(i, None)]
      case Some(d) => [Lookup(i, Some(d)), Handle(i, d), Unlock(i, d)]
  }

  /** The calls made for lines 0 to k - 1, in that order. */
  function FanOutTo<D>(cause: bv32, registry: map<nat, Option<D>>, k: nat): seq<Event<D>>
    requires k <= IRQ_LINES
  {
    if k == 0 then [] else FanOutTo(cause, registry, k - 1) + LineEvents(cause, registry, k - 1)
  }

  /** The calls made by one interrupt trap. */
  function FanOut<D>(cause: bv32, registry: map<nat, Option<D>>): seq<Event<D>>
  {
    FanOutTo(cause, registry, IRQ_LINES)
  }

  /**
   * `interrupt_exception`: reads the IP field of Cause once and, for each set
   * bit in ascending order, looks the line up and locks its descriptor, calls
   * the handler and unlocks it; a line with no descriptor is spurious and
   * skipped. The trap always resumes and leaves no lock held.
   */
  method InterruptException<D>(cause: bv32, registry: map<nat, Option<D>>)
    returns (out: Outcome, trace: seq<Event<D>>, ghost held: set<nat>)
    ensures out == Resume
    ensures trace == FanOut(cause, registry)
    ensures held == {} && Replay(trace, {}) == Some(held)
  {
    var ip := IpField(cause);
    trace, held := [], {};
    var i: nat := 0;
    while i < IRQ_LINES
      invariant i <= IRQ_LINES
      invariant trace == FanOutTo(cause, registry, i)
      invariant held == {} && Replay(trace, {}) == Some(held)
    {
      ghost var before := trace;
      if ip & (1 << i) != 0 {
        var irq := Find(registry, i);
        trace := trace + [Lookup(i, irq)];
        ReplaySnoc(before, Lookup(i, irq), {});
        held := if irq.Some? then {i} else {};
        assert Replay(trace, {}) == Some(held);
        if irq.Some? {
          ghost var locked := trace;
          trace := trace + [Handle(i, irq.value)];
          ReplaySnoc(locked, Handle(i, irq.value), {});
          assert Replay(trace, {}) == Some(held);
          ghost var handled := trace;
          trace := trace + [Unlock(i, irq.value)];
          ReplaySnoc(handled, Unlock(i, irq.value), {});
          held := held - {i};
          assert Replay(trace, {}) == Some(held);
        }
      }
      assert trace == before + LineEvents(cause, registry, i);
      i := i + 1;
    }
    out := Resume;
  }

  // ---------------------------------------------------------------------
  // Properties of the trace of one trap

  /** The number of lookups of line i in t. */
  function Lookups<D>(t: seq<Event<D>>, i: nat): nat
  {
    if t == [] then 0 else (if t[0].Lookup? && t[0].line == i then 1 else 0) + Lookups(t[1..], i)
  }

  /** The number of handler calls for line i in t. */
  function Handles<D>(t: seq<Event<D>>, i: nat): nat
  {
    if t == [] then 0 else (if t[0].Handle? && t[0].line == i then 1 else 0) + Handles(t[1..], i)
  }

  lemma {:induction false} CountsConcat<D>(a: seq<Event<D>>, b: seq<Event<D>>, i: nat)
    ensures Lookups(a + b, i) == Lookups(a, i) + Lookups(b, i)
    ensures Handles(a + b, i) == Handles(a, i) + Handles(b, i)
  {
    if a != [] {
      assert (a + b)[0] == a[0] && (a + b)[1..] == a[1..] + b;
      CountsConcat(a[1..], b, i);
    } else {
      assert a + b == b;
    }
  }

  lemma LineCounts<D>(cause: bv32, registry: map<nat, Option<D>>, k: nat, i: nat)
    requires k < IRQ_LINES
    ensures Lookups(LineEvents(cause, registry, k), i) == if i == k && Pending(cause, i) then 1 else 0
    ensures Handles(LineEvents(cause, registry, k), i) ==
      if i == k && Pending(cause, i) && Find(registry, i).Some? then 1 else 0
  {
    if Pending(cause, k) {
      match Find(registry, k)
      case None =>
        var q: seq<Event<D>> := [Lookup(k, None)];
        assert q[1..] == [];
      case Some(d) =>
        var q := [Lookup(k, Some(d)), Handle(k, d), Unlock(k, d)];
        assert q == LineEvents(cause, registry, k);
        var q1, q2 := [Handle(k, d), Unlock(k, d)], [Unlock(k, d)];
        assert q[1..] == q1 && q1[1..] == q2 && q2[1..] == [];
        assert Lookups(q2, i) == 0 && Handles(q2, i) == 0;
        assert Lookups(q1, i) == 0 && Handles(q1, i) == (if i == k then 1 else 0);
    }
  }

  lemma {:induction false} CountsUpTo<D>(cause: bv32, registry: map<nat, Option<D>>, k: nat, i: nat)
    requires k <= IRQ_LINES
    ensures Lookups(FanOutTo(cause, registry, k), i) ==
      if i < k && Pending(cause, i) then 1 else 0
    ensures Handles(FanOutTo(cause, registry, k), i) ==
      if i < k && Pending(cause, i) && Find(registry, i).Some? then 1 else 0
  {
    if k > 0 {
      CountsUpTo(cause, registry, k - 1, i);
      LineCounts(cause, registry, k - 1, i);
      CountsConcat(FanOutTo(cause, registry, k - 1), LineEvents(cause, registry, k - 1), i);
    }
  }

  /**
   * Each line 0..7 is looked up exactly once if its IP bit is set and never
   * otherwise, and its handler is called exactly once if, in addition, the
   * lookup found a descriptor; no other line is ever touched.
   */
  lemma LookupAndHandleOncePerLine<D>(cause: bv32, registry: map<nat, Option<D>>, i: nat)
    ensures Lookups(FanOut(cause, registry), i) == if i < IRQ_LINES && Pending(cause, i) then 1 else 0
    ensures Handles(FanOut(cause, registry), i) ==
      if i < IRQ_LINES && Pending(cause, i) && Find(registry, i).Some? then 1 else 0
  {
    CountsUpTo(cause, registry, IRQ_LINES, i);
  }

  /** The lines of a trace never decrease, and all are below k. */
  ghost predicate AscendingBelow<D>(t: seq<Event<D>>, k: nat)
  {
    (forall a :: 0 <= a < |t| ==> t[a].line < k) &&
    (forall a, b :: 0 <= a < b < |t| ==> t[a].line <= t[b].line)
  }

  lemma {:induction false} AscendingUpTo<D>(cause: bv32, registry: map<nat, Option<D>>, k: nat)
    requires k <= IRQ_LINES
    ensures AscendingBelow(FanOutTo(cause, registry, k), k)
  {
    if k > 0 {
      AscendingUpTo(cause, registry, k - 1);
      var p, q := FanOutTo(cause, registry, k - 1), LineEvents(cause, registry, k - 1);
      assert forall a :: 0 <= a < |q| ==> q[a].line == k - 1;
      assert FanOutTo(cause, registry, k) == p + q;
    }
  }

  /** Lines are serviced in ascending order, and only lines 0..7. */
  lemma LinesAscending<D>(cause: bv32, registry: map<nat, Option<D>>)
    ensures AscendingBelow(FanOut(cause, registry), IRQ_LINES)
  {
    AscendingUpTo(cause, registry, IRQ_LINES);
  }

  /**
   * Every handler call runs on the descriptor the lookup just returned for its
   * line, directly after that lookup, and is directly followed by the unlock
   * of the same descriptor.
   */
  ghost predicate Bracketed<D>(t: seq<Event<D>>, registry: map<nat, Option<D>>)
  {
    forall k :: 0 <= k < |t| && t[k].Handle? ==>
      0 < k < |t| - 1 &&
      Find(registry, t[k].line) == Some(t[k].irq) &&
      t[k - 1] == Lookup(t[k].line, Some(t[k].irq)) &&
      t[k + 1] == Unlock(t[k].line, t[k].irq)
  }

  lemma {:induction false} BracketedUpTo<D>(cause: bv32, registry: map<nat, Option<D>>, k: nat)
    requires k <= IRQ_LINES
    ensures Bracketed(FanOutTo(cause, registry, k), registry)
  {
    if k > 0 {
      BracketedUpTo(cause, registry, k - 1);
      var p, q := FanOutTo(cause, registry, k - 1), LineEvents(cause, registry, k - 1);
      var t := p + q;
      assert t == FanOutTo(cause, registry, k);
      forall j | 0 <= j < |t| && t[j].Handle?
        ensures 0 < j < |t| - 1 && Find(registry, t[j].line) == Some(t[j].irq) &&
                t[j - 1] == Lookup(t[j].line, Some(t[j].irq)) && t[j + 1] == Unlock(t[j].line, t[j].irq)
      {
        if j < |p| {
          assert t[j] == p[j] && t[j - 1] == p[j - 1] && t[j + 1] == p[j + 1];
        } else {
          assert t[j] == q[j - |p|];
          assert j - |p| == 1;
        }
      }
    }
  }

  /** The handler of a line is called only under the lock its lookup took. */
  lemma HandlersBracketed<D>(cause: bv32, registry: map<nat, Option<D>>)
    ensures Bracketed(FanOut(cause, registry), registry)
  {
    BracketedUpTo(cause, registry, IRQ_LINES);
  }

  /**
   * The lock discipline of one event from the set of held line locks, or None
   * when the event breaks it: a line is examined only with no lock held, a
   * handler runs holding exactly its own line's lock, and only a held lock is
   * released.
   */
  function Step<D>(e: Event<D>, held: set<nat>): Option<set<nat>>
  {
    match e
    case Lookup(l, found) => if held == {} then Some(if found.Some? then {l} else {}) else None
    case Handle(l, _) => if held == {l} then Some(held) else None
    case Unlock(l, _) => if l in held then Some(held - {l}) else None
  }

  /** The locks held after replaying t from held, or None if t breaks the discipline. */
  function Replay<D>(t: seq<Event<D>>, held: set<nat>): Option<set<nat>>
  {
    if t == [] then Some(held)
    else match Step(t[0], held)
      case None => None
      case Some(h) => Replay(t[1..], h)
  }

  lemma {:induction false} ReplayConcat<D>(a: seq<Event<D>>, b: seq<Event<D>>, held: set<nat>)
    ensures Replay(a + b, held) == match Replay(a, held) case None => None case Some(h) => Replay(b, h)
  {
    if a != [] {
      assert (a + b)[0] == a[0] && (a + b)[1..] == a[1..] + b;
      match Step(a[0], held)
      case None =>
      case Some(h) => ReplayConcat(a[1..], b, h);
    } else {
      assert a + b == b;
    }
  }

  /** Replaying t followed by e is replaying t, then taking the step e. */
  lemma ReplaySnoc<D>(t: seq<Event<D>>, e: Event<D>, held: set<nat>)
    ensures Replay(t + [e], held) == match Replay(t, held) case None => None case Some(h) => Step(e, h)
  {
    ReplayConcat(t, [e], held);
    var q: seq<Event<D>> := [e];
    assert q[1..] == [];
  }

  /** The calls for one line start and end with no lock held. */
  lemma LineReplay<D>(cause: bv32, registry: map<nat, Option<D>>, l: nat)
    requires l < IRQ_LINES
    ensures Replay(LineEvents(cause, registry, l), {}) == Some({})
  {
    if Pending(cause, l) {
      match Find(registry, l)
      case None =>
        var q: seq<Event<D>> := [Lookup(l, None)];
        assert q[1..] == [];
      case Some(d) =>
        var q := [Lookup(l, Some(d)), Handle(l, d), Unlock(l, d)];
        assert q == LineEvents(cause, registry, l);
        var q1, q2 := [Handle(l, d), Unlock(l, d)], [Unlock(l, d)];
        assert q[1..] == q1 && q1[1..] == q2 && q2[1..] == [];
        assert {l} - {l} == {};
        assert Replay(q2, {l}) == Some({});
        assert Replay(q1, {l}) == Some({});
    }
  }

  lemma {:induction false} ReplayUpTo<D>(cause: bv32, registry: map<nat, Option<D>>, k: nat)
    requires k <= IRQ_LINES
    ensures Replay(FanOutTo(cause, registry, k), {}) == Some({})
  {
    if k > 0 {
      ReplayUpTo(cause, registry, k - 1);
      ReplayConcat(FanOutTo(cause, registry, k - 1), LineEvents(cause, registry, k - 1), {});
      LineReplay(cause, registry, k - 1);
    }
  }

  /**
   * One trap keeps the lock discipline from start to end: every lock taken by
   * a lookup is released before the next line is examined, a spurious line
   * takes and releases nothing, and no IRQ lock is held at return.
   */
  lemma LocksReleased<D>(cause: bv32, registry: map<nat, Option<D>>)
    ensures Replay(FanOut(cause, registry), {}) == Some({})
  {
    ReplayUpTo(cause, registry, IRQ_LINES);
  }

  /** Line i is pending exactly when bit 8 + i of Cause is set. */
  lemma PendingIsCauseBit(cause: bv32, i: nat)
    requires i < IRQ_LINES
    ensures Pending(cause, i) <==> cause & (1 << (8 + i)) != 0
  {
  }

  lemma {:induction false} FanOutToReadsIp<D>(c1: bv32, c2: bv32, registry: map<nat, Option<D>>, k: nat)
    requires k <= IRQ_LINES
    requires IpField(c1) == IpField(c2)
    ensures FanOutTo(c1, registry, k) == FanOutTo(c2, registry, k)
  {
    if k > 0 {
      FanOutToReadsIp(c1, c2, registry, k - 1);
    }
  }

  /** The fan-out depends on bits 15:8 of Cause only. */
  lemma FanOutReadsOnlyIp<D>(c1: bv32, c2: bv32, registry: map<nat, Option<D>>)
    requires c1 & 0xff00 == c2 & 0xff00
    ensures FanOut(c1, registry) == FanOut(c2, registry)
  {
    assert IpField(c1) == IpField(c2);
    FanOutToReadsIp(c1, c2, registry, IRQ_LINES);
  }

  /**
   * Lines 2 and 5 pending with only line 2 registered: line 2's handler runs
   * once under its lock, and line 5 is looked up, found spurious and skipped.
   */
  lemma SpuriousLineSkipped<D>(d: D)
    ensures FanOut(0x2400, map[2 := Some(d)]) ==
      [Lookup(2, Some(d)), Handle(2, d), Unlock(2, d), Lookup(5, None)]
  {
    var reg := map[2 := Some(d)];
    assert Pending(0x2400, 2) && Pending(0x2400, 5);
    assert !Pending(0x2400, 0) && !Pending(0x2400, 1) && !Pending(0x2400, 3);
    assert !Pending(0x2400, 4) && !Pending(0x2400, 6) && !Pending(0x2400, 7);
    assert Find(reg, 2) == Some(d) && Find(reg, 5) == None;
    assert FanOutTo(0x2400, reg, 1) == FanOutTo(0x2400, reg, 0) == [];
    assert FanOutTo(0x2400, reg, 2) == [];
    assert FanOutTo(0x2400, reg, 3) == [Lookup(2, Some(d)), Handle(2, d), Unlock(2, d)];
    assert FanOutTo(0x2400, reg, 5) == FanOutTo(0x2400, reg, 4) == FanOutTo(0x2400, reg, 3);
    assert FanOutTo(0x2400, reg, 6) == FanOutTo(0x2400, reg, 5) + [Lookup(5, None)];
    assert FanOutTo(0x2400, reg, 8) == FanOutTo(0x2400, reg, 7) == FanOutTo(0x2400, reg, 6);
  }
}
