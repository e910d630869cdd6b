/**
 * src/core/shard/ringbuffer/ringbuffer.c: the single-producer single-consumer ring, one
 * atomic load or store at a time.
 */
module RingBuffer {
  import opened Bytes
  import opened Bits

  /** What the writing thread holds between its accesses. */
  datatype Producer<T> =
    | WIdle
    | WHead(item: T, hp: nat)                      // hp loaded
    | WBoth(item: T, hp: nat, rp: nat, seen: nat)  // rp loaded, when `seen` items had been read
    | WStored(item: T, hp: nat)                    // slot written, hp not yet stored

  /** What the reading thread holds between its accesses. */
  datatype Consumer<T> =
    | RIdle
    | RHead(hp: nat, seen: nat)                    // hp loaded, when `seen` items had been written
    | RBoth(hp: nat, rp: nat, seen: nat)           // rp loaded
    | RTaken(item: T, rp: nat)                     // slot read, rp not yet stored

  /**
   * The shared fields, the two threads, and the items that rBuff_write and rBuff_read
   * have passed on so far. `masked` selects the full test: as the code has it, or with
   * both counters masked.
   */
  datatype State<T> = State(
    cap: nat, masked: bool, hp: nat, rp: nat, slots: seq<Option<T>>,
    producer: Producer<T>, consumer: Consumer<T>, written: seq<T>, taken: seq<T>)

  /** rBuff_init. */
  function Init<T>(cap: nat, masked: bool): State<T> {
    State(cap, masked, 0, 0, seq(cap, _ => None), WIdle, RIdle, [], [])
  }

  /** A slot index: `x & (cap - 1)`. */
  function Slot(x: nat, cap: nat): nat
    requires cap > 0
  {
    BitAnd(x, cap - 1)
  }

  function Inc(x: nat): nat {
    if x + 1 == U64 then 0 else x + 1
  }

  /** isFull, and the test of rBuff_write: the code compares with rp unmasked. */
  predicate Full(cap: nat, masked: bool, hp: nat, rp: nat)
    requires cap > 0
  {
    Slot(Inc(hp), cap) == if masked then Slot(rp, cap) else rp
  }

  datatype Event<T> =
    | WriteLoadHead(item: T) | WriteLoadTail | WriteSlot | WritePublish
    | ReadLoadHead | ReadLoadTail | ReadSlot | ReadPublish

  /** One access by one thread; an event of a thread that is elsewhere does nothing. */
  function Next<T>(s: State<T>, e: Event<T>): State<T>
    requires s.cap > 0 && |s.slots| == s.cap && IsPow2(s.cap)
    ensures Next(s, e).cap == s.cap && |Next(s, e).slots| == s.cap && Next(s, e).masked == s.masked
  {
    MaskPow2(s.hp, s.cap);
    match e
    case WriteLoadHead(x) =>
      if s.producer.WIdle? then s.(producer := WHead(x, s.hp)) else s
    case WriteLoadTail =>
      if s.producer.WHead? then s.(producer := WBoth(s.producer.item, s.producer.hp, s.rp, |s.taken|)) else s
    case WriteSlot =>
      if !s.producer.WBoth? then s
      else
        var p := s.producer;
        if Full(s.cap, s.masked, p.hp, p.rp) then s.(producer := WIdle)
        else
          MaskPow2(p.hp, s.cap);
          s.(slots := s.slots[Slot(p.hp, s.cap) := Some(p.item)], producer := WStored(p.item, p.hp))
    case WritePublish =>
      if s.producer.WStored? then
        s.(hp := Inc(s.producer.hp), written := s.written + [s.producer.item], producer := WIdle)
      else s
    case ReadLoadHead =>
      if s.consumer.RIdle? then s.(consumer := RHead(s.hp, |s.written|)) else s
    case ReadLoadTail =>
      if s.consumer.RHead? then s.(consumer := RBoth(s.consumer.hp, s.rp, s.consumer.seen)) else s
    case ReadSlot =>
      if !s.consumer.RBoth? then s
      else
        var c := s.consumer;
        if c.rp == c.hp then s.(consumer := RIdle)
        else
          MaskPow2(c.rp, s.cap);
          (match s.slots[Slot(c.rp, s.cap)]
           case None => s.(consumer := RIdle)
           case Some(x) => s.(consumer := RTaken(x, c.rp)))
    case ReadPublish =>
      if s.consumer.RTaken? then
        s.(rp := Inc(s.consumer.rp), taken := s.taken + [s.consumer.item], consumer := RIdle)
      else s
  }

  // ---- the invariant ----

  /** The two counters, and what the slots hold. */
  ghost predicate Shared<T>(s: State<T>) {
    && IsPow2(s.cap) && 0 < s.cap <= U64 && |s.slots| == s.cap
    && s.hp == |s.written| % U64 && s.rp == |s.taken| % U64
    && s.taken <= s.written && |s.written| - |s.taken| < s.cap
    && forall j | |s.taken| <= j < |s.written| :: s.slots[j % s.cap] == Some(s.written[j])
  }

  ghost predicate ProducerOk<T>(s: State<T>)
    requires s.cap > 0 && |s.slots| == s.cap
  {
    match s.producer
    case WIdle => true
    case WHead(_, h) => h == s.hp
    case WBoth(_, h, r, seen) =>
      h == s.hp && r == seen % U64 && seen <= |s.taken| && |s.written| - seen < s.cap
    case WStored(x, h) =>
      h == s.hp && |s.written| + 1 - |s.taken| < s.cap && s.slots[|s.written| % s.cap] == Some(x)
  }

  ghost predicate ConsumerOk<T>(s: State<T>) {
    match s.consumer
    case RIdle => true
    case RHead(h, seen) => h == seen % U64 && |s.taken| <= seen <= |s.written|
    case RBoth(h, r, seen) => h == seen % U64 && r == s.rp && |s.taken| <= seen <= |s.written|
    case RTaken(x, r) => r == s.rp && |s.taken| < |s.written| && x == s.written[|s.taken|]
  }

  ghost predicate Inv<T>(s: State<T>) {
    Shared(s) && ProducerOk(s) && ConsumerOk(s)
  }

  // ---- counters modulo 2^64 and modulo the capacity ----

  lemma {:induction false} ModMod(x: nat, m: nat, k: nat)
    requires m > 0 && k > 0
    ensures x % (k * m) % m == x % m
  {
    var n := k * m;
    var q, r := x / n, x % n;
    var q', r' := r / m, r % m;
    assert x == (q * k + q') * m + r' by {
      assert x == q * n + r && r == q' * m + r' && q * n == q * k * m;
    }
    ModUnique(x, m, q * k + q', r');
  }

  /** A power of two up to 2^64 divides 2^64. */
  lemma {:induction false} CapDivides(cap: nat) returns (k: nat)
    requires IsPow2(cap) && cap <= U64
    ensures k > 0 && cap > 0 && U64 == k * cap
  {
    var e: nat :| cap == Pow2(e);
    Pow2Of64();
    if e > 64 { Pow2Above(e); }
    Pow2Sum(64 - e, e);
    k := Pow2(64 - e);
  }

  lemma {:induction false} Pow2Of1()
    ensures Pow2(1) == 2
  {
    assert Pow2(0) == 1;
  }

  lemma {:induction false} Pow2Above(e: nat)
    requires e > 64
    ensures Pow2(e) > Pow2(64)
  {
    hide Pow2;
    Pow2Sum(64, e - 64);
    Pow2Sum(1, e - 65);
    var x, m := Pow2(e - 64), Pow2(64);
    assert x >= 2 by { assert Pow2(1) == 2 by { Pow2Of1(); } }
    MulAtLeast(x - 1, m);
    assert (x - 1) * m == m * x - m;
  }

  lemma {:induction false} SlotOf(x: nat, cap: nat)
    requires IsPow2(cap) && cap <= U64
    ensures cap > 0 && Slot(x % U64, cap) == x % cap
  {
    var k := CapDivides(cap);
    MaskPow2(x % U64, cap);
    ModMod(x, cap, k);
  }

  lemma {:induction false} IncOf(x: nat)
    ensures Inc(x % U64) == (x + 1) % U64
  {
    var q, r := x / U64, x % U64;
    if r + 1 == U64 {
      ModUnique(x + 1, U64, q + 1, 0);
    } else {
      ModUnique(x + 1, U64, q, r + 1);
    }
  }

  /** Numbers less than m apart are equal when their remainders are. */
  lemma {:induction false} ModNear(a: nat, b: nat, m: nat)
    requires m > 0 && a <= b < a + m
    ensures a % m == b % m <==> a == b
  {
    if a % m == b % m {
      var d := b / m - a / m;
      assert b - a == d * m;
      MulAtLeast(d, m);
      MulAtLeast(-d, m);
      assert -d * m == -(d * m);
    }
  }

  lemma {:induction false} ModWrap(a: nat, m: nat)
    requires m > 0
    ensures (a + m) % m == a % m
  {
    ModUnique(a + m, m, a / m + 1, a % m);
  }

  /** Both tests are exact while the loaded rp is below the capacity; the masked one always is. */
  lemma {:induction false} FullExactly(cap: nat, masked: bool, w: nat, r: nat)
    requires IsPow2(cap) && 0 < cap <= U64 && r <= w < r + cap
    ensures masked || r % U64 < cap ==> (Full(cap, masked, w % U64, r % U64) <==> w + 1 - r == cap)
    ensures !masked && r % U64 >= cap ==> !Full(cap, masked, w % U64, r % U64)
  {
    IncOf(w);
    SlotOf(w + 1, cap);
    SlotOf(r, cap);
    if w + 1 - r == cap { ModWrap(r, cap); } else { ModNear(r, w + 1, cap); }
    if r % U64 < cap { ModUnique(r % U64, cap, 0, r % U64); MaskPow2(r % U64, cap); }
  }

  // ---- every step keeps the invariant ----

  lemma {:induction false} InitInv<T>(cap: nat, masked: bool)
    requires IsPow2(cap) && cap <= U64
    ensures cap > 0 && Inv<T>(Init(cap, masked))
  {
    MaskPow2(0, cap);
  }

  /**
   * The step that tests for room and writes the slot keeps the invariant exactly when
   * the test is exact, that is, with the masked test or a loaded rp below the capacity,
   * or there is room anyway.
   */
  lemma {:induction false} WriteSlotExactly<T>(s: State<T>)
    requires Inv(s) && s.producer.WBoth?
    ensures Inv(Next(s, WriteSlot)) <==>
            s.masked || s.producer.rp < s.cap || |s.written| + 1 - |s.taken| < s.cap
  {
    var p, w := s.producer, |s.written|;
    FullExactly(s.cap, s.masked, w, p.seen);
    SlotOf(w, s.cap);
    if !Full(s.cap, s.masked, p.hp, p.rp) && w + 1 - |s.taken| < s.cap {
      forall j | |s.taken| <= j < w ensures j % s.cap != w % s.cap {
        ModNear(j, w, s.cap);
      }
    }
  }

  /** Publishing hands the item over: it is now the newest of the unread ones. */
  lemma {:induction false} WritePublishKeeps<T>(s: State<T>)
    requires Inv(s) && s.producer.WStored?
    ensures Inv(Next(s, WritePublish))
  {
    IncOf(|s.written|);
  }

  lemma {:induction false} ReadSlotKeeps<T>(s: State<T>)
    requires Inv(s) && s.consumer.RBoth?
    ensures Inv(Next(s, ReadSlot))
    ensures Next(s, ReadSlot).consumer.RIdle? <==> s.consumer.seen == |s.taken|
  {
    var c := s.consumer;
    ModNear(|s.taken|, c.seen, U64);
    SlotOf(|s.taken|, s.cap);
  }

  lemma {:induction false} ReadPublishKeeps<T>(s: State<T>)
    requires Inv(s) && s.consumer.RTaken?
    ensures Inv(Next(s, ReadPublish))
  {
    IncOf(|s.taken|);
  }

  lemma {:induction false} StepKeeps<T>(s: State<T>, e: Event<T>)
    requires Inv(s) && (!s.masked && s.producer.WBoth? ==> s.producer.rp < s.cap)
    ensures Inv(Next(s, e))
  {
    match e
    case WriteLoadHead(x) =>
    case WriteLoadTail =>
    case WriteSlot => if s.producer.WBoth? { WriteSlotExactly(s); }
    case WritePublish => if s.producer.WStored? { WritePublishKeeps(s); }
    case ReadLoadHead =>
    case ReadLoadTail =>
    case ReadSlot => if s.consumer.RBoth? { ReadSlotKeeps(s); }
    case ReadPublish => if s.consumer.RTaken? { ReadPublishKeeps(s); }
  }

  // ---- every interleaving ----

  /** Any sequence of accesses of the two threads. */
  function Run<T>(s: State<T>, es: seq<Event<T>>): (s': State<T>)
    requires s.cap > 0 && |s.slots| == s.cap && IsPow2(s.cap)
    ensures s'.cap == s.cap && |s'.slots| == s.cap && s'.masked == s.masked
    decreases |es|
  {
    if |es| == 0 then s else Next(Run(s, es[..|es| - 1]), es[|es| - 1])
  }

  lemma {:induction false} TakenGrows<T>(s: State<T>, e: Event<T>)
    requires s.cap > 0 && |s.slots| == s.cap && IsPow2(s.cap)
    ensures |s.taken| <= |Next(s, e).taken|
  {
  }

  /**
   * With the masked test the ring is a FIFO queue of at most cap - 1 items under every
   * interleaving: what was read is a prefix of what was written, every unread item is
   * still in its slot, and no slot is read before it was written.
   */
  lemma {:induction false} MaskedRunKeeps<T>(s: State<T>, es: seq<Event<T>>)
    requires Inv(s) && s.masked
    ensures Inv(Run(s, es))
    decreases |es|
  {
    if |es| > 0 {
      MaskedRunKeeps(s, es[..|es| - 1]);
      StepKeeps(Run(s, es[..|es| - 1]), es[|es| - 1]);
    }
  }

  /** The same for the test as the code has it, as long as fewer than cap items were read. */
  lemma {:induction false} PlainRunKeeps<T>(s: State<T>, es: seq<Event<T>>)
    requires Inv(s) && |Run(s, es).taken| < s.cap
    ensures Inv(Run(s, es))
    decreases |es|
  {
    if |es| > 0 {
      var pre, e := es[..|es| - 1], es[|es| - 1];
      TakenGrows(Run(s, pre), e);
      PlainRunKeeps(s, pre);
      var r := Run(s, pre);
      ModUnique(|r.taken|, U64, 0, |r.taken|);
      if r.producer.WBoth? { ModUnique(r.producer.seen, U64, 0, r.producer.seen); }
      StepKeeps(r, e);
    }
  }

  // ---- whole calls, with the other thread at rest ----

  /** rBuff_write as one call: returns false when the test says full. */
  function WriteCall<T>(x: T): seq<Event<T>> {
    [WriteLoadHead(x), WriteLoadTail, WriteSlot, WritePublish]
  }

  /** rBuff_read as one call. */
  function ReadCall<T>(): seq<Event<T>> {
    [ReadLoadHead, ReadLoadTail, ReadSlot, ReadPublish]
  }

  lemma {:induction false} Run4<T>(s: State<T>, es: seq<Event<T>>)
    requires s.cap > 0 && |s.slots| == s.cap && IsPow2(s.cap) && |es| == 4
    ensures Run(s, es) == Next(Next(Next(Next(s, es[0]), es[1]), es[2]), es[3])
  {
    hide Next;
    var e3, e2, e1 := es[..3], es[..2], es[..1];
    assert e3[..2] == e2 && e2[..1] == e1 && e1[..0] == [];
    assert Run(s, e1) == Next(s, es[0]);
    assert Run(s, e2) == Next(Run(s, e1), es[1]);
    assert Run(s, e3) == Next(Run(s, e2), es[2]);
  }

  lemma {:induction false} WriteCallEffect<T>(s: State<T>, x: T)
    requires IsPow2(s.cap) && 0 < s.cap == |s.slots| && s.producer.WIdle?
    ensures Slot(s.hp, s.cap) < s.cap
    ensures Run(s, WriteCall(x)) ==
            if Full(s.cap, s.masked, s.hp, s.rp) then s
            else s.(slots := s.slots[Slot(s.hp, s.cap) := Some(x)], hp := Inc(s.hp), written := s.written + [x])
  {
    SlotInRange(s.hp, s.cap);
    Run4(s, WriteCall(x));
    hide Full, Slot, Run, IsPow2;
    var s1 := s.(producer := WHead(x, s.hp));
    var s2 := s.(producer := WBoth(x, s.hp, s.rp, |s.taken|));
    assert Next(s, WriteLoadHead(x)) == s1;
    assert Next(s1, WriteLoadTail) == s2;
    if Full(s.cap, s.masked, s.hp, s.rp) {
      assert Next(s2, WriteSlot) == s;
    } else {
      assert Next(s2, WriteSlot) ==
             s.(slots := s.slots[Slot(s.hp, s.cap) := Some(x)], producer := WStored(x, s.hp));
    }
  }

  lemma {:induction false} SlotInRange(x: nat, cap: nat)
    requires IsPow2(cap)
    ensures cap > 0 && Slot(x, cap) < cap
  {
    MaskPow2(x, cap);
  }

  lemma {:induction false} ReadCallEffect<T>(s: State<T>)
    requires Inv(s) && s.consumer.RIdle?
    ensures Run(s, ReadCall<T>()) ==
            if |s.taken| == |s.written| then s
            else s.(rp := Inc(s.rp), taken := s.taken + [s.written[|s.taken|]])
  {
    hide Run, Inv, Slot, IsPow2;
    ReadSees(s);
    Run4(s, ReadCall<T>());
    var s1, s2 := s.(consumer := RHead(s.hp, |s.written|)), s.(consumer := RBoth(s.hp, s.rp, |s.written|));
    assert Next(s, ReadLoadHead) == s1;
    assert Next(s1, ReadLoadTail) == s2;
    if |s.taken| == |s.written| {
      assert Next(s2, ReadSlot) == s;
    } else {
      assert Next(s2, ReadSlot) == s.(consumer := RTaken(s.written[|s.taken|], s.rp));
    }
  }

  /** Once rp has reached the capacity the test of the code never says full. */
  lemma {:induction false} PlainNeverFull<T>(s: State<T>, x: T)
    requires IsPow2(s.cap) && 0 < s.cap == |s.slots| <= U64 && !s.masked && s.producer.WIdle?
    requires s.rp >= s.cap && s.hp == |s.written| % U64
    ensures var w := |s.written|;
            && w % s.cap < s.cap && (w + 1) % U64 == Inc(s.hp)
            && Run(s, WriteCall(x)) ==
               s.(slots := s.slots[w % s.cap := Some(x)], hp := Inc(s.hp), written := s.written + [x])
  {
    PlainNotFull(s.cap, s.hp, s.rp);
    hide Full, Run, IsPow2;
    WriteCallEffect(s, x);
    IncOf(|s.written|);
    SlotOf(|s.written|, s.cap);
  }

  lemma {:induction false} PlainNotFull(cap: nat, hp: nat, rp: nat)
    requires IsPow2(cap) && rp >= cap
    ensures cap > 0 && !Full(cap, false, hp, rp)
  {
    SlotInRange(Inc(hp), cap);
  }

  /**
   * Two more writes into a ring that holds cap - 1 items then put the second over the
   * oldest unread one.
   */
  lemma {:induction false} PlainTestOverwrites<T>(s: State<T>, x: T, y: T)
    requires Inv(s) && !s.masked && s.rp >= s.cap && s.producer.WIdle?
    requires |s.written| - |s.taken| == s.cap - 1
    ensures var s' := Run(Run(s, WriteCall(x)), WriteCall(y));
            && s'.written == s.written + [x] + [y] && s'.taken == s.taken
            && s'.slots[|s.taken| % s.cap] == Some(y)
            && |s'.written| - |s'.taken| == s.cap + 1
  {
    var w, r := |s.written|, |s.taken|;
    PlainNeverFull(s, x);
    PlainNeverFull(Run(s, WriteCall(x)), y);
    hide Run;
    assert w + 1 == r + s.cap;
    ModWrap(r, s.cap);
  }

  /** A state of a plain ring of two slots between calls. */
  function Two<T>(hp: nat, rp: nat, slots: seq<Option<T>>, written: seq<T>, taken: seq<T>): State<T> {
    State(2, false, hp, rp, slots, WIdle, RIdle, written, taken)
  }

  lemma {:induction false} FirstStep<T>(a: T)
    ensures IsPow2(2)
    ensures Run(Init(2, false), WriteCall(a)) == Two(1, 0, [Some(a), None], [a], [])
  {
    assert Pow2(1) == 2;
    WriteCallEffect(Init(2, false), a);
    hide Run;
    assert Init(2, false) == Two<T>(0, 0, [None, None], [], []);
  }

  lemma {:induction false} TwoSteps<T>(a: T, b: T)
    ensures IsPow2(2)
    ensures Run(Two(1, 0, [Some(a), None], [a], []), ReadCall<T>()) == Two(1, 1, [Some(a), None], [a], [a])
    ensures Run(Two(1, 1, [Some(a), None], [a], [a]), WriteCall(b)) == Two(2, 1, [Some(a), Some(b)], [a, b], [a])
  {
    assert Pow2(1) == 2;
    ReadCallEffect(Two(1, 0, [Some(a), None], [a], []));
    WriteCallEffect(Two(1, 1, [Some(a), None], [a], [a]), b);
    hide Run;
  }

  lemma {:induction false} TwoMoreSteps<T>(a: T, b: T, c: T)
    ensures IsPow2(2)
    ensures Run(Two(2, 1, [Some(a), Some(b)], [a, b], [a]), ReadCall<T>()) ==
            Two(2, 2, [Some(a), Some(b)], [a, b], [a, b])
    ensures Run(Two(2, 2, [Some(a), Some(b)], [a, b], [a, b]), WriteCall(c)) ==
            Two(3, 2, [Some(c), Some(b)], [a, b, c], [a, b])
    ensures Inv(Two(3, 2, [Some(c), Some(b)], [a, b, c], [a, b]))
  {
    assert Pow2(1) == 2;
    ReadCallEffect(Two(2, 1, [Some(a), Some(b)], [a, b], [a]));
    WriteCallEffect(Two(2, 2, [Some(a), Some(b)], [a, b], [a, b]), c);
  }

  /** Such a state is reached: a ring of two slots after two items have passed through. */
  lemma {:induction false} PlainTestReached<T>(a: T, b: T, c: T)
    ensures IsPow2(2)
    ensures var es := WriteCall(a) + ReadCall() + WriteCall(b) + ReadCall() + WriteCall(c);
            var s := Run(Init(2, false), es);
            Inv(s) && s.rp == s.cap && s.producer.WIdle? && |s.written| - |s.taken| == s.cap - 1
  {
    FirstStep(a);
    TwoSteps(a, b);
    TwoMoreSteps(a, b, c);
    hide Run, Inv, WriteCall, ReadCall, IsPow2;
    var s0: State<T> := Init(2, false);
    var w1, r, w2, w3 := WriteCall(a), ReadCall<T>(), WriteCall(b), WriteCall(c);
    RunSum(s0, w1, r);
    RunSum(s0, w1 + r, w2);
    RunSum(s0, w1 + r + w2, r);
    RunSum(s0, w1 + r + w2 + r, w3);
  }

  lemma {:induction false} RunSum<T>(s: State<T>, es: seq<Event<T>>, fs: seq<Event<T>>)
    requires s.cap > 0 && |s.slots| == s.cap && IsPow2(s.cap)
    ensures Run(s, es + fs) == Run(Run(s, es), fs)
    decreases |fs|
  {
    hide Next;
    if |fs| == 0 {
      assert es + fs == es;
    } else {
      assert (es + fs)[..|es + fs| - 1] == es + fs[..|fs| - 1];
      RunSum(s, es, fs[..|fs| - 1]);
    }
  }

  /** The ring as one thread sees it between calls, with the code's own full test. */
  class RBuff<T> {
    const cap: nat
    const proc: array<Option<T>>
    var hp: nat
    var rp: nat

    /** For the specification: the items passed on so far. */
    ghost var written: seq<T>
    ghost var taken: seq<T>

    ghost predicate Valid()
      reads this, proc
    {
      IsPow2(cap) && 0 < cap <= U64 && proc.Length == cap && hp < U64 && rp < U64
    }

    ghost function Abs(): State<T>
      reads this, proc
    {
      State(cap, false, hp, rp, proc[..], WIdle, RIdle, written, taken)
    }

    /** rBuff_init. */
    constructor (c: nat)
      requires IsPow2(c) && c <= U64
      ensures Valid() && cap == c && fresh(proc) && Abs() == Init(c, false)
    {
      cap, hp, rp, written, taken := c, 0, 0, [], [];
      proc := new Option<T>[c](_ => None);
      new;
      MaskPow2(0, c);
    }

    /** rBuff_write: the four accesses in a row. */
    method Write(p: T) returns (ok: bool)
      requires Valid()
      modifies this`hp, this`written, proc
      ensures Valid() && ok == !Full(cap, false, old(hp), rp)
      ensures Abs() == Run(old(Abs()), WriteCall(p))
    {
      WriteCallEffect(Abs(), p);
      SlotInRange(hp, cap);
      hide Run, IsPow2;
      if Slot(Inc(hp), cap) == rp {
        return false;
      }
      proc[Slot(hp, cap)] := Some(p);
      hp, written := Inc(hp), written + [p];
      return true;
    }

    /** rBuff_read: an item, or None for NULL when the counters are equal. */
    method Read() returns (r: Option<T>)
      requires Valid() && Inv(Abs())
      modifies this`rp, this`taken
      ensures Valid() && Abs() == Run(old(Abs()), ReadCall())
      ensures r == if |old(taken)| == |written| then None else Some(written[|old(taken)|])
    {
      ReadCallEffect(Abs());
      ReadSees(Abs());
      hide Run, IsPow2, Inv;
      if rp == hp {
        return None;
      }
      r := proc[Slot(rp, cap)];
      rp, taken := Inc(rp), taken + [r.value];
    }
  }

  /** What the reader finds in a ring that satisfies the invariant. */
  lemma {:induction false} ReadSees<T>(s: State<T>)
    requires Inv(s)
    ensures IsPow2(s.cap) && 0 < s.cap == |s.slots| && Slot(s.rp, s.cap) < s.cap
    ensures s.rp == s.hp <==> |s.taken| == |s.written|
    ensures |s.taken| != |s.written| ==>
              |s.taken| < |s.written| && s.slots[Slot(s.rp, s.cap)] == Some(s.written[|s.taken|])
  {
    ModNear(|s.taken|, |s.written|, U64);
    SlotOf(|s.taken|, s.cap);
    SlotInRange(s.rp, s.cap);
  }
}
