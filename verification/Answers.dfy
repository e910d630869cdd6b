/**
 * src/core/shard/shard.c: that calls are answered. With the repairs of Shard every db_get
 * comes back, under every schedule that lets its worker go on, with what one map holds.
 */
module Answers {
  import opened Bytes
  import opened Bits
  import Loops
  import Ring = RingBuffer
  import Runs
  import opened Shard
  import Table

  // ---- one answer ----

  /** What the worker's table holds of a key when the get of it is next: what the map holds. */
  lemma {:induction false} CaughtUp(H: Table.Hasher, s: State, i: nat)
    requires Inv(H, s) && i < |s.shards| && Pending(s.shards[i]) != []
    requires var x := Pending(s.shards[i])[0]; x.Get? && x.call == s.call
    ensures var k, t := Pending(s.shards[i])[0].key, s.shards[i].table.t;
            && Asking(s.client) == Some(k) && i == Route(k, |s.shards|)
            && Table.WellFormed(H, t) && Runs.NoTombs(t) && |t| == HM_CAP
            && (k in Runs.Contents(t) <==> k in s.spec)
  {
    hide Runs.Contents, Pending, Ring.Inv, ResultOk, ProducerOk, QueueOk, Drain, Table.WellFormed, Runs.NoTombs;
    var t, q := s.shards[i].table, Pending(s.shards[i]);
    assert ShardInv(H, s, i);
    QueueFirst(q, i, |s.shards|, s.call, Asking(s.client));
    assert AgreesAt(s, q[0].key);
    DrainGets(Runs.Contents(t.t), q);
  }

  /**
   * A worker with the request of the waiting db_get in its hand answers it, with what the
   * one map holds, unless a whole round of its table does not stop the probe.
   */
  lemma {:induction false} ServeAnswers(H: Table.Hasher, s: State, i: nat, k: bytes)
    requires Inv(H, s) && Shaped(s) && !s.dead && i < |s.shards|
    requires s.client == Waiting(k) && s.shards[i].hand == Some(Get(k, s.call))
    ensures |s.shards[i].table.t| > 0
    ensures var s' := Next(H, s, Work(i));
            if Table.Endless(H, s.shards[i].table.t, k) then s' == s
            else s'.result == Some(Runs.Lookup(s.spec, k)) && s'.client == s.client && s'.spec == s.spec &&
                 s'.shards[i].hand == None
  {
    assert Pending(s.shards[i])[0] == Get(k, s.call);
    hide Pending, Table.WellFormed, Runs.NoTombs, Runs.Contents, Table.Endless, Runs.Lookup, Inv, Shaped;
    hide Loops.ProbeEnds, Loops.GetCall;
    assert ShardShaped(s.shards[i]) by { ShapeAt(s, i); }
    CaughtUp(H, s, i);
    Runs.GetIsLookup(H, s.shards[i].table.t, k);
    if Loops.ProbeEnds(H, s.shards[i].table.t, k) { GetAnswers(H, s, i); }
  }

  lemma {:induction false} ShapeAt(s: State, i: nat)
    requires Shaped(s) && i < |s.shards|
    ensures ShardShaped(s.shards[i])
  {
  }

  // ---- where the request of a waiting db_get is ----

  /** The client waits for an answer from shard i. */
  predicate WaitsAt(s: State, i: nat) {
    s.client.Waiting? && s.result == None && |s.shards| > 0 && i == Route(s.client.key, |s.shards|)
  }

  /** Only puts are pending, but for the request of the waiting db_get, which is the last. */
  ghost predicate QueueEnds(s: State, i: nat)
    requires i < |s.shards|
  {
    var sh, q := s.shards[i], Pending(s.shards[i]);
    && (sh.hand.Some? ==> sh.ring.consumer.RIdle?)
    && if WaitsAt(s, i) then
         |q| > 0 && q[|q| - 1] == Get(s.client.key, s.call) && forall a | 0 <= a < |q| - 1 :: q[a].Put?
       else forall a | 0 <= a < |q| :: q[a].Put?
  }

  ghost predicate Waits(s: State) {
    && |s.shards| > 0 && s.repairs == ALL && !s.dead && (s.client.Getting? ==> s.result == None)
    && forall i | 0 <= i < |s.shards| :: QueueEnds(s, i) && s.shards[i].ring.masked
  }

  lemma {:induction false} InitWaits(n: nat)
    requires n > 0
    ensures Waits(Init(n, ALL))
  {
    hide Table.Create;
    var s := Init(n, ALL);
    forall i | 0 <= i < n ensures QueueEnds(s, i) && s.shards[i].ring.masked { assert Pending(s.shards[i]) == []; }
  }

  lemma {:induction false} WaitsExact(s: State)
    requires Waits(s)
    ensures TestExact(s) && !s.dead && s.repairs == ALL
  {
    forall i | 0 <= i < |s.shards| ensures s.shards[i].ring.masked {
      assert QueueEnds(s, i) && s.shards[i].ring.masked;
    }
  }

  lemma {:induction false} CallWaits(H: Table.Hasher, s: State, e: Event)
    requires Waits(s) && Shaped(s) && (e.StartInsert? || e.StartGet? || e.Return?)
    ensures Waits(Next(H, s, e))
  {
    hide Pending, Route, IsPow2;
    var s' := Next(H, s, e);
    forall i | 0 <= i < |s'.shards| ensures QueueEnds(s', i) && s'.shards[i].ring.masked {
      assert QueueEnds(s, i) && s.shards[i].ring.masked;
    }
  }

  /** A client's access changes one queue at most: it appends the request that is published. */
  lemma {:induction false} AccessWaits(H: Table.Hasher, s: State)
    requires Waits(s) && Shaped(s) && Inv(H, s)
    ensures Waits(Next(H, s, Access))
  {
    WaitsExact(s);
    if Asks(s).Some? {
      var x, i := Asks(s).value, Route(Asks(s).value.key, |s.shards|);
      var sh := s.shards[i];
      assert ShardInv(H, s, i);
      hide Inv, TableOk, QueueOk, IsPow2, Ring.Next, Ring.Inv, Route, Pending;
      AccessKeeps(H, s, i, NextWrite(sh.ring.producer, x));
      WriteEffect(sh.ring, x);
      var s' := Next(H, s, Access);
      KeptConsumer(sh.ring, x);
      var ring := Ring.Next(sh.ring, NextWrite(sh.ring.producer, x));
      RingOrder(sh.ring);
      if sh.ring.producer.WStored? {
        PendingSnoc(sh, ring, x);
        AppendWaits(s, s', i, x);
      } else {
        SameWritten(sh, ring);
        ClientShape(s, i);
        UnwrittenWaits(s, s', i);
      }
    }
  }

  lemma {:induction false} RingOrder(r: Ring.State<Request>)
    requires Ring.Inv(r)
    ensures |r.taken| <= |r.written| && |r.written| - |r.taken| < r.cap
  {
    hide IsPow2;
  }

  lemma {:induction false} KeptConsumer(r: Ring.State<Request>, x: Request)
    requires r.cap > 0 && |r.slots| == r.cap && IsPow2(r.cap)
    ensures var r' := Ring.Next(r, NextWrite(r.producer, x)); r'.consumer == r.consumer && r'.masked == r.masked
  {
    hide Ring.Full, Ring.Slot, IsPow2;
  }

  /** The request is published: a put, or the get that the client then waits for. */
  lemma {:induction false} AppendWaits(s: State, s': State, i: nat, x: Request)
    requires Waits(s) && Asks(s) == Some(x) && i < |s.shards| && i == Route(x.key, |s.shards|)
    requires |s'.shards| == |s.shards| && s'.call == s.call && s'.repairs == s.repairs && s'.result == s.result
    requires !s'.dead
    requires s'.client == (match s.client case Inserting(_, _) => Idle case Getting(k) => Waiting(k) case _ => s.client)
    requires forall j | 0 <= j < |s.shards| && j != i :: s'.shards[j] == s.shards[j]
    requires var sh, sh' := s.shards[i], s'.shards[i];
             && Pending(sh') == Pending(sh) + [x] && sh'.hand == sh.hand
             && sh'.ring.consumer == sh.ring.consumer && sh'.ring.masked == sh.ring.masked
    ensures Waits(s')
  {
    hide Pending, Route;
    forall j | 0 <= j < |s'.shards| ensures QueueEnds(s', j) && s'.shards[j].ring.masked {
      assert QueueEnds(s, j) && s.shards[j].ring.masked;
    }
  }

  lemma {:induction false} UnwrittenWaits(s: State, s': State, i: nat)
    requires Waits(s) && i < |s.shards|
    requires |s'.shards| == |s.shards| && s'.call == s.call && s'.repairs == s.repairs && s'.result == s.result
    requires !s'.dead
    requires s'.client == s.client
    requires forall j | 0 <= j < |s.shards| && j != i :: s'.shards[j] == s.shards[j]
    requires var sh, sh' := s.shards[i], s'.shards[i];
             && Pending(sh') == Pending(sh) && sh'.hand == sh.hand
             && sh'.ring.consumer == sh.ring.consumer && sh'.ring.masked == sh.ring.masked
    ensures Waits(s')
  {
    hide Pending, Route;
    forall j | 0 <= j < |s'.shards| ensures QueueEnds(s', j) && s'.shards[j].ring.masked {
      assert QueueEnds(s, j) && s.shards[j].ring.masked;
    }
  }

  /** A worker's access to its ring leaves what is pending. */
  lemma {:induction false} ReadWaits(H: Table.Hasher, s: State, i: nat)
    requires Waits(s) && Shaped(s) && Inv(H, s) && i < |s.shards| && s.shards[i].hand == None
    ensures Waits(Next(H, s, Work(i))) && Pending(Next(H, s, Work(i)).shards[i]) == Pending(s.shards[i])
  {
    WaitsExact(s);
    var sh := s.shards[i];
    AccessKeeps(H, s, i, NextRead(sh.ring.consumer));
    ReadEffect(sh.ring);
    ReadKept(sh.ring);
    hide Inv, TableOk, QueueOk, IsPow2, Ring.Next, Ring.Inv, Route, Pending, Serve;
    var s' := Next(H, s, Work(i));
    PendingTaken(sh, s'.shards[i]);
    forall j | 0 <= j < |s'.shards| ensures QueueEnds(s', j) && s'.shards[j].ring.masked {
      assert QueueEnds(s, j) && s.shards[j].ring.masked;
    }
  }

  lemma {:induction false} ReadKept(r: Ring.State<Request>)
    requires r.cap > 0 && |r.slots| == r.cap && IsPow2(r.cap)
    ensures var r' := Ring.Next(r, NextRead(r.consumer));
            r'.masked == r.masked && (r.consumer.RTaken? ==> r'.consumer.RIdle?)
  {
    hide Ring.Full, Ring.Slot, IsPow2;
  }

  /** What is served is no longer pending. */
  lemma {:induction false} ServedWaits(s: State, s': State, i: nat)
    requires Waits(s) && i < |s.shards| && Pending(s.shards[i]) != []
    requires |s'.shards| == |s.shards| && s'.call == s.call && s'.repairs == s.repairs && !s'.dead
    requires s'.client == s.client
    requires forall j | 0 <= j < |s.shards| && j != i :: s'.shards[j] == s.shards[j]
    requires var sh, sh' := s.shards[i], s'.shards[i];
             && Pending(sh') == Pending(sh)[1..] && sh'.hand == None && sh'.ring == sh.ring
    requires s'.result == s.result || Pending(s.shards[i])[0].Get?
    requires Pending(s.shards[i])[0].Get? ==> s'.result.Some?
    ensures Waits(s')
  {
    hide Pending, Route;
    var q := Pending(s.shards[i]);
    assert QueueEnds(s, i) && s.shards[i].ring.masked;
    assert forall a | 0 <= a < |q| - 1 :: q[1..][a] == q[a + 1];
    forall j | 0 <= j < |s'.shards| ensures QueueEnds(s', j) && s'.shards[j].ring.masked {
      assert QueueEnds(s, j) && s.shards[j].ring.masked;
    }
  }

  /** A get in the hand is the one that the client waits for. */
  lemma {:induction false} HandAwaited(s: State, i: nat)
    requires Waits(s) && i < |s.shards| && Pending(s.shards[i]) != [] && Pending(s.shards[i])[0].Get?
    ensures Pending(s.shards[i])[0].call == s.call
  {
    hide Pending, Route;
    assert QueueEnds(s, i);
  }

  /** Serving what is in the hand. */
  lemma {:induction false} ServeWaits(H: Table.Hasher, s: State, i: nat)
    requires Waits(s) && Shaped(s) && i < |s.shards| && s.shards[i].hand.Some?
    ensures Waits(Next(H, s, Work(i)))
  {
    WaitsExact(s);
    var sh, s' := s.shards[i], Next(H, s, Work(i));
    HandFirst(sh);
    if sh.hand.value.Get? { HandAwaited(s, i); }
    hide Pending, Route, IsPow2, Loops.Call, Loops.PutEnds, Loops.ProbeEnds, Loops.GetCall, Ring.Next, Waits, TestExact;
    if s'.shards[i].hand == None {
      PendingServed(sh, s'.shards[i]);
      ServedWaits(s, s', i);
    }
  }

  lemma {:induction false} StepWaits(H: Table.Hasher, s: State, e: Event)
    requires Waits(s) && Shaped(s) && Inv(H, s)
    ensures Waits(Next(H, s, e))
  {
    hide Waits, Shaped, Inv, Serve, ClientStep;
    match e
    case StartInsert(_, _) => CallWaits(H, s, e);
    case StartGet(_) => CallWaits(H, s, e);
    case Return => CallWaits(H, s, e);
    case Access => AccessWaits(H, s);
    case Work(i) =>
      if i < |s.shards| {
        if s.shards[i].hand == None { ReadWaits(H, s, i); } else { ServeWaits(H, s, i); }
      }
  }

  /** Both invariants, over every run of the repaired engine whose keys fit. */
  lemma {:induction false} RunWaits(H: Table.Hasher, s: State, es: seq<Event>)
    requires Inv(H, s) && Shaped(s) && Waits(s) && Fits(H, Run(H, s, es).spec, |s.shards|)
    ensures Inv(H, Run(H, s, es)) && Waits(Run(H, s, es))
    decreases |es|
  {
    if |es| > 0 {
      hide Inv, Shaped, Waits, Fits, Next;
      var before, e := Run(H, s, es[..|es| - 1]), es[|es| - 1];
      StepGrows(H, before, e);
      FitsSmaller(H, before.spec, Next(H, before, e).spec, |s.shards|);
      RunWaits(H, s, es[..|es| - 1]);
      WaitsExact(before);
      StepKeeps(H, before, e);
      StepWaits(H, before, e);
    }
  }

  // ---- how many turns an answer takes ----

  /** How many steps of a worker are left until it has nothing pending, or is about to see more. */
  function Left(sh: ShardState): int {
    var p, taken := |sh.ring.written| - |sh.ring.taken|, |sh.ring.taken|;
    if sh.hand.Some? then 5 * p + 1
    else
      match sh.ring.consumer
      case RIdle => 5 * p
      case RHead(_, seen) => if seen > taken then 5 * p - 1 else 5 * p + 2
      case RBoth(_, _, seen) => if seen > taken then 5 * p - 2 else 5 * p + 1
      case RTaken(_, _) => 5 * p - 3
  }

  lemma {:induction false} LeftBound(H: Table.Hasher, s: State, i: nat)
    requires Inv(H, s) && i < |s.shards|
    ensures 0 <= Left(s.shards[i]) <= 5 * RING
    ensures Pending(s.shards[i]) != [] ==> Left(s.shards[i]) > 0
  {
    hide TableOk, QueueOk, IsPow2, Ring.ProducerOk;
    assert ShardInv(H, s, i);
    var r := s.shards[i].ring;
    assert |r.taken| <= |r.written| && |r.written| - |r.taken| < RING;
  }

  /** An access of a worker that has something pending brings it a step further. */
  lemma {:induction false} ReadLeft(H: Table.Hasher, s: State, i: nat)
    requires Inv(H, s) && Shaped(s) && TestExact(s) && !s.dead && i < |s.shards| && s.shards[i].hand == None
    requires Pending(s.shards[i]) != []
    ensures Left(Next(H, s, Work(i)).shards[i]) == Left(s.shards[i]) - 1
  {
    var sh := s.shards[i];
    AccessKeeps(H, s, i, NextRead(sh.ring.consumer));
    hide Inv, Shaped, Serve;
    ReadOnce(sh.ring);
    ShapeAt(s, i);
    hide IsPow2, Ring.Next, Ring.Inv;
    WorkIs(H, s, i);
  }

  lemma {:induction false} WorkIs(H: Table.Hasher, s: State, i: nat)
    requires Shaped(s) && !s.dead && i < |s.shards| && s.shards[i].hand == None
    ensures ShardShaped(s.shards[i])
    ensures var sh := s.shards[i];
            Next(H, s, Work(i)).shards[i] ==
            ShardState(Ring.Next(sh.ring, NextRead(sh.ring.consumer)),
              if sh.ring.consumer.RTaken? then Some(sh.ring.consumer.item) else None, sh.table)
  {
    hide IsPow2, Ring.Next, Serve;
    ShapeAt(s, i);
  }

  /** What one access of rBuff_read leaves to do, in a ring that has something in it. */
  lemma {:induction false} ReadOnce(r: Ring.State<Request>)
    requires Ring.Inv(r) && r.cap > 0 && |r.slots| == r.cap && IsPow2(r.cap) && |r.taken| < |r.written|
    ensures var r' := Ring.Next(r, NextRead(r.consumer));
            && |r'.written| == |r.written|
            && match r.consumer
               case RIdle => r'.consumer.RHead? && r'.consumer.seen == |r.written| && r'.taken == r.taken
               case RHead(_, seen) => r'.consumer.RBoth? && r'.consumer.seen == seen && r'.taken == r.taken
               case RBoth(_, _, seen) =>
                 r'.taken == r.taken && (if seen > |r.taken| then r'.consumer.RTaken? else r'.consumer.RIdle?)
               case RTaken(_, _) => r'.consumer.RIdle? && |r'.taken| == |r.taken| + 1
  {
    if r.consumer.RBoth? { Ring.ReadSlotKeeps(r); }
    hide IsPow2, Ring.Full, Ring.Slot;
  }

  // ---- the whole call ----

  /** How often the worker of shard i is at work in a schedule. */
  function TurnsOf(fs: seq<Event>, i: nat): nat
    decreases |fs|
  {
    if |fs| == 0 then 0 else TurnsOf(fs[1..], i) + if fs[0] == Work(i) then 1 else 0
  }

  /** The key is in the map, or its table keeps a slot free: then its probe ends. */
  ghost predicate Reachable(s: State, k: bytes)
    requires |s.shards| > 0
  {
    k in s.spec || |KeysAt(s.spec, Route(k, |s.shards|), |s.shards|)| < HM_CAP
  }

  lemma {:induction false} ReachableEnds(H: Table.Hasher, s: State, i: nat, k: bytes)
    requires Inv(H, s) && i < |s.shards| && s.client == Waiting(k) && s.shards[i].hand == Some(Get(k, s.call))
    requires Reachable(s, k)
    ensures |s.shards[i].table.t| > 0 && !Table.Endless(H, s.shards[i].table.t, k)
  {
    assert Pending(s.shards[i])[0] == Get(k, s.call);
    hide Pending, Table.WellFormed, Runs.NoTombs, Runs.Contents, Table.Endless, Inv, Route;
    CaughtUp(H, s, i);
    var t, keys := s.shards[i].table.t, KeysAt(s.spec, i, |s.shards|);
    Runs.GetIsLookup(H, t, k);
    if k !in s.spec {
      forall q | q in Runs.Contents(t) ensures q in keys { StoredKey(H, s, i, q); }
      Runs.SubsetCard(Runs.Contents(t).Keys, keys);
      Runs.SpareEnds(H, t, k);
    }
  }

  lemma {:induction false} StoredKey(H: Table.Hasher, s: State, i: nat, k: bytes)
    requires Inv(H, s) && i < |s.shards| && k in Runs.Contents(s.shards[i].table.t)
    ensures k in KeysAt(s.spec, i, |s.shards|)
  {
    hide Runs.Contents, Pending, Ring.Inv, Runs.Agrees, Runs.NoTombs, ResultOk, ProducerOk, QueueOk;
    assert ShardInv(H, s, i);
    assert AgreesAt(s, k);
    DrainKeys(Runs.Contents(s.shards[i].table.t), Pending(s.shards[i]), k);
  }

  /** A put in the hand ends, since the keys fit. */
  lemma {:induction false} PutServed(H: Table.Hasher, s: State, i: nat)
    requires Inv(H, s) && Shaped(s) && Fits(H, s.spec, |s.shards|) && i < |s.shards|
    requires s.shards[i].hand.Some? && s.shards[i].hand.value.Put?
    ensures var sh := s.shards[i];
            |sh.table.t| > 0 && Loops.PutEnds(H, sh.table.t, sh.hand.value.key, sh.hand.value.entry)
  {
    hide AgreesAt, QueueOk, TableOk, Pending, Drain, Find, IsPow2, Fits, Ring.Inv, Runs.Contents, Loops.PutEnds;
    var sh, n := s.shards[i], |s.shards|;
    var x := sh.hand.value;
    HandFirst(sh);
    assert ShardInv(H, s, i);
    forall k | k in Runs.Contents(sh.table.t) + map[x.key := x.entry] ensures k in KeysAt(s.spec, i, n) {
      ServedKey(H, s, i, k);
    }
    PutFits(H, sh.table, x.key, x.entry, s.spec, i, n);
  }

  lemma {:induction false} HandFirst(sh: ShardState)
    requires sh.hand.Some?
    ensures Pending(sh) != [] && Pending(sh)[0] == sh.hand.value
  {
  }

  /** The worker of the waiting db_get goes on: it is a step further, or has answered. */
  lemma {:induction false} WorkLeft(H: Table.Hasher, s: State, i: nat)
    requires Inv(H, s) && Shaped(s) && Waits(s) && Fits(H, s.spec, |s.shards|)
    requires i < |s.shards| && WaitsAt(s, i) && Reachable(s, s.client.key)
    ensures var s' := Next(H, s, Work(i));
            s'.result.Some? || Left(s'.shards[i]) == Left(s.shards[i]) - 1
  {
    WaitsExact(s);
    assert QueueEnds(s, i);
    var sh := s.shards[i];
    if sh.hand == None {
      hide Inv, Shaped, Waits, Fits, Left, Reachable, Pending;
      ReadLeft(H, s, i);
    } else if sh.hand.value.Put? {
      hide Inv, Shaped, Waits, Fits, Reachable, Pending;
      PutServed(H, s, i);
      PutLeft(H, s, i);
    } else {
      HandFirst(sh);
      hide Pending, Inv, Shaped, Waits, Fits, Reachable, Left;
      ReachableEnds(H, s, i, s.client.key);
      ServeAnswers(H, s, i, s.client.key);
    }
  }

  lemma {:induction false} PutLeft(H: Table.Hasher, s: State, i: nat)
    requires Shaped(s) && !s.dead && i < |s.shards| && s.shards[i].hand.Some? && s.shards[i].hand.value.Put?
    requires s.shards[i].ring.consumer.RIdle? && |s.shards[i].table.t| > 0
    requires Loops.PutEnds(H, s.shards[i].table.t, s.shards[i].hand.value.key, s.shards[i].hand.value.entry)
    ensures Left(Next(H, s, Work(i)).shards[i]) == Left(s.shards[i]) - 1
  {
    hide IsPow2, Ring.Next, Loops.PutEnds, Loops.Call;
  }

  /** What the other events leave of a waiting client and of its shard. */
  lemma {:induction false} OtherLeft(H: Table.Hasher, s: State, e: Event, i: nat)
    requires Shaped(s) && i < |s.shards| && s.client.Waiting? && !e.Return?
    ensures var s' := Next(H, s, e);
            && s'.client == s.client && s'.spec == s.spec && (s.result.Some? ==> s'.result.Some?)
            && (e != Work(i) ==> s'.shards[i] == s.shards[i])
  {
    hide IsPow2, Ring.Next, Loops.PutEnds, Loops.Call, Loops.ProbeEnds, Loops.GetCall, Route;
  }

  lemma {:induction false} RunFirst(H: Table.Hasher, s: State, fs: seq<Event>)
    requires Shaped(s) && |fs| > 0
    ensures Run(H, s, fs) == Run(H, Next(H, s, fs[0]), fs[1..])
  {
    hide Shaped, Run, Next;
    assert fs == [fs[0]] + fs[1..];
    RunSum(H, s, [fs[0]], fs[1..]);
    RunOne(H, s, fs[0]);
  }

  /** In any schedule with enough turns of its worker a waiting db_get is answered. */
  lemma {:induction false} WaitAnswered(H: Table.Hasher, s: State, fs: seq<Event>, i: nat)
    requires Inv(H, s) && Shaped(s) && Waits(s) && Fits(H, s.spec, |s.shards|)
    requires s.client.Waiting? && i < |s.shards| && i == Route(s.client.key, |s.shards|) && Reachable(s, s.client.key)
    requires (forall j | 0 <= j < |fs| :: !fs[j].Return?) && (s.result == None ==> TurnsOf(fs, i) >= Left(s.shards[i]))
    ensures var s' := Run(H, s, fs);
            s'.client == s.client && s'.spec == s.spec && s'.result == Some(Runs.Lookup(s.spec, s.client.key))
    decreases |fs|
  {
    if |fs| == 0 {
      RunEmpty(H, s);
      if s.result == None {
        WaitingLeft(H, s, i);
      }
      AnswerIs(H, s);
    } else {
      WaitsExact(s);
      hide Inv, Shaped, Waits, Fits, Left, Route, Run, Next, TestExact, Runs.Lookup;
      var e, rest := fs[0], fs[1..];
      var s1 := Next(H, s, e);
      RunFirst(H, s, fs);
      StepKeeps(H, s, e);
      StepWaits(H, s, e);
      OtherLeft(H, s, e, i);
      if s.result == None && e == Work(i) { WorkLeft(H, s, i); }
      assert forall j | 0 <= j < |rest| :: rest[j] == fs[j + 1];
      WaitAnswered(H, s1, rest, i);
    }
  }

  lemma {:induction false} RunEmpty(H: Table.Hasher, s: State)
    requires Shaped(s)
    ensures Run(H, s, []) == s
  {
  }

  lemma {:induction false} WaitingLeft(H: Table.Hasher, s: State, i: nat)
    requires Inv(H, s) && Waits(s) && i < |s.shards| && WaitsAt(s, i)
    ensures Left(s.shards[i]) > 0
  {
    assert QueueEnds(s, i);
    hide Inv, Waits, Left, Pending;
    LeftBound(H, s, i);
  }

  lemma {:induction false} AnswerIs(H: Table.Hasher, s: State)
    requires Inv(H, s) && s.client.Waiting? && s.result.Some?
    ensures s.result.value == Runs.Lookup(s.spec, s.client.key)
  {
    hide ShardInv, AgreesAt, Runs.Lookup;
  }

  /**
   * The repaired engine answers: after any run whose keys fit, a client that waits in
   * db_get for a key that is in the map, or whose table is not full, has its answer after
   * any schedule that gives its worker 5 turns for each place of the ring. It is what one
   * map holds after all calls of db_insert so far, and db_get returns with it.
   */
  lemma {:induction false} GetReturns(H: Table.Hasher, n: nat, es: seq<Event>, k: bytes, fs: seq<Event>)
    requires n > 0
    requires var s := Run(H, Init(n, ALL), es);
             Fits(H, s.spec, n) && s.client == Waiting(k) && Reachable(s, k)
    requires (forall j | 0 <= j < |fs| :: !fs[j].Return?) && TurnsOf(fs, Route(k, n)) >= 5 * RING
    ensures var s := Run(H, Init(n, ALL), es);
            var s' := Run(H, s, fs);
            && s'.client == Waiting(k) && s'.result == Some(Runs.Lookup(s.asked, k))
            && Next(H, s', Return) == s'.(client := Idle, call := s'.call + 1)
  {
    var s0, i := Init(n, ALL), Route(k, n);
    InitInv(H, n, ALL);
    InitWaits(n);
    AskedRun(H, s0, es);
    hide Inv, Shaped, Waits, Fits, Left, Route, Run, Init, Reachable, Runs.Lookup;
    RunWaits(H, s0, es);
    var s := Run(H, s0, es);
    LeftBound(H, s, i);
    WaitAnswered(H, s, fs, i);
    RunWaitsOn(H, s, fs);
    ReturnNow(H, Run(H, s, fs));
  }

  lemma {:induction false} RunWaitsOn(H: Table.Hasher, s: State, fs: seq<Event>)
    requires Inv(H, s) && Shaped(s) && Waits(s) && Fits(H, s.spec, |s.shards|) && Run(H, s, fs).spec == s.spec
    ensures !Run(H, s, fs).dead
  {
    hide Inv, Shaped, Waits, Fits, Run;
    RunWaits(H, s, fs);
    WaitsExact(Run(H, s, fs));
  }

  lemma {:induction false} ReturnNow(H: Table.Hasher, s: State)
    requires Shaped(s) && !s.dead && s.client.Waiting? && s.result.Some?
    ensures Next(H, s, Return) == s.(client := Idle, call := s.call + 1)
  {
    hide IsPow2;
  }

  /**
   * And the calls go in: while the ring of the key has room, a db_insert returns after its
   * four accesses with the map updated, and a db_get waits after as many.
   */
  lemma {:induction false} CallsGoIn(H: Table.Hasher, n: nat, es: seq<Event>, k: bytes, x: Table.Entry)
    requires n > 0
    requires var s := Run(H, Init(n, ALL), es);
             var r := s.shards[Route(k, n)].ring;
             Fits(H, s.spec, n) && s.client == Idle && |r.written| - |r.taken| < RING - 1
    ensures var s := Run(H, Init(n, ALL), es);
            var p, g := Run(H, s, InsertCall(k, x)), Run(H, s, [StartGet(k)] + WRITE);
            && p.client == Idle && p.spec == s.spec[k := x] && p.asked == s.asked[k := x]
            && g.client == Waiting(k) && g.spec == s.spec && g.asked == s.asked && g.result == None
  {
    var s0, i := Init(n, ALL), Route(k, n);
    InitInv(H, n, ALL);
    InitWaits(n);
    hide Inv, Shaped, Waits, Fits, Route, Run, Init, WRITE;
    RunWaits(H, s0, es);
    var s := Run(H, s0, es);
    WaitsExact(s);
    RestingRing(H, s, i);
    PutGoesIn(H, s, k, x, i);
    GetGoesIn(H, s, k, i);
  }

  lemma {:induction false} RestingRing(H: Table.Hasher, s: State, i: nat)
    requires Inv(H, s) && Waits(s) && s.client == Idle && i < |s.shards|
    ensures var r := s.shards[i].ring;
            Ring.Inv(r) && r.cap == RING && r.producer.WIdle? && r.masked && 0 < r.cap
  {
    hide Ring.Inv, TableOk, QueueOk, AgreesAt, Pending;
    assert ShardInv(H, s, i) && QueueEnds(s, i) && s.shards[i].ring.masked;
    PowersOfTwo();
  }

  lemma {:induction false} PutGoesIn(H: Table.Hasher, s: State, k: bytes, x: Table.Entry, i: nat)
    requires Shaped(s) && !s.dead && s.client == Idle && |s.shards| > 0 && i == Route(k, |s.shards|)
    requires var r := s.shards[i].ring;
             Ring.Inv(r) && r.cap == RING && r.producer.WIdle? && r.masked && |r.written| - |r.taken| < RING - 1
    ensures var p := Run(H, s, InsertCall(k, x));
            p.client == Idle && p.spec == s.spec[k := x] && p.asked == s.asked[k := x]
  {
    var s1 := s.(client := Inserting(k, x), asked := s.asked[k := x]);
    RestFull(s.shards[i].ring);
    RunSum(H, s, [StartInsert(k, x)], WRITE);
    RunOne(H, s, StartInsert(k, x));
    assert Next(H, s, StartInsert(k, x)) == s1;
    hide Run, Next, Ring.Run, Ring.Full, Route, IsPow2, Ring.Inv;
    WholeWrite(H, s1, Put(k, x), i);
  }

  lemma {:induction false} GetGoesIn(H: Table.Hasher, s: State, k: bytes, i: nat)
    requires Shaped(s) && !s.dead && s.client == Idle && |s.shards| > 0 && i == Route(k, |s.shards|)
    requires s.repairs.retries
    requires var r := s.shards[i].ring;
             Ring.Inv(r) && r.cap == RING && r.producer.WIdle? && r.masked && |r.written| - |r.taken| < RING - 1
    ensures var g := Run(H, s, [StartGet(k)] + WRITE);
            g.client == Waiting(k) && g.spec == s.spec && g.asked == s.asked && g.result == None
  {
    var s1 := s.(client := Getting(k), result := None);
    RestFull(s.shards[i].ring);
    RunSum(H, s, [StartGet(k)], WRITE);
    RunOne(H, s, StartGet(k));
    assert Next(H, s, StartGet(k)) == s1;
    hide Run, Next, Ring.Run, Ring.Full, Route, IsPow2, Ring.Inv;
    WholeWrite(H, s1, Get(k, s.call), i);
  }
}
