/**
 * src/core/shard/shard.c: db_insert and db_get route a request by hash to one of the
 * shards, whose worker takes it off a ring and applies it to a hash table of its own.
 * Every access to a ring is a step of its own, between any two of which the other
 * threads may run. The whole is compared with one map.
 */
module Shard {
  import opened Bytes
  import opened Bits
  import Hash
  import Loops
  import Ring = RingBuffer
  import Runs
  import Table

  type DB = Runs.Map

  /** A proc_t in a ring; the number tells the calls of db_get apart. */
  datatype Request =
    | Put(key: bytes, entry: Table.Entry)
    | Get(key: bytes, call: nat)

  /** Where the calling thread is. */
  datatype Client =
    | Idle
    | Inserting(key: bytes, entry: Table.Entry)
    | Getting(key: bytes)   // in the loop around rBuff_write
    | Waiting(key: bytes)   // in the loop on `done`

  /** A ring, the request its worker has read and not yet served, and the worker's table. */
  datatype ShardState = ShardState(ring: Ring.State<Request>, hand: Option<Request>, table: Table.State)

  /**
   * What is repaired: the full test of the rings masks both counters; both calls go on
   * until rBuff_write has succeeded once; db_insert passes a status that the worker can
   * write to. The code does none of these.
   */
  datatype Repairs = Repairs(masked: bool, retries: bool, status: bool)

  const AS_WRITTEN := Repairs(false, false, false)
  const ALL := Repairs(true, true, true)

  /**
   * The shards, the client, the number of its current db_get, what `done` and `out_val`
   * of that call say, and whether the process has died. For the specification, the map
   * built by the requests that went into a ring, and the one built by all calls of
   * db_insert.
   */
  datatype State = State(
    shards: seq<ShardState>, client: Client, call: nat, result: Option<Table.Value>, dead: bool,
    repairs: Repairs, spec: DB, asked: DB)

  const RING := 1024
  const HM_CAP := 65536

  /** `l0 mod NSLAVE`. */
  function Route(key: bytes, n: nat): (i: nat)
    requires n > 0
    ensures i < n
  {
    Hash.Djb2(key) % n
  }

  /** Keys of one byte go round the shards in turn. */
  lemma {:induction false} RouteOneByte(c: byte, n: nat)
    requires n > 0
    ensures Route([c], n) == (5381 * 33 + c) % n
  {
    hide Hash.Djb2;
    Hash.Djb2One(c);
  }

  datatype Event =
    | StartInsert(key: bytes, entry: Table.Entry)
    | StartGet(key: bytes)
    | Access              // the client's next access in rBuff_write
    | Return              // db_get sees `done` and returns
    | Work(shard: nat)    // the next access of a worker in rBuff_read, or its serving a request

  ghost predicate ShardShaped(sh: ShardState) {
    IsPow2(sh.ring.cap) && 0 < sh.ring.cap == |sh.ring.slots| && |sh.table.t| > 0
  }

  ghost predicate Shaped(s: State) {
    |s.shards| > 0 && forall i | 0 <= i < |s.shards| :: ShardShaped(s.shards[i])
  }

  /** shard_init. */
  function Init(n: nat, repairs: Repairs): (s: State)
    requires n > 0
    ensures Shaped(s) && |s.shards| == n
  {
    PowersOfTwo();
    var sh := ShardState(Ring.Init(RING, repairs.masked), None, Table.Create(HM_CAP));
    State(seq(n, _ => sh), Idle, 0, None, false, repairs, map[], map[])
  }

  /** What the client is putting into a ring. */
  function Asks(s: State): Option<Request> {
    match s.client
    case Inserting(k, x) => Some(Put(k, x))
    case Getting(k) => Some(Get(k, s.call))
    case _ => None
  }

  /** The key of the db_get under way. */
  function Asking(c: Client): Option<bytes> {
    match c case Getting(k) => Some(k) case Waiting(k) => Some(k) case _ => None
  }

  /** The access that comes next in rBuff_write. */
  function NextWrite(p: Ring.Producer<Request>, r: Request): Ring.Event<Request> {
    match p
    case WIdle => Ring.WriteLoadHead(r)
    case WHead(_, _) => Ring.WriteLoadTail
    case WBoth(_, _, _, _) => Ring.WriteSlot
    case WStored(_, _) => Ring.WritePublish
  }

  /** The access that comes next in rBuff_read. */
  function NextRead(c: Ring.Consumer<Request>): Ring.Event<Request> {
    match c
    case RIdle => Ring.ReadLoadHead
    case RHead(_, _) => Ring.ReadLoadTail
    case RBoth(_, _, _) => Ring.ReadSlot
    case RTaken(_, _) => Ring.ReadPublish
  }

  /**
   * rBuff_write has returned false. db_insert does not look at that; the loop of db_get
   * ends, since it goes on while the answer is not 0.
   */
  function Refused(s: State): State {
    if s.repairs.retries then s
    else
      match s.client
      case Inserting(_, _) => s.(client := Idle)
      case Getting(k) => s.(client := Waiting(k))
      case _ => s
  }

  /** rBuff_write has returned true. */
  function Written(s: State): State {
    match s.client
    case Inserting(k, x) => s.(client := Idle, spec := s.spec[k := x])
    case Getting(k) => if s.repairs.retries then s.(client := Waiting(k)) else s
    case _ => s
  }

  function WithShard(s: State, i: nat, sh: ShardState): State
    requires i < |s.shards|
  {
    s.(shards := s.shards[i := sh])
  }

  function ClientStep(s: State): State
    requires Shaped(s)
  {
    match Asks(s)
    case None => s
    case Some(r) =>
      var i := Route(r.key, |s.shards|);
      var sh := s.shards[i];
      var ring := Ring.Next(sh.ring, NextWrite(sh.ring.producer, r));
      var s' := WithShard(s, i, sh.(ring := ring));
      if sh.ring.producer.WBoth? && ring.producer.WIdle? then Refused(s')
      else if sh.ring.producer.WStored? then Written(s')
      else s'
  }

  /**
   * A worker serves the request in its hand, and writes through the status of it, which
   * is a null pointer in a request of db_insert as written. An answer to an earlier call
   * reaches nobody; from a call into the table that never ends the worker never returns.
   */
  ghost function Serve(H: Table.Hasher, s: State, i: nat): State
    requires Shaped(s) && i < |s.shards| && s.shards[i].hand.Some?
  {
    var sh := s.shards[i];
    match sh.hand.value
    case Put(k, x) =>
      if !Loops.PutEnds(H, sh.table.t, k, x) then s
      else
        var table := Loops.Call(H, sh.table, Table.Op.Put(k, x));
        WithShard(s, i, sh.(hand := None, table := table)).(dead := !s.repairs.status)
    case Get(k, c) =>
      if !Loops.ProbeEnds(H, sh.table.t, k) then s
      else
        var s' := WithShard(s, i, sh.(hand := None));
        if c == s.call then s'.(result := Some(Loops.GetCall(H, sh.table.t, k))) else s'
  }

  ghost function WorkerStep(H: Table.Hasher, s: State, i: nat): State
    requires Shaped(s) && i < |s.shards|
  {
    var sh := s.shards[i];
    if sh.hand.Some? then Serve(H, s, i)
    else
      var ring := Ring.Next(sh.ring, NextRead(sh.ring.consumer));
      var hand := if sh.ring.consumer.RTaken? then Some(sh.ring.consumer.item) else None;
      WithShard(s, i, ShardState(ring, hand, sh.table))
  }

  /** A step of a thread; an event of a thread that is elsewhere, or dead, does nothing. */
  ghost function Next(H: Table.Hasher, s: State, e: Event): (s': State)
    requires Shaped(s)
    ensures Shaped(s') && |s'.shards| == |s.shards|
  {
    if s.dead then s else Step(H, s, e)
  }

  ghost function Step(H: Table.Hasher, s: State, e: Event): (s': State)
    requires Shaped(s)
    ensures Shaped(s') && |s'.shards| == |s.shards|
  {
    match e
    case StartInsert(k, x) =>
      if s.client.Idle? then s.(client := Inserting(k, x), asked := s.asked[k := x]) else s
    case StartGet(k) =>
      if s.client.Idle? then s.(client := Getting(k), result := None) else s
    case Access => ClientStep(s)
    case Return =>
      if s.client.Waiting? && s.result.Some? then s.(client := Idle, call := s.call + 1) else s
    case Work(i) =>
      if i < |s.shards| then WorkerStep(H, s, i) else s
  }

  // ---- the invariant ----

  function Find(m: DB, k: bytes): Option<Table.Entry> {
    if k in m then Some(m[k]) else None
  }

  function ApplyOne(m: DB, r: Request): DB {
    match r case Put(k, x) => m[k := x] case Get(_, _) => m
  }

  /** The map of a shard once its worker has caught up. */
  function Drain(m: DB, q: seq<Request>): DB
    decreases |q|
  {
    if |q| == 0 then m else Drain(ApplyOne(m, q[0]), q[1..])
  }

  /** What a worker has still to serve, the request in its hand first. */
  function Pending(sh: ShardState): seq<Request> {
    (if sh.hand.Some? then [sh.hand.value] else []) +
    (if |sh.ring.taken| <= |sh.ring.written| then sh.ring.written[|sh.ring.taken|..] else [])
  }

  /** Behind a request of the db_get under way there are only copies of it. */
  ghost predicate QueueOk(q: seq<Request>, i: nat, n: nat, call: nat, asking: Option<bytes>)
    requires n > 0
  {
    forall a | 0 <= a < |q| ::
      && Route(q[a].key, n) == i
      && (q[a].Get? ==> q[a].call <= call)
      && (q[a].Get? && q[a].call == call ==> asking == Some(q[a].key) && forall b | a <= b < |q| :: q[b] == q[a])
  }

  /** A worker's table: a map of keys of its own, without tombstones. */
  ghost predicate TableOk(H: Table.Hasher, t: Table.State, i: nat, n: nat)
    requires n > 0
  {
    && |t.t| == HM_CAP && Runs.Agrees(H, t, Runs.Contents(t.t)) && Runs.NoTombs(t.t)
    && forall k | k in Runs.Contents(t.t) :: Route(k, n) == i
  }

  /** Only the client writes to a ring, and only the ring of its key. */
  predicate ProducerOk(s: State, i: nat)
    requires i < |s.shards|
  {
    var p := s.shards[i].ring.producer;
    p.WIdle? || (Asks(s) == Some(p.item) && Route(p.item.key, |s.shards|) == i)
  }

  ghost predicate ShardInv(H: Table.Hasher, s: State, i: nat)
    requires i < |s.shards|
  {
    var sh, n := s.shards[i], |s.shards|;
    && Ring.Inv(sh.ring) && sh.ring.cap == RING && ProducerOk(s, i) && TableOk(H, sh.table, i, n)
    && QueueOk(Pending(sh), i, n, s.call, Asking(s.client))
  }

  /** For its own keys, a shard that has caught up agrees with the one map. */
  ghost predicate AgreesAt(s: State, k: bytes)
    requires |s.shards| > 0
  {
    var sh := s.shards[Route(k, |s.shards|)];
    Find(Drain(Runs.Contents(sh.table.t), Pending(sh)), k) == Find(s.spec, k)
  }

  /** An answer is the one of the map. */
  predicate ResultOk(s: State) {
    s.result.Some? && Asking(s.client).Some? ==> s.result.value == Runs.Lookup(s.spec, Asking(s.client).value)
  }

  ghost predicate Inv(H: Table.Hasher, s: State) {
    && |s.shards| > 0
    && (forall i | 0 <= i < |s.shards| :: ShardInv(H, s, i))
    && (forall k :: AgreesAt(s, k))
    && ResultOk(s)
  }

  /** The keys of one shard. */
  function KeysAt(m: DB, i: nat, n: nat): set<bytes>
    requires n > 0
  {
    set k | k in m && Route(k, n) == i
  }

  /** What the tables can hold: storable keys, no more of them in a shard than slots. */
  predicate Fits(H: Table.Hasher, m: DB, n: nat)
    requires n > 0
  {
    && (forall k | k in m :: Table.Storable(H, k))
    && forall i | 0 <= i < n :: |KeysAt(m, i, n)| <= HM_CAP
  }

  /** The full test is exact: masked on both sides, or with fewer requests read than slots. */
  predicate TestExact(s: State) {
    forall i | 0 <= i < |s.shards| :: s.shards[i].ring.masked || |s.shards[i].ring.taken| < RING
  }

  // ---- queues ----

  lemma {:induction false} DrainSnoc(m: DB, q: seq<Request>, r: Request)
    ensures Drain(m, q + [r]) == ApplyOne(Drain(m, q), r)
    decreases |q|
  {
    if |q| == 0 {
      assert q + [r] == [r];
      assert Drain(ApplyOne(m, r), []) == ApplyOne(m, r);
      assert [r][1..] == [];
    } else {
      assert (q + [r])[1..] == q[1..] + [r];
      DrainSnoc(ApplyOne(m, q[0]), q[1..], r);
    }
  }

  lemma {:induction false} DrainKeys(m: DB, q: seq<Request>, k: bytes)
    requires k in m
    ensures k in Drain(m, q)
    decreases |q|
  {
    if |q| > 0 { DrainKeys(ApplyOne(m, q[0]), q[1..], k); }
  }

  lemma {:induction false} DrainGets(m: DB, q: seq<Request>)
    requires forall a | 0 <= a < |q| :: q[a].Get?
    ensures Drain(m, q) == m
    decreases |q|
  {
    if |q| > 0 { DrainGets(m, q[1..]); }
  }

  lemma {:induction false} QueueSnoc(q: seq<Request>, r: Request, i: nat, n: nat, call: nat, asking: Option<bytes>)
    requires n > 0 && QueueOk(q, i, n, call, asking) && Route(r.key, n) == i
    requires r == (match asking case None => r case Some(k) => Get(k, call))
    requires asking == None ==> r.Put?
    ensures QueueOk(q + [r], i, n, call, asking)
  {
    var q' := q + [r];
    forall a | 0 <= a < |q| ensures q'[a] == q[a] {}
    forall a, b | 0 <= a <= b < |q'| && q'[a].Get? && q'[a].call == call ensures q'[b] == q'[a] {
      if b < |q| { assert q[b] == q[a]; }
    }
  }

  lemma {:induction false} QueueRest(q: seq<Request>, i: nat, n: nat, call: nat, asking: Option<bytes>)
    requires n > 0 && QueueOk(q, i, n, call, asking) && |q| > 0
    ensures QueueOk(q[1..], i, n, call, asking)
  {
    var q' := q[1..];
    forall a | 0 <= a < |q'| ensures q'[a] == q[a + 1] {}
    forall a, b | 0 <= a <= b < |q'| && q'[a].Get? && q'[a].call == call ensures q'[b] == q'[a] {
      assert q[b + 1] == q[a + 1];
    }
  }

  // ---- steps ----

  lemma {:induction false} InitInv(H: Table.Hasher, n: nat, repairs: Repairs)
    requires n > 0
    ensures Inv(H, Init(n, repairs))
  {
    var s := Init(n, repairs);
    PowersOfTwo();
    Ring.InitInv<Request>(RING, repairs.masked);
    Runs.CreateAgrees(H, HM_CAP);
    hide Runs.Agrees, Runs.Contents, Ring.Inv, Runs.NoTombs, Ring.Init, Table.Create, IsPow2;
    forall i | 0 <= i < n ensures ShardInv(H, s, i) { assert Pending(s.shards[i]) == []; }
    forall k ensures AgreesAt(s, k) { assert Pending(s.shards[Route(k, n)]) == []; }
  }

  lemma {:induction false} PowersOfTwo()
    ensures IsPow2(RING) && IsPow2(HM_CAP)
  {
    assert Pow2(10) == 1024;
    assert Pow2(16) == 65536;
  }

  /** A step that changes one shard, when the rest of the state stands as it did to the others. */
  lemma {:induction false} OneShard(H: Table.Hasher, s: State, s': State, i: nat)
    requires Inv(H, s) && i < |s.shards| == |s'.shards|
    requires forall j | 0 <= j < |s.shards| && j != i :: s'.shards[j] == s.shards[j]
    requires s'.call == s.call && Asking(s'.client) == Asking(s.client)
    requires Asks(s') == Asks(s) || (Asks(s).Some? && Route(Asks(s).value.key, |s.shards|) == i)
    requires ShardInv(H, s', i) && ResultOk(s')
    requires forall k | Route(k, |s.shards|) == i :: AgreesAt(s', k)
    requires forall k | Route(k, |s.shards|) != i :: Find(s'.spec, k) == Find(s.spec, k)
    ensures Inv(H, s')
  {
    var n := |s.shards|;
    hide TableOk, QueueOk, Ring.Inv, Pending, Runs.Contents, Drain, Route, Find, ResultOk;
    forall j | 0 <= j < n ensures ShardInv(H, s', j) {
      assert ShardInv(H, s, j);
    }
    forall k ensures AgreesAt(s', k) {
      if Route(k, n) != i { assert AgreesAt(s, k); }
    }
  }

  /** A shard whose ring alone has changed, with the same requests pending. */
  lemma {:induction false} SamePending(H: Table.Hasher, s: State, s': State, i: nat)
    requires Inv(H, s) && i < |s.shards| == |s'.shards|
    requires forall j | 0 <= j < |s.shards| && j != i :: s'.shards[j] == s.shards[j]
    requires s'.call == s.call && Asking(s'.client) == Asking(s.client)
    requires s'.spec == s.spec && s'.result == s.result
    requires Asks(s') == Asks(s) || (Asks(s).Some? && Route(Asks(s).value.key, |s.shards|) == i)
    requires var sh, sh' := s.shards[i], s'.shards[i];
             && Pending(sh') == Pending(sh) && sh'.table == sh.table
             && Ring.Inv(sh'.ring) && sh'.ring.cap == RING && ProducerOk(s', i)
    ensures Inv(H, s')
  {
    hide TableOk, QueueOk, Ring.Inv, Pending, Runs.Contents, Drain, Find, ProducerOk, Runs.Lookup;
    assert ShardInv(H, s, i);
    forall k | Route(k, |s.shards|) == i ensures AgreesAt(s', k) { assert AgreesAt(s, k); }
    OneShard(H, s, s', i);
  }

  /** Where the test is exact, every access keeps the ring. */
  lemma {:induction false} AccessKeeps(H: Table.Hasher, s: State, i: nat, e: Ring.Event<Request>)
    requires Inv(H, s) && TestExact(s) && i < |s.shards|
    ensures var r := s.shards[i].ring;
            && Ring.Inv(r) && r.cap == RING == |r.slots| && IsPow2(RING)
            && Ring.Inv(Ring.Next(r, e)) && Ring.Next(r, e).cap == RING
  {
    hide AgreesAt, TableOk, QueueOk, IsPow2, ResultOk, Pending;
    var r := s.shards[i].ring;
    assert ShardInv(H, s, i);
    if !r.masked && r.producer.WBoth? { ModUnique(r.producer.seen, U64, 0, r.producer.seen); }
    Ring.StepKeeps(r, e);
  }

  /** What the accesses of rBuff_write do to the ring, seen from outside. */
  lemma {:induction false} WriteEffect(r: Ring.State<Request>, x: Request)
    requires r.cap > 0 && |r.slots| == r.cap && IsPow2(r.cap)
    requires r.producer.WIdle? || r.producer.item == x
    ensures var r' := Ring.Next(r, NextWrite(r.producer, x));
            && r'.taken == r.taken
            && r'.written == (if r.producer.WStored? then r.written + [x] else r.written)
            && (r'.producer.WIdle? || r'.producer.item == x)
            && (r.producer.WStored? ==> r'.producer.WIdle?)
  {
    hide Ring.Full, Ring.Slot, IsPow2;
  }

  lemma {:induction false} ReadEffect(r: Ring.State<Request>)
    requires r.cap > 0 && |r.slots| == r.cap && IsPow2(r.cap)
    ensures var r' := Ring.Next(r, NextRead(r.consumer));
            && r'.written == r.written && r'.producer == r.producer
            && r'.taken == (if r.consumer.RTaken? then r.taken + [r.consumer.item] else r.taken)
  {
    hide Ring.Full, Ring.Slot, IsPow2;
  }

  lemma {:induction false} PendingSnoc(sh: ShardState, ring: Ring.State<Request>, x: Request)
    requires |sh.ring.taken| <= |sh.ring.written| && ring.taken == sh.ring.taken
    requires ring.written == sh.ring.written + [x]
    ensures Pending(sh.(ring := ring)) == Pending(sh) + [x]
  {
    var t, w := |sh.ring.taken|, sh.ring.written;
    assert (w + [x])[t..] == w[t..] + [x];
  }

  lemma {:induction false} SameWritten(sh: ShardState, ring: Ring.State<Request>)
    requires ring.written == sh.ring.written && ring.taken == sh.ring.taken
    ensures Pending(sh.(ring := ring)) == Pending(sh)
  {
  }

  /** What an access before the publishing one leaves as it was. */
  lemma {:induction false} ClientShape(s: State, i: nat)
    requires Shaped(s) && Asks(s).Some? && i == Route(Asks(s).value.key, |s.shards|)
    requires !s.shards[i].ring.producer.WStored?
    ensures var s', sh, x := ClientStep(s), s.shards[i], Asks(s).value;
            var ring := Ring.Next(sh.ring, NextWrite(sh.ring.producer, x));
            && s'.shards == s.shards[i := sh.(ring := ring)]
            && s'.call == s.call && Asking(s'.client) == Asking(s.client)
            && s'.spec == s.spec && s'.result == s.result
            && (Asks(s') == Asks(s) || ring.producer.WIdle?)
  {
    hide Ring.Next, Route, IsPow2;
  }

  /** An access before the publishing one. */
  lemma {:induction false} UnwrittenKeeps(H: Table.Hasher, s: State, i: nat)
    requires Inv(H, s) && TestExact(s) && Shaped(s) && Asks(s).Some?
    requires i == Route(Asks(s).value.key, |s.shards|) && !s.shards[i].ring.producer.WStored?
    ensures Inv(H, ClientStep(s))
  {
    hide AgreesAt, TableOk, QueueOk, Pending, Ring.Next, IsPow2, ResultOk, TestExact, ClientStep, Route, Asks, Asking;
    var x := Asks(s).value;
    var sh, s' := s.shards[i], ClientStep(s);
    AccessKeeps(H, s, i, NextWrite(sh.ring.producer, x));
    assert ShardInv(H, s, i);
    WriteEffect(sh.ring, x);
    ClientShape(s, i);
    hide Ring.Inv, Inv;
    SameWritten(sh, s'.shards[i].ring);
    SamePending(H, s, s', i);
  }

  /** Publishing a request: from here on the map counts it. */
  lemma {:induction false} WrittenKeeps(H: Table.Hasher, s: State, i: nat)
    requires Inv(H, s) && TestExact(s) && Shaped(s) && Asks(s).Some?
    requires i == Route(Asks(s).value.key, |s.shards|) && s.shards[i].ring.producer.WStored?
    ensures Inv(H, ClientStep(s))
  {
    hide AgreesAt, TableOk, QueueOk, Pending, Runs.Contents, Drain, Find, Ring.Next, IsPow2, Runs.Lookup, TestExact;
    var x, n := Asks(s).value, |s.shards|;
    var sh, s' := s.shards[i], ClientStep(s);
    var ring := s'.shards[i].ring;
    AccessKeeps(H, s, i, NextWrite(sh.ring.producer, x));
    assert ShardInv(H, s, i);
    WriteEffect(sh.ring, x);
    PendingSnoc(sh, ring, x);
    hide Ring.Inv;
    QueueSnoc(Pending(sh), x, i, n, s.call, Asking(s.client));
    assert ShardInv(H, s', i);
    forall k | Route(k, n) == i ensures AgreesAt(s', k) {
      assert AgreesAt(s, k);
      WrittenAgrees(s, s', i, x, k);
    }
    forall k | Route(k, n) != i ensures Find(s'.spec, k) == Find(s.spec, k) { FindOther(s.spec, x, k); }
    OneShard(H, s, s', i);
  }

  lemma {:induction false} FindOther(m: DB, x: Request, k: bytes)
    requires k != x.key
    ensures Find(ApplyOne(m, x), k) == Find(m, k)
  {
  }

  lemma {:induction false} WrittenAgrees(s: State, s': State, i: nat, x: Request, k: bytes)
    requires 0 < |s.shards| == |s'.shards| && i == Route(k, |s.shards|) && AgreesAt(s, k)
    requires s'.shards[i].table == s.shards[i].table && Pending(s'.shards[i]) == Pending(s.shards[i]) + [x]
    requires s'.spec == ApplyOne(s.spec, x)
    ensures AgreesAt(s', k)
  {
    hide Runs.Contents, Pending, Drain;
    DrainSnoc(Runs.Contents(s.shards[i].table.t), Pending(s.shards[i]), x);
  }

  /** The client's accesses. */
  lemma {:induction false} ClientKeeps(H: Table.Hasher, s: State)
    requires Inv(H, s) && TestExact(s) && Shaped(s)
    ensures Inv(H, ClientStep(s))
  {
    if Asks(s).Some? {
      var i := Route(Asks(s).value.key, |s.shards|);
      hide *;
      if s.shards[i].ring.producer.WStored? { WrittenKeeps(H, s, i); } else { UnwrittenKeeps(H, s, i); }
    } else {
      assert ClientStep(s) == s;
    }
  }

  /** A worker's accesses: what it takes off the ring it has in its hand. */
  lemma {:induction false} ReadKeeps(H: Table.Hasher, s: State, i: nat)
    requires Inv(H, s) && TestExact(s) && Shaped(s) && i < |s.shards| && s.shards[i].hand == None
    ensures Inv(H, WorkerStep(H, s, i))
  {
    hide AgreesAt, TableOk, QueueOk, Pending, Runs.Contents, Drain, Find, Ring.Next, IsPow2, Runs.Lookup, TestExact;
    var sh, s' := s.shards[i], WorkerStep(H, s, i);
    AccessKeeps(H, s, i, NextRead(sh.ring.consumer));
    assert ShardInv(H, s, i);
    ReadEffect(sh.ring);
    PendingTaken(sh, s'.shards[i]);
    hide Ring.Inv;
    SamePending(H, s, s', i);
  }

  lemma {:induction false} PendingTaken(sh: ShardState, sh': ShardState)
    requires Ring.Inv(sh.ring) && sh.hand == None && sh'.ring.written == sh.ring.written
    requires sh'.ring.taken ==
             if sh.ring.consumer.RTaken? then sh.ring.taken + [sh.ring.consumer.item] else sh.ring.taken
    requires sh'.hand == if sh.ring.consumer.RTaken? then Some(sh.ring.consumer.item) else None
    ensures Pending(sh') == Pending(sh)
  {
    hide IsPow2, Ring.ProducerOk;
    var t, w := |sh.ring.taken|, sh.ring.written;
    if sh.ring.consumer.RTaken? { assert w[t..] == [w[t]] + w[t + 1..]; }
  }

  lemma {:induction false} PendingServed(sh: ShardState, sh': ShardState)
    requires sh.hand.Some? && sh'.hand == None && sh'.ring == sh.ring
    ensures Pending(sh) == [sh.hand.value] + Pending(sh') && Pending(sh) != [] && Pending(sh)[1..] == Pending(sh')
  {
  }

  /** Serving a put: the table has room, since the map has no more keys than it holds. */
  lemma {:induction false} ServePutKeeps(H: Table.Hasher, s: State, i: nat)
    requires Inv(H, s) && Shaped(s) && Fits(H, s.spec, |s.shards|)
    requires i < |s.shards| && s.shards[i].hand.Some? && s.shards[i].hand.value.Put?
    ensures Inv(H, Serve(H, s, i))
  {
    hide AgreesAt, QueueOk, TableOk, Pending, Drain, Find, IsPow2, Fits, Ring.Inv;
    hide Runs.Contents, Runs.Lookup, Loops.Call, Loops.PutEnds;
    var n := |s.shards|;
    var sh, s' := s.shards[i], Serve(H, s, i);
    if !Loops.PutEnds(H, sh.table.t, sh.hand.value.key, sh.hand.value.entry) { return; }
    var x, q := sh.hand.value, Pending(sh);
    var m := Runs.Contents(sh.table.t);
    assert ShardInv(H, s, i);
    PendingServed(sh, s'.shards[i]);
    QueueRest(q, i, n, s.call, Asking(s.client));
    QueueFirst(q, i, n, s.call, Asking(s.client));
    forall k | k in m + map[x.key := x.entry] ensures k in KeysAt(s.spec, i, n) {
      ServedKey(H, s, i, k);
    }
    PutFits(H, sh.table, x.key, x.entry, s.spec, i, n);
    assert ShardInv(H, s', i);
    forall k | Route(k, n) == i ensures AgreesAt(s', k) {
      assert AgreesAt(s, k);
      ServedAgrees(s, s', i, k);
    }
    OneShard(H, s, s', i);
  }

  lemma {:induction false} QueueFirst(q: seq<Request>, i: nat, n: nat, call: nat, asking: Option<bytes>)
    requires n > 0 && QueueOk(q, i, n, call, asking) && |q| > 0
    ensures Route(q[0].key, n) == i
    ensures q[0].Get? && q[0].call == call ==> asking == Some(q[0].key) && forall a | 0 <= a < |q| :: q[a] == q[0]
  {
  }

  /** A shard's keys are keys of the map. */
  lemma {:induction false} ServedKey(H: Table.Hasher, s: State, i: nat, k: bytes)
    requires Inv(H, s) && i < |s.shards| && Pending(s.shards[i]) != [] && Pending(s.shards[i])[0].Put?
    requires k in Runs.Contents(s.shards[i].table.t) || k == Pending(s.shards[i])[0].key
    ensures k in KeysAt(s.spec, i, |s.shards|)
  {
    hide Runs.Contents, Pending, Ring.Inv, Runs.Agrees, Runs.NoTombs, ResultOk, ProducerOk;
    var m, q := Runs.Contents(s.shards[i].table.t), Pending(s.shards[i]);
    assert ShardInv(H, s, i);
    QueueFirst(q, i, |s.shards|, s.call, Asking(s.client));
    assert AgreesAt(s, k);
    DrainKeys(ApplyOne(m, q[0]), q[1..], k);
  }

  lemma {:induction false} ServedAgrees(s: State, s': State, i: nat, k: bytes)
    requires 0 < |s.shards| == |s'.shards| && i == Route(k, |s.shards|) && AgreesAt(s, k) && s'.spec == s.spec
    requires var q := Pending(s.shards[i]);
             && q != [] && Pending(s'.shards[i]) == q[1..]
             && Runs.Contents(s'.shards[i].table.t) == ApplyOne(Runs.Contents(s.shards[i].table.t), q[0])
    ensures AgreesAt(s', k)
  {
    hide Runs.Contents, Pending;
  }

  /** The hash table of a shard takes the put of a key that the map may hold. */
  lemma {:induction false} PutFits(H: Table.Hasher, t: Table.State, key: bytes, e: Table.Entry, spec: DB, i: nat,
                                   n: nat)
    requires n > 0 && i < n && TableOk(H, t, i, n) && Fits(H, spec, n)
    requires forall k | k in Runs.Contents(t.t) + map[key := e] :: k in KeysAt(spec, i, n)
    ensures |t.t| > 0
    ensures Loops.PutEnds(H, t.t, key, e)
    ensures var t' := Loops.Call(H, t, Table.Op.Put(key, e));
            TableOk(H, t', i, n) && Runs.Contents(t'.t) == Runs.Contents(t.t)[key := e]
  {
    hide Runs.Contents, Runs.Agrees, Runs.NoTombs, Loops.Call, Loops.PutEnds, Runs.Allowed, Table.Storable;
    var m, m' := Runs.Contents(t.t), Runs.Contents(t.t) + map[key := e];
    assert key in m' && m' == m[key := e];
    forall k | k in m ensures k in KeysAt(spec, i, n) { assert k in m'; }
    Runs.AgreesFacts(H, t, m);
    Runs.PutAllowed(H, t, m, key, e, KeysAt(spec, i, n));
    Runs.AgreesFacts(H, Loops.Call(H, t, Table.Op.Put(key, e)), m[key := e]);
  }

  /** Serving a get: behind it there are only copies of it, so the table has caught up. */
  lemma {:induction false} ServeGetKeeps(H: Table.Hasher, s: State, i: nat)
    requires Inv(H, s) && Shaped(s)
    requires i < |s.shards| && s.shards[i].hand.Some? && s.shards[i].hand.value.Get?
    ensures Inv(H, Serve(H, s, i))
  {
    hide AgreesAt, QueueOk, TableOk, Pending, Runs.Contents, Drain, Find, IsPow2, Runs.Lookup, Ring.Inv;
    hide Loops.ProbeEnds, Loops.GetCall;
    var n := |s.shards|;
    var sh, s' := s.shards[i], Serve(H, s, i);
    if !Loops.ProbeEnds(H, sh.table.t, sh.hand.value.key) { return; }
    var q := Pending(sh);
    assert ShardInv(H, s, i);
    PendingServed(sh, s'.shards[i]);
    QueueRest(q, i, n, s.call, Asking(s.client));
    QueueFirst(q, i, n, s.call, Asking(s.client));
    assert ShardInv(H, s', i);
    if q[0].call == s.call { GetAnswers(H, s, i); }
    forall k | Route(k, n) == i ensures AgreesAt(s', k) {
      assert AgreesAt(s, k);
      ServedAgrees(s, s', i, k);
    }
    OneShard(H, s, s', i);
  }

  lemma {:induction false} GetAnswers(H: Table.Hasher, s: State, i: nat)
    requires Inv(H, s) && i < |s.shards| && |s.shards[i].table.t| > 0 && Pending(s.shards[i]) != []
    requires var x := Pending(s.shards[i])[0]; x.Get? && x.call == s.call
    requires Loops.ProbeEnds(H, s.shards[i].table.t, Pending(s.shards[i])[0].key)
    ensures var k := Pending(s.shards[i])[0].key;
            Asking(s.client) == Some(k) && Loops.GetCall(H, s.shards[i].table.t, k) == Runs.Lookup(s.spec, k)
  {
    hide Runs.Contents, Pending, Ring.Inv, Loops.GetCall, Loops.ProbeEnds, ResultOk, ProducerOk, QueueOk, Drain;
    var t, q := s.shards[i].table, Pending(s.shards[i]);
    var k := q[0].key;
    assert ShardInv(H, s, i);
    QueueFirst(q, i, |s.shards|, s.call, Asking(s.client));
    assert AgreesAt(s, k);
    DrainGets(Runs.Contents(t.t), q);
    Runs.GetIsLookup(H, t.t, k);
  }

  /** A call that begins or returns. */
  lemma {:induction false} CallKeeps(H: Table.Hasher, s: State, e: Event)
    requires Inv(H, s) && Shaped(s) && (e.StartInsert? || e.StartGet? || e.Return?)
    ensures Inv(H, Step(H, s, e))
  {
    var s' := Step(H, s, e);
    hide TableOk, Pending, Runs.Contents, Drain, Find, IsPow2, Runs.Lookup, Ring.Inv;
    forall i | 0 <= i < |s'.shards| ensures ShardInv(H, s', i) { assert ShardInv(H, s, i); }
    forall k ensures AgreesAt(s', k) { assert AgreesAt(s, k); }
  }

  /** Every step of every thread keeps the invariant. */
  lemma {:induction false} StepKeeps(H: Table.Hasher, s: State, e: Event)
    requires Inv(H, s) && Shaped(s) && TestExact(s) && Fits(H, s.spec, |s.shards|)
    ensures Inv(H, Next(H, s, e))
  {
    hide Inv, Shaped, TestExact, Fits, Serve, ClientStep;
    if s.dead { return; }
    match e
    case StartInsert(_, _) => CallKeeps(H, s, e);
    case StartGet(_) => CallKeeps(H, s, e);
    case Return => CallKeeps(H, s, e);
    case Access => ClientKeeps(H, s);
    case Work(i) =>
      if i < |s.shards| {
        if s.shards[i].hand == None { ReadKeeps(H, s, i); }
        else if s.shards[i].hand.value.Put? { ServePutKeeps(H, s, i); }
        else { ServeGetKeeps(H, s, i); }
      }
  }

  // ---- every interleaving ----

  ghost function Run(H: Table.Hasher, s: State, es: seq<Event>): (s': State)
    requires Shaped(s)
    ensures Shaped(s') && |s'.shards| == |s.shards|
    decreases |es|
  {
    if |es| == 0 then s else Next(H, Run(H, s, es[..|es| - 1]), es[|es| - 1])
  }

  /** A ring never forgets what was read from it. */
  lemma {:induction false} TakenStep(H: Table.Hasher, s: State, e: Event, i: nat)
    requires Shaped(s) && i < |s.shards|
    ensures var r, r' := s.shards[i].ring, Next(H, s, e).shards[i].ring;
            r'.masked == r.masked && r'.cap == r.cap && |r.taken| <= |r'.taken|
  {
    hide IsPow2, Loops.Call, Loops.PutEnds, Loops.ProbeEnds, Ring.Next, Route;
    assert ShardShaped(s.shards[i]);
    var r := s.shards[i].ring;
    if Asks(s).Some? { Ring.TakenGrows(r, NextWrite(r.producer, Asks(s).value)); }
    Ring.TakenGrows(r, NextRead(r.consumer));
  }

  /** Requests read and keys in the map only become more. */
  lemma {:induction false} StepGrows(H: Table.Hasher, s: State, e: Event)
    requires Shaped(s)
    ensures TestExact(Next(H, s, e)) ==> TestExact(s)
    ensures s.spec.Keys <= Next(H, s, e).spec.Keys
  {
    hide IsPow2, Loops.Call, Loops.PutEnds, Loops.ProbeEnds, Ring.Next, Route;
    forall i | 0 <= i < |s.shards|
      ensures Next(H, s, e).shards[i].ring.masked == s.shards[i].ring.masked
      ensures |s.shards[i].ring.taken| <= |Next(H, s, e).shards[i].ring.taken|
    {
      TakenStep(H, s, e, i);
    }
  }

  lemma {:induction false} FitsSmaller(H: Table.Hasher, m: DB, m': DB, n: nat)
    requires n > 0 && Fits(H, m', n) && m.Keys <= m'.Keys
    ensures Fits(H, m, n)
  {
    forall k | k in m ensures k in m' { assert k in m.Keys; }
    forall i | 0 <= i < n ensures |KeysAt(m, i, n)| <= HM_CAP {
      Runs.SubsetCard(KeysAt(m, i, n), KeysAt(m', i, n));
    }
  }

  lemma {:induction false} RunKeeps(H: Table.Hasher, s: State, es: seq<Event>)
    requires Inv(H, s) && Shaped(s)
    requires TestExact(Run(H, s, es)) && Fits(H, Run(H, s, es).spec, |s.shards|)
    ensures Inv(H, Run(H, s, es))
    decreases |es|
  {
    if |es| > 0 {
      hide Inv, Shaped, TestExact, Fits, Next;
      var before, e := Run(H, s, es[..|es| - 1]), es[|es| - 1];
      StepGrows(H, before, e);
      FitsSmaller(H, before.spec, Next(H, before, e).spec, |s.shards|);
      RunKeeps(H, s, es[..|es| - 1]);
      StepKeeps(H, before, e);
    }
  }

  /**
   * The sharded store is one map: from n empty shards, under every interleaving of one
   * client with the workers, access by access, a db_get is answered with what one map
   * holds after the requests of db_insert that went into a ring before it. So it is for
   * the code as it is while a ring has served fewer requests than it has slots, and for
   * ever with the masked test.
   */
  lemma {:induction false} StoreIsOneMap(H: Table.Hasher, n: nat, repairs: Repairs, es: seq<Event>)
    requires n > 0
    requires var s := Run(H, Init(n, repairs), es); TestExact(s) && Fits(H, s.spec, n)
    ensures var s := Run(H, Init(n, repairs), es);
            && Inv(H, s)
            && (s.client.Waiting? && s.result.Some? ==> s.result.value == Runs.Lookup(s.spec, s.client.key))
  {
    InitInv(H, n, repairs);
    hide Shaped, TestExact, Fits, Runs.Lookup, ShardInv, AgreesAt, Init;
    RunKeeps(H, Init(n, repairs), es);
  }

  // ---- db_insert that finds no room ----

  /** The repaired db_insert is in the map of the calls as soon as it returns. */
  predicate AskedOk(s: State) {
    s.repairs.retries && s.asked == if s.client.Inserting? then s.spec[s.client.key := s.client.entry] else s.spec
  }

  lemma {:induction false} AskedStep(H: Table.Hasher, s: State, e: Event)
    requires Shaped(s) && AskedOk(s)
    ensures AskedOk(Next(H, s, e))
  {
    hide Ring.Next, IsPow2, Loops.Call, Loops.PutEnds, Loops.ProbeEnds;
  }

  lemma {:induction false} AskedRun(H: Table.Hasher, s: State, es: seq<Event>)
    requires Shaped(s) && AskedOk(s)
    ensures AskedOk(Run(H, s, es))
    decreases |es|
  {
    if |es| > 0 {
      hide Shaped, AskedOk, Next;
      AskedRun(H, s, es[..|es| - 1]);
      AskedStep(H, Run(H, s, es[..|es| - 1]), es[|es| - 1]);
    }
  }

  /**
   * With both calls going on until the write succeeds, and the masked test, each db_get
   * is answered with what one map holds after all calls of db_insert before it.
   */
  lemma {:induction false} RepairedStoreIsOneMap(H: Table.Hasher, n: nat, es: seq<Event>)
    requires n > 0
    requires var s := Run(H, Init(n, ALL), es); Fits(H, s.spec, n)
    ensures var s := Run(H, Init(n, ALL), es);
            s.client.Waiting? && s.result.Some? ==> s.result.value == Runs.Lookup(s.asked, s.client.key)
  {
    MaskedRun(H, Init(n, ALL), es);
    StoreIsOneMap(H, n, ALL, es);
    AskedRun(H, Init(n, ALL), es);
  }

  lemma {:induction false} MaskedRun(H: Table.Hasher, s: State, es: seq<Event>)
    requires Shaped(s) && forall i | 0 <= i < |s.shards| :: s.shards[i].ring.masked
    ensures TestExact(Run(H, s, es)) && forall i | 0 <= i < |s.shards| :: Run(H, s, es).shards[i].ring.masked
    decreases |es|
  {
    if |es| > 0 {
      MaskedRun(H, s, es[..|es| - 1]);
      MaskedStep(H, Run(H, s, es[..|es| - 1]), es[|es| - 1]);
    }
  }

  lemma {:induction false} MaskedStep(H: Table.Hasher, s: State, e: Event)
    requires Shaped(s) && forall i | 0 <= i < |s.shards| :: s.shards[i].ring.masked
    ensures forall i | 0 <= i < |s.shards| :: Next(H, s, e).shards[i].ring.masked
  {
    hide Ring.Next, IsPow2, Loops.Call, Loops.PutEnds, Loops.ProbeEnds;
  }

  /**
   * db_insert as written tries once. It is dropped exactly when the ring was full as its
   * write looked, and then the store differs from the map of the calls exactly when the
   * value was not there already.
   */
  lemma {:induction false} InsertOnceExactly(H: Table.Hasher, s: State)
    requires Inv(H, s) && Shaped(s) && TestExact(s) && !s.repairs.retries && s.client.Inserting?
    requires s.asked == s.spec[s.client.key := s.client.entry]
    requires s.shards[Route(s.client.key, |s.shards|)].ring.producer.WBoth?
    ensures var s', r := ClientStep(s), s.shards[Route(s.client.key, |s.shards|)].ring;
            && (s'.client.Idle? <==> |r.written| + 1 - r.producer.seen == RING)
            && (s'.client.Idle? ==>
                  (s'.spec == s'.asked <==> Find(s'.spec, s.client.key) == Some(s.client.entry)))
  {
    hide AgreesAt, TableOk, QueueOk, Pending, IsPow2, ResultOk, Ring.Slot, Ring.Full;
    var i := Route(s.client.key, |s.shards|);
    var r := s.shards[i].ring;
    AccessKeeps(H, s, i, Ring.WriteSlot);
    assert ShardInv(H, s, i);
    if !r.masked { ModUnique(r.producer.seen, U64, 0, r.producer.seen); }
    Ring.FullExactly(r.cap, r.masked, |r.written|, r.producer.seen);
  }

  // ---- db_get that does not return ----

  /** A ring that has served as many requests as it has slots. */
  predicate StuckRing(r: Ring.State<Request>) {
    && r.cap == RING && !r.masked && RING <= r.rp == |r.taken|
    && (r.consumer.RBoth? ==> r.consumer.rp == r.rp) && (r.consumer.RTaken? ==> r.consumer.rp == r.rp)
    && (r.producer.WBoth? ==> r.producer.rp >= RING)
  }

  predicate Stuck(s: State) {
    && |s.shards| > 0 && s.client.Getting? && !s.repairs.retries
    && StuckRing(s.shards[Route(s.client.key, |s.shards|)].ring)
  }

  lemma {:induction false} StuckWrite(r: Ring.State<Request>, x: Request)
    requires IsPow2(r.cap) && |r.slots| == r.cap && StuckRing(r)
    ensures var r' := Ring.Next(r, NextWrite(r.producer, x));
            StuckRing(r') && (r.producer.WBoth? ==> !r'.producer.WIdle?)
  {
    if r.producer.WBoth? { Ring.PlainNotFull(r.cap, r.producer.hp, r.producer.rp); }
    hide IsPow2, Ring.Full, Ring.Slot;
  }

  lemma {:induction false} StuckRead(r: Ring.State<Request>)
    requires IsPow2(r.cap) && |r.slots| == r.cap && StuckRing(r)
    requires |Ring.Next(r, NextRead(r.consumer)).taken| < U64
    ensures StuckRing(Ring.Next(r, NextRead(r.consumer)))
  {
    hide IsPow2, Ring.Full, Ring.Slot;
  }

  lemma {:induction false} StuckStep(H: Table.Hasher, s: State, e: Event)
    requires Shaped(s) && Stuck(s)
    requires |Next(H, s, e).shards[Route(s.client.key, |s.shards|)].ring.taken| < U64
    ensures Stuck(Next(H, s, e)) && Next(H, s, e).client == s.client
  {
    hide IsPow2, Loops.Call, Loops.PutEnds, Loops.ProbeEnds, Ring.Next, StuckRing, Route;
    var sh := s.shards[Route(s.client.key, |s.shards|)];
    assert ShardShaped(sh);
    StuckCap(sh.ring);
    StuckWrite(sh.ring, Get(s.client.key, s.call));
    if |Ring.Next(sh.ring, NextRead(sh.ring.consumer)).taken| < U64 { StuckRead(sh.ring); }
  }

  lemma {:induction false} StuckCap(r: Ring.State<Request>)
    requires StuckRing(r)
    ensures r.cap == RING
  {
  }

  lemma {:induction false} StuckRun(H: Table.Hasher, s: State, es: seq<Event>)
    requires Shaped(s) && Stuck(s)
    requires |Run(H, s, es).shards[Route(s.client.key, |s.shards|)].ring.taken| < U64
    ensures Stuck(Run(H, s, es)) && Run(H, s, es).client == s.client
    decreases |es|
  {
    if |es| > 0 {
      hide Stuck, Next, Route, TestExact;
      var before, e := Run(H, s, es[..|es| - 1]), es[|es| - 1];
      TakenStep(H, before, e, Route(s.client.key, |s.shards|));
      StuckRun(H, s, es[..|es| - 1]);
      StuckStep(H, before, e);
    }
  }

  /** The counters of the code's rings, whatever their slots have come to hold. */
  predicate Plain(s: State) {
    && |s.shards| > 0 && !s.repairs.retries
    && forall i | 0 <= i < |s.shards| :: PlainShard(s, i)
  }

  predicate PlainShard(s: State, i: nat)
    requires i < |s.shards|
  {
    var r := s.shards[i].ring;
    && r.cap == RING && !r.masked && r.rp == |r.taken| % U64 && ProducerOk(s, i)
    && (r.consumer.RBoth? ==> r.consumer.rp == r.rp) && (r.consumer.RTaken? ==> r.consumer.rp == r.rp)
  }

  lemma {:induction false} PlainStep(H: Table.Hasher, s: State, e: Event)
    requires Shaped(s) && Plain(s)
    ensures Plain(Next(H, s, e))
  {
    hide IsPow2, Loops.Call, Loops.PutEnds, Loops.ProbeEnds, Ring.Next, Route, PlainShard, ProducerOk;
    forall i | 0 <= i < |s.shards| ensures PlainShard(Next(H, s, e), i) {
      assert PlainShard(s, i) && ShardShaped(s.shards[i]);
      if e.Access? { PlainAccess(s, i); } else if e.Work? { PlainWork(H, s, e.shard, i); }
      else { PlainCall(H, s, e, i); }
    }
  }

  lemma {:induction false} PlainCall(H: Table.Hasher, s: State, e: Event, i: nat)
    requires Shaped(s) && i < |s.shards| && PlainShard(s, i) && (e.StartInsert? || e.StartGet? || e.Return?)
    ensures PlainShard(Next(H, s, e), i)
  {
    hide Route;
  }

  lemma {:induction false} PlainAccess(s: State, i: nat)
    requires Shaped(s) && i < |s.shards| && PlainShard(s, i)
    ensures PlainShard(ClientStep(s), i)
  {
    hide IsPow2, Ring.Next, Route;
    assert ShardShaped(s.shards[i]);
    var r := s.shards[i].ring;
    if Asks(s).Some? && (r.producer.WIdle? || r.producer.item == Asks(s).value) {
      WriteEffect(r, Asks(s).value);
      WriteCounters(r, Asks(s).value);
    }
  }

  lemma {:induction false} PlainWork(H: Table.Hasher, s: State, j: nat, i: nat)
    requires Shaped(s) && i < |s.shards| && PlainShard(s, i)
    ensures j < |s.shards| ==> PlainShard(WorkerStep(H, s, j), i)
  {
    hide IsPow2, Loops.Call, Loops.PutEnds, Loops.ProbeEnds, Ring.Next, Route;
    assert ShardShaped(s.shards[i]);
    ReadCounters(s.shards[i].ring);
  }

  lemma {:induction false} WriteCounters(r: Ring.State<Request>, x: Request)
    requires r.cap > 0 && |r.slots| == r.cap && IsPow2(r.cap)
    ensures var r' := Ring.Next(r, NextWrite(r.producer, x)); r'.rp == r.rp && r'.consumer == r.consumer
  {
    hide Ring.Full, Ring.Slot, IsPow2;
  }

  lemma {:induction false} ReadCounters(r: Ring.State<Request>)
    requires r.cap > 0 && |r.slots| == r.cap && IsPow2(r.cap) && r.rp == |r.taken| % U64
    requires (r.consumer.RBoth? ==> r.consumer.rp == r.rp) && (r.consumer.RTaken? ==> r.consumer.rp == r.rp)
    ensures var r' := Ring.Next(r, NextRead(r.consumer));
            && r'.rp == |r'.taken| % U64 && r'.producer == r.producer
            && (r'.consumer.RBoth? ==> r'.consumer.rp == r'.rp) && (r'.consumer.RTaken? ==> r'.consumer.rp == r'.rp)
  {
    hide Ring.Full, Ring.Slot, IsPow2;
    Ring.IncOf(|r.taken|);
  }

  lemma {:induction false} PlainRun(H: Table.Hasher, s: State, es: seq<Event>)
    requires Shaped(s) && Plain(s)
    ensures Plain(Run(H, s, es))
    decreases |es|
  {
    if |es| > 0 {
      hide Shaped, Plain, Next;
      PlainRun(H, s, es[..|es| - 1]);
      PlainStep(H, Run(H, s, es[..|es| - 1]), es[|es| - 1]);
    }
  }

  /**
   * Once the ring of a key has served as many requests as it has slots, a db_get of that
   * key never leaves its first loop again, whatever the workers do: until 2^64 requests
   * have gone through the ring, the write it repeats succeeds every time.
   */
  lemma {:induction false} GetNeverReturns(H: Table.Hasher, n: nat, repairs: Repairs, es: seq<Event>, key: bytes,
                                           fs: seq<Event>)
    requires n > 0 && !repairs.masked && !repairs.retries
    requires var s := Run(H, Init(n, repairs), es);
             && s.client.Idle? && !s.dead && |s.shards[Route(key, n)].ring.taken| >= RING
             && |Run(H, Next(H, s, StartGet(key)), fs).shards[Route(key, n)].ring.taken| < U64
    ensures Run(H, Next(H, Run(H, Init(n, repairs), es), StartGet(key)), fs).client == Getting(key)
  {
    var s0 := Init(n, repairs);
    hide Shaped, Next, Run, Route, Table.Create;
    PlainRun(H, s0, es);
    var s := Run(H, s0, es);
    StartEffect(H, s, key);
    hide Init;
    var s1 := Next(H, s, StartGet(key));
    TakenRun(H, s1, fs, Route(key, n));
    assert PlainShard(s, Route(key, n));
    var r := s.shards[Route(key, n)].ring;
    ModUnique(|r.taken|, U64, 0, |r.taken|);
    StuckRun(H, s1, fs);
  }

  lemma {:induction false} StartEffect(H: Table.Hasher, s: State, key: bytes)
    requires Shaped(s) && s.client.Idle? && !s.dead
    ensures Next(H, s, StartGet(key)) == s.(client := Getting(key), result := None)
  {
  }

  lemma {:induction false} TakenRun(H: Table.Hasher, s: State, es: seq<Event>, i: nat)
    requires Shaped(s) && i < |s.shards|
    ensures |s.shards[i].ring.taken| <= |Run(H, s, es).shards[i].ring.taken|
    decreases |es|
  {
    if |es| > 0 {
      hide Shaped, Next;
      TakenRun(H, s, es[..|es| - 1], i);
      TakenStep(H, Run(H, s, es[..|es| - 1]), es[|es| - 1], i);
    }
  }

  /** n calls of rBuff_write with the same request, with the worker at rest. */
  function Spin<T>(s: Ring.State<T>, x: T, n: nat): (s': Ring.State<T>)
    requires s.cap > 0 && |s.slots| == s.cap && Bits.IsPow2(s.cap)
    ensures s'.cap == s.cap && |s'.slots| == s.cap && s'.masked == s.masked
  {
    if n == 0 then s else Ring.Run(Spin(s, x, n - 1), Ring.WriteCall(x))
  }

  /**
   * db_get as written: its loop goes on while the write succeeds, so it leaves only after
   * it has filled every free place of the ring with copies of its request.
   */
  lemma {:induction false} GetSpinsUntilFull<T>(s: Ring.State<T>, x: T, n: nat)
    requires Ring.Inv(s) && s.producer.WIdle? && (s.masked || s.rp < s.cap)
    requires |s.written| - |s.taken| + n < s.cap
    ensures var s' := Spin(s, x, n);
            && Ring.Inv(s') && s'.producer.WIdle? && s'.taken == s.taken && s'.rp == s.rp
            && s'.written == s.written + seq(n, _ => x)
            && (Ring.Run(s', Ring.WriteCall(x)) == s' <==> |s.written| - |s.taken| + n == s.cap - 1)
  {
    if n > 0 {
      GetSpinsUntilFull(s, x, n - 1);
      SpinOnce(Spin(s, x, n - 1), x);
      assert s.written + seq(n - 1, _ => x) + [x] == s.written + seq(n, _ => x);
    } else {
      assert s.written + seq(0, _ => x) == s.written;
    }
    SpinOnce(Spin(s, x, n), x);
  }

  lemma {:induction false} SpinOnce<T>(s: Ring.State<T>, x: T)
    requires Ring.Inv(s) && s.producer.WIdle? && (s.masked || s.rp < s.cap)
    ensures var s', full := Ring.Run(s, Ring.WriteCall(x)), |s.written| - |s.taken| == s.cap - 1;
            && (full <==> s' == s)
            && (!full ==> Ring.Inv(s') && s'.written == s.written + [x])
            && s'.producer.WIdle? && s'.taken == s.taken && s'.rp == s.rp
  {
    var es := Ring.WriteCall(x);
    Ring.WriteCallEffect(s, x);
    Ring.FullExactly(s.cap, s.masked, |s.written|, |s.taken|);
    Ring.Run4(s, es);
    var s1 := Ring.Next(s, es[0]);
    var s2 := Ring.Next(s1, es[1]);
    hide Ring.Run, Ring.Full, Ring.Slot;
    Ring.StepKeeps(s, es[0]);
    Ring.StepKeeps(s1, es[1]);
    Ring.StepKeeps(s2, es[2]);
    Ring.StepKeeps(Ring.Next(s2, es[2]), es[3]);
  }

  // ---- db_insert without a status ----

  /** What a worker finds in a table that nothing was put into. */
  lemma {:induction false} FreshTable(H: Table.Hasher, cap: nat, key: bytes, e: Table.Entry)
    requires cap > 0
    ensures var t := Table.Create(cap).t;
            && |t| == cap && Loops.PutEnds(H, t, key, e)
            && Loops.ProbeEnds(H, t, key) && Loops.GetCall(H, t, key) == Table.Null
  {
    var t := Table.Create(cap).t;
    assert Loops.PutIn(H, t, key, e, 1).Some?;
    Loops.ProbeCallIs(H, t, key, 1);
  }

  /** No put has been served, and every answer was NULL. */
  ghost predicate Untouched(s: State) {
    && Shaped(s) && !s.repairs.status
    && (!s.dead ==> forall i | 0 <= i < |s.shards| :: s.shards[i].table == Table.Create(HM_CAP))
    && (s.result.Some? ==> s.result.value == Table.Null)
  }

  /** The event is a worker's serving of a db_insert. */
  predicate ServesPut(s: State, e: Event) {
    e.Work? && e.shard < |s.shards| && s.shards[e.shard].hand.Some? && s.shards[e.shard].hand.value.Put?
  }

  lemma {:induction false} UntouchedStep(H: Table.Hasher, s: State, e: Event)
    requires Untouched(s)
    ensures Untouched(Next(H, s, e))
    ensures Next(H, s, e).dead <==> s.dead || ServesPut(s, e)
  {
    hide Ring.Next, IsPow2, Loops.Call, Loops.PutEnds, Loops.ProbeEnds, Loops.GetCall, Table.Create, Route;
    if e.Work? && e.shard < |s.shards| && s.shards[e.shard].hand.Some? {
      var x := s.shards[e.shard].hand.value;
      FreshTable(H, HM_CAP, x.key, if x.Put? then x.entry else Table.Entry(Table.Null, 0));
    }
  }

  lemma {:induction false} UntouchedRun(H: Table.Hasher, s: State, es: seq<Event>)
    requires Untouched(s)
    ensures Untouched(Run(H, s, es))
    decreases |es|
  {
    if |es| > 0 {
      hide Untouched, Next, ServesPut;
      assert Shaped(s) by { UntouchedShape(s); }
      UntouchedRun(H, s, es[..|es| - 1]);
      UntouchedStep(H, Run(H, s, es[..|es| - 1]), es[|es| - 1]);
    }
  }

  lemma {:induction false} UntouchedShape(s: State)
    requires Untouched(s)
    ensures Shaped(s)
  {
  }

  lemma {:induction false} InitUntouched(n: nat, repairs: Repairs)
    requires n > 0 && !repairs.status
    ensures Untouched(Init(n, repairs))
  {
    hide Table.Create, Ring.Init;
  }

  /**
   * db_insert as written leaves its status a null pointer, and the worker writes through
   * it: under every interleaving the process dies exactly as the first db_insert is
   * served, and up to there every db_get that is answered is answered with NULL.
   */
  lemma {:induction false} AsWrittenDies(H: Table.Hasher, n: nat, repairs: Repairs, es: seq<Event>, e: Event)
    requires n > 0 && !repairs.status
    ensures var s := Run(H, Init(n, repairs), es);
            && (s.result.Some? ==> s.result.value == Table.Null)
            && (Next(H, s, e).dead <==> s.dead || ServesPut(s, e))
  {
    InitUntouched(n, repairs);
    UntouchedRun(H, Init(n, repairs), es);
    UntouchedStep(H, Run(H, Init(n, repairs), es), e);
  }

  /** And then nothing is ever answered again. */
  lemma {:induction false} DeadForever(H: Table.Hasher, s: State, es: seq<Event>)
    requires Shaped(s) && s.dead
    ensures Run(H, s, es) == s
    decreases |es|
  {
    if |es| > 0 {
      hide Shaped, Step;
      DeadForever(H, s, es[..|es| - 1]);
    }
  }

  // ---- whole calls, with the other threads at rest ----

  lemma {:induction false} RunSum(H: Table.Hasher, s: State, es: seq<Event>, fs: seq<Event>)
    requires Shaped(s)
    ensures Run(H, s, es + fs) == Run(H, Run(H, s, es), fs)
    decreases |fs|
  {
    hide Shaped, Next;
    if |fs| == 0 {
      assert es + fs == es;
    } else {
      assert (es + fs)[..|es + fs| - 1] == es + fs[..|fs| - 1];
      RunSum(H, s, es, fs[..|fs| - 1]);
    }
  }

  lemma {:induction false} RunOne(H: Table.Hasher, s: State, e: Event)
    requires Shaped(s)
    ensures Run(H, s, [e]) == Next(H, s, e)
  {
    hide Shaped, Next;
    assert [e][..0] == [];
  }

  lemma {:induction false} Run4(H: Table.Hasher, s: State, e: Event)
    requires Shaped(s)
    ensures Run(H, s, [e, e, e, e]) == Next(H, Next(H, Next(H, Next(H, s, e), e), e), e)
  {
    hide Shaped, Next;
    var e4, e3, e2 := [e, e, e, e], [e, e, e], [e, e];
    assert e4[..3] == e3 && e3[..2] == e2 && e2[..1] == [e];
    RunOne(H, s, e);
    assert Run(H, s, e2) == Next(H, Run(H, s, [e]), e);
    assert Run(H, s, e3) == Next(H, Run(H, s, e2), e);
  }

  function Times(es: seq<Event>, n: nat): seq<Event> {
    if n == 0 then [] else Times(es, n - 1) + es
  }

  const WRITE: seq<Event> := [Access, Access, Access, Access]

  function InsertCall(key: bytes, entry: Table.Entry): seq<Event> {
    [StartInsert(key, entry)] + WRITE
  }

  /** A worker reads a request and serves it. */
  function ServeCall(i: nat): seq<Event> {
    [Work(i), Work(i), Work(i), Work(i)] + [Work(i)]
  }

  /** One access of the client. */
  lemma {:induction false} AccessOnce(H: Table.Hasher, s: State, x: Request)
    requires Shaped(s) && !s.dead && Asks(s) == Some(x)
    ensures var i := Route(x.key, |s.shards|);
            var sh := s.shards[i];
            var ring := Ring.Next(sh.ring, NextWrite(sh.ring.producer, x));
            var s' := WithShard(s, i, sh.(ring := ring));
            Next(H, s, Access) ==
            if sh.ring.producer.WBoth? && ring.producer.WIdle? then Refused(s')
            else if sh.ring.producer.WStored? then Written(s') else s'
  {
    hide Ring.Next, NextWrite, Route, IsPow2;
  }

  /** The shard i with another ring. */
  function WithRing(s: State, i: nat, r: Ring.State<Request>): (s': State)
    requires i < |s.shards|
    ensures |s'.shards| == |s.shards| && s'.shards[i] == s.shards[i].(ring := r)
  {
    WithShard(s, i, s.shards[i].(ring := r))
  }

  lemma {:induction false} RingTwice(s: State, i: nat, r: Ring.State<Request>, r': Ring.State<Request>)
    requires i < |s.shards|
    ensures WithRing(WithRing(s, i, r), i, r') == WithRing(s, i, r')
    ensures WithRing(s, i, s.shards[i].ring) == s
    ensures Asks(WithRing(s, i, r)) == Asks(s)
  {
    assert s.shards[i := s.shards[i]] == s.shards;
  }

  lemma {:induction false} RingShaped(s: State, i: nat, r: Ring.State<Request>)
    requires Shaped(s) && i < |s.shards| && IsPow2(r.cap) && 0 < r.cap == |r.slots|
    ensures Shaped(WithRing(s, i, r))
  {
    hide IsPow2;
  }

  /** The states of the ring between the accesses of one write. */
  lemma {:induction false} WriteStates(r: Ring.State<Request>, x: Request)
    requires IsPow2(r.cap) && 0 < r.cap == |r.slots| && r.producer.WIdle?
    ensures var r1, r2 := r.(producer := Ring.WHead(x, r.hp)), r.(producer := Ring.WBoth(x, r.hp, r.rp, |r.taken|));
            var r3 := Ring.Next(r2, Ring.WriteSlot);
            && Ring.Next(r, Ring.WriteLoadHead(x)) == r1 && Ring.Next(r1, Ring.WriteLoadTail) == r2
            && (Ring.Full(r.cap, r.masked, r.hp, r.rp) ==> r3 == r)
            && (!Ring.Full(r.cap, r.masked, r.hp, r.rp) ==> r3.producer == Ring.WStored(x, r.hp))
            && Ring.Next(r3, Ring.WritePublish) == Ring.Run(r, Ring.WriteCall(x))
  {
    hide Ring.Full, Ring.Slot, Ring.Run, IsPow2;
    Ring.Run4(r, Ring.WriteCall(x));
  }

  /** A whole rBuff_write of the client. */
  lemma {:induction false} WholeWrite(H: Table.Hasher, s: State, x: Request, i: nat)
    requires Shaped(s) && !s.dead && Asks(s) == Some(x) && i == Route(x.key, |s.shards|)
    requires var r := s.shards[i].ring;
             r.producer.WIdle? && 0 < r.cap && (s.repairs.retries ==> !Ring.Full(r.cap, r.masked, r.hp, r.rp))
    ensures var r := s.shards[i].ring;
            Run(H, s, WRITE) ==
            if Ring.Full(r.cap, r.masked, r.hp, r.rp) then Refused(s)
            else Written(WithRing(s, i, Ring.Run(r, Ring.WriteCall(x))))
  {
    var r := s.shards[i].ring;
    assert ShardShaped(s.shards[i]);
    WriteStates(r, x);
    Run4(H, s, Access);
    var r1, r2 := r.(producer := Ring.WHead(x, r.hp)), r.(producer := Ring.WBoth(x, r.hp, r.rp, |r.taken|));
    var r3 := Ring.Next(r2, Ring.WriteSlot);
    var s1, s2, s3 := WithRing(s, i, r1), WithRing(s, i, r2), WithRing(s, i, r3);
    hide Run, Ring.Run, Ring.Next, Ring.Full, Route, IsPow2, Shaped, Asks, Next, WithRing, Refused, Written;
    RingShaped(s, i, r1);
    RingShaped(s, i, r2);
    RingShaped(s, i, r3);
    RingTwice(s, i, r1, r2);
    RingTwice(s, i, r2, r3);
    RingTwice(s, i, r3, Ring.Run(r, Ring.WriteCall(x)));
    AccessRing(H, s, x, i);
    AccessRing(H, s1, x, i);
    AccessRing(H, s2, x, i);
    if Ring.Full(r.cap, r.masked, r.hp, r.rp) {
      RefusedRests(H, s);
    } else {
      AccessRing(H, s3, x, i);
    }
  }

  lemma {:induction false} AccessRing(H: Table.Hasher, s: State, x: Request, i: nat)
    requires Shaped(s) && !s.dead && Asks(s) == Some(x) && i == Route(x.key, |s.shards|)
    ensures i < |s.shards| && IsPow2(s.shards[i].ring.cap) && 0 < s.shards[i].ring.cap == |s.shards[i].ring.slots|
    ensures var r := s.shards[i].ring;
            var ring := Ring.Next(r, NextWrite(r.producer, x));
            Next(H, s, Access) ==
            if r.producer.WBoth? && ring.producer.WIdle? then Refused(WithRing(s, i, ring))
            else if r.producer.WStored? then Written(WithRing(s, i, ring)) else WithRing(s, i, ring)
  {
    hide Ring.Next, NextWrite, Route, IsPow2, Refused, Written;
    AccessOnce(H, s, x);
  }

  lemma {:induction false} RefusedRests(H: Table.Hasher, s: State)
    requires Shaped(s) && !s.dead && !s.repairs.retries && Asks(s).Some?
    ensures Shaped(Refused(s)) && Next(H, Refused(s), Access) == Refused(s)
  {
    hide IsPow2;
  }

  /** The full test on a ring at rest. */
  lemma {:induction false} RestFull<T>(r: Ring.State<T>)
    requires Ring.Inv(r) && (r.masked || r.rp < r.cap)
    ensures IsPow2(r.cap) && 0 < r.cap == |r.slots|
    ensures Ring.Full(r.cap, r.masked, r.hp, r.rp) <==> |r.written| - |r.taken| == r.cap - 1
  {
    hide Ring.Full, IsPow2;
    Ring.FullExactly(r.cap, r.masked, |r.written|, |r.taken|);
  }

  // ---- a put that is dropped ----

  lemma {:induction false} InsertWrites(H: Table.Hasher, s: State, k: bytes, x: Table.Entry, i: nat)
    requires Shaped(s) && !s.dead && !s.repairs.retries && s.client.Idle? && i == Route(k, |s.shards|)
    requires var r := s.shards[i].ring; Ring.Inv(r) && r.producer.WIdle? && (r.masked || r.rp < r.cap)
    ensures var r, s' := s.shards[i].ring, Run(H, s, InsertCall(k, x));
            && IsPow2(r.cap) && 0 < r.cap == |r.slots|
            && s' == if |r.written| - |r.taken| == r.cap - 1 then s.(asked := s.asked[k := x])
                     else WithRing(s, i, Ring.Run(r, Ring.WriteCall(Put(k, x)))).
                            (asked := s.asked[k := x], spec := s.spec[k := x])
  {
    var s1 := s.(client := Inserting(k, x), asked := s.asked[k := x]);
    RestFull(s.shards[i].ring);
    RunSum(H, s, [StartInsert(k, x)], WRITE);
    RunOne(H, s, StartInsert(k, x));
    assert Next(H, s, StartInsert(k, x)) == s1;
    hide Run, Next, Ring.Run, Ring.Full, Route, IsPow2, Ring.Inv;
    WholeWrite(H, s1, Put(k, x), i);
  }

  /** n puts of the same entry, with the worker at rest. */
  lemma {:induction false} FillRing(H: Table.Hasher, s: State, k: bytes, x: Table.Entry, i: nat, n: nat)
    requires Shaped(s) && !s.dead && !s.repairs.retries && s.client.Idle? && i == Route(k, |s.shards|)
    requires var r := s.shards[i].ring;
             && Ring.Inv(r) && r.producer.WIdle? && (r.masked || r.rp < r.cap)
             && |r.written| - |r.taken| + n < r.cap
    ensures var r, s' := s.shards[i].ring, Run(H, s, Times(InsertCall(k, x), n));
            && IsPow2(r.cap) && 0 < r.cap == |r.slots|
            && s' == if n == 0 then s
                     else WithRing(s, i, Spin(r, Put(k, x), n)).
                            (asked := s.asked[k := x], spec := s.spec[k := x])
    decreases n
  {
    hide Run, Next, Ring.Run, Ring.Full, Route, IsPow2, Ring.Inv, InsertCall;
    var r := s.shards[i].ring;
    RestFull(r);
    if n == 0 {
      RunNone(H, s);
    } else {
      FillRing(H, s, k, x, i, n - 1);
      GetSpinsUntilFull(r, Put(k, x), n - 1);
      var sp := Spin(r, Put(k, x), n - 1);
      var s1 := Run(H, s, Times(InsertCall(k, x), n - 1));
      RunSum(H, s, Times(InsertCall(k, x), n - 1), InsertCall(k, x));
      if n == 1 { RingTwice(s, i, r, r); }
      assert s1.shards[i].ring == sp;
      InsertWrites(H, s1, k, x, i);
      RingTwice(s, i, sp, Ring.Run(sp, Ring.WriteCall(Put(k, x))));
    }
  }

  lemma {:induction false} RunNone(H: Table.Hasher, s: State)
    requires Shaped(s)
    ensures Run(H, s, []) == s
  {
  }

  /**
   * Such a state is reached, whatever else is repaired: of 1024 calls of db_insert while
   * the worker is at rest the last is dropped without a word, and the map of the ring
   * still has the value before it.
   */
  lemma {:induction false} PutDropped(H: Table.Hasher, n: nat, repairs: Repairs, k: bytes, x: Table.Entry,
                                      y: Table.Entry)
    requires n > 0 && !repairs.retries
    ensures var s := Run(H, Init(n, repairs), Times(InsertCall(k, x), RING - 1) + InsertCall(k, y));
            s.client.Idle? && !s.dead && s.spec == map[k := x] && s.asked == map[k := y]
  {
    var s0, i := Init(n, repairs), Route(k, n);
    var r := s0.shards[i].ring;
    PowersOfTwo();
    Ring.InitInv<Request>(RING, repairs.masked);
    assert r == Ring.Init(RING, repairs.masked);
    hide Run, Next, Ring.Run, Ring.Full, Route, IsPow2, Ring.Inv, InsertCall, Times, Table.Create;
    FillRing(H, s0, k, x, i, RING - 1);
    GetSpinsUntilFull(r, Put(k, x), RING - 1);
    RunSum(H, s0, Times(InsertCall(k, x), RING - 1), InsertCall(k, y));
    var s1 := Run(H, s0, Times(InsertCall(k, x), RING - 1));
    assert s1.shards[i].ring == Spin(r, Put(k, x), RING - 1);
    InsertWrites(H, s1, k, y, i);
    assert map[k := x][k := y] == map[k := y];
  }

  // ---- a db_get that never returns ----

  /** The writes of a db_get's loop. */
  lemma {:induction false} SpinWrites(H: Table.Hasher, s: State, k: bytes, i: nat, n: nat)
    requires Shaped(s) && !s.dead && !s.repairs.retries && s.client == Getting(k) && i == Route(k, |s.shards|)
    requires var r := s.shards[i].ring;
             && Ring.Inv(r) && r.producer.WIdle? && (r.masked || r.rp < r.cap)
             && |r.written| - |r.taken| + n < r.cap
    ensures var r := s.shards[i].ring;
            && IsPow2(r.cap) && 0 < r.cap == |r.slots|
            && Run(H, s, Times(WRITE, n)) == WithRing(s, i, Spin(r, Get(k, s.call), n))
    decreases n
  {
    hide Run, Next, Ring.Run, Ring.Full, Route, IsPow2, Ring.Inv, WRITE;
    var r, x := s.shards[i].ring, Get(k, s.call);
    RestFull(r);
    RingTwice(s, i, r, r);
    if n == 0 {
      RunNone(H, s);
    } else {
      SpinWrites(H, s, k, i, n - 1);
      GetSpinsUntilFull(r, x, n - 1);
      var sp := Spin(r, x, n - 1);
      var s1 := WithRing(s, i, sp);
      RunSum(H, s, Times(WRITE, n - 1), WRITE);
      RestFull(sp);
      WholeWrite(H, s1, x, i);
      RingTwice(s, i, sp, Ring.Run(sp, Ring.WriteCall(x)));
    }
  }

  /** What a whole read leaves of a ring that has something in it. */
  lemma {:induction false} ReadStates<T>(r: Ring.State<T>)
    requires Ring.Inv(r) && r.producer.WIdle? && r.consumer.RIdle? && |r.taken| < |r.written|
    ensures IsPow2(r.cap) && 0 < r.cap == |r.slots|
    ensures var r1 := Ring.Next(r, Ring.ReadLoadHead);
            var r2 := Ring.Next(r1, Ring.ReadLoadTail);
            var r3 := Ring.Next(r2, Ring.ReadSlot);
            var r' := Ring.Run(r, Ring.ReadCall<T>());
            && r1.consumer.RHead? && r2.consumer.RBoth? && r3.consumer == Ring.RTaken(r.written[|r.taken|], r.rp)
            && r' == Ring.Next(r3, Ring.ReadPublish)
            && Ring.Inv(r') && r' == r.(rp := Ring.Inc(r.rp), taken := r.taken + [r.written[|r.taken|]])
  {
    hide Ring.Full, Ring.Slot, Ring.Run, IsPow2;
    Ring.Run4(r, Ring.ReadCall<T>());
    Ring.ReadCallEffect(r);
    var r1 := Ring.Next(r, Ring.ReadLoadHead);
    var r2 := Ring.Next(r1, Ring.ReadLoadTail);
    var r3 := Ring.Next(r2, Ring.ReadSlot);
    Ring.StepKeeps(r, Ring.ReadLoadHead);
    Ring.StepKeeps(r1, Ring.ReadLoadTail);
    Ring.StepKeeps(r2, Ring.ReadSlot);
    Ring.ReadSlotKeeps(r2);
    Ring.StepKeeps(r3, Ring.ReadPublish);
  }

  /** A worker's access to its ring. */
  lemma {:induction false} WorkRing(H: Table.Hasher, s: State, i: nat)
    requires Shaped(s) && !s.dead && i < |s.shards| && s.shards[i].hand == None
    ensures var r := s.shards[i].ring; IsPow2(r.cap) && 0 < r.cap == |r.slots|
    ensures var r := s.shards[i].ring;
            var ring := Ring.Next(r, NextRead(r.consumer));
            Next(H, s, Work(i)) ==
            if r.consumer.RTaken? then InHand(WithRing(s, i, ring), i, r.consumer.item) else WithRing(s, i, ring)
  {
    hide Ring.Next, NextRead, IsPow2, Serve;
    assert ShardShaped(s.shards[i]);
  }

  function InHand(s: State, i: nat, x: Request): State
    requires i < |s.shards|
  {
    WithShard(s, i, s.shards[i].(hand := Some(x)))
  }

  /** A worker's whole turn: it takes the oldest request off the ring and serves it. */
  lemma {:induction false} WholeTurn(H: Table.Hasher, s: State, i: nat)
    requires Shaped(s) && !s.dead && i < |s.shards| && s.shards[i].hand == None
    requires var r := s.shards[i].ring;
             Ring.Inv(r) && r.producer.WIdle? && r.consumer.RIdle? && |r.taken| < |r.written|
    ensures var r := s.shards[i].ring;
            && IsPow2(r.cap) && 0 < r.cap == |r.slots|
            && var s' := InHand(WithRing(s, i, Ring.Run(r, Ring.ReadCall<Request>())), i, r.written[|r.taken|]);
               Shaped(s') && Run(H, s, ServeCall(i)) == Next(H, s', Work(i))
  {
    var r := s.shards[i].ring;
    ReadStates(r);
    var x, r1 := r.written[|r.taken|], Ring.Next(r, Ring.ReadLoadHead);
    var r2 := Ring.Next(r1, Ring.ReadLoadTail);
    var r3, r4 := Ring.Next(r2, Ring.ReadSlot), Ring.Run(r, Ring.ReadCall<Request>());
    var s1, s2, s3, s4 := WithRing(s, i, r1), WithRing(s, i, r2), WithRing(s, i, r3), WithRing(s, i, r4);
    RunSum(H, s, [Work(i), Work(i), Work(i), Work(i)], [Work(i)]);
    Run4(H, s, Work(i));
    var e := Work(i);
    hide Run, Ring.Run, Ring.Next, Ring.Inv, IsPow2, Shaped, Next, WithRing, InHand;
    RingShaped(s, i, r1);
    RingShaped(s, i, r2);
    RingShaped(s, i, r3);
    RingShaped(s, i, r4);
    RingTwice(s, i, r1, r2);
    RingTwice(s, i, r2, r3);
    RingTwice(s, i, r3, r4);
    RingRest(s, i, r1);
    RingRest(s, i, r2);
    RingRest(s, i, r3);
    WorkRing(H, s, i);
    WorkRing(H, s1, i);
    WorkRing(H, s2, i);
    WorkRing(H, s3, i);
    RunOne(H, InHand(s4, i, x), e);
  }

  lemma {:induction false} RingRest(s: State, i: nat, r: Ring.State<Request>)
    requires i < |s.shards|
    ensures var s' := WithRing(s, i, r);
            s'.dead == s.dead && s'.shards[i].hand == s.shards[i].hand && s'.shards[i].ring == r
  {
  }

  /** Serving a get of the call under way from a table that nothing was put into. */
  lemma {:induction false} ServeNull(H: Table.Hasher, s: State, i: nat, k: bytes)
    requires Shaped(s) && !s.dead && i < |s.shards| && s.shards[i].hand == Some(Get(k, s.call))
    requires s.shards[i].table == Table.Create(HM_CAP)
    ensures Next(H, s, Work(i)) ==
            WithShard(s, i, s.shards[i].(hand := None)).(result := Some(Table.Null))
  {
    FreshTable(H, HM_CAP, k, Table.Entry(Table.Null, 0));
    hide Table.Create, Loops.ProbeEnds, Loops.GetCall, IsPow2;
  }

  /** Nobody is in the middle of anything, and the shard of the key is empty. */
  ghost predicate Quiet(s: State, i: nat) {
    && Shaped(s) && !s.dead && !s.repairs.retries && i < |s.shards|
    && s.shards[i].hand == None && s.shards[i].table == Table.Create(HM_CAP)
    && var r := s.shards[i].ring; Ring.Inv(r) && r.cap == RING && r.producer.WIdle? && r.consumer.RIdle?
  }

  /** What n turns of the worker leave, on copies of the get under way. */
  ghost predicate Turned(s: State, s': State, i: nat, n: nat)
    requires i < |s.shards|
  {
    && Quiet(s', i) && |s'.shards| == |s.shards| && s'.client == s.client && s'.call == s.call
    && s'.repairs == s.repairs && s'.result == (if n == 0 then s.result else Some(Table.Null))
    && var r, r' := s.shards[i].ring, s'.shards[i].ring;
       r'.written == r.written && |r'.taken| == |r.taken| + n && r'.masked == r.masked
  }

  /** So many copies of the get under way are in the ring. */
  predicate Copies(s: State, i: nat, k: bytes, n: nat)
    requires i < |s.shards|
  {
    var r := s.shards[i].ring;
    |r.taken| + n <= |r.written| && forall j | |r.taken| <= j < |r.written| :: r.written[j] == Get(k, s.call)
  }

  lemma {:induction false} TurnedNext(s: State, s1: State, s2: State, i: nat, k: bytes, n: nat)
    requires i < |s.shards| && Turned(s, s1, i, n)
    ensures i < |s1.shards| && Quiet(s1, i)
    ensures Copies(s, i, k, n + 1) ==> Copies(s1, i, k, 1)
    ensures Turned(s1, s2, i, 1) ==> Turned(s, s2, i, n + 1)
  {
    hide Quiet;
  }

  lemma {:induction false} TimesUnfold(es: seq<Event>, n: nat)
    ensures Times(es, n) == if n == 0 then [] else Times(es, n - 1) + es
  {
  }

  lemma {:induction false} NoTurn(s: State, i: nat)
    requires Quiet(s, i)
    ensures i < |s.shards| && Turned(s, s, i, 0)
  {
  }

  lemma {:induction false} FewerCopies(s: State, i: nat, k: bytes, n: nat)
    requires i < |s.shards| && n > 0 && Copies(s, i, k, n)
    ensures Copies(s, i, k, n - 1)
  {
  }

  lemma {:induction false} ServeMany(H: Table.Hasher, s: State, i: nat, k: bytes, n: nat)
    requires Quiet(s, i) && Copies(s, i, k, n)
    ensures Shaped(s) && Turned(s, Run(H, s, Times(ServeCall(i), n)), i, n)
    decreases n
  {
    hide *;
    QuietShape(s, i);
    TimesUnfold(ServeCall(i), n);
    if n == 0 {
      RunNone(H, s);
      NoTurn(s, i);
    } else {
      FewerCopies(s, i, k, n);
      ServeMany(H, s, i, k, n - 1);
      RunSum(H, s, Times(ServeCall(i), n - 1), ServeCall(i));
      var s1 := Run(H, s, Times(ServeCall(i), n - 1));
      TurnedNext(s, s1, s1, i, k, n - 1);
      TurnNull(H, s1, i, k);
      TurnedNext(s, s1, Run(H, s1, ServeCall(i)), i, k, n - 1);
    }
  }

  lemma {:induction false} QuietShape(s: State, i: nat)
    requires Quiet(s, i)
    ensures Shaped(s) && i < |s.shards|
  {
  }

  lemma {:induction false} TurnNull(H: Table.Hasher, s: State, i: nat, k: bytes)
    requires Quiet(s, i) && Copies(s, i, k, 1)
    ensures Turned(s, Run(H, s, ServeCall(i)), i, 1)
  {
    var r := s.shards[i].ring;
    ReadStates(r);
    WholeTurn(H, s, i);
    hide Run, Next, Ring.Run, Ring.Inv, IsPow2, ServeCall, Table.Create;
    var s1 := InHand(WithRing(s, i, Ring.Run(r, Ring.ReadCall<Request>())), i, Get(k, s.call));
    ServeNull(H, s1, i, k);
  }

  /** One db_get whose worker rests until the ring is full, and then serves it. */
  function LoneGet(k: bytes, i: nat): seq<Event> {
    [StartGet(k)] + (Times(WRITE, RING - 1) + (WRITE + (Times(ServeCall(i), RING - 1) + [Return])))
  }

  /** The loop of a db_get up to the full ring, and its leaving it. */
  lemma {:induction false} LoopToFull(H: Table.Hasher, s: State, k: bytes, i: nat)
    requires Quiet(s, i) && s.client == Getting(k) && i == Route(k, |s.shards|)
    requires var r := s.shards[i].ring; |r.taken| == |r.written| && (r.masked || r.rp < RING)
    ensures var s' := Run(H, Run(H, s, Times(WRITE, RING - 1)), WRITE);
            && Quiet(s', i) && |s'.shards| == |s.shards| && s'.client == Waiting(k) && s'.call == s.call
            && s'.repairs == s.repairs
            && var r, r' := s.shards[i].ring, s'.shards[i].ring;
               && r'.taken == r.taken && |r'.written| == |r.taken| + RING - 1 && r'.masked == r.masked
               && forall j | |r'.taken| <= j < |r'.written| :: r'.written[j] == Get(k, s.call)
  {
    var r, x := s.shards[i].ring, Get(k, s.call);
    var sp := Spin(r, x, RING - 1);
    GetSpinsUntilFull(r, x, RING - 1);
    SpinRests(r, x, RING - 1);
    QuietRing(s, i, sp);
    hide Run, Next, Ring.Run, Ring.Full, IsPow2, Table.Create, Route, Times, Spin, WRITE, Ring.Inv, Shaped;
    RestFull(sp);
    SpinWrites(H, s, k, i, RING - 1);
    QuietShape(WithRing(s, i, sp), i);
    WholeWrite(H, WithRing(s, i, sp), x, i);
    forall j | |r.taken| <= j < |sp.written| ensures sp.written[j] == x { }
  }

  lemma {:induction false} SpinRests(r: Ring.State<Request>, x: Request, n: nat)
    requires IsPow2(r.cap) && 0 < r.cap == |r.slots| && r.producer.WIdle?
    ensures var r' := Spin(r, x, n); r'.consumer == r.consumer && r'.producer.WIdle?
  {
    hide Ring.Run, IsPow2, Ring.Full, Ring.Slot;
    if n > 0 {
      SpinRests(r, x, n - 1);
      Ring.WriteCallEffect(Spin(r, x, n - 1), x);
    }
  }

  lemma {:induction false} QuietRing(s: State, i: nat, r: Ring.State<Request>)
    requires Quiet(s, i) && Ring.Inv(r) && r.cap == RING && r.producer.WIdle? && r.consumer.RIdle?
    ensures Quiet(WithRing(s, i, r), i)
  {
    hide IsPow2, Table.Create, Ring.ProducerOk, Ring.ConsumerOk;
  }

  lemma {:induction false} LoneGetRun(H: Table.Hasher, s: State, k: bytes, i: nat)
    requires Shaped(s) && s.client.Idle? && !s.dead
    ensures var s1 := s.(client := Getting(k), result := None);
            Run(H, s, LoneGet(k, i)) ==
            Next(H, Run(H, Run(H, Run(H, s1, Times(WRITE, RING - 1)), WRITE), Times(ServeCall(i), RING - 1)), Return)
  {
    hide Run, Next, ServeCall, Times, WRITE, Shaped;
    StartEffect(H, s, k);
    var s1, m := Next(H, s, StartGet(k)), RING - 1;
    var s2 := Run(H, s1, Times(WRITE, m));
    var s3 := Run(H, s2, WRITE);
    RunOne(H, s, StartGet(k));
    RunOne(H, Run(H, s3, Times(ServeCall(i), m)), Return);
    RunSum(H, s3, Times(ServeCall(i), m), [Return]);
    RunSum(H, s2, WRITE, Times(ServeCall(i), m) + [Return]);
    RunSum(H, s1, Times(WRITE, m), WRITE + (Times(ServeCall(i), m) + [Return]));
    RunSum(H, s, [StartGet(k)], Times(WRITE, m) + (WRITE + (Times(ServeCall(i), m) + [Return])));
  }

  lemma {:induction false} LoneGetFills(H: Table.Hasher, s: State, k: bytes, i: nat)
    requires Quiet(s, i) && s.client.Idle? && i == Route(k, |s.shards|)
    requires var r := s.shards[i].ring; |r.taken| == |r.written| && (r.masked || r.rp < RING)
    ensures Shaped(s)
    ensures var s' := Run(H, s, LoneGet(k, i));
            && Quiet(s', i) && |s'.shards| == |s.shards| && s'.client.Idle? && s'.repairs == s.repairs
            && var r, r' := s.shards[i].ring, s'.shards[i].ring;
               |r'.taken| == |r'.written| == |r.taken| + RING - 1 && r'.masked == r.masked
  {
    var s1 := s.(client := Getting(k), result := None);
    assert Quiet(s1, i) by { hide Ring.Inv, IsPow2, Table.Create; }
    QuietShape(s, i);
    hide Run, Next, ServeCall, Route, Times, WRITE, LoneGet, Shaped, Ring.Inv;
    LoneGetRun(H, s, k, i);
    QuietShape(s1, i);
    LoopToFull(H, s1, k, i);
    var s3 := Run(H, Run(H, s1, Times(WRITE, RING - 1)), WRITE);
    ServeMany(H, s3, i, k, RING - 1);
    ReturnEffect(H, Run(H, s3, Times(ServeCall(i), RING - 1)), i);
  }

  lemma {:induction false} ReturnEffect(H: Table.Hasher, s: State, i: nat)
    requires Quiet(s, i) && s.client.Waiting? && s.result.Some?
    ensures Next(H, s, Return) == s.(client := Idle, call := s.call + 1) && Quiet(Next(H, s, Return), i)
  {
    hide Ring.Inv, IsPow2, Table.Create;
  }

  /**
   * Such a state is reached, by the code as written: while the worker rests, each db_get
   * fills the ring with 1023 copies of itself before it waits; both of the first two
   * return, and the third one of the same key never does, whatever happens then.
   */
  lemma {:induction false} ThirdGetHangs(H: Table.Hasher, n: nat, k: bytes, fs: seq<Event>)
    requires n > 0
    ensures var s := Run(H, Init(n, AS_WRITTEN), LoneGet(k, Route(k, n)) + LoneGet(k, Route(k, n)));
            && s.client.Idle? && !s.dead
            && var s' := Run(H, Next(H, s, StartGet(k)), fs);
               |s'.shards[Route(k, n)].ring.taken| < U64 ==> s'.client == Getting(k)
  {
    var s0, i := Init(n, AS_WRITTEN), Route(k, n);
    var es := LoneGet(k, i);
    InitQuiet(n, AS_WRITTEN, i);
    hide Run, Next, Init, Route, LoneGet, Ring.Inv, Shaped, IsPow2, Table.Create;
    LoneGetFills(H, s0, k, i);
    var s1 := Run(H, s0, es);
    RestCount(s1.shards[i].ring);
    LoneGetFills(H, s1, k, i);
    RunSum(H, s0, es, es);
    var s := Run(H, s0, es + es);
    if |Run(H, Next(H, s, StartGet(k)), fs).shards[i].ring.taken| < U64 {
      GetNeverReturns(H, n, AS_WRITTEN, es + es, k, fs);
    }
  }

  lemma {:induction false} RestCount(r: Ring.State<Request>)
    requires Ring.Inv(r)
    ensures |r.taken| < RING ==> r.rp < RING
  {
    hide IsPow2;
    if |r.taken| < RING { ModUnique(|r.taken|, U64, 0, |r.taken|); }
  }

  lemma {:induction false} InitQuiet(n: nat, repairs: Repairs, i: nat)
    requires i < n && !repairs.retries
    ensures var s := Init(n, repairs);
            && Quiet(s, i) && s.client.Idle? && s.repairs == repairs
            && s.shards[i].ring.taken == s.shards[i].ring.written == [] && s.shards[i].ring.rp == 0
            && s.shards[i].ring.masked == repairs.masked
  {
    PowersOfTwo();
    Ring.InitInv<Request>(RING, repairs.masked);
    hide Ring.Inv, IsPow2, Table.Create;
  }

  /** A put that kills the process: one db_insert as written, and the worker's turn. */
  lemma {:induction false} FirstPutKills(H: Table.Hasher, n: nat, repairs: Repairs, k: bytes, x: Table.Entry)
    requires n > 0 && !repairs.retries && !repairs.status
    ensures Run(H, Init(n, repairs), InsertCall(k, x) + ServeCall(Route(k, n))).dead
  {
    var s0, i := Init(n, repairs), Route(k, n);
    InitQuiet(n, repairs, i);
    hide Run, Next, Init, Route, Ring.Run, Shaped, IsPow2, Table.Create, InsertCall, ServeCall, Ring.Full;
    QuietShape(s0, i);
    var r := s0.shards[i].ring;
    InsertWrites(H, s0, k, x, i);
    SpinOnce(r, Put(k, x));
    Ring.WriteCallEffect(r, Put(k, x));
    RestFull(r);
    var s1 := Run(H, s0, InsertCall(k, x));
    RunSum(H, s0, InsertCall(k, x), ServeCall(i));
    hide Ring.Inv;
    WholeTurn(H, s1, i);
    PutKills(H, InHand(WithRing(s1, i, Ring.Run(s1.shards[i].ring, Ring.ReadCall<Request>())), i, Put(k, x)), i);
  }

  lemma {:induction false} PutKills(H: Table.Hasher, s: State, i: nat)
    requires Shaped(s) && !s.repairs.status && i < |s.shards| && s.shards[i].table == Table.Create(HM_CAP)
    requires s.shards[i].hand.Some? && s.shards[i].hand.value.Put?
    ensures Next(H, s, Work(i)).dead
  {
    var x := s.shards[i].hand.value;
    FreshTable(H, HM_CAP, x.key, x.entry);
    hide Table.Create, Loops.PutEnds, Loops.Call, IsPow2;
  }
}
