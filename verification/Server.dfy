/**
 * src/misc/handler/server.handler.c and the start of src/misc/server.c: the critical
 * sections that change the table and then append to the log, and the restart.
 */
module Server {
  import opened Bytes
  import opened Bits
  import opened Table
  import opened Runs
  import opened HashTable
  import opened Loops
  import opened LogCodec
  import opened Aof
  import opened Parse
  import Hash
  import Recovery
  import Requests
  import Restore

  /** The slots that server() asks for without a snapshot: 4096 * 16 * 16. */
  const CAPACITY: nat := 1048576

  /** "key" and "value" */
  const KEY: bytes := [107, 101, 121]
  const VALUE: bytes := [118, 97, 108, 117, 101]

  /** The i-th parameter is the first of that name. */
  predicate FirstNamed(params: seq<Param>, name: bytes, i: nat) {
    i < |params| && params[i].key == name && forall j | 0 <= j < i :: params[j].key != name
  }

  lemma {:induction false} NamedLater(params: seq<Param>, name: bytes)
    requires |params| > 0 && params[0].key != name
    ensures forall i: nat :: FirstNamed(params[1..], name, i) ==>
              FirstNamed(params, name, i + 1) && params[1..][i] == params[i + 1]
    ensures (forall i | 0 <= i < |params| :: params[i].key != name) <==>
            forall i | 0 <= i < |params[1..]| :: params[1..][i].key != name
  {
    assert params == [params[0]] + params[1..];
  }

  /** req_get_param: the value of the first parameter of that name. */
  function GetParam(params: seq<Param>, name: bytes): (val: Option<bytes>)
    ensures val == None <==> forall i | 0 <= i < |params| :: params[i].key != name
    ensures val.Some? ==> exists i: nat :: FirstNamed(params, name, i) && val == Some(params[i].val)
    decreases |params|
  {
    if |params| == 0 then None
    else if params[0].key == name then
      assert FirstNamed(params, name, 0);
      Some(params[0].val)
    else
      NamedLater(params, name);
      GetParam(params[1..], name)
  }

  /** A present key of at least one byte, as all three handlers ask for. */
  predicate HasKey(params: seq<Param>) {
    match GetParam(params, KEY) case None => false case Some(k) => |k| > 0
  }

  /** A key of no byte is no key, and a later one does not make up for it. */
  lemma {:induction false} HasKeyExactly(params: seq<Param>)
    ensures HasKey(params) <==> exists i: nat :: FirstNamed(params, KEY, i) && params[i].val != []
  {
    hide KEY;
    var k := GetParam(params, KEY);
    if k.Some? {
      var i: nat :| FirstNamed(params, KEY, i) && k == Some(params[i].val);
      forall j: nat | FirstNamed(params, KEY, j) ensures j == i { if j < i { } else if i < j { } }
    }
  }

  /** The key that the handlers store: the parameter up to its first NUL. */
  function KeyOf(params: seq<Param>): bytes
    requires HasKey(params)
  {
    CString(GetParam(params, KEY).value)
  }

  method ReqGetParam(params: seq<Param>, name: bytes) returns (val: Option<bytes>)
    ensures val == GetParam(params, name)
  {
    var i := 0;
    assert params[0..] == params;
    while i < |params|
      invariant 0 <= i <= |params| && GetParam(params[i..], name) == GetParam(params, name)
    {
      assert params[i..][0] == params[i] && params[i..][1..] == params[i + 1..];
      if |params[i].key| == |name| && params[i].key == name {
        return Some(params[i].val);
      }
      i := i + 1;
    }
    assert params[i..] == [];
    return None;
  }

  // ---- the operations accepted so far, the table and the log ----

  /** The record of the operation is read back from its line. */
  predicate Readable(op: LogOp) {
    Sized(op) && Fits(op, Line(Record(op)))
  }

  /** The table that replaying the operations into a fresh one of the server's size gives. */
  ghost function Rebuilt(ops: seq<LogOp>): State {
    ReplayInto(Create(CAPACITY), ops)
  }

  ghost predicate Rebuildable(ops: seq<LogOp>) {
    Replayable(Create(CAPACITY), ops)
  }

  lemma {:induction false} CapacityIsPow2()
    ensures IsPow2(CAPACITY)
  {
    Pow2Of64();
    Pow2Sum(4, 16);
    assert Pow2(4) == 16;
    assert CAPACITY == Pow2(20);
  }

  lemma {:induction false} RebuiltNext(ops: seq<LogOp>, op: LogOp)
    requires Rebuildable(ops) && Endable(Rebuilt(ops), op)
    ensures Rebuildable(ops + [op]) && Rebuilt(ops + [op]) == ReplayStep(Rebuilt(ops), op)
    ensures Encode(ops + [op]) == Encode(ops) + Record(op)
  {
    hide Endable, ReplayStep, Record;
    assert (ops + [op])[..|ops|] == ops;
    EncodeNext(ops, op);
  }

  lemma {:induction false} EncodeNext(ops: seq<LogOp>, op: LogOp)
    ensures Encode(ops + [op]) == Encode(ops) + Record(op)
    decreases |ops|
  {
    hide Record;
    if ops == [] {
      assert [op][1..] == [];
    } else {
      EncodeNext(ops[1..], op);
      assert (ops + [op])[1..] == ops[1..] + [op];
      assert Record(ops[0]) + (Encode(ops[1..]) + Record(op)) == (Record(ops[0]) + Encode(ops[1..])) + Record(op);
    }
  }

  // ---- which records an fsync has covered ----

  /** The stamps of the log are those of the last operations: where each record ends. */
  ghost predicate Stamped(stamps: seq<(nat, int)>, ops: seq<LogOp>) {
    && |stamps| <= |ops|
    && forall i | 0 <= i < |stamps| :: stamps[i].0 == |Encode(ops[..|ops| - |stamps| + i + 1])|
  }

  lemma {:induction false} StampNext(stamps: seq<(nat, int)>, ops: seq<LogOp>, op: LogOp, now: int)
    requires Stamped(stamps, ops)
    ensures Stamped(stamps + [(|Encode(ops + [op])|, now)], ops + [op])
    ensures (ops + [op])[..|ops + [op]| - |stamps| - 1] == ops[..|ops| - |stamps|]
  {
    hide Encode;
    var next, at := stamps + [(|Encode(ops + [op])|, now)], ops + [op];
    forall i | 0 <= i < |next| ensures next[i].0 == |Encode(at[..|at| - |next| + i + 1])| {
      if i < |stamps| {
        assert at[..|at| - |next| + i + 1] == ops[..|ops| - |stamps| + i + 1];
      } else {
        assert at[..|at|] == at;
      }
    }
  }

  lemma {:induction false} Started(known: seq<LogOp>, stack: bytes)
    requires |stack| == LINE_SIZE && Rebuildable(known)
    requires forall i | 0 <= i < |known| :: Readable(known[i])
    ensures LogCodec.Replay(stack, Encode(known)) == Outcome(known, false)
    ensures Stamped([], known) && known[..|known|] == known
    ensures Replayable(Create(CAPACITY), known) && ReplayInto(Create(CAPACITY), known) == Rebuilt(known)
  {
    hide Encode, LogCodec.Replay, Line, Record, Fits, Sized, ReplayInto, Replayable, Create;
    ReplayEncode(stack, known, []);
  }

  /** How many whole records of the operations are in this many bytes. */
  function Whole(ops: seq<LogOp>, len: nat): (n: nat)
    ensures n <= |ops|
    decreases |ops|
  {
    if |ops| == 0 || |Record(ops[0])| > len then 0 else 1 + Whole(ops[1..], len - |Record(ops[0])|)
  }

  lemma {:induction false} WholeIs(ops: seq<LogOp>, len: nat)
    ensures var n := Whole(ops, len);
            |Encode(ops[..n])| <= len && (n < |ops| ==> len < |Encode(ops[..n + 1])|)
    decreases |ops|
  {
    hide Record;
    var n := Whole(ops, len);
    if |ops| > 0 {
      FirstRecord(ops, n);
      FirstRecord(ops, n + 1);
      if |Record(ops[0])| <= len { WholeIs(ops[1..], len - |Record(ops[0])|); }
    }
  }

  lemma {:induction false} FirstRecord(ops: seq<LogOp>, n: nat)
    requires |ops| > 0
    ensures 0 < n <= |ops| ==> |Encode(ops[..n])| == |Record(ops[0])| + |Encode(ops[1..][..n - 1])|
    ensures Encode(ops[..0]) == []
  {
    hide Record;
    if 0 < n <= |ops| { assert ops[..n][1..] == ops[1..][..n - 1]; }
  }

  lemma {:induction false} EncodeSplit(ops: seq<LogOp>, n: nat)
    requires n <= |ops|
    ensures Encode(ops) == Encode(ops[..n]) + Encode(ops[n..])
    decreases n
  {
    hide Record;
    if n == 0 {
      assert ops[0..] == ops;
    } else {
      EncodeSplit(ops[1..], n - 1);
      assert ops[1..][n - 1..] == ops[n..] && ops[..n][1..] == ops[1..][..n - 1];
      var a, b, c := Record(ops[0]), Encode(ops[1..][..n - 1]), Encode(ops[n..]);
      assert a + (b + c) == (a + b) + c;
    }
  }

  lemma {:induction false} EncodeGrows(ops: seq<LogOp>, n: nat, m: nat)
    requires n <= m <= |ops|
    ensures |Encode(ops[..n])| <= |Encode(ops[..m])|
  {
    EncodeSplit(ops[..m], n);
    assert ops[..m][..n] == ops[..n];
  }

  /** All but operations appended in the second of the last sync are among the first n. */
  ghost predicate Synced(stamps: seq<(nat, int)>, lastSync: int, size: nat, n: nat) {
    && size <= n + |stamps|
    && forall i | 0 <= i < |stamps| && stamps[i].1 != lastSync :: size - |stamps| + i < n
  }

  /** So they are, when the records up to the n-th reach as far as the last fsync. */
  lemma {:induction false} DurableSynced(stamps: seq<(nat, int)>, ops: seq<LogOp>, lastSync: int, durable: nat,
                                         len: nat, n: nat)
    requires Stamped(stamps, ops) && |Encode(ops[..|ops| - |stamps|])| <= durable <= len
    requires forall i | 0 <= i < |stamps| && stamps[i].0 > durable :: stamps[i].1 == lastSync
    requires n <= |ops| && (n < |ops| ==> len < |Encode(ops[..n + 1])|)
    ensures Synced(stamps, lastSync, |ops|, n)
  {
    hide Encode;
    var k := |ops| - |stamps|;
    if n < k { EncodeGrows(ops, n + 1, k); }
    forall i | 0 <= i < |stamps| && stamps[i].1 != lastSync ensures k + i < n {
      if n < k + i + 1 { EncodeGrows(ops, n + 1, k + i + 1); }
    }
  }

  /** What the handlers store is never a null pointer. */
  ghost predicate NoNull(t: Slots) {
    forall i | 0 <= i < |t| :: Occupied(t[i]) ==> t[i].entry.value != Null
  }

  lemma {:induction false} PutNoNull(t: Slots, key: bytes, e: Entry, cur: Node, i: nat, n: nat)
    requires NoNull(t) && i < |t| && e.value != Null && cur.entry.value != Null
    ensures var r := PutLoop(Hash.Fnv1a, t, key, e, cur, i, n); r.Some? ==> NoNull(r.value.0)
    decreases n
  {
    hide Matches, Hash.Fnv1a, Idx;
    if n != 0 {
      if Occupied(t[i]) {
        PutNoNull(t[i := cur], key, e, t[i].(dib := Inc16(t[i].dib)), Idx(i + 1, |t|), n - 1);
      }
      PutNoNull(t, key, e, cur.(dib := Inc16(cur.dib)), Idx(i + 1, |t|), n - 1);
    }
  }

  lemma {:induction false} StepNoNull(s: State, op: LogOp)
    requires |s.t| > 0 && NoNull(s.t)
    ensures NoNull(ReplayStep(s, op).t)
  {
    hide PutLoop, ProbeLoop, Hash.Fnv1a, Idx, ToU16;
    if op.Set? && Endable(s, op) {
      var e := EntryOf(op.value);
      var n: nat :| PutIn(Hash.Fnv1a, s.t, op.key, e, n).Some?;
      PutCallIs(Hash.Fnv1a, s.t, op.key, e, n);
      PutNoNull(s.t, op.key, e, NewNode(Hash.Fnv1a, op.key, e), Idx(Hash.Fnv1a(op.key), |s.t|), n);
    }
  }

  lemma {:induction false} RebuiltNoNull(ops: seq<LogOp>)
    ensures NoNull(Rebuilt(ops).t)
    decreases |ops|
  {
    if |ops| > 0 {
      RebuiltNoNull(ops[..|ops| - 1]);
      StepNoNull(Rebuilt(ops[..|ops| - 1]), ops[|ops| - 1]);
    }
  }

  /** The handler deletes without looking first; in a table without NULL that is the same. */
  lemma {:induction false} DeleteIsReplay(ops: seq<LogOp>, key: bytes)
    requires ProbeEnds(Hash.Fnv1a, Rebuilt(ops).t, key)
    ensures ReplayStep(Rebuilt(ops), LogCodec.Del(key)) == Call(Hash.Fnv1a, Rebuilt(ops), Op.Del(key))
  {
    RebuiltNoNull(ops);
    var s := Rebuilt(ops);
    assert |s.t| == CAPACITY;
    hide Rebuilt;
    FoundOccupied(s.t, key);
    hide ProbeCall, ProbeEnds, Hash.Fnv1a;
  }

  lemma {:induction false} FoundOccupied(t: Slots, key: bytes)
    requires |t| > 0 && ProbeEnds(Hash.Fnv1a, t, key)
    ensures var r := ProbeCall(Hash.Fnv1a, t, key); r.Some? ==> Occupied(t[r.value])
  {
    hide Hash.Fnv1a, ProbeLoop, Idx;
    var n: nat :| ProbeIn(Hash.Fnv1a, t, key, n).Some?;
    ProbeCallIs(Hash.Fnv1a, t, key, n);
    ProbeMatches(Hash.Fnv1a, t, key, Idx(Hash.Fnv1a(key), |t|), 0, n);
  }

  /** The table and the log that the handlers share. */
  class Server {
    const db: HashMap
    const log: AofFile

    /** For the specification: the operations accepted so far. */
    ghost var ops: seq<LogOp>

    /** The objects that a handler may change. */
    ghost function Repr(): set<object>
      reads this
    {
      {this, db, db.buckets, log}
    }

    /**
     * What holds whenever the lock is free: the log is the text of the accepted
     * operations, and the table is, slot for slot, what their replay would build.
     */
    ghost predicate Ready()
      reads this, db, db.buckets, log
    {
      && db.Valid() && db.capacity == CAPACITY && log.Valid() && log.policy == EverySec
      && log.file == Encode(ops) && Rebuildable(ops) && db.Abs() == Rebuilt(ops)
      && Stamped(log.stamps, ops) && |Encode(ops[..|ops| - |log.stamps|])| <= log.durable
    }

    /** The start of server() without a snapshot, on a log that a server wrote. */
    constructor (contents: bytes, ghost known: seq<LogOp>, stack: bytes, now: int)
      requires contents == Encode(known) && Rebuildable(known) && |stack| == LINE_SIZE
      requires forall i | 0 <= i < |known| :: Readable(known[i])
      ensures Ready() && ops == known && log.lastSync == now && log.stamps == []
      ensures fresh(db) && fresh(db.buckets) && fresh(log)
    {
      hide Encode, Readable, Replayable, ReplayInto, Create, Stamped, Rebuildable, Rebuilt, LogCodec.Replay;
      Started(known, stack);
      var hm := new HashMap(CAPACITY);
      var aof := new AofFile(contents, EverySec, now);
      var _ := aof.Replay(hm, stack);
      db, log, ops := hm, aof, known;
    }

    /** insert_handler: 400 without a key or a value, otherwise the put and its record. */
    method InsertHandler(params: seq<Param>, now: int) returns (status: int)
      requires Ready() && now >= log.lastSync
      requires HasKey(params) && GetParam(params, VALUE).Some? ==>
                 PutEnds(Hash.Fnv1a, db.buckets[..], KeyOf(params), EntryOf(GetParam(params, VALUE).value))
      modifies Repr()
      ensures Ready()
      ensures status == if HasKey(params) && GetParam(params, VALUE).Some? then 200 else 400
      ensures ops == old(ops) + if status == 200 then [Set(KeyOf(params), GetParam(params, VALUE).value)] else []
    {
      hide PutEnds, Call, Encode, Record, CString, ReplayInto, Replayable;
      var key := ReqGetParam(params, KEY);
      var value := ReqGetParam(params, VALUE);
      if key == None || value == None || |key.value| == 0 {
        return 400;
      }
      var k, v := CString(key.value), value.value;
      CStringTwice(key.value);
      PutIsReplay(db.Abs(), k, v);
      RebuiltNext(ops, Set(k, v));
      StampNext(log.stamps, ops, Set(k, v), now);
      hide ReplayStep, Rebuilt, Rebuildable;
      var _ := db.Insert(k, Data(v), |v|);
      var _ := log.AppendSet(k, Data(v), now);
      ops := ops + [Set(k, v)];
      return 200;
    }

    /** get_handler: 400 without a key, 404 for NULL, otherwise the value. */
    method GetHandler(params: seq<Param>) returns (status: int, value: Value)
      requires Ready() && (HasKey(params) ==> ProbeEnds(Hash.Fnv1a, db.buckets[..], KeyOf(params)))
      ensures !HasKey(params) ==> status == 400 && value == Null
      ensures HasKey(params) ==>
                && ProbeEnds(Hash.Fnv1a, Rebuilt(ops).t, KeyOf(params))
                && value == GetCall(Hash.Fnv1a, Rebuilt(ops).t, KeyOf(params))
                && status == if value == Null then 404 else 200
    {
      var key := ReqGetParam(params, KEY);
      if key == None || |key.value| == 0 {
        return 400, Null;
      }
      value := db.Get(CString(key.value));
      status := if value == Null then 404 else 200;
    }

    /** delete_handler: the delete and, found or not, its record. */
    method DeleteHandler(params: seq<Param>, now: int) returns (status: int)
      requires Ready() && now >= log.lastSync
      requires HasKey(params) ==> ProbeEnds(Hash.Fnv1a, db.buckets[..], KeyOf(params))
      modifies Repr()
      ensures Ready()
      ensures HasKey(params) ==> ProbeEnds(Hash.Fnv1a, old(Rebuilt(ops)).t, KeyOf(params))
      ensures status == if !HasKey(params) then 400
                        else if ProbeCall(Hash.Fnv1a, old(Rebuilt(ops)).t, KeyOf(params)).Some? then 200 else 404
      ensures ops == old(ops) + if status == 400 then [] else [LogCodec.Del(KeyOf(params))]
    {
      hide Encode, Record, Call, ProbeEnds, ProbeCall, CString, ReplayInto, Replayable, ReplayStep;
      var key := ReqGetParam(params, KEY);
      if key == None || |key.value| == 0 {
        return 400;
      }
      var k := CString(key.value);
      CStringTwice(key.value);
      DeleteIsReplay(ops, k);
      RebuiltNext(ops, LogCodec.Del(k));
      StampNext(log.stamps, ops, LogCodec.Del(k), now);
      hide Rebuilt, Rebuildable;
      var rc := db.Delete(k);
      var _ := log.AppendDel(k, now);
      ops := ops + [LogCodec.Del(k)];
      status := if rc != 0 then 404 else 200;
    }
  }

  /**
   * A crash that keeps the first n records, and the start on what is left: the new table
   * is the one after the first n operations, slot for slot, tombstones and count
   * included. When the crash keeps what was flushed, these are all operations but some of
   * those appended in the second of the last sync.
   */
  method Restart(s: Server, ghost n: nat, left: bytes, stack: bytes, now: int) returns (s': Server)
    requires s.Ready() && n <= |s.ops| && left == Encode(s.ops[..n]) && |stack| == LINE_SIZE
    requires forall i | 0 <= i < n :: Readable(s.ops[i])
    ensures fresh(s') && s'.Ready() && s'.ops == s.ops[..n]
    ensures n == |s.ops| ==> s'.db.Abs() == s.db.Abs()
    ensures s.log.durable <= |left| ==> Synced(s.log.stamps, s.log.lastSync, |s.ops|, n)
  {
    hide Encode, Readable, ReplayInto, Create, Stamped, Synced, Rebuilt, Rebuildable, Replayable;
    RebuildablePrefix(s.ops, n);
    if s.log.durable <= |left| {
      if n < |s.ops| { NextIsLonger(s.ops, n); }
      DurableSynced(s.log.stamps, s.ops, s.log.lastSync, s.log.durable, |left|, n);
    }
    s' := new Server(left, s.ops[..n], stack, now);
    assert n == |s.ops| ==> s.ops[..n] == s.ops;
  }

  lemma {:induction false} RebuildablePrefix(ops: seq<LogOp>, n: nat)
    requires n <= |ops| && Rebuildable(ops)
    ensures Rebuildable(ops[..n])
  {
    hide ReplayInto, Replayable;
    ReplayablePrefix(Create(CAPACITY), ops, n);
  }

  lemma {:induction false} NextIsLonger(ops: seq<LogOp>, n: nat)
    requires n < |ops|
    ensures |Encode(ops[..n])| < |Encode(ops[..n + 1])|
  {
    hide Body;
    assert ops[..n + 1] == ops[..n] + [ops[n]];
    EncodeNext(ops[..n], ops[n]);
  }

  /**
   * What EVERYSEC promises of any crash that keeps the flushed bytes, records torn or
   * not: the replay of what is left begins with all operations but some of those
   * appended in the second of the last sync.
   */
  lemma {:induction false} EverySecKeeps(s: Server, left: bytes, stack: bytes)
    requires s.Ready() && left <= s.log.file && s.log.durable <= |left| && |stack| == LINE_SIZE
    requires forall i | 0 <= i < |s.ops| :: Readable(s.ops[i])
    ensures var n := Whole(s.ops, |left|);
            && s.ops[..n] <= LogCodec.Replay(stack, left).ops
            && Synced(s.log.stamps, s.log.lastSync, |s.ops|, n)
  {
    hide Encode, Readable, Replayable, ReplayInto, Create, Stamped, Synced, Whole, LogCodec.Replay;
    var n := Whole(s.ops, |left|);
    WholeIs(s.ops, |left|);
    DurableSynced(s.log.stamps, s.ops, s.log.lastSync, s.log.durable, |left|, n);
    EncodeSplit(s.ops, n);
    LeftBegins(s.ops[..n], s.log.file, left, stack);
  }

  lemma {:induction false} LeftBegins(known: seq<LogOp>, file: bytes, left: bytes, stack: bytes)
    requires |stack| == LINE_SIZE && left <= file && Encode(known) <= file && |Encode(known)| <= |left|
    requires forall i | 0 <= i < |known| :: Readable(known[i])
    ensures known <= LogCodec.Replay(stack, left).ops
  {
    hide Encode, LogCodec.Replay, Line, Record, Fits, Sized;
    var e := Encode(known);
    assert left[..|e|] == file[..|e|] == e;
    assert left == e + left[|e|..];
    ReplayEncode(stack, known, left[|e|..]);
  }

  /** What a client expects of GET after these operations. */
  function Answer(m: Recovery.DB, key: bytes): Value {
    if key in m then Data(m[key]) else Null
  }

  /**
   * When every operation found the table fit for it, GET gives the value last put and
   * not deleted since, for exactly the keys without a tombstone where the search gets; it
   * comes back for every key, unless a whole round of the slots does not stop its probe.
   */
  lemma {:induction false} AnswersExactly(ops: seq<LogOp>, key: bytes)
    requires Restore.FitRun(Create(CAPACITY), ops)
    ensures ProbeEnds(Hash.Fnv1a, Rebuilt(ops).t, key) <==> !Endless(Hash.Fnv1a, Rebuilt(ops).t, key)
    ensures key in Recovery.ReplayOver(map[], ops) ==> ProbeEnds(Hash.Fnv1a, Rebuilt(ops).t, key)
    ensures ProbeEnds(Hash.Fnv1a, Rebuilt(ops).t, key) ==>
              (GetCall(Hash.Fnv1a, Rebuilt(ops).t, key) == Answer(Recovery.ReplayOver(map[], ops), key) <==>
               !Buried(Rebuilt(ops).t, key))
  {
    var t, m := Rebuilt(ops).t, Recovery.ReplayOver(map[], ops);
    hide Hash.Fnv1a;
    CapacityIsPow2();
    Restore.CreateHolds(CAPACITY);
    Restore.ReplayHolds(Create(CAPACITY), map[], ops);
    RebuiltNoNull(ops);
    hide Rebuilt, Recovery.ReplayOver, Restore.FitRun, Contents, Open, ProbeEnds, ProbeCall, NodesOk, AllOpen, Endless;
    assert Lookup(Contents(t), key) == Answer(m, key);
    GetIsLookup(Hash.Fnv1a, t, key);
    assert Buried(t, key) <==> BuriedValue(t, key);
  }

  lemma {:induction false} CStringTwice(s: bytes)
    ensures CString(CString(s)) == CString(s)
  {
    CStringNoNul(s);
    CStringNoNul(CString(s));
  }

  /** A put by the handler is what the replay of its record does. */
  lemma {:induction false} PutIsReplay(s: State, k: bytes, v: bytes)
    requires |s.t| > 0
    ensures ReplayStep(s, Set(k, v)) == Call(Hash.Fnv1a, s, Put(k, EntryOf(v)))
    ensures Endable(s, Set(k, v)) <==> PutEnds(Hash.Fnv1a, s.t, k, EntryOf(v))
  {
  }

  // ---- from the bytes of a request to the operation ----

  /**
   * A PUT with `?key=K&value=V`, as a client sends it, reaches the handler as that key and
   * that value, which are then the operation that InsertHandler accepts.
   */
  lemma {:induction false} PutRequest(verb: bytes, path: bytes, k: bytes, v: bytes, tail: bytes,
                                      hs: seq<Requests.Header>, body: bytes, behind: bytes)
    requires var args := [Requests.Arg(KEY, Some(k)), Requests.Arg(VALUE, Some(v))];
             && Requests.LineOk(verb, path, Some(args), tail) && k != [] && NUL !in k
             && (forall i | 0 <= i < |hs| :: Requests.HeaderOk(hs[i])) && |body| == Requests.Announced(hs, 0)
    ensures var args := [Requests.Arg(KEY, Some(k)), Requests.Arg(VALUE, Some(v))];
            var s := Requests.RequestText(verb, path, Some(args), tail, hs, body);
            var r := ParseRequest(s + behind);
            && r.Some? && r.value.1 == |s|
            && var params := r.value.0.params;
               HasKey(params) && KeyOf(params) == k && GetParam(params, VALUE) == Some(v)
  {
    var args := [Requests.Arg(KEY, Some(k)), Requests.Arg(VALUE, Some(v))];
    TwoParams(k, v);
    CStringNoNul(k);
    hide *;
    Requests.RequestBack(verb, path, Some(args), tail, hs, body, behind);
    LineOfArgs(args);
  }

  lemma {:induction false} LineOfArgs(args: seq<Requests.Arg>)
    ensures Requests.LineParams(Some(args)) == Requests.ParamsOf(args, MAX_PARAMS)
  {
    hide Requests.ParamsOf;
  }

  lemma {:induction false} TwoParams(k: bytes, v: bytes)
    requires k != [] && NUL !in k
    ensures var args := [Requests.Arg(KEY, Some(k)), Requests.Arg(VALUE, Some(v))];
            var params := Requests.ParamsOf(args, MAX_PARAMS);
            && params == [Param(KEY, k), Param(VALUE, v)]
            && HasKey(params) && KeyOf(params) == k && GetParam(params, VALUE) == Some(v)
  {
    var args := [Requests.Arg(KEY, Some(k)), Requests.Arg(VALUE, Some(v))];
    assert args[1..] == [args[1]] && args[1..][1..] == [];
    var params := Requests.ParamsOf(args, MAX_PARAMS);
    assert Requests.ParamsOf(args[1..], 7) == [Param(VALUE, v)];
    assert params == [Param(KEY, k), Param(VALUE, v)];
    KeyIsNotValue();
    CStringNoNul(k);
    hide KEY, VALUE, Requests.ParamsOf, CString;
    assert params[1..] == [Param(VALUE, v)];
  }

  lemma {:induction false} KeyIsNotValue()
    ensures KEY != VALUE
  {
    assert |KEY| != |VALUE|;
  }

  /** A GET or a DELETE with `?key=K` reaches its handler as that key. */
  lemma {:induction false} KeyRequest(verb: bytes, path: bytes, k: bytes, tail: bytes,
                                      hs: seq<Requests.Header>, body: bytes, behind: bytes)
    requires var args := [Requests.Arg(KEY, Some(k))];
             && Requests.LineOk(verb, path, Some(args), tail) && k != [] && NUL !in k
             && (forall i | 0 <= i < |hs| :: Requests.HeaderOk(hs[i])) && |body| == Requests.Announced(hs, 0)
    ensures var args := [Requests.Arg(KEY, Some(k))];
            var s := Requests.RequestText(verb, path, Some(args), tail, hs, body);
            var r := ParseRequest(s + behind);
            r.Some? && r.value.1 == |s| && HasKey(r.value.0.params) && KeyOf(r.value.0.params) == k
  {
    var args := [Requests.Arg(KEY, Some(k))];
    assert args[1..] == [];
    assert Requests.ParamsOf(args, MAX_PARAMS) == [Param(KEY, k)];
    CStringNoNul(k);
    hide KEY;
    assert HasKey([Param(KEY, k)]) && KeyOf([Param(KEY, k)]) == k;
    hide *;
    Requests.RequestBack(verb, path, Some(args), tail, hs, body, behind);
    LineOfArgs(args);
  }

  // ---- what reaches the log ----

  lemma {:induction false} GetParamLf(params: seq<Param>, name: bytes)
    requires forall i | 0 <= i < |params| :: LfLast(params[i].key) && LfLast(params[i].val)
    requires GetParam(params, name).Some?
    ensures LfLast(GetParam(params, name).value)
    decreases |params|
  {
    hide LfLast;
    if params[0].key != name { GetParamLf(params[1..], name); }
  }

  lemma {:induction false} CStringLf(s: bytes)
    requires LfLast(s)
    ensures LfLast(CString(s))
  {
    var i := IndexOf(s, NUL, 0);
    if i > 0 { assert s[..i][..i - 1] == s[..|s| - 1][..i - 1]; }
  }

  /**
   * End to end: for every accepted request line, the record that the handler of PUT
   * writes is read back as the same operation exactly when its needed bytes fit a line
   * and there is no newline in the key.
   */
  lemma {:induction false} HandledPutExactly(line: bytes)
    requires line != [] && line[|line| - 1] == LF && LF !in line[..|line| - 1] && ParseReqLine(line).Some?
    requires var params := ParseReqLine(line).value.params; HasKey(params) && GetParam(params, VALUE).Some?
    ensures var params := ParseReqLine(line).value.params;
            var op := Set(KeyOf(params), GetParam(params, VALUE).value);
            Readable(op) <==> Needed(op) < LINE_SIZE && LF !in KeyOf(params)
  {
    LineParamsLf(line);
    var params := ParseReqLine(line).value.params;
    hide ParseReqLine, LfLast;
    GetParamLf(params, KEY);
    GetParamLf(params, VALUE);
    var k, v := KeyOf(params), GetParam(params, VALUE).value;
    CStringNoNul(GetParam(params, KEY).value);
    hide GetParam, HasKey, KeyOf, CString;
    PutExactly(k, v);
  }

  lemma {:induction false} PutExactly(k: bytes, v: bytes)
    requires NUL !in k && LfLast(v)
    ensures Readable(Set(k, v)) <==> Needed(Set(k, v)) < LINE_SIZE && LF !in k
  {
    var op := Set(k, v);
    PutBodyLf(k, v);
    BodyLong(op);
    FitsExactly(op);
  }

  /** Where the newlines of a SET record can be. */
  lemma {:induction false} PutBodyLf(k: bytes, v: bytes)
    requires LfLast(v)
    ensures var op := Set(k, v); LF in Body(op)[..Needed(op) - 1] <==> LF in k
  {
    var op, h, u := Set(k, v), SetHead(k), ValueHead(v);
    assert LF !in h;
    assert LF !in u;
    var b, n := h + k + u + v, Needed(op);
    if LF in k {
      var i :| 0 <= i < |k| && k[i] == LF;
      assert b[..n - 1][|h| + i] == LF;
    } else {
      LastFree(h + k + u, v);
      assert b[..n - 1] == b[..|b| - 1][..n - 1];
    }
  }

  lemma {:induction false} LastFree(a: bytes, b: bytes)
    requires LF !in a && LfLast(b) && a != []
    ensures LF !in (a + b)[..|a + b| - 1]
  {
    forall i | 0 <= i < |a + b| - 1 ensures (a + b)[i] != LF {
      if i >= |a| { assert (a + b)[i] == b[..|b| - 1][i - |a|]; }
    }
  }

  lemma {:induction false} BodyLong(op: LogOp)
    ensures |op.key| < |Body(op)| && (op.Set? ==> |op.value| < |Body(op)|)
  {
  }

  /** For every accepted request line the record of the handled DELETE is read back exactly when it fits a line. */
  lemma {:induction false} HandledDeleteExactly(line: bytes)
    requires line != [] && line[|line| - 1] == LF && LF !in line[..|line| - 1] && ParseReqLine(line).Some?
    requires HasKey(ParseReqLine(line).value.params)
    ensures var op := LogCodec.Del(KeyOf(ParseReqLine(line).value.params));
            Readable(op) <==> Needed(op) < LINE_SIZE
  {
    LineParamsLf(line);
    var params := ParseReqLine(line).value.params;
    hide ParseReqLine, LfLast;
    GetParamLf(params, KEY);
    CStringLf(GetParam(params, KEY).value);
    CStringNoNul(GetParam(params, KEY).value);
    var k := KeyOf(params);
    hide GetParam, HasKey, KeyOf, CString;
    DelReadable(k);
  }

  lemma {:induction false} DelReadable(k: bytes)
    requires NUL !in k && LfLast(k)
    ensures Readable(LogCodec.Del(k)) <==> Needed(LogCodec.Del(k)) < LINE_SIZE
  {
    var op := LogCodec.Del(k);
    var h, b, n := DelHead(k), Body(op), Needed(LogCodec.Del(k));
    BodyLong(op);
    assert LF !in h && b == h + k && |h| > 0;
    LastFree(h, k);
    assert b[..n - 1] == b[..|b| - 1][..n - 1];
    FitsExactly(op);
  }
}
