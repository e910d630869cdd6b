/** From the bytes of the log to the slots of the table: what a restart rebuilds. */
module Restore {
  import opened Bytes
  import opened Bits
  import opened Table
  import opened Runs
  import opened Loops
  import opened LogCodec
  import opened Aof
  import Capacity
  import Hash
  import Recovery

  /** The entries that a table stores for a map of byte strings. */
  function Entries(m: Recovery.DB): Map {
    map k | k in m :: EntryOf(m[k])
  }

  /** The table is well formed and its live entries are exactly those of m. */
  ghost predicate Holds(t: Slots, m: Recovery.DB) {
    WellFormed(Hash.Fnv1a, t) && |t| < U64 && Contents(t) == Entries(m)
  }

  /** What hm_insert needs of the table, and hm_delete for its probe to end. */
  ghost predicate Fit(t: Slots, op: LogOp)
    requires |t| > 0
  {
    if op.Set? then
      Storable(Hash.Fnv1a, op.key) && Room(t, op.key) && InsertKeeps(Hash.Fnv1a, t, op.key)
    else !Endless(Hash.Fnv1a, t, op.key)
  }

  /** A replayed command ends, and does to the table what it does to the map. */
  lemma {:induction false} ReplayStepHolds(s: State, m: Recovery.DB, op: LogOp)
    requires Holds(s.t, m) && Fit(s.t, op)
    ensures Endable(s, op) && Holds(ReplayStep(s, op).t, Recovery.Apply(m, op))
  {
    if op.Set? { SetHolds(s, m, op.key, op.value); } else { DelHolds(s, m, op.key); }
  }

  lemma {:induction false} SetHolds(s: State, m: Recovery.DB, key: bytes, value: bytes)
    requires Holds(s.t, m) && Fit(s.t, Set(key, value))
    ensures Endable(s, Set(key, value)) && Holds(ReplayStep(s, Set(key, value)).t, m[key := value])
  {
    hide Hash.Fnv1a, WellFormed, Room, InsertKeeps, Contents, Storable, PutEnds, PutCall, ToU16;
    InsertIsUpdate(Hash.Fnv1a, s.t, key, EntryOf(value));
    EntriesSet(m, key, value);
  }

  lemma {:induction false} DelHolds(s: State, m: Recovery.DB, key: bytes)
    requires Holds(s.t, m) && !Endless(Hash.Fnv1a, s.t, key)
    ensures Endable(s, LogCodec.Del(key)) && Holds(ReplayStep(s, LogCodec.Del(key)).t, m - {key})
  {
    hide Hash.Fnv1a, WellFormed, Endless, Contents, ProbeEnds, ProbeCall, Call, Buried;
    DeleteIsRemove(Hash.Fnv1a, s, key);
    EntriesDel(m, key);
    if key in m { LiveValue(s.t, m, key); }
  }

  lemma {:induction false} LiveValue(t: Slots, m: Recovery.DB, key: bytes)
    requires Holds(t, m) && key in m
    ensures ProbeEnds(Hash.Fnv1a, t, key) && GetCall(Hash.Fnv1a, t, key) == Data(m[key])
  {
    hide Hash.Fnv1a, AllOpen, NodesOk, Contents, ProbeEnds, ProbeCall;
    AgreesServes(Hash.Fnv1a, State(t, |Entries(m)|), Entries(m));
    assert Finds(Hash.Fnv1a, t, key, Entries(m)[key]);
  }

  lemma {:induction false} EntriesSet(m: Recovery.DB, key: bytes, value: bytes)
    ensures Entries(m[key := value]) == Entries(m)[key := EntryOf(value)]
  {
  }

  lemma {:induction false} EntriesDel(m: Recovery.DB, key: bytes)
    ensures Entries(m - {key}) == Entries(m) - {key}
    ensures key !in m ==> m - {key} == m
  {
  }

  /**
   * The replay looks before it deletes: a key that is stored with NULL, as db_load stores
   * an empty value, is not deleted by its DEL record, as it would be by hm_delete.
   */
  lemma {:induction false} NullSurvivesDel(s: State, key: bytes)
    requires WellFormed(Hash.Fnv1a, s.t) && key in Contents(s.t) && Contents(s.t)[key].value == Null
    ensures ReplayStep(s, LogCodec.Del(key)) == s
    ensures Contents(Call(Hash.Fnv1a, s, Op.Del(key)).t) == Contents(s.t) - {key}
  {
    ValueBuried(s.t, key);
    hide Hash.Fnv1a, Contents, Endless, ProbeEnds, ProbeCall, AllOpen, NodesOk, Buried, BuriedValue, Call;
    DeleteIsRemove(Hash.Fnv1a, s, key);
    GetIsLookup(Hash.Fnv1a, s.t, key);
  }

  lemma {:induction false} ValueBuried(t: Slots, key: bytes)
    ensures BuriedValue(t, key) ==> Buried(t, key)
  {
  }

  /** Every command finds the table fit for it. */
  ghost predicate FitRun(s: State, ops: seq<LogOp>)
    requires |s.t| > 0
    decreases |ops|
  {
    |ops| == 0 ||
    (FitRun(s, ops[..|ops| - 1]) && Fit(ReplayInto(s, ops[..|ops| - 1]).t, ops[|ops| - 1]))
  }

  lemma {:induction false} ReplayHolds(s: State, m: Recovery.DB, ops: seq<LogOp>)
    requires Holds(s.t, m) && FitRun(s, ops)
    ensures Replayable(s, ops) && Holds(ReplayInto(s, ops).t, Recovery.ReplayOver(m, ops))
    decreases |ops|
  {
    if |ops| > 0 {
      hide Holds, Fit, ReplayStep, Endable;
      ReplayHolds(s, m, ops[..|ops| - 1]);
      ReplayStepHolds(ReplayInto(s, ops[..|ops| - 1]), Recovery.ReplayOver(m, ops[..|ops| - 1]), ops[|ops| - 1]);
    }
  }

  lemma {:induction false} CreateHolds(cap: nat)
    requires IsPow2(cap) && cap < U64
    ensures Holds(Create(cap).t, map[])
  {
    CreateAgrees(Hash.Fnv1a, cap);
  }

  // ---- logs of sets alone, as a rewrite leaves them, at any capacity ----

  ghost predicate SetsOnly(ops: seq<LogOp>) {
    forall i | 0 <= i < |ops| :: ops[i].Set? && Storable(Hash.Fnv1a, ops[i].key)
  }

  /** The calls that a log of sets makes. */
  function PutsOf(ops: seq<LogOp>): (r: seq<Op>)
    requires forall i | 0 <= i < |ops| :: ops[i].Set?
    ensures |r| == |ops| && forall i | 0 <= i < |ops| :: r[i] == Put(ops[i].key, EntryOf(ops[i].value))
  {
    seq(|ops|, i requires 0 <= i < |ops| => Put(ops[i].key, EntryOf(ops[i].value)))
  }

  /** The replay of a log of sets is that run of calls. */
  lemma {:induction false} SetsAreRun(s: State, m: Recovery.DB, ops: seq<LogOp>)
    requires |s.t| > 0 && SetsOnly(ops)
    ensures ReplayInto(s, ops) == CallRun(Hash.Fnv1a, s, PutsOf(ops))
    ensures EndRun(Hash.Fnv1a, s, PutsOf(ops)) <==> Replayable(s, ops)
    ensures ApplyAll(Entries(m), PutsOf(ops)) == Entries(Recovery.ReplayOver(m, ops))
    decreases |ops|
  {
    hide Call, Ends, EntryOf, ApplyAll, Entries, ReplayStep, Endable, PutsOf, Recovery.Apply;
    PutsSnoc(ops);
    if |ops| == 0 {
      ApplyNone(Entries(m), PutsOf(ops));
    } else {
      var pre, op := ops[..|ops| - 1], ops[|ops| - 1];
      var put := Put(op.key, EntryOf(op.value));
      SetsAreRun(s, m, pre);
      CallRunSnoc(Hash.Fnv1a, s, PutsOf(pre), put);
      hide CallRun, EndRun;
      ApplyAllSnoc(Entries(m), PutsOf(pre), put);
      PutSnoc(m, pre, op);
      SetStep(ReplayInto(s, pre), op.key, op.value);
    }
  }

  lemma {:induction false} PutsSnoc(ops: seq<LogOp>)
    requires forall i | 0 <= i < |ops| :: ops[i].Set?
    ensures |ops| == 0 ==> PutsOf(ops) == []
    ensures |ops| > 0 ==>
              var op := ops[|ops| - 1]; PutsOf(ops) == PutsOf(ops[..|ops| - 1]) + [Put(op.key, EntryOf(op.value))]
  {
    hide EntryOf;
  }

  lemma {:induction false} ApplyNone(m: Map, ops: seq<Op>)
    ensures ops == [] ==> ApplyAll(m, ops) == m
  {
  }

  lemma {:induction false} PutSnoc(m: Recovery.DB, pre: seq<LogOp>, op: LogOp)
    requires op.Set?
    ensures Runs.Apply(Entries(Recovery.ReplayOver(m, pre)), Put(op.key, EntryOf(op.value))) ==
            Entries(Recovery.Apply(Recovery.ReplayOver(m, pre), op))
  {
    EntriesSet(Recovery.ReplayOver(m, pre), op.key, op.value);
  }

  lemma {:induction false} SetStep(s: State, key: bytes, value: bytes)
    requires |s.t| > 0
    ensures ReplayStep(s, Set(key, value)) == Call(Hash.Fnv1a, s, Put(key, EntryOf(value)))
    ensures Endable(s, Set(key, value)) <==> Ends(Hash.Fnv1a, s.t, Put(key, EntryOf(value)))
  {
  }

  lemma {:induction false} SetKeys(ops: seq<LogOp>)
    requires forall i | 0 <= i < |ops| :: ops[i].Set?
    ensures KeysOf(PutsOf(ops)) == Recovery.Touched(ops)
  {
    var r := PutsOf(ops);
    forall k ensures k in KeysOf(r) <==> k in Recovery.Touched(ops) {
      if k in KeysOf(r) { var i :| 0 <= i < |r| && r[i].key == k; assert ops[i].key == k; }
      if k in Recovery.Touched(ops) { var i :| 0 <= i < |ops| && ops[i].key == k; assert r[i].key == k; }
    }
  }

  /**
   * A log of sets replays to its map, at any capacity, exactly when no segment of the
   * table gets more of its keys than it has slots.
   */
  lemma {:induction false} SetsExactly(cap: nat, ops: seq<LogOp>)
    requires 0 < cap < U64 && SetsOnly(ops)
    ensures Replayable(Create(cap), ops) &&
            Serves(Hash.Fnv1a, ReplayInto(Create(cap), ops), Entries(Recovery.ReplayOver(map[], ops))) <==>
            Capacity.Spread(Hash.Fnv1a, Recovery.Touched(ops), cap)
  {
    hide Hash.Fnv1a, KeysOf, CallRun, EndRun, Serves, Recovery.Touched, PutsOf, Replayable, Capacity.Spread, Storable;
    SetKeys(ops);
    SetsAreRun(Create(cap), map[], ops);
    assert Entries(map[]) == map[];
    SetsPut(ops);
    Capacity.SpreadExactly(Hash.Fnv1a, cap, PutsOf(ops));
  }

  lemma {:induction false} SetsPut(ops: seq<LogOp>)
    requires SetsOnly(ops)
    ensures var r := PutsOf(ops); forall i | 0 <= i < |r| :: r[i].Put? && Storable(Hash.Fnv1a, r[i].key)
  {
    hide Hash.Fnv1a, Storable;
  }

  /** And it answers every other key too, when no segment of 2^16 slots or more is filled. */
  lemma {:induction false} SetsServed(cap: nat, ops: seq<LogOp>)
    requires 0 < cap < U64 && SetsOnly(ops) && Capacity.Roomy(Hash.Fnv1a, Recovery.Touched(ops), cap)
    ensures Replayable(Create(cap), ops)
    ensures Serving(ReplayInto(Create(cap), ops), Recovery.ReplayOver(map[], ops))
  {
    hide Hash.Fnv1a, KeysOf, CallRun, EndRun, Serves, Recovery.Touched, PutsOf, Replayable, Capacity.Roomy, Storable;
    SetKeys(ops);
    SetsAreRun(Create(cap), map[], ops);
    assert Entries(map[]) == map[];
    SetsPut(ops);
    Capacity.RoomyIsMap(Hash.Fnv1a, cap, PutsOf(ops));
    hide ProbeEnds, GetCall;
    EntriesCard(Recovery.ReplayOver(map[], ops));
    ServesCount(Hash.Fnv1a, ReplayInto(Create(cap), ops), Entries(Recovery.ReplayOver(map[], ops)));
  }

  /** Every answer, and `count`, are those of m. */
  ghost predicate Serving(s: State, m: Recovery.DB) {
    && |s.t| > 0 && s.count == |m|
    && forall key :: ProbeEnds(Hash.Fnv1a, s.t, key) && GetCall(Hash.Fnv1a, s.t, key) == Lookup(Entries(m), key)
  }

  lemma {:induction false} EntriesCard(m: Recovery.DB)
    ensures |Entries(m)| == |m|
  {
    assert Entries(m).Keys == m.Keys;
  }

  /**
   * Restart after a rewrite, bytes to slots: when the log file is the text of a
   * compaction of m whose records fit their lines, the replay makes a fresh table of m
   * exactly when no segment of it gets more keys than it has slots.
   */
  lemma {:induction false} RewrittenLogRestores(stack: bytes, cap: nat, c: seq<LogOp>, m: Recovery.DB)
    requires |stack| == LINE_SIZE && 0 < cap < U64 && Recovery.Compacts(c, m)
    requires forall i | 0 <= i < |c| ::
               Storable(Hash.Fnv1a, c[i].key) && Sized(c[i]) && Fits(c[i], Line(Record(c[i])))
    ensures LogCodec.Replay(stack, Encode(c)) == Outcome(c, false)
    ensures Replayable(Create(cap), c) && Serves(Hash.Fnv1a, ReplayInto(Create(cap), c), Entries(m)) <==>
            Capacity.Spread(Hash.Fnv1a, m.Keys, cap)
    ensures Capacity.Roomy(Hash.Fnv1a, m.Keys, cap) ==>
            Replayable(Create(cap), c) && Serving(ReplayInto(Create(cap), c), m)
  {
    hide LogCodec.Replay, Fits, Sized, Record, Line;
    ReplayEncode(stack, c, []);
    hide Hash.Fnv1a, Serving, Serves, Replayable, Capacity.Spread, Capacity.Roomy, Encode;
    CompactsBack(c, m);
    SetsExactly(cap, c);
    if Capacity.Roomy(Hash.Fnv1a, m.Keys, cap) { SetsServed(cap, c); }
  }

  lemma {:induction false} CompactsBack(c: seq<LogOp>, m: Recovery.DB)
    requires Recovery.Compacts(c, m)
    ensures Recovery.ReplayOver(map[], c) == m && Recovery.Touched(c) == m.Keys
  {
    forall k ensures Recovery.At(Recovery.ReplayOver(map[], c), k) == Recovery.At(m, k) {
      Recovery.ReplayAt(map[], c, k);
      if k in m { Recovery.CompactsLast(c, m, k); }
    }
    Recovery.SameAt(Recovery.ReplayOver(map[], c), m);
  }
}
