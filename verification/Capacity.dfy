/**
 * At which capacities the table of src/core/hashmap/hashmap.c is a map, and for how many
 * keys. hm_create takes any capacity, and db_load asks for twice the number of records;
 * the loops mask with capacity - 1 in every case.
 */
module Capacity {
  import opened Bytes
  import opened Bits
  import opened Table
  import opened Runs
  import opened Loops
  import opened Segments

  // ---- runs of puts, segment by segment ----

  /** The part of m whose keys belong to segment q. */
  ghost function Part(H: Hasher, m: Map, q: nat, cap: nat): Map
    requires cap > 0
  {
    map k | k in m && SegOf(H(k), cap) == q :: m[k]
  }

  /** Every segment is a table of its part of m. */
  ghost predicate Parts(H: Hasher, s: State, m: Map) {
    && 0 < |s.t| < U64 && s.count == |m|
    && forall q | SegOk(q, |s.t|) :: PartAt(H, s.t, m, q)
  }

  ghost predicate PartAt(H: Hasher, t: Slots, m: Map, q: nat)
    requires |t| > 0 && SegOk(q, |t|)
  {
    var u := Seg(t, q);
    WellFormed(H, u) && NoTombs(u) && Contents(u) == Part(H, m, q, |t|)
  }

  lemma {:induction false} PartPut(H: Hasher, m: Map, key: bytes, e: Entry, q: nat, cap: nat)
    requires cap > 0
    ensures Part(H, m[key := e], q, cap) ==
            if SegOf(H(key), cap) == q then Part(H, m, q, cap)[key := e] else Part(H, m, q, cap)
    ensures Part(H, m, q, cap).Keys <= m.Keys
    ensures SegOf(H(key), cap) == q ==> Lookup(Part(H, m, q, cap), key) == Lookup(m, key)
    ensures SegOf(H(key), cap) == q ==> (key in Part(H, m, q, cap) <==> key in m)
  {
    var p, p' := Part(H, m, q, cap), Part(H, m[key := e], q, cap);
    hide SegOf;
    forall k ensures k in p <==> k in m && SegOf(H(k), cap) == q { }
    forall k ensures k in p' <==> (k in m || k == key) && SegOf(H(k), cap) == q { }
    assert p' == if SegOf(H(key), cap) == q then p[key := e] else p;
  }

  /** The keys of one segment. */
  ghost function SegKeys(H: Hasher, keys: set<bytes>, q: nat, cap: nat): set<bytes>
    requires cap > 0
  {
    set k | k in keys && SegOf(H(k), cap) == q
  }

  /** No segment has more keys than slots. */
  ghost predicate Spread(H: Hasher, keys: set<bytes>, cap: nat)
    requires cap > 0
  {
    forall q | SegOk(q, cap) :: |SegKeys(H, keys, q, cap)| <= LowBit(cap)
  }

  /** A put changes its own segment, as the put into that table would. */
  lemma {:induction false} PartsPut(H: Hasher, s: State, m: Map, key: bytes, e: Entry, keys: set<bytes>)
    requires Parts(H, s, m) && m.Keys <= keys && key in keys && Spread(H, keys, |s.t|)
    requires Storable(H, key)
    ensures Ends(H, s.t, Put(key, e)) && Parts(H, Call(H, s, Put(key, e)), m[key := e])
  {
    hide LowBit, SegOk, Seg, WithSeg, Insert, Contents, WellFormed, NoTombs, Storable, PutEnds, PutCall, Idx, SegOf;
    var t, q := s.t, SegOf(H(key), |s.t|);
    IdxSplit(H(key), |t|);
    assert PartAt(H, t, m, q);
    var u, p := Seg(t, q), Part(H, m, q, |t|);
    PartPut(H, m, key, e, q, |t|);
    SegPutAllowed(H, u, p, key, e, SegKeys(H, keys, q, |t|));
    SegInsert(H, t, key, e);
    var (u', added) := Insert(H, u, key, e).value;
    var s' := Call(H, s, Put(key, e));
    assert s'.t == WithSeg(t, q, u');
    forall r | SegOk(r, |t|) ensures PartAt(H, s'.t, m[key := e], r) {
      PartPut(H, m, key, e, r, |t|);
      if r == q { WithSegTwice(t, q, u', u'); } else { OtherSeg(t, q, u', r); assert PartAt(H, t, m, r); }
    }
    PartsSize(H, s'.t, m[key := e]);
    PutCount(m, key, e);
  }

  lemma {:induction false} PutCount(m: Map, key: bytes, e: Entry)
    requires |m[key := e]| < U64
    ensures |m[key := e]| == if key in m then |m| else Inc64(|m|)
  {
    assert m[key := e].Keys == m.Keys + {key};
  }

  lemma {:induction false} SegPutAllowed(H: Hasher, u: Slots, p: Map, key: bytes, e: Entry, keys: set<bytes>)
    requires WellFormed(H, u) && NoTombs(u) && Contents(u) == p
    requires p.Keys <= keys && key in keys && |keys| <= |u| && Storable(H, key)
    ensures var r := Insert(H, u, key, e);
            && r.Some? && WellFormed(H, r.value.0) && NoTombs(r.value.0) && |r.value.0| == |u|
            && Contents(r.value.0) == p[key := e] && (r.value.1 <==> key !in p)
  {
    hide Insert, InsertKeeps, Room, Storable, Contents, NoTombs, PutEnds, PutCall, InsertSpec, NodesOk, AllOpen;
    KeysUnique(H, u);
    RoomForAll(u, keys, key);
    InsertWithoutTombs(H, u, key);
    RoomInserts(H, u, key, e);
    InsertIsUpdate(H, u, key, e);
    PutNoTombs(H, u, key, e);
  }

  lemma {:induction false} PartsCreate(H: Hasher, cap: nat)
    requires 0 < cap < U64
    ensures Parts(H, Create(cap), map[])
  {
    var t := Create(cap).t;
    LowBitPow2(cap);
    CreateAgrees(H, LowBit(cap));
    forall q | SegOk(q, cap) ensures PartAt(H, t, map[], q) {
      SegFits(q, cap);
      assert Seg(t, q) == Create(LowBit(cap)).t;
      assert Part(H, map[], q, cap) == map[];
    }
  }

  ghost predicate KeyIn(t: Slots, r: set<nat>, key: bytes) {
    exists j :: j in r && j < |t| && t[j].key == key
  }

  /** One slot holds one key. */
  lemma {:induction false} KeysAtMost(t: Slots, r: set<nat>, keys: set<bytes>)
    requires forall k | k in keys :: KeyIn(t, r, k)
    ensures |keys| <= |r|
    decreases keys
  {
    if keys != {} {
      var k :| k in keys;
      var j :| j in r && j < |t| && t[j].key == k;
      forall k' | k' in keys - {k} ensures KeyIn(t, r - {j}, k') {
        var j' :| j' in r && j' < |t| && t[j'].key == k';
        assert j' in r - {j};
      }
      KeysAtMost(t, r - {j}, keys - {k});
    }
  }

  /** n slots from b on. */
  function Span(b: nat, n: nat): (r: set<nat>)
    ensures |r| == n && forall i: nat :: i in r <==> b <= i < b + n
  {
    if n == 0 then {} else Span(b, n - 1) + {b + n - 1}
  }

  /** Each key is in a slot, so there are no more of them than slots. */
  lemma {:induction false} PartsSize(H: Hasher, t: Slots, m: Map)
    requires |t| > 0 && forall q | SegOk(q, |t|) :: PartAt(H, t, m, q)
    ensures |m| <= |t|
  {
    forall k | k in m ensures KeyIn(t, Span(0, |t|), k) { PartSlot(H, t, m, k); }
    KeysAtMost(t, Span(0, |t|), m.Keys);
  }

  lemma {:induction false} PartSlot(H: Hasher, t: Slots, m: Map, k: bytes)
    requires |t| > 0 && k in m && forall q | SegOk(q, |t|) :: PartAt(H, t, m, q)
    ensures KeyIn(t, Span(0, |t|), k)
  {
    hide LowBit, SegOk, Seg, WellFormed, NoTombs, Idx, SegOf, Base;
    var q := SegOf(H(k), |t|);
    IdxSplit(H(k), |t|);
    assert PartAt(H, t, m, q) && k in Part(H, m, q, |t|);
    var j := ContentsAt(Seg(t, q), |Seg(t, q)|, k);
    SegAt(t, q, j, t[0]);
    assert t[Base(q, |t|) + j].key == k;
  }

  /**
   * What hm_get answers on such a table. Its probe ends for every key of the map, and for
   * every other one unless its segment has 2^16 slots or more, all of them taken.
   */
  lemma {:induction false} PartsAnswer(H: Hasher, s: State, m: Map, key: bytes)
    requires Parts(H, s, m)
    ensures key in m ==> Finds(H, s.t, key, m[key])
    ensures ProbeEnds(H, s.t, key) ==> GetCall(H, s.t, key) == Lookup(m, key)
    ensures LowBit(|s.t|) < U16 || |Part(H, m, SegOf(H(key), |s.t|), |s.t|)| < LowBit(|s.t|) ==> ProbeEnds(H, s.t, key)
  {
    hide LowBit, SegOk, Seg, Find, Idx, SegOf, Base, ProbeEnds, ProbeCall, Endless, FindFrom;
    var t, q := s.t, SegOf(H(key), |s.t|);
    IdxSplit(H(key), |t|);
    assert PartAt(H, t, m, q);
    var u := Seg(t, q);
    PartPut(H, m, key, Entry(Null, 0), q, |t|);
    SegFind(H, t, key);
    SegAnswer(H, u, key);
    if |u| < U16 || |Contents(u)| < |u| { SpareEnds(H, u, key); }
    if key in m {
      assert key in Part(H, m, q, |t|) && Part(H, m, q, |t|)[key] == m[key];
      SegAt(t, q, Find(H, u, key).value, t[0]);
    }
  }

  /** The answer on one segment. */
  lemma {:induction false} SegAnswer(H: Hasher, u: Slots, key: bytes)
    requires WellFormed(H, u) && NoTombs(u)
    ensures Get(H, u, key) == Lookup(Contents(u), key)
    ensures key in Contents(u) ==>
              && !Endless(H, u, key) && Find(H, u, key).Some?
              && u[Find(H, u, key).value].entry == Contents(u)[key]
  {
    hide FindFrom, ToU16, Open;
    FindCases(H, u, key);
    FoundEnds(H, u, key);
    KeysUnique(H, u);
    LiveIsIn(u, key);
    if Find(H, u, key).Some? {
      var i := Find(H, u, key).value;
      if Live(u[i]) { ContentsBinds(u, |u|, i); }
    }
  }

  lemma {:induction false} PartsRun(H: Hasher, s: State, m: Map, ops: seq<Op>, keys: set<bytes>)
    requires Parts(H, s, m) && m.Keys <= keys && Spread(H, keys, |s.t|)
    requires forall i | 0 <= i < |ops| :: ops[i].Put? && Storable(H, ops[i].key) && ops[i].key in keys
    ensures EndRun(H, s, ops) && Parts(H, CallRun(H, s, ops), ApplyAll(m, ops))
    decreases |ops|
  {
    if ops != [] {
      hide Parts, Storable, Ends, Call, Spread;
      PartsPut(H, s, m, ops[0].key, ops[0].entry, keys);
      PartsRun(H, Call(H, s, ops[0]), m[ops[0].key := ops[0].entry], ops[1..], keys);
    }
  }

  // ---- too many keys for the slots that their probes can use ----

  /** Slots that lead only to each other. */
  ghost predicate Closed(r: set<nat>, cap: nat)
    requires cap > 0
  {
    forall i | i in r :: i < cap && Idx(i + 1, cap) in r
  }

  /** Every slot in use is found under its own key only. */
  ghost predicate KeysTrue(H: Hasher, t: Slots) {
    forall i | 0 <= i < |t| && Occupied(t[i]) :: KeyOk(H, t[i])
  }

  lemma {:induction false} PutKeysTrue(H: Hasher, t: Slots, key: bytes, e: Entry, cur: Node, i: nat, n: nat)
    requires i < |t| && KeysTrue(H, t) && KeyOk(H, cur)
    ensures var x := PutLoop(H, t, key, e, cur, i, n); x.Some? ==> KeysTrue(H, x.value.0)
    decreases n
  {
    hide Matches, Idx;
    if n != 0 && !Free(t[i]) && !Matches(H, t[i], key) {
      if t[i].dib < cur.dib {
        PutKeysTrue(H, t[i := cur], key, e, t[i].(dib := Inc16(t[i].dib)), Idx(i + 1, |t|), n - 1);
      } else {
        PutKeysTrue(H, t, key, e, cur.(dib := Inc16(cur.dib)), Idx(i + 1, |t|), n - 1);
      }
    }
  }

  lemma {:induction false} RunKeysTrue(H: Hasher, s: State, ops: seq<Op>)
    requires |s.t| > 0 && KeysTrue(H, s.t)
    requires forall i | 0 <= i < |ops| :: ops[i].Put? && Storable(H, ops[i].key)
    ensures KeysTrue(H, CallRun(H, s, ops).t)
    decreases |ops|
  {
    if ops != [] {
      hide PutLoop, KeysTrue, Idx, ToU16;
      var key, e := ops[0].key, ops[0].entry;
      if Ends(H, s.t, ops[0]) {
        var n: nat :| PutIn(H, s.t, key, e, n).Some?;
        PutCallIs(H, s.t, key, e, n);
        ToU16Next(|key|);
        PutKeysTrue(H, s.t, key, e, NewNode(H, key, e), Idx(H(key), |s.t|), n);
      }
      RunKeysTrue(H, Call(H, s, ops[0]), ops[1..]);
    }
  }

  /** A probe that begins in a closed set of slots stays there. */
  lemma {:induction false} ProbeStays(H: Hasher, t: Slots, key: bytes, i: nat, dib: nat, n: nat, r: set<nat>)
    requires |t| > 0 && Closed(r, |t|) && i in r
    ensures i < |t|
    ensures var x := ProbeLoop(H, t, key, i, dib, n); x.Some? && x.value.Some? ==> x.value.value in r
    decreases n
  {
    hide Idx, Matches;
    if n != 0 { ProbeStays(H, t, key, Idx(i + 1, |t|), Inc16(dib), n - 1, r); }
  }

  ghost predicate Lost(H: Hasher, t: Slots, key: bytes)
    requires |t| > 0
  {
    ProbeEnds(H, t, key) ==> ProbeCall(H, t, key) == None
  }

  lemma {:induction false} FoundInside(H: Hasher, t: Slots, r: set<nat>, key: bytes)
    requires |t| > 0 && KeysTrue(H, t) && Closed(r, |t|) && Idx(H(key), |t|) in r && !Lost(H, t, key)
    ensures KeyIn(t, r, key)
  {
    hide ProbeLoop, Idx, Closed;
    var n: nat :| ProbeIn(H, t, key, n).Some?;
    ProbeCallIs(H, t, key, n);
    ProbeMatches(H, t, key, Idx(H(key), |t|), 0, n);
    ProbeStays(H, t, key, Idx(H(key), |t|), 0, n, r);
    var j := ProbeCall(H, t, key).value;
    MatchesIsKey(H, t[j], key);
  }

  /**
   * More keys than there are slots that their probes can use: some of them is not found,
   * whatever else is in the table.
   */
  lemma {:induction false} CrowdedLoses(H: Hasher, t: Slots, r: set<nat>, keys: set<bytes>) returns (key: bytes)
    requires |t| > 0 && KeysTrue(H, t) && Closed(r, |t|) && |keys| > |r|
    requires forall k | k in keys :: Idx(H(k), |t|) in r
    ensures key in keys && Lost(H, t, key)
  {
    hide Idx, Closed, Lost, KeysTrue;
    if forall k | k in keys :: !Lost(H, t, k) {
      forall k | k in keys ensures KeyIn(t, r, k) { FoundInside(H, t, r, k); }
      KeysAtMost(t, r, keys);
    }
    key :| key in keys && Lost(H, t, key);
  }

  lemma {:induction false} CreateKeysTrue(H: Hasher, cap: nat)
    ensures KeysTrue(H, Create(cap).t)
  {
  }

  /** A run that has put more keys into a closed set of slots than it has loses one of them. */
  lemma {:induction false} CrowdedRunLoses(H: Hasher, cap: nat, ops: seq<Op>, r: set<nat>, keys: set<bytes>)
    returns (key: bytes)
    requires cap > 0 && Closed(r, cap) && |keys| > |r| && keys <= KeysOf(ops)
    requires forall k | k in keys :: Idx(H(k), cap) in r
    requires forall i | 0 <= i < |ops| :: ops[i].Put? && Storable(H, ops[i].key)
    ensures key in keys && Lost(H, CallRun(H, Create(cap), ops).t, key)
    ensures !Serves(H, CallRun(H, Create(cap), ops), ApplyAll(map[], ops))
  {
    hide Idx, Closed, Lost, KeysTrue, Storable;
    CreateKeysTrue(H, cap);
    RunKeysTrue(H, Create(cap), ops);
    var s := CallRun(H, Create(cap), ops);
    key := CrowdedLoses(H, s.t, r, keys);
    KeysApplied(map[], ops);
    hide CallRun, ProbeEnds, ProbeCall, KeysOf, ApplyAll;
    LostServes(H, s, ApplyAll(map[], ops), key);
  }

  lemma {:induction false} LostServes(H: Hasher, s: State, m: Map, key: bytes)
    requires |s.t| > 0 && key in m && Lost(H, s.t, key)
    ensures !Serves(H, s, m)
  {
    hide ProbeEnds, ProbeCall;
    assert !Finds(H, s.t, key, m[key]);
  }

  // ---- a run of puts is a map exactly when its keys fit their segments ----

  /** Every call of the run ends, and then `count` is right and every key is found with its entry. */
  ghost predicate RunServes(H: Hasher, cap: nat, ops: seq<Op>)
    requires cap > 0
  {
    EndRun(H, Create(cap), ops) && Serves(H, CallRun(H, Create(cap), ops), ApplyAll(map[], ops))
  }

  /** And hm_get answers every other key with NULL. */
  ghost predicate RunIsMap(H: Hasher, cap: nat, ops: seq<Op>)
    requires cap > 0
  {
    var s, m := CallRun(H, Create(cap), ops), ApplyAll(map[], ops);
    RunServes(H, cap, ops) && forall key :: ProbeEnds(H, s.t, key) && GetCall(H, s.t, key) == Lookup(m, key)
  }

  lemma {:induction false} KeysIn(ops: seq<Op>)
    ensures forall i | 0 <= i < |ops| :: ops[i].key in KeysOf(ops)
  {
  }

  lemma {:induction false} SpreadParts(H: Hasher, cap: nat, ops: seq<Op>)
    requires 0 < cap < U64 && Spread(H, KeysOf(ops), cap)
    requires forall i | 0 <= i < |ops| :: ops[i].Put? && Storable(H, ops[i].key)
    ensures EndRun(H, Create(cap), ops)
    ensures Parts(H, CallRun(H, Create(cap), ops), ApplyAll(map[], ops)) && RunServes(H, cap, ops)
  {
    hide Parts, KeysOf, Storable, Spread, CallRun, EndRun, ApplyAll;
    PartsCreate(H, cap);
    KeysIn(ops);
    PartsRun(H, Create(cap), map[], ops, KeysOf(ops));
    PartsServe(H, CallRun(H, Create(cap), ops), ApplyAll(map[], ops));
  }

  lemma {:induction false} PartsServe(H: Hasher, s: State, m: Map)
    requires Parts(H, s, m)
    ensures |s.t| > 0 && Serves(H, s, m)
  {
    hide Finds, PartAt;
    forall key | key in m ensures Finds(H, s.t, key, m[key]) { PartsAnswer(H, s, m, key); }
  }

  /** The slots of segment q. */
  function SegSlots(q: nat, cap: nat): set<nat>
    requires cap > 0
  {
    Span(Base(q, cap), LowBit(cap))
  }

  lemma {:induction false} SegSlotsClosed(q: nat, cap: nat)
    requires cap > 0 && SegOk(q, cap)
    ensures Closed(SegSlots(q, cap), cap) && |SegSlots(q, cap)| == LowBit(cap)
  {
    hide SegOk, LowBit, Base, Idx, Span;
    SegFits(q, cap);
    forall i | i in SegSlots(q, cap) ensures i < cap && Idx(i + 1, cap) in SegSlots(q, cap) {
      var j := i - Base(q, cap);
      IdxNext(q, j, cap);
      NextIn(j, LowBit(cap));
    }
  }

  /**
   * A run of puts of storable keys, under the hash function of the table, comes back and
   * is served exactly when no segment gets more keys than it has slots.
   */
  lemma {:induction false} SpreadExactly(H: Hasher, cap: nat, ops: seq<Op>)
    requires 0 < cap < U64 && forall i | 0 <= i < |ops| :: ops[i].Put? && Storable(H, ops[i].key)
    ensures RunServes(H, cap, ops) <==> Spread(H, KeysOf(ops), cap)
  {
    if Spread(H, KeysOf(ops), cap) {
      SpreadParts(H, cap, ops);
    } else {
      var q :| SegOk(q, cap) && |SegKeys(H, KeysOf(ops), q, cap)| > LowBit(cap);
      hide SegOk, LowBit, Base, Idx, SegOf, Closed, Serves, CallRun, EndRun, ApplyAll;
      SegSlotsClosed(q, cap);
      forall k | k in SegKeys(H, KeysOf(ops), q, cap) ensures Idx(H(k), cap) in SegSlots(q, cap) {
        IdxSplit(H(k), cap);
      }
      var key := CrowdedRunLoses(H, cap, ops, SegSlots(q, cap), SegKeys(H, KeysOf(ops), q, cap));
    }
  }

  /** A segment is not full, or has fewer than 2^16 slots: then every probe in it ends. */
  ghost predicate Roomy(H: Hasher, keys: set<bytes>, cap: nat)
    requires cap > 0
  {
    Spread(H, keys, cap) &&
    (LowBit(cap) < U16 || forall q | SegOk(q, cap) :: |SegKeys(H, keys, q, cap)| < LowBit(cap))
  }

  /** Such a run is the map, for the keys that were never put too. */
  lemma {:induction false} RoomyIsMap(H: Hasher, cap: nat, ops: seq<Op>)
    requires 0 < cap < U64 && Roomy(H, KeysOf(ops), cap)
    requires forall i | 0 <= i < |ops| :: ops[i].Put? && Storable(H, ops[i].key)
    ensures RunIsMap(H, cap, ops)
  {
    SpreadParts(H, cap, ops);
    KeysApplied(map[], ops);
    var s, m := CallRun(H, Create(cap), ops), ApplyAll(map[], ops);
    hide Parts, RunServes, CallRun, EndRun, ApplyAll, KeysOf, Storable, Serves, SegOk, SegOf, LowBit, Idx, ProbeEnds;
    forall key ensures ProbeEnds(H, s.t, key) && GetCall(H, s.t, key) == Lookup(m, key) {
      PartsAnswer(H, s, m, key);
      PartCard(H, m, KeysOf(ops), SegOf(H(key), cap), cap);
      IdxSplit(H(key), cap);
    }
  }

  lemma {:induction false} PartCard(H: Hasher, m: Map, keys: set<bytes>, q: nat, cap: nat)
    requires cap > 0 && m.Keys <= keys
    ensures |Part(H, m, q, cap)| <= |SegKeys(H, keys, q, cap)|
  {
    hide SegOf;
    SubsetCard(Part(H, m, q, cap).Keys, SegKeys(H, keys, q, cap));
  }

  /** Fewer than 2^16 keys: served is the map. */
  lemma {:induction false} FewKeysExactly(H: Hasher, cap: nat, ops: seq<Op>)
    requires 0 < cap < U64 && |KeysOf(ops)| < U16
    requires forall i | 0 <= i < |ops| :: ops[i].Put? && Storable(H, ops[i].key)
    ensures RunIsMap(H, cap, ops) <==> Spread(H, KeysOf(ops), cap)
  {
    SpreadExactly(H, cap, ops);
    hide RunServes, SegOf, LowBit, SegOk;
    if Spread(H, KeysOf(ops), cap) {
      forall q ensures |SegKeys(H, KeysOf(ops), q, cap)| < U16 {
        SubsetCard(SegKeys(H, KeysOf(ops), q, cap), KeysOf(ops));
      }
      RoomyIsMap(H, cap, ops);
    }
  }

  // ---- any hash function ----

  /** The slots that some index reaches. */
  ghost function ReachedSlots(cap: nat): set<nat>
    requires cap > 0
  {
    set y: nat | y < cap && Reached(y, cap)
  }

  lemma {:induction false} ReachedClosed(cap: nat, x: nat)
    requires cap > 0
    ensures Closed(ReachedSlots(cap), cap) && Idx(x, cap) in ReachedSlots(cap)
  {
    forall y: nat ensures Idx(y, cap) in ReachedSlots(cap) { MaskIdempotent(y, cap - 1); }
  }

  /** More keys than reached slots are never served: some key is lost under any hash function. */
  lemma {:induction false} ReachedBound(H: Hasher, cap: nat, ops: seq<Op>) returns (key: bytes)
    requires cap > 0 && |KeysOf(ops)| > |ReachedSlots(cap)|
    requires forall i | 0 <= i < |ops| :: ops[i].Put? && Storable(H, ops[i].key)
    ensures key in KeysOf(ops) && Lost(H, CallRun(H, Create(cap), ops).t, key)
  {
    hide ReachedSlots, KeysOf, Storable, Idx, Closed, Lost, CallRun;
    ReachedClosed(cap, 0);
    forall k | k in KeysOf(ops) ensures Idx(H(k), cap) in ReachedSlots(cap) { ReachedClosed(cap, H(k)); }
    key := CrowdedRunLoses(H, cap, ops, ReachedSlots(cap), KeysOf(ops));
  }

  /** All slots are reached exactly at a power of two, so any other table is full before its time. */
  lemma {:induction false} ReachedAllExactly(cap: nat)
    requires cap > 0
    ensures |ReachedSlots(cap)| <= cap
    ensures |ReachedSlots(cap)| == cap <==> IsPow2(cap)
  {
    var all := Span(0, cap);
    SubsetCard(ReachedSlots(cap), all);
    AllReachedExactly(cap);
    hide Reached;
    if IsPow2(cap) {
      assert ReachedSlots(cap) == all;
    } else {
      var y: nat :| y < cap && !Reached(y, cap);
      assert ReachedSlots(cap) <= all - {y};
      SubsetCard(ReachedSlots(cap), all - {y});
    }
  }

  // ---- the worst hash function ----

  /** All keys at home in slot 0. */
  function Constant(h: nat): Hasher {
    (key: bytes) => h
  }

  /** The binary digits of a number, as a key. */
  function Binary(i: nat): (k: bytes)
    ensures |k| == 0 <==> i == 0
  {
    if i == 0 then [] else Binary(i / 2) + [1 + i % 2]
  }

  lemma {:induction false} BinaryShort(i: nat, n: nat)
    requires i < Pow2(n)
    ensures |Binary(i)| <= n
  {
    if i > 0 { BinaryShort(i / 2, n - 1); }
  }

  lemma {:induction false} BinaryInjective(i: nat, j: nat)
    requires Binary(i) == Binary(j)
    ensures i == j
    decreases i
  {
    if i > 0 {
      var a, b := Binary(i), Binary(j);
      assert a[|a| - 1] == b[|b| - 1] && a[..|a| - 1] == Binary(i / 2) && b[..|b| - 1] == Binary(j / 2);
      BinaryInjective(i / 2, j / 2);
    }
  }

  function BinaryPuts(n: nat): (ops: seq<Op>)
    ensures |ops| == n && forall i | 0 <= i < n :: ops[i] == Put(Binary(i), Entry(Data([]), 0))
  {
    seq(n, i requires 0 <= i < n => Put(Binary(i), Entry(Data([]), 0)))
  }

  lemma {:induction false} BinaryKeys(n: nat)
    ensures |KeysOf(BinaryPuts(n))| == n && Binary(n) !in KeysOf(BinaryPuts(n))
  {
    hide Binary;
    forall j | 0 <= j < n ensures Binary(j) != Binary(n) { if Binary(j) == Binary(n) { BinaryInjective(j, n); } }
    if n == 0 {
      assert KeysOf(BinaryPuts(0)) == {};
    } else {
      BinaryKeys(n - 1);
      BinaryKeysNext(n - 1);
    }
  }

  lemma {:induction false} BinaryKeysNext(n: nat)
    ensures KeysOf(BinaryPuts(n + 1)) == KeysOf(BinaryPuts(n)) + {Binary(n)}
  {
    hide Binary, BinaryPuts;
    var a, b := KeysOf(BinaryPuts(n + 1)), KeysOf(BinaryPuts(n));
    assert BinaryPuts(n + 1)[n].key == Binary(n);
    forall q ensures q in a <==> q in b || q == Binary(n) {
      if q in b { var i :| 0 <= i < n && BinaryPuts(n)[i].key == q; assert BinaryPuts(n + 1)[i].key == q; }
      if q in a {
        var i :| 0 <= i < n + 1 && BinaryPuts(n + 1)[i].key == q;
        if i < n { assert BinaryPuts(n)[i].key == q; }
      }
    }
  }

  lemma {:induction false} BinaryStorable(h: nat, n: nat)
    requires h > 0 && n <= U64
    ensures forall i | 0 <= i < n :: BinaryPuts(n)[i].Put? && Storable(Constant(h), BinaryPuts(n)[i].key)
  {
    Pow2Of64();
    hide Pow2;
    forall i | 0 <= i < n ensures Storable(Constant(h), Binary(i)) { BinaryShort(i, 64); }
  }

  /** All of them are keys of one segment. */
  lemma {:induction false} OneSegmentKeys(h: nat, cap: nat, keys: set<bytes>)
    requires cap > 0
    ensures SegOk(SegOf(h, cap), cap) && SegKeys(Constant(h), keys, SegOf(h, cap), cap) == keys
  {
    IdxSplit(h, cap);
  }

  // ---- the capacities that serve ----

  /** Whatever the hash function, every run of puts of n storable keys is a map. */
  ghost predicate ServesAll(cap: nat, n: nat)
    requires cap > 0
  {
    forall H: Hasher, ops: seq<Op> | PutRun(H, ops, n) :: RunIsMap(H, cap, ops)
  }

  /** Puts of storable keys, no more than n different ones. */
  ghost predicate PutRun(H: Hasher, ops: seq<Op>, n: nat) {
    |KeysOf(ops)| <= n && forall i | 0 <= i < |ops| :: ops[i].Put? && Storable(H, ops[i].key)
  }

  /** n keys fit a segment, and leave a slot of it unused if it has 2^16 or more. */
  predicate Leaves(n: nat, cap: nat)
    requires cap > 0
  {
    n < LowBit(cap) || (n == LowBit(cap) && n < U16)
  }

  /**
   * n keys are served at a capacity, under every hash function, exactly when n is at
   * most the largest power of two that divides the capacity, and less from 2^16 on.
   */
  lemma {:induction false} ServesExactly(cap: nat, n: nat)
    requires 0 < cap < U64
    ensures ServesAll(cap, n) <==> Leaves(n, cap)
  {
    if Leaves(n, cap) {
      forall H: Hasher, ops: seq<Op> | PutRun(H, ops, n) ensures RunIsMap(H, cap, ops) {
        FewIsRoomy(H, cap, KeysOf(ops), n);
        RoomyIsMap(H, cap, ops);
      }
    } else if n > LowBit(cap) {
      SegmentOverflows(cap, n);
    } else {
      FullSegmentHangs(cap, n);
    }
  }

  lemma {:induction false} FewIsRoomy(H: Hasher, cap: nat, keys: set<bytes>, n: nat)
    requires cap > 0 && |keys| <= n && Leaves(n, cap)
    ensures Roomy(H, keys, cap)
  {
    hide SegOf, LowBit, SegOk;
    forall q ensures |SegKeys(H, keys, q, cap)| <= n { SubsetCard(SegKeys(H, keys, q, cap), keys); }
  }

  /** One key more than a segment has slots, all of them at home in it. */
  lemma {:induction false} SegmentOverflows(cap: nat, n: nat)
    requires 0 < cap < U64 && LowBit(cap) < n
    ensures !ServesAll(cap, n)
  {
    var l := LowBit(cap);
    var H, ops := Constant(l), BinaryPuts(l + 1);
    BinaryKeys(l + 1);
    BinaryStorable(l, l + 1);
    hide LowBit, Storable, SegOk, SegOf, KeysOf, RunServes, Constant, BinaryPuts;
    OneSegmentKeys(l, cap, KeysOf(ops));
    SpreadExactly(H, cap, ops);
    assert PutRun(H, ops, n) && !RunIsMap(H, cap, ops);
  }

  /** A full segment of 2^16 slots or more, all its keys at home in one slot: an absent key is never answered. */
  lemma {:induction false} FullSegmentHangs(cap: nat, n: nat)
    requires 0 < cap < U64 && n == LowBit(cap) >= U16
    ensures !ServesAll(cap, n)
  {
    var H, ops, key := Constant(n), BinaryPuts(n), Binary(n);
    BinaryKeys(n);
    BinaryStorable(n, n);
    hide LowBit, Storable, SegOk, SegOf, KeysOf, RunServes, Constant, BinaryPuts;
    assert PutRun(H, ops, n);
    NeverAnswers(cap, n);
    assert !RunIsMap(H, cap, ops);
  }

  lemma {:induction false} NeverAnswers(cap: nat, n: nat)
    requires 0 < cap < U64 && n == LowBit(cap) >= U16
    ensures !ProbeEnds(Constant(n), CallRun(Constant(n), Create(cap), BinaryPuts(n)).t, Binary(n))
  {
    var H, ops, key := Constant(n), BinaryPuts(n), Binary(n);
    BinaryKeys(n);
    BinaryStorable(n, n);
    OneSegmentKeys(n, cap, KeysOf(ops));
    var s, m := CallRun(H, Create(cap), ops), ApplyAll(map[], ops);
    hide LowBit, Storable, SegOk, SegOf, KeysOf, CallRun, EndRun, ApplyAll, Serves, BinaryPuts, Binary, Seg, Idx, ToU16;
    SameSegSpread(n, cap, KeysOf(ops));
    SpreadParts(H, cap, ops);
    KeysApplied(map[], ops);
    var q := SegOf(n, cap);
    assert PartAt(H, s.t, m, q);
    SamePart(n, cap, m);
    SameHomeEndless(H, Seg(s.t, q), KeysOf(ops), key);
    SegFind(H, s.t, key);
  }

  lemma {:induction false} SameSegSpread(h: nat, cap: nat, keys: set<bytes>)
    requires cap > 0 && |keys| <= LowBit(cap)
    ensures Spread(Constant(h), keys, cap)
  {
    hide LowBit, SegOf, SegOk;
    forall q ensures |SegKeys(Constant(h), keys, q, cap)| <= |keys| {
      SubsetCard(SegKeys(Constant(h), keys, q, cap), keys);
    }
  }

  lemma {:induction false} SamePart(h: nat, cap: nat, m: Map)
    requires cap > 0
    ensures Part(Constant(h), m, SegOf(h, cap), cap) == m
  {
    hide SegOf;
  }

  /** As many keys as slots are served exactly when the capacity is a power of two below 2^16. */
  lemma {:induction false} FullTableExactly(cap: nat)
    requires 0 < cap < U64
    ensures ServesAll(cap, cap) <==> IsPow2(cap) && cap < U16
  {
    ServesExactly(cap, cap);
    LowBitWhole(cap);
  }

  /** The capacity that db_load asks for. */
  function LoadCapacity(count: nat): (cap: nat)
    ensures cap > 0
  {
    if 2 * count < 1024 then 1024 else 2 * count
  }

  /**
   * A snapshot of `count` keys is loaded whole, under every hash function, exactly when
   * it has at most 512 keys or their number is a power of two.
   */
  lemma {:induction false} LoadServesExactly(count: nat)
    requires 2 * count < U64
    ensures ServesAll(LoadCapacity(count), count) <==> count <= 512 || IsPow2(count)
  {
    ServesExactly(LoadCapacity(count), count);
    if 2 * count <= 1024 {
      assert Pow2(5) == 32;
      Pow2Sum(5, 5);
      LowBitOfPow2(10);
    } else {
      hide ServesAll;
      assert LowBit(2 * count) == 2 * LowBit(count);
      LowBitWhole(count);
      LowBitTimes(count);
      OddAtLeast(LowBit(count), OddPart(count));
    }
  }

  lemma {:induction false} OddAtLeast(l: nat, r: nat)
    requires l > 0 && r % 2 == 1
    ensures l * r <= 2 * l <==> r == 1
    ensures l * r != 2 * l
  {
    if r != 1 { assert l * r == 2 * l + l * (r - 2); MulAtLeast(l, r - 2); }
  }
}
