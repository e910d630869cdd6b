/**
 * Puts and deletes in any order on the table of src/core/hashmap/hashmap.c, at any
 * capacity: each call is one on the segment of its key, so what Runs says of a capacity
 * that is a power of two holds of every segment.
 */
module Deletes {
  import opened Bytes
  import opened Bits
  import opened Table
  import opened Runs
  import opened Loops
  import opened Segments
  import opened Capacity

  // ---- a call is one on the segment of its key ----

  /** A segment is a table whose capacity is a power of two, and its loops mask with that. */
  lemma {:induction false} SegAlone(u: Slots, x: nat)
    requires |u| > 0 && IsPow2(|u|)
    ensures LowBit(|u|) == |u| && SegOk(0, |u|) && Base(0, |u|) == 0 && Seg(u, 0) == u
    ensures forall v: Slots | |v| == |u| :: WithSeg(u, 0, v) == v
    ensures Idx(x, |u|) == Home(x, |u|)
  {
    OneSegment(u, x);
    IdxSplit(x, |u|);
    hide SegOk, SegOf, LowBit, Seg, WithSeg, Idx;
  }

  lemma {:induction false} PutInSeg(H: Hasher, t: Slots, key: bytes, e: Entry, cur: Node, q: nat, j: nat, n: nat)
    requires |t| > 0 && SegOk(q, |t|) && j < LowBit(|t|)
    ensures Base(q, |t|) + j < |t|
    ensures PutLoop(H, t, key, e, cur, Base(q, |t|) + j, n) ==
            match PutLoop(H, Seg(t, q), key, e, cur, j, n)
            case None => None
            case Some((u, added)) => Some((WithSeg(t, q, u), added))
  {
    hide PutLoop, InsertFrom, Seg, WithSeg, Base, LowBit, SegOk, IsPow2;
    LowBitPow2(|t|);
    SegAlone(Seg(t, q), 0);
    SegPut(H, t, key, e, cur, q, j, n);
    SegPut(H, Seg(t, q), key, e, cur, 0, j, n);
  }

  /** A slot found in the segment, as a slot of the table. */
  function Shifted(r: Option<Option<nat>>, b: nat): Option<Option<nat>> {
    match r
    case None => None
    case Some(None) => Some(None)
    case Some(Some(k)) => Some(Some(b + k))
  }

  lemma {:induction false} ProbeInSeg(H: Hasher, t: Slots, key: bytes, q: nat, j: nat, dib: nat, n: nat)
    requires |t| > 0 && SegOk(q, |t|) && j < LowBit(|t|)
    ensures Base(q, |t|) + j < |t|
    ensures ProbeLoop(H, t, key, Base(q, |t|) + j, dib, n) ==
            Shifted(ProbeLoop(H, Seg(t, q), key, j, dib, n), Base(q, |t|))
    decreases n
  {
    hide *;
    SegStep(t, q, j);
    var u, i, k := Seg(t, q), Base(q, |t|) + j, Next(j, LowBit(|t|));
    if n == 0 {
      NoRounds(H, t, key, i, dib);
      NoRounds(H, u, key, j, dib);
      ShiftedNone(Base(q, |t|), j);
    } else {
      ProbeUnfold(H, t, key, i, dib, n);
      ProbeUnfold(H, u, key, j, dib, n);
      ShiftedNone(Base(q, |t|), j);
      ProbeInSeg(H, t, key, q, k, Inc16(dib), n - 1);
    }
  }

  lemma {:induction false} ShiftedNone(b: nat, k: nat)
    ensures Shifted(None, b) == None && Shifted(Some(None), b) == Some(None)
    ensures Shifted(Some(Some(k)), b) == Some(Some(b + k))
  {
  }

  /** A slot of the segment and the next one, seen from the table and from the segment alone. */
  lemma {:induction false} SegStep(t: Slots, q: nat, j: nat)
    requires |t| > 0 && SegOk(q, |t|) && j < LowBit(|t|)
    ensures var u, l := Seg(t, q), LowBit(|t|);
            && |u| == l && Base(q, |t|) + j < |t| && u[j] == t[Base(q, |t|) + j] && Next(j, l) < l
            && Idx(Base(q, |t|) + j + 1, |t|) == Base(q, |t|) + Next(j, l) && Idx(j + 1, l) == Next(j, l)
  {
    hide Seg, SegOk, LowBit, Idx, Next, IsPow2;
    var l := LowBit(|t|);
    SegAt(t, q, j, t[0]);
    LowBitPow2(|t|);
    SegAlone(Seg(t, q), 0);
    IdxNext(q, j, |t|);
    IdxNext(0, j, l);
    NextIn(j, l);
  }

  /** Where the loops for a key begin. */
  lemma {:induction false} HomeInSeg(t: Slots, x: nat)
    requires |t| > 0
    ensures SegOk(SegOf(x, |t|), |t|)
    ensures var q, l := SegOf(x, |t|), LowBit(|t|);
            Home(x, l) < l && Idx(x, |t|) == Base(q, |t|) + Home(x, l) && Idx(x, l) == Home(x, l)
  {
    IdxSplit(x, |t|);
    LowBitPow2(|t|);
    SegAlone(Seg(t, SegOf(x, |t|)), x);
  }

  lemma {:induction false} PutCallSeg(H: Hasher, t: Slots, key: bytes, e: Entry)
    requires |t| > 0
    ensures SegOk(SegOf(H(key), |t|), |t|)
    ensures var q := SegOf(H(key), |t|);
            var u := Seg(t, q);
            && (PutEnds(H, t, key, e) <==> PutEnds(H, u, key, e))
            && (PutEnds(H, t, key, e) ==>
                  PutCall(H, t, key, e) == (WithSeg(t, q, PutCall(H, u, key, e).0), PutCall(H, u, key, e).1))
  {
    hide PutLoop, Seg, WithSeg, SegOf, SegOk, Base, LowBit, Idx, Home, IsPow2, ToU16;
    HomeInSeg(t, H(key));
    var q, l := SegOf(H(key), |t|), LowBit(|t|);
    var u, h := Seg(t, q), Home(H(key), l);
    forall n: nat
      ensures PutIn(H, t, key, e, n) == match PutIn(H, u, key, e, n)
                                        case None => None
                                        case Some((v, added)) => Some((WithSeg(t, q, v), added))
    {
      PutInSeg(H, t, key, e, NewNode(H, key, e), q, h, n);
    }
    if PutEnds(H, t, key, e) {
      var n: nat :| PutIn(H, t, key, e, n).Some?;
      PutCallIs(H, t, key, e, n);
      PutCallIs(H, u, key, e, n);
    }
  }

  lemma {:induction false} ProbeCallSeg(H: Hasher, t: Slots, key: bytes)
    requires |t| > 0
    ensures SegOk(SegOf(H(key), |t|), |t|)
    ensures var q := SegOf(H(key), |t|);
            var u := Seg(t, q);
            && (ProbeEnds(H, t, key) <==> ProbeEnds(H, u, key))
            && (ProbeEnds(H, t, key) ==>
                  && ProbeCall(H, t, key) == (match ProbeCall(H, u, key)
                                              case None => None
                                              case Some(k) => Some(Base(q, |t|) + k))
                  && GetCall(H, t, key) == GetCall(H, u, key))
    ensures forall e :: Finds(H, t, key, e) <==> Finds(H, Seg(t, SegOf(H(key), |t|)), key, e)
  {
    hide ProbeLoop, Seg, SegOf, SegOk, Base, LowBit, Idx, Home, IsPow2;
    HomeInSeg(t, H(key));
    var q, l := SegOf(H(key), |t|), LowBit(|t|);
    var u, h := Seg(t, q), Home(H(key), l);
    forall n: nat ensures ProbeIn(H, t, key, n) == Shifted(ProbeIn(H, u, key, n), Base(q, |t|)) {
      ProbeInSeg(H, t, key, q, h, 0, n);
    }
    if ProbeEnds(H, t, key) {
      var n: nat :| ProbeIn(H, t, key, n).Some?;
      ProbeCallIs(H, t, key, n);
      ProbeCallIs(H, u, key, n);
      if ProbeCall(H, u, key).Some? { SegAt(t, q, ProbeCall(H, u, key).value, t[0]); }
    }
  }

  /** A call changes the segment of its key as it would that table alone, and `count` as it would there. */
  lemma {:induction false} CallSeg(H: Hasher, s: State, op: Op)
    requires |s.t| > 0
    ensures SegOk(SegOf(H(op.key), |s.t|), |s.t|)
    ensures var q := SegOf(H(op.key), |s.t|);
            var v := Call(H, State(Seg(s.t, q), s.count), op);
            && (Ends(H, s.t, op) <==> Ends(H, Seg(s.t, q), op))
            && Call(H, s, op) == State(WithSeg(s.t, q, v.t), v.count)
  {
    hide Seg, WithSeg, SegOf, SegOk, Base, LowBit, PutEnds, PutCall, ProbeEnds, ProbeCall;
    var t, q := s.t, SegOf(H(op.key), |s.t|);
    match op
    case Put(key, e) =>
      PutCallSeg(H, t, key, e);
      SameSeg(t, q);
    case Del(key) =>
      ProbeCallSeg(H, t, key);
      SameSeg(t, q);
      if ProbeEnds(H, t, key) && ProbeCall(H, t, key).Some? {
        var k := ProbeCall(H, Seg(t, q), key).value;
        SegAt(t, q, k, Seg(t, q)[k].(tomb := true));
      }
  }

  lemma {:induction false} SameSeg(t: Slots, q: nat)
    requires |t| > 0 && SegOk(q, |t|)
    ensures WithSeg(t, q, Seg(t, q)) == t
  {
    SegFits(q, |t|);
  }

  // ---- tables that agree with a map, segment by segment ----

  ghost predicate SegAgrees(H: Hasher, t: Slots, m: Map, q: nat)
    requires |t| > 0 && SegOk(q, |t|)
  {
    WellFormed(H, Seg(t, q)) && Contents(Seg(t, q)) == Part(H, m, q, |t|)
  }

  /** Every segment agrees with its part of m. */
  ghost predicate AllAgree(H: Hasher, s: State, m: Map) {
    && 0 < |s.t| < U64 && s.count == |m|
    && forall q | SegOk(q, |s.t|) :: SegAgrees(H, s.t, m, q)
  }

  /** What the caller can check before a call: in the segment of the key, what Runs asks of a table. */
  ghost predicate SegAllowed(H: Hasher, s: State, op: Op)
    requires |s.t| > 0
  {
    IdxSplit(H(op.key), |s.t|);
    Allowed(H, State(Seg(s.t, SegOf(H(op.key), |s.t|)), s.count), op)
  }

  /** The segment of a key, as a table that agrees with its part of the map. */
  lemma {:induction false} SegState(H: Hasher, s: State, m: Map, key: bytes)
    requires AllAgree(H, s, m)
    ensures SegOk(SegOf(H(key), |s.t|), |s.t|)
    ensures var q := SegOf(H(key), |s.t|);
            var p := Part(H, m, q, |s.t|);
            && Agrees(H, State(Seg(s.t, q), |p|), p) && |p| <= |m|
            && (key in p <==> key in m) && (key in m ==> p[key] == m[key]) && Lookup(p, key) == Lookup(m, key)
  {
    hide Seg, SegOf, SegOk, LowBit, WellFormed, Contents;
    IdxSplit(H(key), |s.t|);
    var q := SegOf(H(key), |s.t|);
    assert SegAgrees(H, s.t, m, q);
    PartPut(H, m, key, Entry(Null, 0), q, |s.t|);
    SubsetCard(Part(H, m, q, |s.t|).Keys, m.Keys);
    SegShorter(s.t, q);
  }

  lemma {:induction false} SegShorter(t: Slots, q: nat)
    requires |t| > 0 && SegOk(q, |t|)
    ensures |Seg(t, q)| <= |t|
  {
    SegFits(q, |t|);
  }

  /** Such a table is seen as the map. */
  lemma {:induction false} AllServe(H: Hasher, s: State, m: Map)
    requires AllAgree(H, s, m)
    ensures |s.t| > 0 && Serves(H, s, m)
  {
    hide Finds, SegAgrees, SegOk, Seg, SegOf, Agrees;
    forall key | key in m ensures Finds(H, s.t, key, m[key]) { SegServes(H, s, m, key); }
  }

  lemma {:induction false} SegServes(H: Hasher, s: State, m: Map, key: bytes)
    requires AllAgree(H, s, m) && key in m
    ensures |s.t| > 0 && Finds(H, s.t, key, m[key])
  {
    hide Finds, SegAgrees, SegOk, Seg, SegOf, Agrees, Part;
    SegState(H, s, m, key);
    var q := SegOf(H(key), |s.t|);
    AgreesServes(H, State(Seg(s.t, q), |Part(H, m, q, |s.t|)|), Part(H, m, q, |s.t|));
    ProbeCallSeg(H, s.t, key);
  }

  /** What the call does to the part of its own segment, and to the others. */
  lemma {:induction false} PartApply(H: Hasher, m: Map, op: Op, q: nat, cap: nat)
    requires cap > 0
    ensures var p := Part(H, m, q, cap);
            Part(H, Apply(m, op), q, cap) == if SegOf(H(op.key), cap) == q then Apply(p, op) else p
  {
    match op
    case Put(key, e) => PartPut(H, m, key, e, q, cap);
    case Del(key) =>
      hide SegOf;
      var p, p' := Part(H, m, q, cap), Part(H, m - {key}, q, cap);
      assert p' == if SegOf(H(key), cap) == q then p - {key} else p;
  }

  /** The call changes `count`. */
  ghost predicate Moves(H: Hasher, t: Slots, op: Op)
    requires |t| > 0 && Ends(H, t, op)
  {
    match op
    case Put(key, e) => PutCall(H, t, key, e).1
    case Del(key) => ProbeCall(H, t, key).Some?
  }

  function Counted(op: Op, moves: bool, count: nat): nat {
    if !moves then count else if op.Put? then Inc64(count) else Dec64(count)
  }

  lemma {:induction false} CallCount(H: Hasher, s: State, op: Op)
    requires |s.t| > 0 && Ends(H, s.t, op)
    ensures Call(H, s, op).count == Counted(op, Moves(H, s.t, op), s.count)
  {
    hide PutEnds, PutCall, ProbeEnds, ProbeCall;
  }

  lemma {:induction false} ApplyCard(m: Map, op: Op)
    ensures |Apply(m, op)| == if op.Put? then (if op.key in m then |m| else |m| + 1)
                              else (if op.key in m then |m| - 1 else |m|)
    ensures op.key in m ==> |m| > 0
  {
    match op
    case Put(key, e) =>
      assert m[key := e].Keys == m.Keys + {key};
    case Del(key) =>
      RemoveCard(m, key);
  }

  lemma {:induction false} CountSame(m: Map, p: Map, op: Op, moves: bool)
    requires |p| <= |m| && (op.key in p <==> op.key in m) && (op.Put? && moves ==> |m| + 1 < U64)
    ensures Counted(op, moves, |m|) == |Apply(m, op)| <==> Counted(op, moves, |p|) == |Apply(p, op)|
  {
    ApplyCard(m, op);
    ApplyCard(p, op);
    hide Apply;
    CountedSame(op, moves, op.key in m, |m|);
    CountedSame(op, moves, op.key in m, |p|);
  }

  lemma {:induction false} CountedSame(op: Op, moves: bool, live: bool, x: nat)
    requires (op.Put? && moves ==> x + 1 < U64) && (live ==> x > 0)
    ensures var y := if op.Put? then (if live then x else x + 1) else (if live then x - 1 else x);
            Counted(op, moves, x) == y <==> if op.Put? then moves != live else moves == live
  {
  }

  lemma {:induction false} MovesSeg(H: Hasher, t: Slots, op: Op)
    requires |t| > 0
    ensures SegOk(SegOf(H(op.key), |t|), |t|)
    ensures var u := Seg(t, SegOf(H(op.key), |t|));
            (Ends(H, t, op) <==> Ends(H, u, op)) && (Ends(H, t, op) ==> (Moves(H, t, op) <==> Moves(H, u, op)))
  {
    hide Seg, WithSeg, SegOf, SegOk, Base, LowBit, PutEnds, PutCall, ProbeEnds, ProbeCall;
    match op
    case Put(key, e) => PutCallSeg(H, t, key, e);
    case Del(key) => ProbeCallSeg(H, t, key);
  }

  /** `count` is right after the call exactly when it would be in the segment alone. */
  lemma {:induction false} SegCount(H: Hasher, s: State, m: Map, op: Op)
    requires AllAgree(H, s, m) && Ends(H, s.t, op) && (op.Put? ==> Storable(H, op.key))
    ensures SegOk(SegOf(H(op.key), |s.t|), |s.t|)
    ensures var q := SegOf(H(op.key), |s.t|);
            var p := Part(H, m, q, |s.t|);
            Call(H, s, op).count == |Apply(m, op)| <==>
            Call(H, State(Seg(s.t, q), |p|), op).count == |Apply(p, op)|
  {
    AllAgreeIs(H, s, m);
    hide *;
    var t, q := s.t, SegOf(H(op.key), |s.t|);
    SegState(H, s, m, op.key);
    var p := Part(H, m, q, |t|);
    if op.Put? { AddedFits(H, s, m, op); }
    MovesSeg(H, t, op);
    CallCount(H, s, op);
    CallCount(H, State(Seg(t, q), |p|), op);
    CountSame(m, p, op, Moves(H, t, op));
  }

  /** A slot is taken only while there is one more than keys. */
  lemma {:induction false} AddedFits(H: Hasher, s: State, m: Map, op: Op)
    requires AllAgree(H, s, m) && op.Put? && Ends(H, s.t, op) && Storable(H, op.key)
    ensures Moves(H, s.t, op) ==> |m| + 1 < U64
  {
    hide PutLoop, ToU16, SegAgrees, Idx;
    var t := s.t;
    var n: nat :| PutIn(H, t, op.key, op.entry, n).Some?;
    PutCallIs(H, t, op.key, op.entry, n);
    PutCounts(H, t, op.key, op.entry, NewNode(H, op.key, op.entry), Idx(H(op.key), |t|), n);
    LiveAtMost(PutCall(H, t, op.key, op.entry).0, |t|);
    LiveKeys(H, s, m);
  }

  lemma {:induction false} LiveKeys(H: Hasher, s: State, m: Map)
    requires AllAgree(H, s, m)
    ensures |m| <= LiveUpTo(s.t, |s.t|)
  {
    hide SegAgrees;
    forall k | k in m ensures k in Contents(s.t) { LiveInSeg(H, s, m, k); }
    SubsetCard(m.Keys, Contents(s.t).Keys);
    ContentsFew(s.t, |s.t|);
  }

  lemma {:induction false} LiveInSeg(H: Hasher, s: State, m: Map, k: bytes)
    requires AllAgree(H, s, m) && k in m
    ensures k in Contents(s.t)
  {
    hide SegOk, Seg, WellFormed, SegOf, Base, LowBit, Part;
    var t, q := s.t, SegOf(H(k), |s.t|);
    SegState(H, s, m, k);
    assert SegAgrees(H, t, m, q);
    var j := ContentsAt(Seg(t, q), |Seg(t, q)|, k);
    SegAt(t, q, j, t[0]);
    LiveContents(t, |t|, Base(q, |t|) + j);
  }

  lemma {:induction false} LiveContents(t: Slots, n: nat, i: nat)
    requires i < n <= |t| && Live(t[i])
    ensures t[i].key in ContentsUpTo(t, n)
    decreases n
  {
    if i < n - 1 { LiveContents(t, n - 1, i); }
  }

  lemma {:induction false} ContentsFew(t: Slots, n: nat)
    requires n <= |t|
    ensures |ContentsUpTo(t, n)| <= LiveUpTo(t, n)
    decreases n
  {
    if n > 0 {
      ContentsFew(t, n - 1);
      var m, x := ContentsUpTo(t, n - 1), t[n - 1];
      assert m[x.key := x.entry].Keys == m.Keys + {x.key};
    }
  }

  /** Keys of other segments are found as before. */
  lemma {:induction false} OtherKeys(H: Hasher, s: State, m: Map, op: Op, k: bytes)
    requires AllAgree(H, s, m) && k in Apply(m, op) && SegOf(H(k), |s.t|) != SegOf(H(op.key), |s.t|)
    ensures Finds(H, Call(H, s, op).t, k, Apply(m, op)[k])
  {
    hide Finds, SegAgrees, SegOk, Seg, WithSeg, SegOf, Call, LowBit;
    var t, t', q, r := s.t, Call(H, s, op).t, SegOf(H(op.key), |s.t|), SegOf(H(k), |s.t|);
    CallSeg(H, s, op);
    IdxSplit(H(k), |t|);
    OtherSeg(t, q, Call(H, State(Seg(t, q), s.count), op).t, r);
    ProbeCallSeg(H, t, k);
    ProbeCallSeg(H, t', k);
    assert k != op.key && k in m && Apply(m, op)[k] == m[k];
    SegServes(H, s, m, k);
  }

  /** The segment of the key after the call. */
  lemma {:induction false} OwnSeg(H: Hasher, s: State, op: Op, c: nat)
    requires |s.t| > 0
    ensures SegOk(SegOf(H(op.key), |s.t|), |s.t|)
    ensures var q := SegOf(H(op.key), |s.t|);
            Seg(Call(H, s, op).t, q) == Call(H, State(Seg(s.t, q), c), op).t
  {
    hide Seg, WithSeg, SegOf, SegOk, LowBit, PutEnds, ProbeEnds, PutCall, ProbeCall;
    CallSeg(H, s, op);
    var q := SegOf(H(op.key), |s.t|);
    WithSegTwice(s.t, q, Call(H, State(Seg(s.t, q), s.count), op).t, Seg(s.t, q));
  }

  /** The map is seen exactly when `count` is right and the segment of the key shows its part. */
  lemma {:induction false} ServesSeg(H: Hasher, s: State, m: Map, op: Op)
    requires AllAgree(H, s, m) && Ends(H, s.t, op) && (op.Put? ==> Storable(H, op.key))
    ensures SegOk(SegOf(H(op.key), |s.t|), |s.t|)
    ensures var q := SegOf(H(op.key), |s.t|);
            var p := Part(H, m, q, |s.t|);
            Serves(H, Call(H, s, op), Apply(m, op)) <==>
            Serves(H, Call(H, State(Seg(s.t, q), |p|), op), Apply(p, op))
  {
    var t, t', m', q := s.t, Call(H, s, op).t, Apply(m, op), SegOf(H(op.key), |s.t|);
    SegCount(H, s, m, op);
    var p := Part(H, m, q, |t|);
    OwnSeg(H, s, op, |p|);
    PartApply(H, m, op, q, |t|);
    var u' := Call(H, State(Seg(t, q), |p|), op).t;
    hide Finds, SegAgrees, SegOk, Seg, SegOf, Call, AllAgree, Apply, Storable, Ends;
    forall k | k in m' && SegOf(H(k), |t|) == q
      ensures k in Apply(p, op) && Apply(p, op)[k] == m'[k]
      ensures Finds(H, t', k, m'[k]) <==> Finds(H, u', k, m'[k])
    {
      ProbeCallSeg(H, t', k);
    }
    forall k | k in Apply(p, op) ensures k in m' && SegOf(H(k), |t|) == q && m'[k] == Apply(p, op)[k] {}
    forall k | k in m' && SegOf(H(k), |t|) != q ensures Finds(H, t', k, m'[k]) { OtherKeys(H, s, m, op, k); }
  }

  /**
   * At any capacity: a call on a table that agrees with a map comes back, the callers
   * then see the updated map, and the table agrees with it, exactly when the call was
   * allowed in the segment of its key.
   */
  lemma {:induction false} StepExactly(H: Hasher, s: State, m: Map, op: Op)
    requires AllAgree(H, s, m)
    ensures Ends(H, s.t, op) && Serves(H, Call(H, s, op), Apply(m, op)) <==> SegAllowed(H, s, op)
    ensures Ends(H, s.t, op) && AllAgree(H, Call(H, s, op), Apply(m, op)) <==> SegAllowed(H, s, op)
  {
    hide *;
    AllAgreeIs(H, s, m);
    SegState(H, s, m, op.key);
    var q := SegOf(H(op.key), |s.t|);
    var p := Part(H, m, q, |s.t|);
    var v := State(Seg(s.t, q), |p|);
    StepRefines(H, v, p, op);
    CallSeg(H, s, op);
    AllowedSeg(H, s, op, |p|);
    if op.Put? && !Storable(H, op.key) {
      UnstorableAt(H, s, m, op);
      if Ends(H, s.t, op) && AllAgree(H, Call(H, s, op), Apply(m, op)) { AllServe(H, Call(H, s, op), Apply(m, op)); }
    } else if Ends(H, s.t, op) {
      ServesSeg(H, s, m, op);
      if SegAllowed(H, s, op) { AgreesNext(H, s, m, op); }
      if AllAgree(H, Call(H, s, op), Apply(m, op)) { AllServe(H, Call(H, s, op), Apply(m, op)); }
    }
  }

  lemma {:induction false} AllAgreeIs(H: Hasher, s: State, m: Map)
    requires AllAgree(H, s, m)
    ensures 0 < |s.t| < U64 && s.count == |m|
  {
  }

  lemma {:induction false} AllowedSeg(H: Hasher, s: State, op: Op, c: nat)
    requires |s.t| > 0 && SegOk(SegOf(H(op.key), |s.t|), |s.t|)
    ensures SegAllowed(H, s, op) <==> Allowed(H, State(Seg(s.t, SegOf(H(op.key), |s.t|)), c), op)
    ensures SegAllowed(H, s, op) && op.Put? ==> Storable(H, op.key)
  {
    hide Storable, InsertKeeps, Room, Buried, Endless, SegOf, SegOk, Seg;
  }

  lemma {:induction false} UnstorableAt(H: Hasher, s: State, m: Map, op: Op)
    requires AllAgree(H, s, m) && op.Put? && !Storable(H, op.key)
    ensures Ends(H, s.t, op) ==> !Serves(H, Call(H, s, op), Apply(m, op))
  {
    hide SegOk, Seg, SegOf, WellFormed, Contents, Storable, Call, Ends, Finds, LowBit;
    var t, q := s.t, SegOf(H(op.key), |s.t|);
    SegState(H, s, m, op.key);
    CallSeg(H, s, op);
    OwnSeg(H, s, op, s.count);
    assert SegAgrees(H, t, m, q);
    UnstorableMissed(H, State(Seg(t, q), s.count), op);
    ProbeCallSeg(H, Call(H, s, op).t, op.key);
    assert op.key in Apply(m, op);
  }

  /** The invariant after a call that is seen as the map, when its segment agrees. */
  lemma {:induction false} AgreesNext(H: Hasher, s: State, m: Map, op: Op)
    requires AllAgree(H, s, m) && SegOk(SegOf(H(op.key), |s.t|), |s.t|)
    requires Serves(H, Call(H, s, op), Apply(m, op))
    requires var q := SegOf(H(op.key), |s.t|);
             var p := Part(H, m, q, |s.t|);
             Agrees(H, Call(H, State(Seg(s.t, q), |p|), op), Apply(p, op))
    ensures AllAgree(H, Call(H, s, op), Apply(m, op))
  {
    hide SegOk, Seg, WithSeg, SegOf, WellFormed, Contents, Call, LowBit, Finds, Part, Apply, IsPow2;
    var t, t', q := s.t, Call(H, s, op).t, SegOf(H(op.key), |s.t|);
    OwnSeg(H, s, op, |Part(H, m, q, |t|)|);
    CallSeg(H, s, op);
    var v := Call(H, State(Seg(t, q), s.count), op);
    forall r | SegOk(r, |t'|) ensures SegAgrees(H, t', Apply(m, op), r) {
      PartApply(H, m, op, r, |t|);
      if r != q {
        OtherSeg(t, q, v.t, r);
        assert SegAgrees(H, t, m, r);
      }
    }
  }

  // ---- runs ----

  ghost predicate SegAllowedRun(H: Hasher, s: State, ops: seq<Op>)
    requires |s.t| > 0
    decreases |ops|
  {
    ops == [] || (SegAllowed(H, s, ops[0]) && SegAllowedRun(H, Call(H, s, ops[0]), ops[1..]))
  }

  lemma {:induction false} CreateAll(H: Hasher, cap: nat)
    requires 0 < cap < U64
    ensures AllAgree(H, Create(cap), map[])
  {
    hide SegOk, Seg, WellFormed, Contents, NoTombs, LowBit, SegOf;
    PartsCreate(H, cap);
    forall q | SegOk(q, cap) ensures SegAgrees(H, Create(cap).t, map[], q) {
      assert PartAt(H, Create(cap).t, map[], q);
    }
  }

  /** After the first k calls the callers see the map of those calls. */
  ghost predicate SeenAt(H: Hasher, s: State, m: Map, ops: seq<Op>, k: nat)
    requires |s.t| > 0 && k <= |ops|
  {
    Serves(H, CallRun(H, s, ops[..k]), ApplyAll(m, ops[..k]))
  }

  lemma {:induction false} SeenNext(H: Hasher, s: State, m: Map, ops: seq<Op>)
    requires |s.t| > 0
    ensures SeenAt(H, s, m, ops, 0) <==> Serves(H, s, m)
    ensures ops != [] ==> forall k | 0 <= k < |ops| ::
              SeenAt(H, s, m, ops, k + 1) <==> SeenAt(H, Call(H, s, ops[0]), Apply(m, ops[0]), ops[1..], k)
  {
    hide Serves, Call, Apply;
    assert ops[..0] == [];
    forall k | 0 <= k < |ops|
      ensures SeenAt(H, s, m, ops, k + 1) <==> SeenAt(H, Call(H, s, ops[0]), Apply(m, ops[0]), ops[1..], k)
    {
      assert ops[..k + 1][1..] == ops[1..][..k] && ops[..k + 1][0] == ops[0];
    }
  }

  /**
   * Whole runs of puts and deletes, at any capacity: all calls come back and at every
   * moment the callers see the map of the calls so far, exactly when each call was
   * allowed in the segment of its key.
   */
  lemma {:induction false} RunExactlyAll(H: Hasher, s: State, m: Map, ops: seq<Op>)
    requires AllAgree(H, s, m)
    ensures |s.t| > 0
    ensures SegAllowedRun(H, s, ops) <==>
            EndRun(H, s, ops) && forall k | 0 <= k <= |ops| :: SeenAt(H, s, m, ops, k)
    decreases |ops|
  {
    AllServe(H, s, m);
    hide AllAgree, Serves, SegAllowed, Ends, Call, Apply, SeenAt;
    SeenNext(H, s, m, ops);
    if ops != [] {
      var s', m', rest := Call(H, s, ops[0]), Apply(m, ops[0]), ops[1..];
      StepExactly(H, s, m, ops[0]);
      SeenNext(H, s', m', rest);
      if SegAllowed(H, s, ops[0]) {
        RunExactlyAll(H, s', m', rest);
        forall k | 0 <= k <= |ops| ensures SeenAt(H, s, m, ops, k) <==> k == 0 || SeenAt(H, s', m', rest, k - 1) { }
        forall k | 0 <= k <= |rest| ensures SeenAt(H, s', m', rest, k) <==> SeenAt(H, s, m, ops, k + 1) { }
      } else if Ends(H, s.t, ops[0]) {
        assert !SeenAt(H, s, m, ops, 0 + 1);
      }
    }
  }

  /** After an allowed run the table agrees with the map still. */
  lemma {:induction false} RunAgrees(H: Hasher, s: State, m: Map, ops: seq<Op>)
    requires AllAgree(H, s, m)
    ensures |s.t| > 0
    ensures SegAllowedRun(H, s, ops) ==> AllAgree(H, CallRun(H, s, ops), ApplyAll(m, ops))
    decreases |ops|
  {
    AllAgreeIs(H, s, m);
    hide AllAgree, Serves, SegAllowed, Ends, Call, Apply;
    if ops != [] {
      StepExactly(H, s, m, ops[0]);
      if SegAllowed(H, s, ops[0]) { RunAgrees(H, Call(H, s, ops[0]), Apply(m, ops[0]), ops[1..]); }
    }
  }

  /**
   * After such a run hm_get comes back for a key unless a whole round of its segment does
   * not stop the probe, always for a key of the map, and then answers from the map exactly
   * when no tombstone of the key that points at a value is where the search gets.
   */
  lemma {:induction false} GetExactly(H: Hasher, s: State, m: Map, key: bytes)
    requires AllAgree(H, s, m)
    ensures |s.t| > 0 && SegOk(SegOf(H(key), |s.t|), |s.t|)
    ensures var u := Seg(s.t, SegOf(H(key), |s.t|));
            && (ProbeEnds(H, s.t, key) <==> !Endless(H, u, key))
            && (key in m ==> ProbeEnds(H, s.t, key))
            && (ProbeEnds(H, s.t, key) ==> (GetCall(H, s.t, key) == Lookup(m, key) <==> !BuriedValue(u, key)))
  {
    hide SegOk, Seg, SegOf, ProbeEnds, GetCall, Contents, Endless, BuriedValue, WellFormed, Lookup, Part;
    var q := SegOf(H(key), |s.t|);
    SegState(H, s, m, key);
    assert SegAgrees(H, s.t, m, q);
    GetIsLookup(H, Seg(s.t, q), key);
    ProbeCallSeg(H, s.t, key);
  }
}
