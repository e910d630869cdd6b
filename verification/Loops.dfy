/**
 * The loops of src/core/hashmap/hashmap.c as they are: slots by masking with
 * capacity - 1, for any capacity, 16-bit distances, and any contents of the slots.
 */
module Loops {
  import opened Bytes
  import opened Bits
  import opened Table

  /** idx, and the step to the next slot. */
  function Idx(x: nat, cap: nat): (i: nat)
    requires cap > 0
    ensures i < cap
  {
    BitAnd(x, cap - 1)
  }

  // ---- the loops, cut off after n rounds ----

  function PutLoop(H: Hasher, t: Slots, key: bytes, e: Entry, cur: Node, i: nat, n: nat): (r: Option<(Slots, bool)>)
    requires i < |t|
    ensures r.Some? ==> |r.value.0| == |t|
    decreases n
  {
    if n == 0 then None
    else if Free(t[i]) then Some((t[i := cur], true))
    else if Matches(H, t[i], key) then Some((t[i := t[i].(entry := e)], false))
    else if t[i].dib < cur.dib then
      PutLoop(H, t[i := cur], key, e, t[i].(dib := Inc16(t[i].dib)), Idx(i + 1, |t|), n - 1)
    else
      PutLoop(H, t, key, e, cur.(dib := Inc16(cur.dib)), Idx(i + 1, |t|), n - 1)
  }

  /** The loop of hm_get and hm_delete: None while it goes on, then the slot found, if any. */
  function ProbeLoop(H: Hasher, t: Slots, key: bytes, i: nat, dib: nat, n: nat): (r: Option<Option<nat>>)
    requires i < |t|
    ensures r.Some? && r.value.Some? ==> r.value.value < |t|
    decreases n
  {
    if n == 0 then None
    else if !Occupied(t[i]) || dib > t[i].dib then Some(None)
    else if Matches(H, t[i], key) then Some(Some(i))
    else ProbeLoop(H, t, key, Idx(i + 1, |t|), Inc16(dib), n - 1)
  }

  function PutIn(H: Hasher, t: Slots, key: bytes, e: Entry, n: nat): (r: Option<(Slots, bool)>)
    requires |t| > 0
    ensures r.Some? ==> |r.value.0| == |t|
  {
    PutLoop(H, t, key, e, NewNode(H, key, e), Idx(H(key), |t|), n)
  }

  function ProbeIn(H: Hasher, t: Slots, key: bytes, n: nat): (r: Option<Option<nat>>)
    requires |t| > 0
    ensures r.Some? && r.value.Some? ==> r.value.value < |t|
  {
    ProbeLoop(H, t, key, Idx(H(key), |t|), 0, n)
  }

  lemma {:induction false} PutLoopMore(H: Hasher, t: Slots, key: bytes, e: Entry, cur: Node, i: nat, n: nat, m: nat)
    requires i < |t| && PutLoop(H, t, key, e, cur, i, n).Some? && n <= m
    ensures PutLoop(H, t, key, e, cur, i, m) == PutLoop(H, t, key, e, cur, i, n)
    decreases n
  {
    if !Free(t[i]) && !Matches(H, t[i], key) {
      if t[i].dib < cur.dib {
        PutLoopMore(H, t[i := cur], key, e, t[i].(dib := Inc16(t[i].dib)), Idx(i + 1, |t|), n - 1, m - 1);
      } else {
        PutLoopMore(H, t, key, e, cur.(dib := Inc16(cur.dib)), Idx(i + 1, |t|), n - 1, m - 1);
      }
    }
  }

  lemma {:induction false} ProbeLoopMore(H: Hasher, t: Slots, key: bytes, i: nat, dib: nat, n: nat, m: nat)
    requires i < |t| && ProbeLoop(H, t, key, i, dib, n).Some? && n <= m
    ensures ProbeLoop(H, t, key, i, dib, m) == ProbeLoop(H, t, key, i, dib, n)
    decreases n
  {
    if Occupied(t[i]) && dib <= t[i].dib && !Matches(H, t[i], key) {
      ProbeLoopMore(H, t, key, Idx(i + 1, |t|), Inc16(dib), n - 1, m - 1);
    }
  }

  // ---- calls ----

  ghost predicate PutEnds(H: Hasher, t: Slots, key: bytes, e: Entry)
    requires |t| > 0
  {
    exists n: nat :: PutIn(H, t, key, e, n).Some?
  }

  ghost predicate ProbeEnds(H: Hasher, t: Slots, key: bytes)
    requires |t| > 0
  {
    exists n: nat :: ProbeIn(H, t, key, n).Some?
  }

  /** hm_insert, when its loop ends: the new slots, and whether `count` grew. */
  ghost function PutCall(H: Hasher, t: Slots, key: bytes, e: Entry): (r: (Slots, bool))
    requires |t| > 0 && PutEnds(H, t, key, e)
    ensures |r.0| == |t|
  {
    var n: nat :| PutIn(H, t, key, e, n).Some?;
    PutIn(H, t, key, e, n).value
  }

  /** The slot that hm_get and hm_delete find, when their loop ends. */
  ghost function ProbeCall(H: Hasher, t: Slots, key: bytes): (r: Option<nat>)
    requires |t| > 0 && ProbeEnds(H, t, key)
    ensures r.Some? ==> r.value < |t|
  {
    var n: nat :| ProbeIn(H, t, key, n).Some?;
    ProbeIn(H, t, key, n).value
  }

  /** The call does what its loop does in any number of rounds that ends it. */
  lemma {:induction false} PutCallIs(H: Hasher, t: Slots, key: bytes, e: Entry, n: nat)
    requires |t| > 0 && PutIn(H, t, key, e, n).Some?
    ensures PutEnds(H, t, key, e) && PutCall(H, t, key, e) == PutIn(H, t, key, e, n).value
  {
    hide PutLoop;
    var m: nat :| PutIn(H, t, key, e, m).Some? && PutCall(H, t, key, e) == PutIn(H, t, key, e, m).value;
    assert PutIn(H, t, key, e, m) == PutLoop(H, t, key, e, NewNode(H, key, e), Idx(H(key), |t|), m);
    var cur, i := NewNode(H, key, e), Idx(H(key), |t|);
    if n <= m { PutLoopMore(H, t, key, e, cur, i, n, m); } else { PutLoopMore(H, t, key, e, cur, i, m, n); }
  }

  lemma {:induction false} ProbeCallIs(H: Hasher, t: Slots, key: bytes, n: nat)
    requires |t| > 0 && ProbeIn(H, t, key, n).Some?
    ensures ProbeEnds(H, t, key) && ProbeCall(H, t, key) == ProbeIn(H, t, key, n).value
  {
    hide ProbeLoop;
    var m: nat :| ProbeIn(H, t, key, m).Some? && ProbeCall(H, t, key) == ProbeIn(H, t, key, m).value;
    assert ProbeIn(H, t, key, m) == ProbeLoop(H, t, key, Idx(H(key), |t|), 0, m);
    var i := Idx(H(key), |t|);
    if n <= m { ProbeLoopMore(H, t, key, i, 0, n, m); } else { ProbeLoopMore(H, t, key, i, 0, m, n); }
  }

  /** hm_get, when its loop ends. */
  ghost function GetCall(H: Hasher, t: Slots, key: bytes): Value
    requires |t| > 0 && ProbeEnds(H, t, key)
  {
    match ProbeCall(H, t, key) case None => Null case Some(i) => t[i].entry.value
  }

  ghost predicate Ends(H: Hasher, t: Slots, op: Op)
    requires |t| > 0
  {
    match op
    case Put(key, e) => PutEnds(H, t, key, e)
    case Del(key) => ProbeEnds(H, t, key)
  }

  /** One call of hm_insert or hm_delete; one that never ends leaves no new state. */
  ghost function Call(H: Hasher, s: State, op: Op): (s': State)
    requires |s.t| > 0
    ensures |s'.t| == |s.t|
  {
    if !Ends(H, s.t, op) then s
    else
      match op
      case Put(key, e) =>
        var (t', added) := PutCall(H, s.t, key, e);
        State(t', if added then Inc64(s.count) else s.count)
      case Del(key) =>
        match ProbeCall(H, s.t, key)
        case None => s
        case Some(i) => State(s.t[i := s.t[i].(tomb := true)], Dec64(s.count))
  }

  ghost function CallRun(H: Hasher, s: State, ops: seq<Op>): (s': State)
    requires |s.t| > 0
    ensures |s'.t| == |s.t|
    decreases |ops|
  {
    if ops == [] then s else CallRun(H, Call(H, s, ops[0]), ops[1..])
  }

  ghost predicate EndRun(H: Hasher, s: State, ops: seq<Op>)
    requires |s.t| > 0
    decreases |ops|
  {
    ops == [] || (Ends(H, s.t, ops[0]) && EndRun(H, Call(H, s, ops[0]), ops[1..]))
  }

  lemma {:induction false} CallRunSnoc(H: Hasher, s: State, ops: seq<Op>, op: Op)
    requires |s.t| > 0
    ensures CallRun(H, s, ops + [op]) == Call(H, CallRun(H, s, ops), op)
    ensures EndRun(H, s, ops + [op]) <==> EndRun(H, s, ops) && Ends(H, CallRun(H, s, ops).t, op)
    decreases |ops|
  {
    hide Call, Ends;
    if ops == [] {
      assert ([] + [op])[1..] == [];
    } else {
      assert (ops + [op])[1..] == ops[1..] + [op];
      CallRunSnoc(H, Call(H, s, ops[0]), ops[1..], op);
    }
  }

  // ---- keys that the table cannot hold ----

  lemma {:induction false} ProbeMatches(H: Hasher, t: Slots, key: bytes, i: nat, dib: nat, n: nat)
    requires i < |t|
    ensures var x := ProbeLoop(H, t, key, i, dib, n);
            x.Some? && x.value.Some? ==> Occupied(t[x.value.value]) && Matches(H, t[x.value.value], key)
    decreases n
  {
    hide Idx;
    if n != 0 { ProbeMatches(H, t, key, Idx(i + 1, |t|), Inc16(dib), n - 1); }
  }

  /** Inserting makes no slot with a length field beyond 16 bits. */
  lemma {:induction false} PutShort(H: Hasher, t: Slots, key: bytes, e: Entry, cur: Node, i: nat, n: nat)
    requires i < |t| && cur.keyLen < U16 && forall j | 0 <= j < |t| :: Occupied(t[j]) ==> t[j].keyLen < U16
    ensures var r := PutLoop(H, t, key, e, cur, i, n);
            r.Some? ==> forall j | 0 <= j < |t| :: Occupied(r.value.0[j]) ==> r.value.0[j].keyLen < U16
    decreases n
  {
    hide Idx, Matches;
    if n != 0 && !Free(t[i]) && !Matches(H, t[i], key) {
      if t[i].dib < cur.dib {
        PutShort(H, t[i := cur], key, e, t[i].(dib := Inc16(t[i].dib)), Idx(i + 1, |t|), n - 1);
      } else {
        var next := cur.(dib := Inc16(cur.dib));
        assert next.keyLen < U16;
        PutShort(H, t, key, e, next, Idx(i + 1, |t|), n - 1);
      }
    }
  }

  /** A key that hashes to 0, or is too long for its 16-bit length field, is never found. */
  lemma {:induction false} UnstorableIsLost(H: Hasher, t: Slots, key: bytes)
    requires |t| > 0 && (forall i | 0 <= i < |t| :: Occupied(t[i]) ==> t[i].keyLen < U16)
    requires !Storable(H, key) && ProbeEnds(H, t, key)
    ensures ProbeCall(H, t, key) == None
  {
    var n: nat :| ProbeIn(H, t, key, n).Some?;
    ProbeCallIs(H, t, key, n);
    ProbeMatches(H, t, key, Idx(H(key), |t|), 0, n);
    hide ProbeLoop, Idx;
  }

  /** At any capacity a put into a new table is answered by the next get exactly when the key is storable. */
  lemma {:induction false} StorableExactly(H: Hasher, cap: nat, key: bytes, e: Entry)
    requires cap > 0 && e.value != Null
    ensures Ends(H, Create(cap).t, Put(key, e))
    ensures var t := Call(H, Create(cap), Put(key, e)).t;
            ProbeEnds(H, t, key) && (GetCall(H, t, key) == e.value <==> Storable(H, key))
  {
    var i, cur := Idx(H(key), cap), NewNode(H, key, e);
    hide Idx;
    PutCallIs(H, Create(cap).t, key, e, 1);
    var t := Call(H, Create(cap), Put(key, e)).t;
    assert t == Create(cap).t[i := cur];
    NewNodeMatches(H, key, e);
    ProbeUnfold(H, t, key, i, 0, 2);
    ProbeUnfold(H, t, key, Idx(i + 1, cap), 1, 1);
    ProbeCallIs(H, t, key, 2);
  }

  lemma {:induction false} ProbeUnfold(H: Hasher, t: Slots, key: bytes, i: nat, dib: nat, n: nat)
    requires i < |t| && n > 0
    ensures ProbeLoop(H, t, key, i, dib, n) ==
            if !Occupied(t[i]) || dib > t[i].dib then Some(None)
            else if Matches(H, t[i], key) then Some(Some(i))
            else ProbeLoop(H, t, key, Idx(i + 1, |t|), Inc16(dib), n - 1)
  {
  }
}
