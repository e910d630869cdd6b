/**
 * The hash table against a plain map: what the calls of hm_insert, hm_get and hm_delete
 * do to the live entries, over single calls and over whole runs, at a capacity that is a
 * power of two.
 */
module Runs {
  import opened Bytes
  import opened Bits
  import opened Table
  import opened Loops
  import opened Segments

  type Map = map<bytes, Entry>

  // ---- the live entries as a map ----

  function ContentsUpTo(t: Slots, n: nat): Map
    requires n <= |t|
  {
    if n == 0 then map[]
    else
      var m := ContentsUpTo(t, n - 1);
      if Live(t[n - 1]) then m[t[n - 1].key := t[n - 1].entry] else m
  }

  /** The live entries of the table. */
  function Contents(t: Slots): Map {
    ContentsUpTo(t, |t|)
  }

  function LiveUpTo(t: Slots, n: nat): nat
    requires n <= |t|
  {
    if n == 0 then 0 else LiveUpTo(t, n - 1) + (if Live(t[n - 1]) then 1 else 0)
  }

  lemma {:induction false} ContentsAt(t: Slots, n: nat, q: bytes) returns (i: nat)
    requires n <= |t| && q in ContentsUpTo(t, n)
    ensures i < n && Binds(t[i], q, ContentsUpTo(t, n)[q])
    decreases n
  {
    if Live(t[n - 1]) && t[n - 1].key == q { i := n - 1; } else { i := ContentsAt(t, n - 1, q); }
  }

  lemma {:induction false} ContentsBinds(t: Slots, n: nat, i: nat)
    requires LiveUnique(t) && i < n <= |t| && Live(t[i])
    ensures t[i].key in ContentsUpTo(t, n) && ContentsUpTo(t, n)[t[i].key] == t[i].entry
    decreases n
  {
    if i < n - 1 { ContentsBinds(t, n - 1, i); }
  }

  lemma {:induction false} ContentsCard(t: Slots, n: nat)
    requires LiveUnique(t) && n <= |t|
    ensures |ContentsUpTo(t, n)| == LiveUpTo(t, n)
  {
    if n != 0 {
      ContentsCard(t, n - 1);
      if Live(t[n - 1]) && t[n - 1].key in ContentsUpTo(t, n - 1) {
        var i := ContentsAt(t, n - 1, t[n - 1].key);
      }
    }
  }

  /** Contents holds exactly what some live slot binds, one binding per live slot. */
  lemma {:induction false} ContentsHas(t: Slots, q: bytes, x: Entry)
    requires LiveUnique(t)
    ensures Has(t, q, x) <==> q in Contents(t) && Contents(t)[q] == x
    ensures |Contents(t)| == LiveUpTo(t, |t|)
  {
    ContentsCard(t, |t|);
    if Has(t, q, x) {
      var i :| 0 <= i < |t| && Binds(t[i], q, x);
      ContentsBinds(t, |t|, i);
    }
    if q in Contents(t) {
      var i := ContentsAt(t, |t|, q);
    }
  }

  lemma {:induction false} LiveIsIn(t: Slots, q: bytes)
    requires LiveUnique(t)
    ensures LiveKey(t, q) <==> q in Contents(t)
  {
    if LiveKey(t, q) {
      var i :| 0 <= i < |t| && Live(t[i]) && t[i].key == q;
      ContentsBinds(t, |t|, i);
    }
    if q in Contents(t) {
      var i := ContentsAt(t, |t|, q);
    }
  }

  lemma {:induction false} SetsContents(t: Slots, t': Slots, key: bytes, e: Entry)
    requires LiveUnique(t) && LiveUnique(t') && Sets(t, t', key, e)
    ensures Contents(t') == Contents(t)[key := e]
  {
    var m, m' := Contents(t), Contents(t');
    forall q
      ensures q in m' <==> q == key || q in m
      ensures q in m' ==> m'[q] == if q == key then e else m[q]
    {
      ContentsHas(t', q, e);
      if q in m' { ContentsHas(t', q, m'[q]); ContentsHas(t, q, m'[q]); }
      if q in m { ContentsHas(t, q, m[q]); ContentsHas(t', q, m[q]); }
    }
  }

  // ---- hm_insert ----

  lemma {:induction false} RoomInserts(H: Hasher, t: Slots, key: bytes, e: Entry)
    requires WellFormed(H, t) && Storable(H, key) && Room(t, key)
    ensures PutEnds(H, t, key, e)
    ensures var r, (t', added) := Insert(H, t, key, e), PutCall(H, t, key, e);
            r == Some((t', added)) && InsertSpec(H, t, key, e, t', added)
  {
    if LiveKey(t, key) { InsertOfLive(H, t, key, e); } else { InsertOfNew(H, t, key, e); }
    hide Insert, InsertSpec, Storable, PutEnds, PutCall;
    PutIsInsert(H, t, key, e);
  }

  /**
   * hm_insert on a key that is live, or with a free slot: the table stays well formed
   * exactly when InsertKeeps holds, and then its entries are the old ones with the key
   * bound to the new value, and a slot is taken, and `count` grows, exactly when the key
   * was not live. When it fails, a live key is counted again, or another live key is not
   * found any more.
   */
  lemma {:induction false} InsertIsUpdate(H: Hasher, t: Slots, key: bytes, e: Entry)
    requires WellFormed(H, t) && Storable(H, key) && Room(t, key)
    ensures PutEnds(H, t, key, e)
    ensures var (t', added) := PutCall(H, t, key, e);
            && (WellFormed(H, t') <==> InsertKeeps(H, t, key))
            && (InsertKeeps(H, t, key) ==>
                  && Contents(t') == Contents(t)[key := e]
                  && (added <==> key !in Contents(t)))
            && (!InsertKeeps(H, t, key) ==> if key in Contents(t) then added else Loses(H, t, t', key))
            && Conserves(t, t', key)
  {
    hide Insert, InsertKeeps, Room, Storable, Contents, Loses, PutEnds, PutCall, Conserves;
    RoomInserts(H, t, key, e);
    KeysUnique(H, t);
    LiveIsIn(t, key);
    var t' := PutCall(H, t, key, e).0;
    if InsertKeeps(H, t, key) {
      KeysUnique(H, t');
      SetsContents(t, t', key, e);
    }
  }

  ghost predicate NoTombs(t: Slots) {
    forall i | 0 <= i < |t| :: Occupied(t[i]) ==> !t[i].tomb
  }

  /** Without tombstones every insertion keeps the table. */
  lemma {:induction false} InsertWithoutTombs(H: Hasher, t: Slots, key: bytes)
    requires |t| > 0 && NoTombs(t)
    ensures InsertKeeps(H, t, key)
  {
  }

  /**
   * A deleted key comes back safely when the search still finds its tombstone and the
   * table has no tombstone of another key.
   */
  lemma {:induction false} ReinsertKeeps(H: Hasher, t: Slots, key: bytes)
    requires WellFormed(H, t) && Storable(H, key) && Buried(t, key)
    requires forall i | 0 <= i < |t| && Occupied(t[i]) && t[i].tomb :: t[i].key == key
    ensures InsertKeeps(H, t, key)
  {
    hide *;
    var j := StopAtTomb(H, t, key);
    var (s, c) := Stop(H, t, key);
    if Occupied(t[s]) && t[s].tomb { OwnTombCuts(H, t, key, s, c, j); }
    KeepsUnfold(H, t, key);
  }

  lemma {:induction false} KeepsUnfold(H: Hasher, t: Slots, key: bytes)
    requires |t| > 0
    ensures var (s, c) := Stop(H, t, key);
            InsertKeeps(H, t, key) <==> (Occupied(t[s]) && t[s].tomb ==> !LiveKey(t, key) && !Cuts(t, s, c))
  {
  }

  /** The walk to a key whose tombstone can be found ends there or at a tombstone before it. */
  lemma {:induction false} StopAtTomb(H: Hasher, t: Slots, key: bytes) returns (j: nat)
    requires WellFormed(H, t) && Storable(H, key) && Buried(t, key)
    ensures j < |t| && BuriedAt(t, key, j)
    ensures var (s, c) := Stop(H, t, key); s < |t| && c == ToU16(Dist(Home(H(key), |t|), s, |t|))
  {
    j :| 0 <= j < |t| && BuriedAt(t, key, j);
    assert NodeOk(H, t[j], j, |t|);
    ToU16Next(0);
    hide StopFrom, InsertFrom, Open, NodesOk, AllOpen, Matches, ToU16;
    InsertStored(H, t, key, Entry(Null, 0), 0, j, 2 * |t| + 2, |t|);
    assert At(Home(H(key), |t|), 0, |t|) == Home(H(key), |t|);
  }

  /** A node of the key in place of the key's own tombstone cuts nothing off. */
  lemma {:induction false} OwnTombCuts(H: Hasher, t: Slots, key: bytes, s: nat, c: nat, j: nat)
    requires WellFormed(H, t) && s < |t| && j < |t| && BuriedAt(t, key, j)
    requires Occupied(t[s]) && t[s].tomb && t[s].key == key && c == ToU16(Dist(Home(H(key), |t|), s, |t|))
    ensures !LiveKey(t, key) && !Cuts(t, s, c)
  {
    hide ToU16, Own, Find;
    FindCases(H, t, key);
    FindExactly(H, t, key, j);
    assert NodeOk(H, t[s], s, |t|) && NodeOk(H, t[j], j, |t|);
    forall i | 0 <= i < |t| && Live(t[i]) ensures !Deeper(t[i], i, s, c, |t|) {
      assert Open(t, t[i], i);
      OwnTombDepth(t[s], key, s, c, |t|);
    }
  }

  lemma {:induction false} OwnTombDepth(n: Node, key: bytes, s: nat, c: nat, cap: nat)
    requires s < cap && n.dib == ToU16(Own(n, s, cap)) && c == ToU16(Dist(Home(n.hash, cap), s, cap))
    ensures n.dib == c
  {
  }

  // ---- hm_insert on a full table ----

  /** t' has the entries of t and of `cur`, except that the node v is gone. */
  ghost predicate Drops(t: Slots, t': Slots, cur: Node, v: Node) {
    && Live(v) && (forall x :: !Has(t', v.key, x)) && v.key != cur.key
    && forall q, x :: Has(t', q, x) || Binds(v, q, x) <==> Has(t, q, x) || Binds(cur, q, x)
  }

  /** With the new key already placed at p, the walk goes on until it meets it there. */
  lemma {:induction false} FullRound(H: Hasher, t: Slots, key: bytes, e: Entry, cur: Node, i: nat, p: nat, n: nat)
    returns (v: Node)
    requires i < |t| && p < |t| && NoneFree(t) && LiveUnique(t) && !LiveKey(t, cur.key)
    requires (forall j | 0 <= j < |t| :: KeyOk(H, t[j])) && KeyOk(H, cur) && Live(cur)
    requires t[p].key == key && t[p].entry == e && n > Dist(i, p, |t|)
    ensures var r := InsertFrom(H, t, key, e, cur, i, n);
            && r.Some? && !r.value.1 && Live(v) && v.key != key
            && (forall x :: !Has(r.value.0, v.key, x))
            && forall q, x :: Has(r.value.0, q, x) || Binds(v, q, x) <==> Has(t, q, x) || Binds(cur, q, x)
    decreases Dist(i, p, |t|)
  {
    MatchesIsKey(H, t[i], key);
    if i == p {
      v := cur;
      assert t[i := t[i].(entry := e)] == t;
    } else {
      var k := Next(i, |t|);
      if t[i].dib < cur.dib {
        var cur1 := Deepen(t[i]);
        v := FullRound(H, t[i := cur], key, e, cur1, k, p, n - 1);
        forall q, x ensures Has(t[i := cur], q, x) || Binds(cur1, q, x) <==> Has(t, q, x) || Binds(cur, q, x) {
          HasUpdate(t, i, cur, q, x);
        }
      } else {
        v := FullRound(H, t, key, e, Deepen(cur), k, p, n - 1);
      }
    }
  }

  /** The walk of a new key through a full table displaces some node within one round. */
  lemma {:induction false} FullWalk(H: Hasher, t: Slots, key: bytes, e: Entry, d: nat, n: nat)
    returns (v: Node)
    requires WellFormed(H, t) && NoneFree(t) && Storable(H, key) && !LiveKey(t, key) && !Endless(H, t, key)
    requires d <= |t| && n > 2 * |t| - d && Passed(H, t, key, d)
    ensures var r := InsertFrom(H, t, key, e, NewNode(H, key, e).(dib := ToU16(d)), At(Home(H(key), |t|), d, |t|), n);
            r.Some? && !r.value.1 && Drops(t, r.value.0, NewNode(H, key, e), v)
    decreases |t| - d
  {
    hide WellFormed, NoneFree, Storable, LiveKey, InsertFrom, Matches, At, Home, Next, Free, NewNode, Endless, Passed;
    hide ToU16;
    WalkSlot(H, t, key, e, d);
    var i := At(Home(H(key), |t|), d, |t|);
    var cur := NewNode(H, key, e).(dib := ToU16(d));
    InsertStep(H, t, key, e, cur, i, n);
    if t[i].dib < ToU16(d) {
      v := FullSwap(H, t, key, e, cur, i, n);
      assert forall q, x :: Binds(cur, q, x) <==> Binds(NewNode(H, key, e), q, x);
    } else {
      v := FullWalk(H, t, key, e, d + 1, n - 1);
    }
  }

  /** What the walk of a new key meets d steps from home. */
  lemma {:induction false} WalkSlot(H: Hasher, t: Slots, key: bytes, e: Entry, d: nat)
    requires WellFormed(H, t) && NoneFree(t) && Storable(H, key) && !LiveKey(t, key) && !Endless(H, t, key)
    requires d <= |t| && Passed(H, t, key, d)
    ensures var i, cur := At(Home(H(key), |t|), d, |t|), NewNode(H, key, e).(dib := ToU16(d));
            && i < |t| && !Free(t[i]) && !Matches(H, t[i], key)
            && KeyOk(H, cur) && Live(cur) && cur.key == key && cur.entry == e
            && (t[i].dib >= ToU16(d) ==>
                  && d < |t| && Next(i, |t|) == At(Home(H(key), |t|), d + 1, |t|)
                  && Deepen(cur) == NewNode(H, key, e).(dib := ToU16(d + 1)) && Passed(H, t, key, d + 1))
  {
    hide AllOpen, IsPow2;
    var h := Home(H(key), |t|);
    var i := At(h, d, |t|);
    assert NodeOk(H, t[i], i, |t|);
    MatchesIsKey(H, t[i], key);
    ToU16Next(|key|);
    ToU16Next(d);
    ToU16Next(Own(t[i], i, |t|));
    hide ToU16, Home;
    if d < |t| {
      NextAt(h, d, |t|);
      if t[i].dib >= ToU16(d) { PassedNext(H, t, key, d); }
    }
  }

  lemma {:induction false} FullSwap(H: Hasher, t: Slots, key: bytes, e: Entry, cur: Node, i: nat, n: nat)
    returns (v: Node)
    requires WellFormed(H, t) && NoneFree(t) && i < |t| && !LiveKey(t, key)
    requires KeyOk(H, cur) && Live(cur) && cur.key == key && cur.entry == e && n > |t|
    ensures var r := InsertFrom(H, t[i := cur], key, e, Deepen(t[i]), Next(i, |t|), n - 1);
            r.Some? && !r.value.1 && Drops(t, r.value.0, cur, v)
  {
    var t1 := t[i := cur];
    forall j | 0 <= j < |t| ensures KeyOk(H, t1[j]) { assert NodeOk(H, t[j], j, |t|); }
    KeysUnique(H, t);
    v := FullRound(H, t1, key, e, Deepen(t[i]), Next(i, |t|), i, n - 1);
    forall q, x ensures Has(t1, q, x) || Binds(t[i], q, x) <==> Has(t, q, x) || Binds(cur, q, x) {
      HasUpdate(t, i, cur, q, x);
    }
    assert forall q, x :: Binds(Deepen(t[i]), q, x) <==> Binds(t[i], q, x);
  }

  /**
   * On a full table the loop for a new key still ends, unless the probe for that key goes
   * round for ever, and costs another key its entry: the node in hand is dropped when the
   * walk comes round to the key just placed.
   */
  lemma {:induction false} FullInsertDrops(H: Hasher, t: Slots, key: bytes, e: Entry) returns (v: Node)
    requires WellFormed(H, t) && !HasFree(t) && Storable(H, key) && !LiveKey(t, key) && !Endless(H, t, key)
    ensures PutEnds(H, t, key, e) && !PutCall(H, t, key, e).1
    ensures Drops(t, PutCall(H, t, key, e).0, NewNode(H, key, e), v)
    ensures v.key in Contents(t) && Contents(t)[v.key] == v.entry
  {
    hide InsertFrom, LiveUnique, AllOpen, NodesOk, PutEnds, PutCall, ToU16, Home, IsPow2;
    ToU16Next(0);
    assert NewNode(H, key, e).(dib := ToU16(0)) == NewNode(H, key, e);
    assert At(Home(H(key), |t|), 0, |t|) == Home(H(key), |t|);
    v := FullWalk(H, t, key, e, 0, 2 * |t| + 2);
    PutIsInsert(H, t, key, e);
    assert Binds(v, v.key, v.entry);
    KeysUnique(H, t);
    hide WellFormed, NoneFree, HasFree, Contents, LiveKey;
    ContentsHas(t, v.key, v.entry);
  }

  /** When the loop of hm_insert ends. */
  lemma {:induction false} PutEndsExactly(H: Hasher, t: Slots, key: bytes, e: Entry)
    requires WellFormed(H, t) && Storable(H, key)
    ensures PutEnds(H, t, key, e) <==> Room(t, key) || !Endless(H, t, key)
  {
    hide PutEnds, Contents, Endless, Storable, InsertKeeps;
    if Room(t, key) {
      InsertIsUpdate(H, t, key, e);
    } else if Endless(H, t, key) {
      PutNever(H, t, key, e);
    } else {
      var v := FullInsertDrops(H, t, key, e);
    }
  }

  /** A call that ends loses no other key's entry exactly when a slot is free or the key is live. */
  lemma {:induction false} InsertConserves(H: Hasher, t: Slots, key: bytes, e: Entry)
    requires WellFormed(H, t) && Storable(H, key) && PutEnds(H, t, key, e)
    ensures Conserves(t, PutCall(H, t, key, e).0, key) <==> Room(t, key)
  {
    hide PutEnds, PutCall, Endless, Storable, InsertKeeps, WellFormed;
    PutEndsExactly(H, t, key, e);
    if Room(t, key) {
      InsertIsUpdate(H, t, key, e);
    } else {
      var v := FullInsertDrops(H, t, key, e);
      assert LiveUnique(t) by { KeysUnique(H, t); }
      ContentsHas(t, v.key, v.entry);
    }
  }

  // ---- hm_get and hm_delete ----

  /** What a map with the live entries would answer. */
  function Lookup(m: Map, key: bytes): Value {
    if key in m then m[key].value else Null
  }

  /** Slot j is a tombstone of the key, and the search for the key gets there. */
  ghost predicate BuriedAt(t: Slots, key: bytes, j: nat)
    requires j < |t|
  {
    Occupied(t[j]) && t[j].tomb && t[j].key == key && Open(t, t[j], j)
  }

  ghost predicate Buried(t: Slots, key: bytes) {
    exists j :: 0 <= j < |t| && BuriedAt(t, key, j)
  }

  /** Such a tombstone, still pointing at a value. */
  ghost predicate BuriedValue(t: Slots, key: bytes) {
    exists j :: 0 <= j < |t| && BuriedAt(t, key, j) && t[j].entry.value != Null
  }

  /**
   * Where the probe of hm_get and hm_delete ends: at a live slot of the key, at a
   * tombstone of it, or nowhere; it does not end exactly when a whole round of the
   * slots, as deep as its 16-bit counter, does not stop it.
   */
  lemma {:induction false} ProbeCases(H: Hasher, t: Slots, key: bytes)
    requires WellFormed(H, t)
    ensures ProbeEnds(H, t, key) <==> !Endless(H, t, key)
    ensures LiveKey(t, key) || Buried(t, key) ==> ProbeEnds(H, t, key)
    ensures ProbeEnds(H, t, key) ==>
              && ProbeCall(H, t, key) == Find(H, t, key)
              && match ProbeCall(H, t, key)
                 case None => !LiveKey(t, key) && !Buried(t, key)
                 case Some(i) =>
                   if Live(t[i]) then t[i].key == key && !Buried(t, key)
                   else !LiveKey(t, key) && BuriedAt(t, key, i)
  {
    hide Endless, ProbeEnds, ProbeCall, Find, ToU16;
    ProbeIsFind(H, t, key);
    FindCases(H, t, key);
    FoundEnds(H, t, key);
  }

  lemma {:induction false} FindCases(H: Hasher, t: Slots, key: bytes)
    requires WellFormed(H, t)
    ensures match Find(H, t, key)
            case None => !LiveKey(t, key) && !Buried(t, key)
            case Some(i) =>
              if Live(t[i]) then t[i].key == key && !Buried(t, key)
              else !LiveKey(t, key) && BuriedAt(t, key, i)
    ensures BuriedValue(t, key) <==>
            Find(H, t, key).Some? && var n := t[Find(H, t, key).value]; n.tomb && n.entry.value != Null
  {
    FindLive(H, t, key);
    hide FindFrom, ToU16;
    forall j | 0 <= j < |t| && BuriedAt(t, key, j) ensures Find(H, t, key) == Some(j) {
      FindExactly(H, t, key, j);
    }
  }

  /**
   * hm_delete keeps the table and removes the key from the entries. It reports success
   * exactly when the key was live or its tombstone can be found, and leaves one. Its
   * loop ends unless the probe goes round for ever.
   */
  lemma {:induction false} DeleteIsRemove(H: Hasher, s: State, key: bytes)
    requires WellFormed(H, s.t)
    ensures Ends(H, s.t, Del(key)) <==> !Endless(H, s.t, key)
    ensures Ends(H, s.t, Del(key)) ==>
              var t, t', ok := s.t, Call(H, s, Del(key)).t, ProbeCall(H, s.t, key).Some?;
              && WellFormed(H, t') && Contents(t') == Contents(t) - {key}
              && (ok <==> key in Contents(t) || Buried(t, key))
              && (Buried(t', key) <==> ok)
              && !(key in Contents(t) && Buried(t, key))
              && Call(H, s, Del(key)).count == if ok then Dec64(s.count) else s.count
  {
    var t := s.t;
    hide Endless, ProbeEnds, ProbeCall, Contents, Find, ToU16, PutEnds, PutCall;
    ProbeCases(H, t, key);
    KeysUnique(H, t);
    LiveIsIn(t, key);
    if ProbeEnds(H, t, key) {
      if ProbeCall(H, t, key).Some? {
        DeleteFound(H, t, key, ProbeCall(H, t, key).value);
      } else {
        assert Contents(t) - {key} == Contents(t);
      }
    }
  }

  lemma {:induction false} DeleteFound(H: Hasher, t: Slots, key: bytes, i: nat)
    requires WellFormed(H, t) && Find(H, t, key) == Some(i)
    ensures i < |t|
    ensures var t' := t[i := t[i].(tomb := true)];
            WellFormed(H, t') && Contents(t') == Contents(t) - {key} && Buried(t', key)
  {
    FindCases(H, t, key);
    KeysUnique(H, t);
    hide Find, Contents, LiveKey;
    FoundOpen(H, t, key, i);
    var t' := t[i := t[i].(tomb := true)];
    RewriteKeeps(H, t, i, t'[i]);
    SameOpen(t', t'[i], t[i], i);
    assert BuriedAt(t', key, i);
    TombRemoves(t, i);
    KeysUnique(H, t');
    RemovedContents(t, t', key);
  }

  lemma {:induction false} FoundOpen(H: Hasher, t: Slots, key: bytes, i: nat)
    requires WellFormed(H, t) && Find(H, t, key) == Some(i)
    ensures i < |t| && Occupied(t[i]) && t[i].key == key && Open(t, t[i], i)
  {
    FindLive(H, t, key);
  }

  lemma {:induction false} TombRemoves(t: Slots, i: nat)
    requires LiveUnique(t) && i < |t| && Occupied(t[i]) && (Live(t[i]) || !LiveKey(t, t[i].key))
    ensures forall q, x :: Has(t[i := t[i].(tomb := true)], q, x) <==> Has(t, q, x) && q != t[i].key
  {
    var n := t[i].(tomb := true);
    forall q, x ensures Has(t[i := n], q, x) <==> Has(t, q, x) && q != t[i].key {
      HasUpdate(t, i, n, q, x);
      if Live(t[i]) { OnlyAt(t, i); }
      assert q == t[i].key ==> !HasBut(t, i, q, x);
    }
  }

  lemma {:induction false} RemovedContents(t: Slots, t': Slots, key: bytes)
    requires LiveUnique(t) && LiveUnique(t')
    requires forall q, x :: Has(t', q, x) <==> Has(t, q, x) && q != key
    ensures Contents(t') == Contents(t) - {key}
  {
    var m, m' := Contents(t), Contents(t');
    forall q
      ensures q in m' <==> q != key && q in m
      ensures q in m' ==> m'[q] == m[q]
    {
      if q in m' { ContentsHas(t', q, m'[q]); ContentsHas(t, q, m'[q]); }
      if q in m { ContentsHas(t, q, m[q]); ContentsHas(t', q, m[q]); }
    }
  }

  /**
   * hm_get answers as a map of the live entries does, exactly when no tombstone of the
   * key that still points at a value is where the search gets. It answers every key that
   * is live, and every other one unless the probe goes round for ever.
   */
  lemma {:induction false} GetIsLookup(H: Hasher, t: Slots, key: bytes)
    requires WellFormed(H, t)
    ensures ProbeEnds(H, t, key) <==> !Endless(H, t, key)
    ensures key in Contents(t) ==> ProbeEnds(H, t, key)
    ensures ProbeEnds(H, t, key) ==> (GetCall(H, t, key) == Lookup(Contents(t), key) <==> !BuriedValue(t, key))
  {
    hide Endless, ProbeEnds, ProbeCall, Find, Open;
    ProbeCases(H, t, key);
    FindCases(H, t, key);
    KeysUnique(H, t);
    LiveIsIn(t, key);
    if ProbeEnds(H, t, key) && ProbeCall(H, t, key).Some? {
      var i := ProbeCall(H, t, key).value;
      if Live(t[i]) { ContentsBinds(t, |t|, i); }
    }
  }

  /** What the probe reads of a slot decides it. */
  lemma {:induction false} ProbeSame(H: Hasher, t: Slots, key: bytes, j: nat, x: Node, i: nat, dib: nat, n: nat)
    requires i < |t| && j < |t| && SameProbe(x, t[j])
    ensures ProbeLoop(H, t[j := x], key, i, dib, n) == ProbeLoop(H, t, key, i, dib, n)
    decreases n
  {
    hide Idx;
    if n != 0 { ProbeSame(H, t, key, j, x, Idx(i + 1, |t|), Inc16(dib), n - 1); }
  }

  /** A deleted key whose value was not NULL is still found, in any table: delete never hides it. */
  lemma {:induction false} DeletedKeyStillFound(H: Hasher, s: State, key: bytes)
    requires |s.t| > 0 && ProbeEnds(H, s.t, key)
    ensures var s' := Call(H, s, Del(key));
            && ProbeEnds(H, s'.t, key) && ProbeCall(H, s'.t, key) == ProbeCall(H, s.t, key)
            && GetCall(H, s'.t, key) == GetCall(H, s.t, key)
  {
    hide ProbeLoop, Idx;
    var t := s.t;
    var n: nat :| ProbeIn(H, t, key, n).Some?;
    ProbeCallIs(H, t, key, n);
    if ProbeCall(H, t, key).Some? {
      var j := ProbeCall(H, t, key).value;
      var x := t[j].(tomb := true);
      ProbeSame(H, t, key, j, x, Idx(H(key), |t|), 0, n);
      ProbeCallIs(H, t[j := x], key, n);
    }
  }

  // ---- whole runs ----

  /** What the calls mean for a map. */
  function Apply(m: Map, op: Op): Map {
    match op
    case Put(key, e) => m[key := e]
    case Del(key) => m - {key}
  }

  function ApplyAll(m: Map, ops: seq<Op>): Map
    decreases |ops|
  {
    if ops == [] then m else ApplyAll(Apply(m, ops[0]), ops[1..])
  }

  lemma {:induction false} ApplyAllSnoc(m: Map, ops: seq<Op>, op: Op)
    ensures ApplyAll(m, ops + [op]) == Apply(ApplyAll(m, ops), op)
    decreases |ops|
  {
    if ops == [] {
      assert ([op])[1..] == [] && [] + [op] == [op];
    } else {
      assert (ops + [op])[1..] == ops[1..] + [op];
      ApplyAllSnoc(Apply(m, ops[0]), ops[1..], op);
    }
  }

  /** The state of a table that agrees with m. */
  ghost predicate Agrees(H: Hasher, s: State, m: Map) {
    WellFormed(H, s.t) && |s.t| < U64 && Contents(s.t) == m && s.count == |m|
  }

  /** The search for the key ends, at a slot with this entry. */
  ghost predicate Finds(H: Hasher, t: Slots, key: bytes, e: Entry)
    requires |t| > 0
  {
    ProbeEnds(H, t, key) && match ProbeCall(H, t, key) case None => false case Some(i) => t[i].entry == e
  }

  /** What a caller sees of a map: every key is found with its entry, and `count` is right. */
  ghost predicate Serves(H: Hasher, s: State, m: Map)
    requires |s.t| > 0
  {
    s.count == |m| && forall q | q in m :: Finds(H, s.t, q, m[q])
  }

  lemma {:induction false} ServesCount(H: Hasher, s: State, m: Map)
    requires |s.t| > 0 && Serves(H, s, m)
    ensures s.count == |m|
  {
  }

  /** What the caller can check before a call. */
  ghost predicate Allowed(H: Hasher, s: State, op: Op)
    requires |s.t| > 0
  {
    match op
    case Put(key, _) => Storable(H, key) && Room(s.t, key) && InsertKeeps(H, s.t, key)
    case Del(key) => !Buried(s.t, key) && !Endless(H, s.t, key)
  }

  ghost predicate AllowedRun(H: Hasher, s: State, ops: seq<Op>)
    requires |s.t| > 0
    decreases |ops|
  {
    ops == [] || (Allowed(H, s, ops[0]) && AllowedRun(H, Call(H, s, ops[0]), ops[1..]))
  }

  lemma {:induction false} LiveAtMost(t: Slots, n: nat)
    requires n <= |t|
    ensures LiveUpTo(t, n) <= n
  {
    if n != 0 { LiveAtMost(t, n - 1); }
  }

  lemma {:induction false} CountAtMost(t: Slots)
    requires LiveUnique(t)
    ensures |Contents(t)| <= |t|
  {
    ContentsCard(t, |t|);
    LiveAtMost(t, |t|);
  }

  /**
   * A call on a table that agrees with a map comes back, the callers then see the updated
   * map, and the table agrees with it, exactly when the call was allowed.
   */
  lemma {:induction false} StepRefines(H: Hasher, s: State, m: Map, op: Op)
    requires Agrees(H, s, m)
    ensures Ends(H, s.t, op) && Serves(H, Call(H, s, op), Apply(m, op)) <==> Allowed(H, s, op)
    ensures Ends(H, s.t, op) && Agrees(H, Call(H, s, op), Apply(m, op)) <==> Allowed(H, s, op)
  {
    hide *;
    AgreesFacts(H, s, m);
    if op.Del? {
      DelRefines(H, s, m, op);
    } else if !Storable(H, op.key) {
      UnstorableFails(H, s, m, op);
    } else if !Room(s.t, op.key) {
      FullFails(H, s, m, op);
    } else {
      PutRefines(H, s, m, op);
    }
    AllowedIs(H, s, op);
    if Agrees(H, Call(H, s, op), Apply(m, op)) { AgreesServes(H, Call(H, s, op), Apply(m, op)); }
  }

  lemma {:induction false} AllowedIs(H: Hasher, s: State, op: Op)
    requires |s.t| > 0
    ensures op.Put? ==> (Allowed(H, s, op) <==> Storable(H, op.key) && Room(s.t, op.key) && InsertKeeps(H, s.t, op.key))
    ensures op.Del? ==> (Allowed(H, s, op) <==> !Buried(s.t, op.key) && !Endless(H, s.t, op.key))
  {
  }

  /** Agreement with a map is seen as that map. */
  lemma {:induction false} AgreesServes(H: Hasher, s: State, m: Map)
    requires Agrees(H, s, m)
    ensures Serves(H, s, m)
  {
    hide ProbeEnds, ProbeCall, Find, Open, Endless;
    KeysUnique(H, s.t);
    forall q | q in m ensures Finds(H, s.t, q, m[q]) {
      LiveIsIn(s.t, q);
      ProbeCases(H, s.t, q);
      ContentsBinds(s.t, |s.t|, ProbeCall(H, s.t, q).value);
    }
  }

  lemma {:induction false} UnstorableFails(H: Hasher, s: State, m: Map, op: Op)
    requires Agrees(H, s, m) && op.Put? && !Storable(H, op.key)
    ensures Ends(H, s.t, op) ==> !Serves(H, Call(H, s, op), Apply(m, op))
  {
    UnstorableMissed(H, s, op);
    hide Finds, Call, Ends, WellFormed, Contents;
    assert op.key in Apply(m, op);
  }

  /** A key that is not storable is not found after its put. */
  lemma {:induction false} UnstorableMissed(H: Hasher, s: State, op: Op)
    requires WellFormed(H, s.t) && op.Put? && !Storable(H, op.key)
    ensures Ends(H, s.t, op) ==> !Finds(H, Call(H, s, op).t, op.key, op.entry)
  {
    if Ends(H, s.t, op) {
      var t := s.t;
      forall i | 0 <= i < |t| ensures Occupied(t[i]) ==> t[i].keyLen < U16 { assert NodeOk(H, t[i], i, |t|); }
      hide WellFormed, Contents, ProbeLoop, PutLoop, Idx, ToU16, Storable;
      var n: nat :| PutIn(H, t, op.key, op.entry, n).Some?;
      PutCallIs(H, t, op.key, op.entry, n);
      assert ToU16(|op.key|) < U16 by { ToU16Next(|op.key|); }
      PutShort(H, t, op.key, op.entry, NewNode(H, op.key, op.entry), Idx(H(op.key), |t|), n);
      var s' := Call(H, s, op);
      if ProbeEnds(H, s'.t, op.key) { UnstorableIsLost(H, s'.t, op.key); }
      hide ProbeCall, ProbeEnds;
      assert !Finds(H, s'.t, op.key, op.entry);
    }
  }

  /** No room: a new key does not make `count` grow, or does not come back. */
  lemma {:induction false} FullFails(H: Hasher, s: State, m: Map, op: Op)
    requires Agrees(H, s, m) && op.Put? && Storable(H, op.key) && !Room(s.t, op.key)
    ensures Ends(H, s.t, op) ==> !Serves(H, Call(H, s, op), Apply(m, op))
  {
    KeysUnique(H, s.t);
    LiveIsIn(s.t, op.key);
    PutEndsExactly(H, s.t, op.key, op.entry);
    hide WellFormed, PutEnds, PutCall, Contents, Storable, Finds, Endless;
    if Ends(H, s.t, op) {
      var v := FullInsertDrops(H, s.t, op.key, op.entry);
      assert Apply(m, op).Keys == m.Keys + {op.key};
    }
  }

  lemma {:induction false} PutRefines(H: Hasher, s: State, m: Map, op: Op)
    requires Agrees(H, s, m) && op.Put? && Storable(H, op.key) && Room(s.t, op.key)
    ensures Ends(H, s.t, op)
    ensures Serves(H, Call(H, s, op), Apply(m, op)) ==> InsertKeeps(H, s.t, op.key)
    ensures InsertKeeps(H, s.t, op.key) ==> Agrees(H, Call(H, s, op), Apply(m, op))
  {
    KeysUnique(H, s.t);
    CountAtMost(s.t);
    InsertIsUpdate(H, s.t, op.key, op.entry);
    hide Find, PutEnds, PutCall, ProbeCall, ProbeEnds, Contents, InsertKeeps, Storable, Room, Open;
    var s', m' := Call(H, s, op), Apply(m, op);
    assert m'.Keys == m.Keys + {op.key};
    if InsertKeeps(H, s.t, op.key) {
      KeysUnique(H, s'.t);
      CountAtMost(s'.t);
    } else if op.key !in m {
      LosesServes(H, s, m, op);
    }
  }

  /** A live key that the search has lost is not served. */
  lemma {:induction false} LosesServes(H: Hasher, s: State, m: Map, op: Op)
    requires Agrees(H, s, m) && op.Put? && Storable(H, op.key) && Room(s.t, op.key) && op.key !in m
    requires Ends(H, s.t, op) && Loses(H, s.t, Call(H, s, op).t, op.key)
    ensures !Serves(H, Call(H, s, op), Apply(m, op))
  {
    var s', m' := Call(H, s, op), Apply(m, op);
    KeysUnique(H, s.t);
    LiveIsIn(s.t, op.key);
    InsertOfNew(H, s.t, op.key, op.entry);
    PutIsInsert(H, s.t, op.key, op.entry);
    PutNodesOk(H, s.t, op.key, op.entry);
    hide Insert, InsertSpec, Sets, PutEnds, PutCall, ProbeCall, ProbeEnds, Find, WellFormed, Contents, Storable;
    var q :| q != op.key && LiveKey(s.t, q) && Find(H, s'.t, q) == None;
    LiveIsIn(s.t, q);
    ProbeIsFind(H, s'.t, q);
    assert q in m' && !Finds(H, s'.t, q, m'[q]);
  }

  /** The slots of the new table are true, whether or not it is well formed. */
  lemma {:induction false} PutNodesOk(H: Hasher, t: Slots, key: bytes, e: Entry)
    requires WellFormed(H, t) && Storable(H, key) && !LiveKey(t, key) && HasFree(t)
    ensures Insert(H, t, key, e).Some? && NodesOk(H, Insert(H, t, key, e).value.0) && IsPow2(|t|)
  {
    hide InsertFrom, StopFrom, Walk, Home, NodesOk, AllOpen;
    var f :| 0 <= f < |t| && Free(t[f]);
    NewWalks(H, t, key, e, f);
    InsertNew(H, t, key, e, NewNode(H, key, e), Home(H(key), |t|), f, 2 * |t| + 2, |t|);
  }

  lemma {:induction false} DelRefines(H: Hasher, s: State, m: Map, op: Op)
    requires Agrees(H, s, m) && op.Del?
    ensures Ends(H, s.t, op) <==> !Endless(H, s.t, op.key)
    ensures Ends(H, s.t, op) && Serves(H, Call(H, s, op), Apply(m, op)) ==> !Buried(s.t, op.key)
    ensures Ends(H, s.t, op) && !Buried(s.t, op.key) ==> Agrees(H, Call(H, s, op), Apply(m, op))
  {
    KeysUnique(H, s.t);
    CountAtMost(s.t);
    DeleteIsRemove(H, s, op.key);
    RemoveCard(m, op.key);
    hide WellFormed, LiveUnique, Contents, Buried, ProbeEnds, ProbeCall, Finds, Endless, Call;
  }

  lemma {:induction false} RemoveCard(m: Map, k: bytes)
    ensures |m - {k}| == if k in m then |m| - 1 else |m|
  {
    if k in m {
      assert m.Keys == (m - {k}).Keys + {k};
    } else {
      assert m - {k} == m;
    }
  }

  /**
   * The table refines a map over every allowed run: every call comes back, the callers
   * see the map, and hm_get answers from it for exactly the keys without a tombstone that
   * the search finds, if its probe does not go round for ever.
   */
  lemma {:induction false} RunRefines(H: Hasher, s: State, m: Map, ops: seq<Op>)
    requires Agrees(H, s, m) && AllowedRun(H, s, ops)
    ensures EndRun(H, s, ops)
    ensures var s', m' := CallRun(H, s, ops), ApplyAll(m, ops);
            && Agrees(H, s', m') && Serves(H, s', m')
            && forall key ::
                 && (ProbeEnds(H, s'.t, key) <==> !Endless(H, s'.t, key))
                 && (ProbeEnds(H, s'.t, key) ==>
                       (GetCall(H, s'.t, key) == Lookup(m', key) <==> !BuriedValue(s'.t, key)))
    decreases |ops|
  {
    if ops == [] {
      AgreesServes(H, s, m);
      forall key
        ensures ProbeEnds(H, s.t, key) <==> !Endless(H, s.t, key)
        ensures ProbeEnds(H, s.t, key) ==> (GetCall(H, s.t, key) == Lookup(m, key) <==> !BuriedValue(s.t, key))
      {
        GetIsLookup(H, s.t, key);
      }
    } else {
      hide Agrees, Serves, Allowed, ProbeEnds, Endless, BuriedValue, Ends, Call;
      StepRefines(H, s, m, ops[0]);
      RunRefines(H, Call(H, s, ops[0]), Apply(m, ops[0]), ops[1..]);
    }
  }

  /**
   * Over whole runs that condition is exact: all calls come back and at every moment the
   * callers see the map of the calls so far, exactly when each call was allowed.
   */
  lemma {:induction false} RunExactly(H: Hasher, s: State, m: Map, ops: seq<Op>)
    requires Agrees(H, s, m)
    ensures AllowedRun(H, s, ops) <==>
            && EndRun(H, s, ops)
            && forall k | 0 <= k <= |ops| :: Serves(H, CallRun(H, s, ops[..k]), ApplyAll(m, ops[..k]))
    decreases |ops|
  {
    AgreesServes(H, s, m);
    hide Agrees, Serves, Allowed, Ends, Call, Apply;
    assert ops[..0] == [];
    if ops != [] {
      var s', m', rest := Call(H, s, ops[0]), Apply(m, ops[0]), ops[1..];
      StepRefines(H, s, m, ops[0]);
      forall k | 0 < k <= |ops|
        ensures CallRun(H, s, ops[..k]) == CallRun(H, s', rest[..k - 1])
        ensures ApplyAll(m, ops[..k]) == ApplyAll(m', rest[..k - 1])
      {
        assert ops[..k][1..] == rest[..k - 1] && ops[..k][0] == ops[0];
      }
      if Allowed(H, s, ops[0]) {
        RunExactly(H, s', m', rest);
        forall k | 0 <= k <= |rest|
          ensures CallRun(H, s', rest[..k]) == CallRun(H, s, ops[..k + 1])
          ensures ApplyAll(m', rest[..k]) == ApplyAll(m, ops[..k + 1]) {}
      } else if Ends(H, s.t, ops[0]) {
        assert rest[..0] == [] && CallRun(H, s', rest[..0]) == s' && ApplyAll(m', rest[..0]) == m';
        assert !Serves(H, CallRun(H, s, ops[..1]), ApplyAll(m, ops[..1]));
      }
    }
  }

  lemma {:induction false} CreateAgrees(H: Hasher, cap: nat)
    requires IsPow2(cap) && 0 < cap < U64
    ensures Agrees(H, Create(cap), map[]) && NoTombs(Create(cap).t)
  {
    var t := Create(cap).t;
    forall i | 0 <= i < cap ensures NodeOk(H, t[i], i, cap) && !Live(t[i]) { }
    KeysUnique(H, t);
    if q :| q in Contents(t) {
      ContentsHas(t, q, Contents(t)[q]);
    }
  }

  // ---- count ----

  /** An insertion loop leaves one live slot more exactly when it takes a slot. */
  lemma {:induction false} PutCounts(H: Hasher, t: Slots, key: bytes, e: Entry, cur: Node, i: nat, n: nat)
    requires i < |t| && Live(cur)
    ensures var r := PutLoop(H, t, key, e, cur, i, n);
            r.Some? ==> LiveUpTo(r.value.0, |t|) == LiveUpTo(t, |t|) + (if r.value.1 then 1 else 0)
    decreases n
  {
    hide Idx, Matches;
    if n != 0 {
      LiveUpdate(t, i, cur, |t|);
      LiveUpdate(t, i, t[i].(entry := e), |t|);
      if !Free(t[i]) && !Matches(H, t[i], key) {
        if t[i].dib < cur.dib {
          PutCounts(H, t[i := cur], key, e, t[i].(dib := Inc16(t[i].dib)), Idx(i + 1, |t|), n - 1);
        } else {
          PutCounts(H, t, key, e, cur.(dib := Inc16(cur.dib)), Idx(i + 1, |t|), n - 1);
        }
      }
    }
  }

  lemma {:induction false} LiveUpdate(t: Slots, i: nat, x: Node, n: nat)
    requires i < |t| && n <= |t|
    ensures LiveUpTo(t[i := x], n) == LiveUpTo(t, n) +
            (if i >= n || Live(t[i]) == Live(x) then 0 else if Live(x) then 1 else -1)
  {
    if n != 0 { LiveUpdate(t, i, x, n - 1); }
  }

  /** hm_delete finds a tombstone. */
  ghost predicate DeletesTomb(H: Hasher, t: Slots, op: Op)
    requires |t| > 0
  {
    op.Del? && ProbeEnds(H, t, op.key) && ProbeCall(H, t, op.key).Some? && t[ProbeCall(H, t, op.key).value].tomb
  }

  /**
   * In any table of any capacity, well formed or not, a call leaves `count` the number of
   * live slots exactly when it is not a delete that finds a tombstone.
   */
  lemma {:induction false} CountExactly(H: Hasher, s: State, op: Op)
    requires 0 < |s.t| < U64 && s.count == LiveUpTo(s.t, |s.t|) && (op.Put? ==> H(op.key) != 0)
    ensures var s' := Call(H, s, op); s'.count == LiveUpTo(s'.t, |s'.t|) <==> !DeletesTomb(H, s.t, op)
  {
    hide PutLoop, ProbeLoop, Idx, ToU16;
    LiveAtMost(s.t, |s.t|);
    if Ends(H, s.t, op) {
      match op
      case Put(key, e) =>
        var n: nat :| PutIn(H, s.t, key, e, n).Some?;
        PutCallIs(H, s.t, key, e, n);
        PutCounts(H, s.t, key, e, NewNode(H, key, e), Idx(H(key), |s.t|), n);
        LiveAtMost(Call(H, s, op).t, |s.t|);
      case Del(key) =>
        var n: nat :| ProbeIn(H, s.t, key, n).Some?;
        ProbeCallIs(H, s.t, key, n);
        ProbeMatches(H, s.t, key, Idx(H(key), |s.t|), 0, n);
        if ProbeCall(H, s.t, key).Some? {
          var i := ProbeCall(H, s.t, key).value;
          LiveUpdate(s.t, i, s.t[i].(tomb := true), |s.t|);
          LiveAtMost(s.t[i := s.t[i].(tomb := true)], |s.t|);
        }
    }
  }

  /** No delete of the run finds a tombstone. */
  ghost predicate NoTombDeleted(H: Hasher, s: State, ops: seq<Op>)
    requires |s.t| > 0
    decreases |ops|
  {
    ops == [] || (!DeletesTomb(H, s.t, ops[0]) && NoTombDeleted(H, Call(H, s, ops[0]), ops[1..]))
  }

  /** Over a run `count` is right at every moment exactly when no delete finds a tombstone. */
  lemma {:induction false} CountRunExactly(H: Hasher, s: State, ops: seq<Op>)
    requires 0 < |s.t| < U64 && s.count == LiveUpTo(s.t, |s.t|)
    requires forall i | 0 <= i < |ops| && ops[i].Put? :: H(ops[i].key) != 0
    ensures NoTombDeleted(H, s, ops) <==>
            forall k | 0 <= k <= |ops| ::
              var s' := CallRun(H, s, ops[..k]); s'.count == LiveUpTo(s'.t, |s'.t|)
    decreases |ops|
  {
    hide Call, DeletesTomb, LiveUpTo;
    assert ops[..0] == [] && CallRun(H, s, ops[..0]) == s;
    if ops != [] {
      var s', rest := Call(H, s, ops[0]), ops[1..];
      CountExactly(H, s, ops[0]);
      forall k | 0 < k <= |ops| ensures CallRun(H, s, ops[..k]) == CallRun(H, s', rest[..k - 1]) {
        assert ops[..k][1..] == rest[..k - 1] && ops[..k][0] == ops[0];
      }
      if !DeletesTomb(H, s.t, ops[0]) {
        CountRunExactly(H, s', rest);
        forall k | 0 <= k <= |rest| ensures CallRun(H, s', rest[..k]) == CallRun(H, s, ops[..k + 1]) {}
      } else {
        assert rest[..0] == [] && CallRun(H, s', rest[..0]) == s' && CallRun(H, s, ops[..1]) == s';
      }
    }
  }

  /** How many deletes of the run find a tombstone. */
  ghost function TombsDeleted(H: Hasher, s: State, ops: seq<Op>): (n: nat)
    requires |s.t| > 0
    ensures n <= |ops| && (n == 0 <==> NoTombDeleted(H, s, ops))
    decreases |ops|
  {
    if ops == [] then 0
    else (if DeletesTomb(H, s.t, ops[0]) then 1 else 0) + TombsDeleted(H, Call(H, s, ops[0]), ops[1..])
  }

  /** `count` when it is k less than the number of live slots, modulo 2^64. */
  lemma {:induction false} CountLags(H: Hasher, s: State, op: Op, k: nat, w: int) returns (w': int)
    requires 0 < |s.t| < U64 && s.count < U64 && s.count + k == LiveUpTo(s.t, |s.t|) + w * U64
    requires op.Put? ==> H(op.key) != 0
    ensures var s', d := Call(H, s, op), if DeletesTomb(H, s.t, op) then 1 else 0;
            s'.count < U64 && s'.count + k + d == LiveUpTo(s'.t, |s'.t|) + w' * U64
  {
    hide PutLoop, ProbeLoop, Idx, ToU16;
    w' := w;
    if Ends(H, s.t, op) {
      match op
      case Put(key, e) =>
        var n: nat :| PutIn(H, s.t, key, e, n).Some?;
        PutCallIs(H, s.t, key, e, n);
        PutCounts(H, s.t, key, e, NewNode(H, key, e), Idx(H(key), |s.t|), n);
        if PutCall(H, s.t, key, e).1 && s.count + 1 == U64 { w' := w - 1; }
      case Del(key) =>
        var n: nat :| ProbeIn(H, s.t, key, n).Some?;
        ProbeCallIs(H, s.t, key, n);
        ProbeMatches(H, s.t, key, Idx(H(key), |s.t|), 0, n);
        if ProbeCall(H, s.t, key).Some? {
          var i := ProbeCall(H, s.t, key).value;
          LiveUpdate(s.t, i, s.t[i].(tomb := true), |s.t|);
          if s.count == 0 { w' := w + 1; }
        }
    }
  }

  /** At the end of a run it is less by the number of deletes that found a tombstone. */
  lemma {:induction false} CountRunLags(H: Hasher, s: State, ops: seq<Op>, k: nat, w: int) returns (w': int)
    requires 0 < |s.t| < U64 && s.count < U64 && s.count + k == LiveUpTo(s.t, |s.t|) + w * U64
    requires forall i | 0 <= i < |ops| && ops[i].Put? :: H(ops[i].key) != 0
    ensures var s' := CallRun(H, s, ops);
            s'.count < U64 && s'.count + k + TombsDeleted(H, s, ops) == LiveUpTo(s'.t, |s'.t|) + w' * U64
    decreases |ops|
  {
    hide Call, DeletesTomb, LiveUpTo;
    w' := w;
    if ops != [] {
      var d := if DeletesTomb(H, s.t, ops[0]) then 1 else 0;
      w' := CountLags(H, s, ops[0], k, w);
      w' := CountRunLags(H, Call(H, s, ops[0]), ops[1..], k + d, w');
    }
  }

  /** So after a run of fewer than 2^64 calls it is right exactly when no delete found one. */
  lemma {:induction false} CountEndExactly(H: Hasher, s: State, ops: seq<Op>)
    requires 0 < |s.t| < U64 && s.count == LiveUpTo(s.t, |s.t|) && |ops| < U64
    requires forall i | 0 <= i < |ops| && ops[i].Put? :: H(ops[i].key) != 0
    ensures var s' := CallRun(H, s, ops);
            s'.count < U64 && (s'.count == LiveUpTo(s'.t, |s'.t|) <==> NoTombDeleted(H, s, ops))
  {
    LiveAtMost(s.t, |s.t|);
    var w := CountRunLags(H, s, ops, 0, 0);
    hide CallRun, NoTombDeleted, LiveUpTo;
    LiveAtMost(CallRun(H, s, ops).t, |s.t|);
    assert TombsDeleted(H, s, ops) == w * U64 ==> w == 0;
  }

  // ---- runs without deletes: nothing but storable keys and room is needed ----

  function KeysOf(ops: seq<Op>): set<bytes> {
    set i | 0 <= i < |ops| :: ops[i].key
  }

  lemma {:induction false} AllLiveCount(t: Slots, n: nat)
    requires n <= |t| && forall i | 0 <= i < n :: Live(t[i])
    ensures LiveUpTo(t, n) == n
  {
    if n != 0 { AllLiveCount(t, n - 1); }
  }

  /** With no more keys than slots a table without tombstones has room. */
  lemma {:induction false} RoomForAll(t: Slots, keys: set<bytes>, key: bytes)
    requires LiveUnique(t) && NoTombs(t) && Contents(t).Keys <= keys && key in keys && |keys| <= |t|
    ensures Room(t, key)
  {
    if !Room(t, key) {
      forall i | 0 <= i < |t| ensures Live(t[i]) { assert !Free(t[i]); }
      AllLiveCount(t, |t|);
      ContentsCard(t, |t|);
      LiveIsIn(t, key);
      SubsetCard(Contents(t).Keys, keys - {key});
    }
  }

  lemma {:induction false} SubsetCard<T>(a: set<T>, b: set<T>)
    requires a <= b
    ensures |a| <= |b|
    decreases b
  {
    if a != {} {
      var x :| x in a;
      SubsetCard(a - {x}, b - {x});
    }
  }

  lemma {:induction false} InsertNoTombs(H: Hasher, t: Slots, key: bytes, e: Entry, cur: Node, i: nat, n: nat)
    requires NoTombs(t) && i < |t| && !cur.tomb
    ensures var r := InsertFrom(H, t, key, e, cur, i, n); r.Some? ==> NoTombs(r.value.0)
    decreases n
  {
    if n != 0 && !Free(t[i]) {
      if t[i].dib < cur.dib {
        InsertNoTombs(H, t[i := cur], key, e, Deepen(t[i]), Next(i, |t|), n - 1);
      } else {
        InsertNoTombs(H, t, key, e, Deepen(cur), Next(i, |t|), n - 1);
      }
    }
  }

  /** A put into a table without tombstones that has a slot for every key is allowed. */
  lemma {:induction false} PutAllowed(H: Hasher, s: State, m: Map, key: bytes, e: Entry, keys: set<bytes>)
    requires Agrees(H, s, m) && NoTombs(s.t) && m.Keys <= keys && |keys| <= |s.t|
    requires Storable(H, key) && key in keys
    ensures Allowed(H, s, Put(key, e)) && Ends(H, s.t, Put(key, e))
    ensures Agrees(H, Call(H, s, Put(key, e)), m[key := e]) && NoTombs(Call(H, s, Put(key, e)).t)
  {
    hide *;
    AgreesFacts(H, s, m);
    RoomForAll(s.t, keys, key);
    InsertWithoutTombs(H, s.t, key);
    StepRefines(H, s, m, Put(key, e));
    PutUnfold(H, s, m, key, e);
  }

  lemma {:induction false} AgreesFacts(H: Hasher, s: State, m: Map)
    requires Agrees(H, s, m)
    ensures LiveUnique(s.t) && |s.t| > 0 && IsPow2(|s.t|) && Contents(s.t) == m
  {
    KeysUnique(H, s.t);
  }

  lemma {:induction false} PutUnfold(H: Hasher, s: State, m: Map, key: bytes, e: Entry)
    requires |s.t| > 0 && Agrees(H, s, m)
    ensures Apply(m, Put(key, e)) == m[key := e]
    ensures Allowed(H, s, Put(key, e)) <==> Storable(H, key) && Room(s.t, key) && InsertKeeps(H, s.t, key)
    ensures NoTombs(s.t) && Storable(H, key) && Room(s.t, key) ==> NoTombs(Call(H, s, Put(key, e)).t)
  {
    hide InsertKeeps, PutEnds, PutCall, Room, Storable;
    if NoTombs(s.t) && Storable(H, key) && Room(s.t, key) { PutNoTombs(H, s.t, key, e); }
  }

  lemma {:induction false} PutNoTombs(H: Hasher, t: Slots, key: bytes, e: Entry)
    requires WellFormed(H, t) && Storable(H, key) && Room(t, key) && NoTombs(t)
    ensures PutEnds(H, t, key, e) && NoTombs(PutCall(H, t, key, e).0)
  {
    hide InsertFrom, Storable, Room, NoTombs, NewNode, PutEnds, PutCall, InsertSpec, WellFormed;
    assert |t| > 0 by { WellFormedSize(H, t); }
    RoomInserts(H, t, key, e);
    assert !NewNode(H, key, e).tomb by { NewIsLive(H, key, e); }
    InsertNoTombs(H, t, key, e, NewNode(H, key, e), Home(H(key), |t|), 2 * |t| + 2);
  }

  lemma {:induction false} WellFormedSize(H: Hasher, t: Slots)
    requires WellFormed(H, t)
    ensures |t| > 0 && IsPow2(|t|)
  {
  }

  lemma {:induction false} NewIsLive(H: Hasher, key: bytes, e: Entry)
    ensures !NewNode(H, key, e).tomb
  {
  }

  /** Every delete-free run of storable keys that fit the table is allowed. */
  lemma {:induction false} PutRunAllowed(H: Hasher, s: State, m: Map, ops: seq<Op>, keys: set<bytes>)
    requires Agrees(H, s, m) && NoTombs(s.t) && m.Keys <= keys && |keys| <= |s.t|
    requires forall i | 0 <= i < |ops| :: ops[i].Put? && Storable(H, ops[i].key) && ops[i].key in keys
    ensures AllowedRun(H, s, ops) && NoTombs(CallRun(H, s, ops).t)
    decreases |ops|
  {
    if ops != [] {
      hide Agrees, NoTombs, Allowed, Call, Storable, Ends;
      PutAllowed(H, s, m, ops[0].key, ops[0].entry, keys);
      PutRunAllowed(H, Call(H, s, ops[0]), m[ops[0].key := ops[0].entry], ops[1..], keys);
    } else {
      AgreesFacts(H, s, m);
    }
  }

  /** A table without tombstones and with fewer keys than slots has an unused slot. */
  lemma {:induction false} SpareEnds(H: Hasher, t: Slots, key: bytes)
    requires WellFormed(H, t) && NoTombs(t) && (|Contents(t)| < |t| || |t| < U16)
    ensures !Endless(H, t, key)
  {
    if Endless(H, t, key) {
      forall i | 0 <= i < |t| ensures Live(t[i]) { assert Dist(Home(H(key), |t|), i, |t|) < |t|; }
      AllLiveCount(t, |t|);
      KeysUnique(H, t);
      ContentsCard(t, |t|);
    }
  }

  /**
   * The code as it is, over every run without deletes: as long as the distinct keys fit
   * the capacity, every call comes back, hm_get returns the value last inserted, and
   * `count` the number of keys. For a key never put hm_get returns NULL, unless 2^16 slots
   * or more are all taken and its probe goes round them for ever.
   */
  lemma {:induction false} PutRunIsMap(H: Hasher, cap: nat, ops: seq<Op>, key: bytes)
    requires IsPow2(cap) && cap < U64 && |KeysOf(ops)| <= cap
    requires forall i | 0 <= i < |ops| :: ops[i].Put? && Storable(H, ops[i].key)
    ensures var s, m := CallRun(H, Create(cap), ops), ApplyAll(map[], ops);
            && EndRun(H, Create(cap), ops) && WellFormed(H, s.t) && s.count == |m|
            && (key in m || |m| < cap || cap < U16 ==> ProbeEnds(H, s.t, key))
            && (ProbeEnds(H, s.t, key) <==> !Endless(H, s.t, key))
            && (ProbeEnds(H, s.t, key) ==> GetCall(H, s.t, key) == Lookup(m, key))
  {
    CreateAgrees(H, cap);
    PutRunAllowed(H, Create(cap), map[], ops, KeysOf(ops));
    RunRefines(H, Create(cap), map[], ops);
    var s, m := CallRun(H, Create(cap), ops), ApplyAll(map[], ops);
    hide CallRun, EndRun, ApplyAll, AllowedRun, ProbeEnds, GetCall, Endless, Create;
    assert !BuriedValue(s.t, key);
    GetIsLookup(H, s.t, key);
    if |m| < cap || cap < U16 { SpareEnds(H, s.t, key); }
  }

  /** Such a key: not in the table, with its home where all the keys of a full one are at home. */
  lemma {:induction false} FullHouseNeverAnswers(H: Hasher, cap: nat, ops: seq<Op>, key: bytes)
    requires IsPow2(cap) && U16 <= cap < U64 && |KeysOf(ops)| == cap
    requires forall i | 0 <= i < |ops| :: ops[i].Put? && Storable(H, ops[i].key)
    requires key !in KeysOf(ops) && forall k | k in KeysOf(ops) :: Home(H(k), cap) == Home(H(key), cap)
    ensures !ProbeEnds(H, CallRun(H, Create(cap), ops).t, key)
  {
    hide *;
    PutRunFacts(H, cap, ops);
    var t := CallRun(H, Create(cap), ops).t;
    SameHomeEndless(H, t, KeysOf(ops), key);
    ProbeIsFind(H, t, key);
  }

  /** The table after such a run. */
  lemma {:induction false} PutRunFacts(H: Hasher, cap: nat, ops: seq<Op>)
    requires IsPow2(cap) && cap < U64 && |KeysOf(ops)| <= cap
    requires forall i | 0 <= i < |ops| :: ops[i].Put? && Storable(H, ops[i].key)
    ensures |Create(cap).t| == cap > 0
    ensures var t := CallRun(H, Create(cap), ops).t;
            WellFormed(H, t) && NodesOk(H, t) && NoTombs(t) && Contents(t).Keys == KeysOf(ops)
  {
    CreateAgrees(H, cap);
    var none: Map := map[];
    PutRunAllowed(H, Create(cap), none, ops, KeysOf(ops));
    hide CallRun, EndRun, ApplyAll, AllowedRun, ProbeEnds, Endless, NoTombs, KeysOf, Contents, AllOpen;
    RunRefines(H, Create(cap), none, ops);
    KeysApplied(none, ops);
    assert none.Keys + KeysOf(ops) == KeysOf(ops);
  }

  lemma {:induction false} SameHomeEndless(H: Hasher, t: Slots, keys: set<bytes>, key: bytes)
    requires WellFormed(H, t) && NoTombs(t) && |t| >= U16 && Contents(t).Keys == keys && |keys| == |t|
    requires key !in keys && forall k | k in keys :: Home(H(k), |t|) == Home(H(key), |t|)
    ensures Endless(H, t, key)
  {
    hide ToU16, Home, IsPow2, ContentsUpTo, AllOpen;
    FullIsLive(H, t);
    forall i | 0 <= i < |t|
      ensures Occupied(t[i]) && t[i].dib >= ToU16(Dist(Home(H(key), |t|), i, |t|)) && t[i].key != key
    {
      ContentsBinds(t, |t|, i);
      assert NodeOk(H, t[i], i, |t|) && t[i].key in Contents(t).Keys;
    }
  }

  lemma {:induction false} FullIsLive(H: Hasher, t: Slots)
    requires WellFormed(H, t) && NoTombs(t) && |Contents(t)| == |t|
    ensures LiveUnique(t) && forall i | 0 <= i < |t| :: Live(t[i])
  {
    KeysUnique(H, t);
    ContentsCard(t, |t|);
    LiveAll(t, |t|);
  }

  lemma {:induction false} LiveAll(t: Slots, n: nat)
    requires n <= |t| && LiveUpTo(t, n) == n
    ensures forall i | 0 <= i < n :: Live(t[i])
  {
    if n != 0 {
      LiveAtMost(t, n - 1);
      LiveAll(t, n - 1);
    }
  }

  /** A run of puts binds the keys that it mentions. */
  lemma {:induction false} KeysApplied(m: Map, ops: seq<Op>)
    requires forall i | 0 <= i < |ops| :: ops[i].Put?
    ensures ApplyAll(m, ops).Keys == m.Keys + KeysOf(ops)
    decreases |ops|
  {
    if ops != [] {
      KeysApplied(Apply(m, ops[0]), ops[1..]);
      forall k ensures k in KeysOf(ops) <==> k == ops[0].key || k in KeysOf(ops[1..]) {
        if k in KeysOf(ops) {
          var i :| 0 <= i < |ops| && ops[i].key == k;
          if i > 0 { assert ops[1..][i - 1].key == k; }
        }
        if k in KeysOf(ops[1..]) {
          var i :| 0 <= i < |ops[1..]| && ops[1..][i].key == k;
          assert ops[i + 1].key == k;
        }
      }
    }
  }
}
