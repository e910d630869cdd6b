/**
 * A repair of src/core/hashmap/hashmap.c, not the code itself: the probe tests the
 * tombstone flag, hm_insert looks for the key before it walks, and the walk reuses a
 * tombstone only when the node in hand is at least as deep. It refines a map over all
 * runs, deletes included, in which each put finds its key live or an unused slot, and
 * without deletes it does what the code does.
 */
module Repaired {
  import opened Bytes
  import opened Bits
  import opened Table
  import opened Loops
  import opened Segments
  import opened Runs

  /** Every slot that the probe passes on its way to slot j is taken, and deep enough. */
  ghost predicate Reach(t: Slots, n: Node, j: nat)
    requires j < |t|
  {
    forall i | 0 <= i < |t| && Passes(n, j, i, |t|) :: Occupied(t[i]) && t[i].dib >= ToU16(Own(n, i, |t|))
  }

  ghost predicate AllReach(t: Slots) {
    forall j | 0 <= j < |t| && Live(t[j]) :: Reach(t, t[j], j)
  }

  /** The invariant: no live slot is cut off, and live keys are unique. */
  ghost predicate Sound(H: Hasher, t: Slots) {
    |t| > 0 && IsPow2(|t|) && NodesOk(H, t) && LiveUnique(t) && AllReach(t)
  }

  // ---- get and delete ----

  /** The probe from distance d on, passing tombstones, over one round. */
  function FindAlive(H: Hasher, t: Slots, key: bytes, d: nat): (r: Option<nat>)
    requires |t| > 0 && d <= |t|
    ensures r.Some? ==> r.value < |t|
    decreases |t| - d
  {
    if d == |t| then None
    else
      var i := At(Home(H(key), |t|), d, |t|);
      if !Occupied(t[i]) || ToU16(d) > t[i].dib then None
      else if Live(t[i]) && Matches(H, t[i], key) then Some(i)
      else FindAlive(H, t, key, d + 1)
  }

  lemma {:induction false} FindAliveExact(H: Hasher, t: Slots, key: bytes, d: nat)
    requires Sound(H, t) && d <= |t|
    requires forall e | 0 <= e < d :: var i := At(Home(H(key), |t|), e, |t|); !(Live(t[i]) && t[i].key == key)
    ensures match FindAlive(H, t, key, d)
            case Some(i) => Live(t[i]) && t[i].key == key
            case None => forall j | 0 <= j < |t| && Live(t[j]) :: t[j].key != key
    decreases |t| - d
  {
    hide ToU16, Home, IsPow2;
    var h := Home(H(key), |t|);
    if d == |t| {
      forall j | 0 <= j < |t| && Live(t[j]) ensures t[j].key != key { AtDist(h, j, |t|); }
    } else {
      var i := At(h, d, |t|);
      assert NodeOk(H, t[i], i, |t|);
      if !Occupied(t[i]) || ToU16(d) > t[i].dib {
        forall j | 0 <= j < |t| && Live(t[j]) ensures t[j].key != key { StopsBefore(H, t, key, d, j); }
      } else {
        MatchesIsKey(H, t[i], key);
        if !(Live(t[i]) && Matches(H, t[i], key)) { FindAliveExact(H, t, key, d + 1); }
      }
    }
  }

  /** A slot that stops the probe has no live slot of the key behind it. */
  lemma {:induction false} StopsBefore(H: Hasher, t: Slots, key: bytes, d: nat, j: nat)
    requires Sound(H, t) && d < |t| && j < |t| && Live(t[j])
    requires var i := At(Home(H(key), |t|), d, |t|); !Occupied(t[i]) || ToU16(d) > t[i].dib
    requires forall e | 0 <= e < d :: var i := At(Home(H(key), |t|), e, |t|); !(Live(t[i]) && t[i].key == key)
    ensures t[j].key != key
  {
    hide ToU16, Home, IsPow2;
    var h := Home(H(key), |t|);
    var i := At(h, d, |t|);
    assert NodeOk(H, t[j], j, |t|) && Reach(t, t[j], j);
    AtDist(h, j, |t|);
    NextAt(h, d, |t|);
    assert t[j].key == key ==> Own(t[j], j, |t|) == Dist(h, j, |t|) && Own(t[j], i, |t|) == d;
    assert Passes(t[j], j, i, |t|) ==> Occupied(t[i]) && t[i].dib >= ToU16(Own(t[j], i, |t|));
  }

  // ---- the loop of that probe ----

  /** The loop with its 16-bit counter, cut off after n rounds. */
  function AliveLoop(H: Hasher, t: Slots, key: bytes, i: nat, dib: nat, n: nat): (r: Option<Option<nat>>)
    requires i < |t|
    decreases n
  {
    if n == 0 then None
    else if !Occupied(t[i]) || dib > t[i].dib then Some(None)
    else if Live(t[i]) && Matches(H, t[i], key) then Some(Some(i))
    else AliveLoop(H, t, key, Next(i, |t|), Inc16(dib), n - 1)
  }

  ghost predicate AliveEnds(H: Hasher, t: Slots, key: bytes)
    requires |t| > 0
  {
    exists n: nat :: AliveLoop(H, t, key, Home(H(key), |t|), 0, n).Some?
  }

  /** What the repaired probe passes in d steps. */
  ghost predicate PassedAlive(H: Hasher, t: Slots, key: bytes, d: nat)
    requires |t| > 0
  {
    var h := Home(H(key), |t|);
    forall i | 0 <= i < |t| && Dist(h, i, |t|) < d ::
      Occupied(t[i]) && t[i].dib >= ToU16(Dist(h, i, |t|)) && !(Live(t[i]) && t[i].key == key)
  }

  /** A whole round of the slots does not stop it. */
  ghost predicate EndlessAlive(H: Hasher, t: Slots, key: bytes)
    requires |t| > 0
  {
    |t| >= U16 && PassedAlive(H, t, key, |t|)
  }

  /** The loop ends unless a whole round does not stop it, with what FindAlive finds. */
  lemma {:induction false} AliveLoopIs(H: Hasher, t: Slots, key: bytes, d: nat, n: nat)
    requires Sound(H, t) && d < |t| && PassedAlive(H, t, key, d)
    ensures var r := AliveLoop(H, t, key, At(Home(H(key), |t|), d, |t|), ToU16(d), n);
            && (EndlessAlive(H, t, key) ==> r == None)
            && (!EndlessAlive(H, t, key) && n > |t| - d ==> r == Some(FindAlive(H, t, key, d)))
            && (r.Some? ==> r == Some(FindAlive(H, t, key, d)))
    decreases n
  {
    hide AliveLoop, FindAlive, PassedAlive, EndlessAlive, Sound, ToU16, Home, At, Next, Matches;
    AliveUnfold(H, t, key, d, n);
    AliveStep(H, t, key, d);
    var i := At(Home(H(key), |t|), d, |t|);
    if n > 0 && Occupied(t[i]) && ToU16(d) <= t[i].dib && !(Live(t[i]) && Matches(H, t[i], key)) {
      if d + 1 < |t| {
        AliveLoopIs(H, t, key, d + 1, n - 1);
      } else if EndlessAlive(H, t, key) {
        AliveLoopIs(H, t, key, 0, n - 1);
      } else {
        AliveWraps(H, t, key, n - 1);
      }
    }
  }

  lemma {:induction false} AliveUnfold(H: Hasher, t: Slots, key: bytes, d: nat, n: nat)
    requires |t| > 0 && d < |t|
    ensures var i := At(Home(H(key), |t|), d, |t|);
            var stop, found := !Occupied(t[i]) || ToU16(d) > t[i].dib, Live(t[i]) && Matches(H, t[i], key);
            && i < |t| && Next(i, |t|) < |t|
            && FindAlive(H, t, key, d) ==
               (if stop then None else if found then Some(i) else FindAlive(H, t, key, d + 1))
            && AliveLoop(H, t, key, i, ToU16(d), n) ==
               if n == 0 then None
               else if stop then Some(None)
               else if found then Some(Some(i))
               else AliveLoop(H, t, key, Next(i, |t|), Inc16(ToU16(d)), n - 1)
    ensures FindAlive(H, t, key, |t|) == None
  {
    hide ToU16;
  }

  lemma {:induction false} AliveStep(H: Hasher, t: Slots, key: bytes, d: nat)
    requires Sound(H, t) && d < |t| && PassedAlive(H, t, key, d)
    ensures var h := Home(H(key), |t|);
            var i := At(h, d, |t|);
            var passes := Occupied(t[i]) && ToU16(d) <= t[i].dib && !(Live(t[i]) && Matches(H, t[i], key));
            && (EndlessAlive(H, t, key) ==> passes)
            && (passes ==> PassedAlive(H, t, key, d + 1))
            && (passes && d + 1 == |t| && !EndlessAlive(H, t, key) ==> |t| < U16)
            && Inc16(ToU16(d)) == ToU16(d + 1) && Next(i, |t|) == At(h, d + 1, |t|) && At(h, |t|, |t|) == At(h, 0, |t|)
            && (EndlessAlive(H, t, key) ==> ToU16(|t|) == ToU16(0)) && PassedAlive(H, t, key, 0)
  {
    var h := Home(H(key), |t|);
    var i := At(h, d, |t|);
    ToU16Next(d);
    ToU16Next(0);
    if |t| >= U16 { ToU16Round(|t|, 0); }
    hide ToU16, IsPow2, Home, AllReach;
    NextAt(h, d, |t|);
    assert NodeOk(H, t[i], i, |t|);
    if Occupied(t[i]) {
      MatchesIsKey(H, t[i], key);
      if ToU16(d) <= t[i].dib && !(Live(t[i]) && Matches(H, t[i], key)) {
        forall k | 0 <= k < |t| && Dist(h, k, |t|) < d + 1
          ensures Occupied(t[k]) && t[k].dib >= ToU16(Dist(h, k, |t|)) && !(Live(t[k]) && t[k].key == key)
        {
          AtDist(h, k, |t|);
        }
      }
    }
  }

  /** In a small table the slot at home stops the probe when it comes round. */
  lemma {:induction false} AliveWraps(H: Hasher, t: Slots, key: bytes, n: nat)
    requires Sound(H, t) && |t| < U16 && PassedAlive(H, t, key, |t|)
    ensures AliveLoop(H, t, key, At(Home(H(key), |t|), |t|, |t|), ToU16(|t|), n) == if n == 0 then None else Some(None)
  {
    var i := Home(H(key), |t|);
    assert At(i, |t|, |t|) == i && Dist(i, i, |t|) == 0;
    assert NodeOk(H, t[i], i, |t|) && Occupied(t[i]);
    ToU16Next(|t|);
    ToU16Next(Own(t[i], i, |t|));
    hide ToU16;
  }

  /** When the repaired probe ends. */
  lemma {:induction false} AliveEndsExactly(H: Hasher, t: Slots, key: bytes)
    requires Sound(H, t)
    ensures AliveEnds(H, t, key) <==> !EndlessAlive(H, t, key)
    ensures forall n: nat :: var r := AliveLoop(H, t, key, Home(H(key), |t|), 0, n);
                             r.Some? ==> r == Some(FindAlive(H, t, key, 0))
    ensures FindAlive(H, t, key, 0).Some? ==> AliveEnds(H, t, key)
  {
    ToU16Next(0);
    assert At(Home(H(key), |t|), 0, |t|) == Home(H(key), |t|) && PassedAlive(H, t, key, 0);
    hide AliveLoop, FindAlive, PassedAlive, Home, Sound, ToU16;
    forall n: nat
      ensures var r := AliveLoop(H, t, key, Home(H(key), |t|), 0, n);
              && (EndlessAlive(H, t, key) ==> r == None)
              && (!EndlessAlive(H, t, key) && n > |t| ==> r.Some?)
              && (r.Some? ==> r == Some(FindAlive(H, t, key, 0)))
    {
      AliveLoopIs(H, t, key, 0, n);
    }
    assert !EndlessAlive(H, t, key) ==> AliveLoop(H, t, key, Home(H(key), |t|), 0, |t| + 1).Some?;
    FoundNotEndless(H, t, key);
  }

  lemma {:induction false} FoundNotEndless(H: Hasher, t: Slots, key: bytes)
    requires Sound(H, t)
    ensures FindAlive(H, t, key, 0).Some? ==> !EndlessAlive(H, t, key)
  {
    FindAliveExact(H, t, key, 0);
    hide FindAlive, ToU16;
    assert forall i | 0 <= i < |t| :: Dist(Home(H(key), |t|), i, |t|) < |t|;
  }

  function GetLive(H: Hasher, t: Slots, key: bytes): Value
    requires |t| > 0
  {
    match FindAlive(H, t, key, 0)
    case None => Null
    case Some(i) => t[i].entry.value
  }

  function Remove(H: Hasher, t: Slots, key: bytes): (r: (Slots, bool))
    requires |t| > 0
    ensures |r.0| == |t|
  {
    match FindAlive(H, t, key, 0)
    case None => (t, false)
    case Some(i) => (t[i := t[i].(tomb := true)], true)
  }

  lemma {:induction false} GetLiveIsLookup(H: Hasher, t: Slots, key: bytes)
    requires Sound(H, t)
    ensures GetLive(H, t, key) == Lookup(Contents(t), key)
    ensures FindAlive(H, t, key, 0).Some? <==> key in Contents(t)
  {
    FindAliveExact(H, t, key, 0);
    match FindAlive(H, t, key, 0)
    case None =>
      if key in Contents(t) { ContentsHas(t, key, Contents(t)[key]); }
    case Some(i) =>
      assert Binds(t[i], key, t[i].entry);
      ContentsHas(t, key, t[i].entry);
  }

  /** A slot whose probe data stay may be rewritten. */
  lemma {:induction false} Rewrite(H: Hasher, t: Slots, i: nat, n: Node)
    requires Sound(H, t) && i < |t| && Live(t[i])
    requires SameProbe(n, t[i])
    ensures Sound(H, t[i := n])
    ensures forall q, x :: Has(t[i := n], q, x) <==> if q == n.key then Binds(n, q, x) else Has(t, q, x)
  {
    hide ToU16, IsPow2;
    var t' := t[i := n];
    forall j | 0 <= j < |t| ensures NodeOk(H, t'[j], j, |t|) { assert NodeOk(H, t[j], j, |t|); }
    assert Reach(t, t[i], i);
    forall j | 0 <= j < |t| && Live(t'[j]) ensures Reach(t', t'[j], j) {
      assert j != i ==> Reach(t, t[j], j);
    }
    hide Reach, NodesOk;
    forall q, x ensures Has(t', q, x) <==> if q == n.key then Binds(n, q, x) else Has(t, q, x) {
      HasUpdate(t, i, n, q, x);
      assert q == t[i].key ==> !HasBut(t, i, q, x);
    }
  }

  lemma {:induction false} RemoveIsRemove(H: Hasher, t: Slots, key: bytes)
    requires Sound(H, t)
    ensures var (t', ok) := Remove(H, t, key);
            Sound(H, t') && Contents(t') == Contents(t) - {key} && (ok <==> key in Contents(t))
  {
    GetLiveIsLookup(H, t, key);
    FindAliveExact(H, t, key, 0);
    var (t', ok) := Remove(H, t, key);
    if ok {
      var i := FindAlive(H, t, key, 0).value;
      Rewrite(H, t, i, t'[i]);
      RemovedContents(t, t', key);
    }
  }

  // ---- insert ----

  /** A slot that the walk may take with `cur` in hand. */
  predicate Usable(n: Node, cur: Node) {
    !Occupied(n) || (n.tomb && cur.dib >= n.dib)
  }

  /** The walk with `cur` in hand, for a key that is not live. */
  function Walk(t: Slots, cur: Node, i: nat, n: nat): (r: Option<Slots>)
    requires i < |t|
    ensures r.Some? ==> |r.value| == |t|
    decreases n
  {
    if n == 0 then None
    else if Usable(t[i], cur) then Some(t[i := cur])
    else if t[i].dib < cur.dib then
      Walk(t[i := cur], Deepen(t[i]), Next(i, |t|), n - 1)
    else Walk(t, Deepen(cur), Next(i, |t|), n - 1)
  }

  function Put(H: Hasher, t: Slots, key: bytes, e: Entry): (r: Option<(Slots, bool)>)
    requires |t| > 0
    ensures r.Some? ==> |r.value.0| == |t|
  {
    match FindAlive(H, t, key, 0)
    case Some(j) => Some((t[j := t[j].(entry := e)], false))
    case None =>
      match Walk(t, NewNode(H, key, e), Home(H(key), |t|), 2 * |t| + 2)
      case None => None
      case Some(t') => Some((t', true))
  }

  /** The table with a node in hand that may be placed at slot i. */
  ghost predicate InHand(H: Hasher, t: Slots, cur: Node, i: nat) {
    && Sound(H, t) && i < |t|
    && KeyOk(H, cur) && Live(cur)
    && cur.dib == ToU16(Own(cur, i, |t|)) && Reach(t, cur, i)
    && !LiveKey(t, cur.key)
  }

  /** A slot that is no deeper than the node in hand may be given to it: slots only become deeper. */
  lemma {:induction false} PlaceSound(H: Hasher, t: Slots, cur: Node, i: nat)
    requires InHand(H, t, cur, i) && (Occupied(t[i]) ==> t[i].dib <= cur.dib)
    ensures Sound(H, t[i := cur])
  {
    hide ToU16, IsPow2, Own;
    var t' := t[i := cur];
    forall j | 0 <= j < |t| ensures NodeOk(H, t'[j], j, |t|) { assert NodeOk(H, t[j], j, |t|); }
    forall j | 0 <= j < |t| && Live(t'[j]) ensures Reach(t', t'[j], j) {
      if j != i { assert Reach(t, t[j], j); }
    }
    forall j | 0 <= j < |t| && j != i && Live(t[j]) ensures t[j].key != cur.key { }
  }

  lemma {:induction false} SkipInHand(H: Hasher, t: Slots, cur: Node, i: nat)
    requires InHand(H, t, cur, i) && Within(cur, i, |t|) && Occupied(t[i]) && t[i].dib >= cur.dib
    ensures InHand(H, t, Deepen(cur), Next(i, |t|))
  {
    OwnNext(cur, i, |t|);
    hide ToU16, IsPow2, Home, Dist, NodesOk, AllReach;
  }

  lemma {:induction false} SwapInHand(H: Hasher, t: Slots, cur: Node, i: nat)
    requires InHand(H, t, cur, i) && Live(t[i]) && t[i].dib < cur.dib && Within(t[i], i, |t|)
    ensures InHand(H, t[i := cur], Deepen(t[i]), Next(i, |t|))
  {
    PlaceSound(H, t, cur, i);
    assert NodeOk(H, t[i], i, |t|) && Reach(t, t[i], i);
    OwnNext(t[i], i, |t|);
    hide ToU16, IsPow2, Home, Dist, NodesOk, AllReach;
    assert forall j | 0 <= j < |t| && j != i && Live(t[j]) :: t[j].key != t[i].key;
  }

  /** What the walk needs to reach an unused slot f. */
  ghost predicate Ahead(t: Slots, cur: Node, i: nat, f: nat)
    requires i < |t|
  {
    f < |t| && !Occupied(t[f]) && (|t| < U16 ==> Own(cur, i, |t|) + Dist(i, f, |t|) < |t|)
  }

  /** With an unused slot f ahead the walk ends there at the latest, and adds its node. */
  lemma {:induction false} WalkAdds(H: Hasher, t: Slots, cur: Node, i: nat, f: nat, n: nat)
    requires InHand(H, t, cur, i) && Ahead(t, cur, i, f) && n > Dist(i, f, |t|)
    ensures var r := Walk(t, cur, i, n);
            r.Some? && Sound(H, r.value) && Adds(t, r.value, cur)
    decreases Dist(i, f, |t|)
  {
    hide InHand, Sound, Adds, Walk, Next, Within, Own, ToU16;
    WalkRound(H, t, cur, i, f, n);
    if Usable(t[i], cur) {
      PlaceSound(H, t, cur, i);
      AddsHere(t, cur, i);
    } else if t[i].dib < cur.dib {
      SwapInHand(H, t, cur, i);
      WalkAdds(H, t[i := cur], Deepen(t[i]), Next(i, |t|), f, n - 1);
      AddsSwapped(t, Walk(t, cur, i, n).value, cur, i);
    } else {
      SkipInHand(H, t, cur, i);
      WalkAdds(H, t, Deepen(cur), Next(i, |t|), f, n - 1);
      AddsDeeper(t, Walk(t, cur, i, n).value, cur);
    }
  }

  /** One round of the walk, and what it leaves to do. */
  lemma {:induction false} WalkRound(H: Hasher, t: Slots, cur: Node, i: nat, f: nat, n: nat)
    requires InHand(H, t, cur, i) && Ahead(t, cur, i, f) && n > Dist(i, f, |t|)
    ensures i < |t| && Next(i, |t|) < |t|
    ensures Usable(t[i], cur) ==>
              Walk(t, cur, i, n) == Some(t[i := cur]) && !Live(t[i]) && (Occupied(t[i]) ==> t[i].dib <= cur.dib)
    ensures !Usable(t[i], cur) ==>
              var k := Next(i, |t|);
              && i != f && Dist(k, f, |t|) == Dist(i, f, |t|) - 1 && Occupied(t[i])
              && if t[i].dib < cur.dib then
                   Live(t[i]) && Within(t[i], i, |t|) && Ahead(t[i := cur], Deepen(t[i]), k, f) &&
                   Walk(t, cur, i, n) == Walk(t[i := cur], Deepen(t[i]), k, n - 1)
                 else
                   Within(cur, i, |t|) && Ahead(t, Deepen(cur), k, f) &&
                   Walk(t, cur, i, n) == Walk(t, Deepen(cur), k, n - 1)
  {
    ToU16Next(Own(t[i], i, |t|));
    ToU16Next(Own(cur, i, |t|));
    assert NodeOk(H, t[i], i, |t|);
    hide ToU16, NodesOk, AllReach, Home, IsPow2;
  }

  lemma {:induction false} AddsDeeper(t: Slots, t': Slots, cur: Node)
    requires Adds(t, t', Deepen(cur))
    ensures Adds(t, t', cur)
  {
    assert forall q, x :: Binds(Deepen(cur), q, x) <==> Binds(cur, q, x);
  }

  lemma {:induction false} AddsHere(t: Slots, cur: Node, i: nat)
    requires i < |t| && !Live(t[i])
    ensures Adds(t, t[i := cur], cur)
  {
    forall q, x ensures Has(t[i := cur], q, x) <==> Has(t, q, x) || Binds(cur, q, x) {
      HasUpdate(t, i, cur, q, x);
    }
  }

  lemma {:induction false} AddsSwapped(t: Slots, t': Slots, cur: Node, i: nat)
    requires i < |t| && Adds(t[i := cur], t', Deepen(t[i]))
    ensures Adds(t, t', cur)
  {
    forall q, x ensures Has(t', q, x) <==> Has(t, q, x) || Binds(cur, q, x) {
      HasUpdate(t, i, cur, q, x);
      assert Binds(Deepen(t[i]), q, x) <==> Binds(t[i], q, x);
    }
  }

  /** A slot that was never used. */
  ghost predicate HasUnused(t: Slots) {
    exists f :: 0 <= f < |t| && !Occupied(t[f])
  }

  /** The key is live, or there is such a slot. */
  ghost predicate Spare(t: Slots, key: bytes) {
    key in Contents(t) || HasUnused(t)
  }

  lemma {:induction false} PutIsUpdate(H: Hasher, t: Slots, key: bytes, e: Entry)
    requires Sound(H, t) && Storable(H, key) && Spare(t, key)
    ensures var r := Put(H, t, key, e);
            && r.Some? && Sound(H, r.value.0) && Contents(r.value.0) == Contents(t)[key := e]
            && (r.value.1 <==> key !in Contents(t))
  {
    GetLiveIsLookup(H, t, key);
    FindAliveExact(H, t, key, 0);
    if key in Contents(t) {
      PutLive(t, FindAlive(H, t, key, 0).value, e, H);
    } else {
      PutAbsent(H, t, key, e);
    }
    hide FindAlive, Walk, Home, Contents, Sound;
  }

  lemma {:induction false} PutLive(t: Slots, j: nat, e: Entry, H: Hasher)
    requires Sound(H, t) && j < |t| && Live(t[j])
    ensures var t' := t[j := t[j].(entry := e)]; Sound(H, t') && Contents(t') == Contents(t)[t[j].key := e]
  {
    hide Contents;
    var n := t[j].(entry := e);
    var t' := t[j := n];
    Rewrite(H, t, j, n);
    LiveSets(t, t', n);
    SetsContents(t, t', n.key, e);
  }

  lemma {:induction false} LiveSets(t: Slots, t': Slots, n: Node)
    requires Live(n) && forall q, x :: Has(t', q, x) <==> if q == n.key then Binds(n, q, x) else Has(t, q, x)
    ensures Sets(t, t', n.key, n.entry)
  {
    hide Has;
  }

  lemma {:induction false} PutAbsent(H: Hasher, t: Slots, key: bytes, e: Entry)
    requires Sound(H, t) && Storable(H, key) && Spare(t, key) && key !in Contents(t)
    requires forall j | 0 <= j < |t| && Live(t[j]) :: t[j].key != key
    ensures var r := Walk(t, NewNode(H, key, e), Home(H(key), |t|), 2 * |t| + 2);
            r.Some? && Sound(H, r.value) && Contents(r.value) == Contents(t)[key := e]
  {
    hide Contents, Walk;
    var cur, h := NewNode(H, key, e), Home(H(key), |t|);
    var f :| 0 <= f < |t| && !Occupied(t[f]);
    KeyFits(H, key, e);
    ToU16Next(0);
    assert Own(cur, h, |t|) == 0;
    hide Home, Dist, NodesOk, AllReach, ToU16, LiveUnique;
    assert Ahead(t, cur, h, f) by { FirstAhead(cur, f, |t|); }
    WalkAdds(H, t, cur, h, f, 2 * |t| + 2);
    var t' := Walk(t, cur, h, 2 * |t| + 2).value;
    AddsSets(t, t', cur);
    SetsContents(t, t', key, e);
  }

  lemma {:induction false} FirstAhead(cur: Node, f: nat, cap: nat)
    requires f < cap
    ensures Own(cur, Home(cur.hash, cap), cap) + Dist(Home(cur.hash, cap), f, cap) < cap
  {
    hide Home;
  }

  lemma {:induction false} KeyFits(H: Hasher, key: bytes, e: Entry)
    requires |key| < U16
    ensures KeyOk(H, NewNode(H, key, e))
  {
    ToU16Next(|key|);
  }

  // ---- whole runs ----

  function StepR(H: Hasher, s: State, op: Op): (s': State)
    requires |s.t| > 0
    ensures |s'.t| == |s.t|
  {
    match op
    case Put(key, e) =>
      (match Put(H, s.t, key, e)
       case None => s
       case Some((t', added)) => State(t', if added then Inc64(s.count) else s.count))
    case Del(key) =>
      var (t', ok) := Remove(H, s.t, key);
      State(t', if ok then Dec64(s.count) else s.count)
  }

  function RunR(H: Hasher, s: State, ops: seq<Op>): (s': State)
    requires |s.t| > 0
    ensures |s'.t| == |s.t|
    decreases |ops|
  {
    if ops == [] then s else RunR(H, StepR(H, s, ops[0]), ops[1..])
  }

  ghost predicate AgreesR(H: Hasher, s: State, m: Map) {
    Sound(H, s.t) && |s.t| < U64 && Contents(s.t) == m && s.count == |m|
  }

  lemma {:induction false} StepRepaired(H: Hasher, s: State, m: Map, op: Op)
    requires AgreesR(H, s, m) && (op.Put? ==> Storable(H, op.key) && Spare(s.t, op.key))
    ensures AgreesR(H, StepR(H, s, op), Runs.Apply(m, op))
  {
    CountAtMost(s.t);
    if op.Put? {
      PutIsUpdate(H, s.t, op.key, op.entry);
    } else {
      RemoveIsRemove(H, s.t, op.key);
    }
    CountAtMost(StepR(H, s, op).t);
    RemoveCard(m, op.key);
    hide Sound, Contents, Put, Remove, Spare;
    if op.Put? { assert Runs.Apply(m, op).Keys == m.Keys + {op.key}; }
  }

  /** Slots that were ever used: only a put of a key that is not live takes one. */
  function UsedUpTo(t: Slots, n: nat): nat
    requires n <= |t|
  {
    if n == 0 then 0 else UsedUpTo(t, n - 1) + (if Occupied(t[n - 1]) then 1 else 0)
  }

  lemma {:induction false} UsedUpdate(t: Slots, i: nat, x: Node, n: nat)
    requires i < |t| && n <= |t|
    ensures UsedUpTo(t[i := x], n) == UsedUpTo(t, n) +
            (if i >= n || Occupied(t[i]) == Occupied(x) then 0 else if Occupied(x) then 1 else -1)
  {
    if n != 0 { UsedUpdate(t, i, x, n - 1); }
  }

  lemma {:induction false} UsedAll(t: Slots, n: nat)
    requires n <= |t| && forall i | 0 <= i < n :: Occupied(t[i])
    ensures UsedUpTo(t, n) == n
  {
    if n != 0 { UsedAll(t, n - 1); }
  }

  /** With fewer used slots than slots every key finds an unused one, and every probe ends. */
  lemma {:induction false} UnusedIsSpare(H: Hasher, t: Slots, key: bytes)
    requires |t| > 0 && UsedUpTo(t, |t|) < |t|
    ensures Spare(t, key) && !EndlessAlive(H, t, key)
  {
    if !HasUnused(t) { UsedAll(t, |t|); }
    var f :| 0 <= f < |t| && !Occupied(t[f]);
    assert Dist(Home(H(key), |t|), f, |t|) < |t|;
  }

  lemma {:induction false} WalkUses(t: Slots, cur: Node, i: nat, n: nat)
    requires i < |t| && Occupied(cur)
    ensures var r := Walk(t, cur, i, n); r.Some? ==> UsedUpTo(r.value, |t|) <= UsedUpTo(t, |t|) + 1
    decreases n
  {
    if n != 0 {
      UsedUpdate(t, i, cur, |t|);
      if Usable(t[i], cur) {
      } else if t[i].dib < cur.dib {
        WalkUses(t[i := cur], Deepen(t[i]), Next(i, |t|), n - 1);
      } else {
        WalkUses(t, Deepen(cur), Next(i, |t|), n - 1);
      }
    }
  }

  lemma {:induction false} StepUses(H: Hasher, s: State, op: Op)
    requires Sound(H, s.t) && (op.Put? ==> H(op.key) != 0)
    ensures UsedUpTo(StepR(H, s, op).t, |s.t|) <=
            UsedUpTo(s.t, |s.t|) + (if op.Put? && op.key !in Contents(s.t) then 1 else 0)
  {
    FindAliveExact(H, s.t, op.key, 0);
    GetLiveIsLookup(H, s.t, op.key);
    hide Contents;
    var r := FindAlive(H, s.t, op.key, 0);
    if op.Put? {
      WalkUses(s.t, NewNode(H, op.key, op.entry), Home(H(op.key), |s.t|), 2 * |s.t| + 2);
      if r.Some? { UsedUpdate(s.t, r.value, s.t[r.value].(entry := op.entry), |s.t|); }
    } else if r.Some? {
      UsedUpdate(s.t, r.value, s.t[r.value].(tomb := true), |s.t|);
    }
  }

  /** Every put finds its key live or an unused slot, and the probe of every delete ends. */
  ghost predicate SpareRun(H: Hasher, s: State, ops: seq<Op>)
    requires |s.t| > 0
    decreases |ops|
  {
    ops == [] ||
    ((if ops[0].Put? then Storable(H, ops[0].key) && Spare(s.t, ops[0].key) else !EndlessAlive(H, s.t, ops[0].key)) &&
     SpareRun(H, StepR(H, s, ops[0]), ops[1..]))
  }

  /** The probe with which every call begins ends. */
  ghost predicate EndRunR(H: Hasher, s: State, ops: seq<Op>)
    requires |s.t| > 0
    decreases |ops|
  {
    ops == [] || (AliveEnds(H, s.t, ops[0].key) && EndRunR(H, StepR(H, s, ops[0]), ops[1..]))
  }

  lemma {:induction false} SpareEndsR(H: Hasher, t: Slots, key: bytes)
    requires Sound(H, t) && Spare(t, key)
    ensures AliveEnds(H, t, key)
  {
    AliveEndsExactly(H, t, key);
    hide AliveEnds, FindAlive, Contents, Sound, ToU16;
    if HasUnused(t) {
      var f :| 0 <= f < |t| && !Occupied(t[f]);
      assert |t| > 0 && Dist(Home(H(key), |t|), f, |t|) < |t|;
    } else {
      GetLiveIsLookup(H, t, key);
    }
  }

  /**
   * The repaired table refines a map over every run of puts and deletes, of any length,
   * in which each put finds its key live or an unused slot: every call comes back, and
   * contents, count, and every answer of get are those of the map; get comes back for
   * every key unless a whole round of 2^16 slots or more does not stop its probe.
   */
  lemma {:induction false} RepairedRunRefines(H: Hasher, s: State, m: Map, ops: seq<Op>)
    requires AgreesR(H, s, m) && SpareRun(H, s, ops)
    ensures EndRunR(H, s, ops) && AgreesR(H, RunR(H, s, ops), ApplyAll(m, ops))
    ensures forall key ::
              var t := RunR(H, s, ops).t;
              && GetLive(H, t, key) == Lookup(ApplyAll(m, ops), key)
              && (AliveEnds(H, t, key) <==> !EndlessAlive(H, t, key))
              && (key in ApplyAll(m, ops) ==> AliveEnds(H, t, key))
    decreases |ops|
  {
    if ops == [] {
      forall key
        ensures GetLive(H, s.t, key) == Lookup(m, key)
        ensures AliveEnds(H, s.t, key) <==> !EndlessAlive(H, s.t, key)
        ensures key in m ==> AliveEnds(H, s.t, key)
      {
        GetLiveIsLookup(H, s.t, key);
        AliveEndsExactly(H, s.t, key);
      }
    } else {
      var key := ops[0].key;
      if ops[0].Put? { SpareEndsR(H, s.t, key); } else { AliveEndsExactly(H, s.t, key); }
      hide AgreesR, Sound, AliveEnds, EndlessAlive, Spare, Storable, GetLive, StepR;
      StepRepaired(H, s, m, ops[0]);
      RepairedRunRefines(H, StepR(H, s, ops[0]), Runs.Apply(m, ops[0]), ops[1..]);
    }
  }

  /** The puts of a run that find their key absent; updates of a live key do not count. */
  function NewPuts(m: Map, ops: seq<Op>): nat
    decreases |ops|
  {
    if ops == [] then 0
    else (if ops[0].Put? && ops[0].key !in m then 1 else 0) + NewPuts(Runs.Apply(m, ops[0]), ops[1..])
  }

  /** So many slots in use: all may be, but in a table of 2^16 slots or more not all. */
  predicate LeavesUnused(used: nat, cap: nat) {
    used < cap || (used == cap && cap < U16)
  }

  /** With no more such puts than unused slots there is always room. */
  lemma {:induction false} NewPutsSpare(H: Hasher, s: State, m: Map, ops: seq<Op>)
    requires |s.t| > 0 && AgreesR(H, s, m) && LeavesUnused(UsedUpTo(s.t, |s.t|) + NewPuts(m, ops), |s.t|)
    requires forall i | 0 <= i < |ops| && ops[i].Put? :: Storable(H, ops[i].key)
    ensures SpareRun(H, s, ops)
    ensures UsedUpTo(RunR(H, s, ops).t, |s.t|) <= UsedUpTo(s.t, |s.t|) + NewPuts(m, ops)
    decreases |ops|
  {
    hide *;
    RunUnfoldR(H, s, m, ops);
    if ops != [] {
      SpareStep(H, s, m, ops[0], NewPuts(Runs.Apply(m, ops[0]), ops[1..]));
      NewPutsSpare(H, StepR(H, s, ops[0]), Runs.Apply(m, ops[0]), ops[1..]);
    }
  }

  lemma {:induction false} RunUnfoldR(H: Hasher, s: State, m: Map, ops: seq<Op>)
    requires |s.t| > 0
    ensures ops == [] ==> SpareRun(H, s, ops) && RunR(H, s, ops) == s
    ensures ops != [] ==>
              var op, s' := ops[0], StepR(H, s, ops[0]);
              && NewPuts(m, ops) == (if op.Put? && op.key !in m then 1 else 0) + NewPuts(Runs.Apply(m, op), ops[1..])
              && RunR(H, s, ops) == RunR(H, s', ops[1..])
              && (SpareRun(H, s, ops) <==>
                    (if op.Put? then Storable(H, op.key) && Spare(s.t, op.key) else !EndlessAlive(H, s.t, op.key)) &&
                    SpareRun(H, s', ops[1..]))
  {
    hide StepR, Storable, Spare, EndlessAlive, Runs.Apply;
  }

  lemma {:induction false} SpareStep(H: Hasher, s: State, m: Map, op: Op, rest: nat)
    requires AgreesR(H, s, m) && (op.Put? ==> Storable(H, op.key))
    requires LeavesUnused(UsedUpTo(s.t, |s.t|) + (if op.Put? && op.key !in m then 1 else 0) + rest, |s.t|)
    ensures if op.Put? then Spare(s.t, op.key) else !EndlessAlive(H, s.t, op.key)
    ensures AgreesR(H, StepR(H, s, op), Runs.Apply(m, op)) && |StepR(H, s, op).t| == |s.t|
    ensures UsedUpTo(StepR(H, s, op).t, |s.t|) <=
            UsedUpTo(s.t, |s.t|) + (if op.Put? && op.key !in m then 1 else 0)
    ensures LeavesUnused(UsedUpTo(StepR(H, s, op).t, |s.t|) + rest, |s.t|)
  {
    hide UsedUpTo, StepR, Sound, Contents, HasUnused;
    if UsedUpTo(s.t, |s.t|) < |s.t| { UnusedIsSpare(H, s.t, op.key); }
    SmallEndsR(H, s.t, op.key);
    StepRepaired(H, s, m, op);
    StepUses(H, s, op);
  }

  lemma {:induction false} SmallEndsR(H: Hasher, t: Slots, key: bytes)
    ensures 0 < |t| < U16 ==> !EndlessAlive(H, t, key)
  {
  }

  lemma {:induction false} UnusedNone(cap: nat, n: nat)
    requires n <= cap
    ensures UsedUpTo(Create(cap).t, n) == 0
  {
    if n != 0 { UnusedNone(cap, n - 1); }
  }

  /**
   * From an empty table: every call comes back, and the last put not followed by a delete
   * is what get returns, with no more puts of absent keys than slots (fewer from 2^16
   * slots on), and any number of others.
   */
  lemma {:induction false} RepairedRunIsMap(H: Hasher, cap: nat, ops: seq<Op>, key: bytes)
    requires IsPow2(cap) && cap < U64 && LeavesUnused(NewPuts(map[], ops), cap)
    requires forall i | 0 <= i < |ops| && ops[i].Put? :: Storable(H, ops[i].key)
    ensures cap > 0 && EndRunR(H, Create(cap), ops)
    ensures var s := RunR(H, Create(cap), ops);
            && AliveEnds(H, s.t, key) && GetLive(H, s.t, key) == Lookup(ApplyAll(map[], ops), key)
            && s.count == |ApplyAll(map[], ops)|
  {
    CreateSound(H, cap);
    UnusedNone(cap, cap);
    NewPutsSpare(H, Create(cap), map[], ops);
    hide Sound, GetLive, AliveEnds, UsedUpTo, NewPuts, SpareRun, EndRunR, EndlessAlive, Spare;
    RepairedRunRefines(H, Create(cap), map[], ops);
    var t := RunR(H, Create(cap), ops).t;
    SmallEndsR(H, t, key);
    if UsedUpTo(t, |t|) < |t| { UnusedIsSpare(H, t, key); }
  }

  lemma {:induction false} CreateSound(H: Hasher, cap: nat)
    requires IsPow2(cap) && cap < U64
    ensures cap > 0 && AgreesR(H, Create(cap), map[])
  {
    MaskPow2(0, cap);
    var t := Create(cap).t;
    CreateAgrees(H, cap);
    forall i | 0 <= i < cap ensures NodeOk(H, t[i], i, cap) && !Live(t[i]) { }
  }

  // ---- the repair changes nothing while nothing is deleted ----

  /** Without tombstones and without the key ahead, the two walks take the same steps. */
  lemma {:induction false} SameWalk(H: Hasher, t: Slots, key: bytes, e: Entry, cur: Node, i: nat, f: nat, n: nat)
    requires NoTombs(t) && !cur.tomb && i < |t| && f < |t| && Free(t[f]) && n > Dist(i, f, |t|)
    requires (forall j | 0 <= j < |t| && Occupied(t[j]) :: KeyOk(H, t[j])) && KeyOk(H, cur) && Clear(t, key, i, f)
    ensures InsertFrom(H, t, key, e, cur, i, n) ==
            match Walk(t, cur, i, n) case None => None case Some(t') => Some((t', true))
    decreases Dist(i, f, |t|)
  {
    assert Dist(i, i, |t|) == 0;
    if !Free(t[i]) {
      MatchesIsKey(H, t[i], key);
      ClearNext(t, key, i, f);
      var k := Next(i, |t|);
      if t[i].dib < cur.dib {
        assert Clear(t[i := cur], key, k, f);
        SameWalk(H, t[i := cur], key, e, Deepen(t[i]), k, f, n - 1);
      } else {
        SameWalk(H, t, key, e, Deepen(cur), k, f, n - 1);
      }
    }
  }

  /** While nothing is deleted the repaired insertion and the code's are the same. */
  lemma {:induction false} PutIsInsert(H: Hasher, t: Slots, key: bytes, e: Entry)
    requires WellFormed(H, t) && NoTombs(t) && Storable(H, key) && Room(t, key)
    ensures Put(H, t, key, e) == Insert(H, t, key, e)
    ensures FindAlive(H, t, key, 0) == Find(H, t, key)
  {
    SameFind(H, t, key, 0);
    FindCases(H, t, key);
    hide FindAlive, FindFrom, InsertFrom, Walk, WellFormed, Room;
    match Find(H, t, key)
    case Some(j) => SameUpdate(H, t, key, e, j);
    case None => SameInsert(H, t, key, e);
  }

  lemma {:induction false} SameUpdate(H: Hasher, t: Slots, key: bytes, e: Entry, j: nat)
    requires WellFormed(H, t) && NoTombs(t) && |key| < U16 && j < |t| && Live(t[j]) && t[j].key == key
    ensures Insert(H, t, key, e) == Some((t[j := t[j].(entry := e)], false))
  {
    hide InsertFrom, StopFrom, Open, ToU16;
    assert NodeOk(H, t[j], j, |t|) && Open(t, t[j], j);
    ToU16Next(0);
    assert NewNode(H, key, e).(dib := ToU16(0)) == NewNode(H, key, e);
    InsertStored(H, t, key, e, 0, j, 2 * |t| + 2, |t|);
    assert At(Home(H(key), |t|), 0, |t|) == Home(H(key), |t|);
  }

  lemma {:induction false} SameInsert(H: Hasher, t: Slots, key: bytes, e: Entry)
    requires WellFormed(H, t) && NoTombs(t) && Storable(H, key) && Room(t, key)
    requires !LiveKey(t, key)
    ensures Insert(H, t, key, e) ==
            match Walk(t, NewNode(H, key, e), Home(H(key), |t|), 2 * |t| + 2)
            case None => None case Some(t') => Some((t', true))
  {
    hide InsertFrom, Walk, AllOpen;
    var cur, h := NewNode(H, key, e), Home(H(key), |t|);
    forall j | 0 <= j < |t| && Occupied(t[j]) ensures KeyOk(H, t[j]) { assert NodeOk(H, t[j], j, |t|); }
    var f :| 0 <= f < |t| && Free(t[f]);
    KeyFits(H, key, e);
    SameWalk(H, t, key, e, cur, h, f, 2 * |t| + 2);
  }

  lemma {:induction false} SameFind(H: Hasher, t: Slots, key: bytes, d: nat)
    requires |t| > 0 && NoTombs(t) && d <= |t|
    ensures FindAlive(H, t, key, d) == FindFrom(H, t, key, d)
    decreases |t| - d
  {
    if d < |t| { SameFind(H, t, key, d + 1); }
  }
}
