/**
 * The slot array of src/core/hashmap/hashmap.c as a value: what its probe loops
 * compute, the Robin Hood invariant they keep, and when they keep it.
 */
module Table {
  import opened Bytes
  import opened Bits

  /** A `void*`: NULL, or a pointer to the bytes behind it. */
  datatype Value = Null | Data(data: bytes)

  /** What a slot stores for its key. */
  datatype Entry = Entry(value: Value, valLen: nat)

  datatype Node = Node(hash: nat, key: bytes, entry: Entry, keyLen: nat, dib: nat, tomb: bool)

  /** A calloc'ed slot. */
  const EMPTY := Node(0, [], Entry(Null, 0), 0, 0, false)

  type Slots = seq<Node>

  /** The hash function of the table: FNV_1a in the server, any function here. */
  type Hasher = bytes -> nat

  function Home(hash: nat, cap: nat): (i: nat)
    requires cap > 0
    ensures i < cap
  {
    hash % cap
  }

  function Next(i: nat, cap: nat): nat {
    if i + 1 == cap then 0 else i + 1
  }

  /** How many steps of Next lead from slot a to slot b. */
  function Dist(a: nat, b: nat, cap: nat): (d: nat)
    requires a < cap && b < cap
    ensures d < cap
  {
    if a <= b then b - a else b - a + cap
  }

  /** The slot d steps after slot a. */
  function At(a: nat, d: nat, cap: nat): (i: nat)
    requires a < cap && d <= cap
    ensures i < cap
  {
    if a + d < cap then a + d else a + d - cap
  }

  /** Hash 0 marks an empty slot; a tombstone counts as occupied. */
  predicate Occupied(n: Node) { n.hash != 0 }

  predicate Live(n: Node) { Occupied(n) && !n.tomb }

  /** A slot that hm_insert may overwrite. */
  predicate Free(n: Node) { !Occupied(n) || n.tomb }

  /** The slot test of hm_insert, hm_get and hm_delete. */
  predicate Matches(H: Hasher, n: Node, key: bytes) {
    n.hash == H(key) && n.keyLen == |key| && key <= n.key
  }

  /** The conversion to uint16_t. */
  function ToU16(n: nat): nat {
    n % U16
  }

  /** `++` on a uint16_t. */
  function Inc16(d: nat): nat {
    if d + 1 == U16 then 0 else d + 1
  }

  /** The node that hm_insert builds on its stack. */
  function NewNode(H: Hasher, key: bytes, e: Entry): Node {
    Node(H(key), key, e, ToU16(|key|), 0, false)
  }

  /** The node one slot further on: `cur.dib++`. */
  function Deepen(n: Node): Node {
    n.(dib := Inc16(n.dib))
  }

  lemma {:induction false} ToU16Next(d: nat)
    ensures ToU16(d) < U16 && Inc16(ToU16(d)) == ToU16(d + 1)
    ensures d < U16 ==> ToU16(d) == d
  {
    var q, r := d / U16, d % U16;
    if r + 1 == U16 { ModUnique(d + 1, U16, q + 1, 0); } else { ModUnique(d + 1, U16, q, r + 1); }
    if d < U16 { ModUnique(d, U16, 0, d); }
  }

  /** A power of two from 2^16 on: after a whole round a 16-bit counter is where it was. */
  lemma {:induction false} ToU16Round(cap: nat, d: nat)
    requires IsPow2(cap) && cap >= U16
    ensures ToU16(cap) == 0 && ToU16(d + cap) == ToU16(d)
  {
    var k := BigPow2(cap);
    ModUnique(cap, U16, k, 0);
    ModUnique(d + cap, U16, d / U16 + k, d % U16);
  }

  lemma {:induction false} BigPow2(cap: nat) returns (k: nat)
    requires IsPow2(cap) && cap >= U16
    ensures cap == k * U16
  {
    var e: nat :| cap == Pow2(e);
    Pow2Of64();
    if e < 16 { Pow2Sum(e, 16 - e); SmallFactor(Pow2(e), Pow2(16 - e)); }
    Pow2Sum(e - 16, 16);
    k := Pow2(e - 16);
  }

  // ---- the invariant ----

  predicate KeyOk(H: Hasher, n: Node) {
    n.hash == H(n.key) && n.keyLen == |n.key| < U16
  }

  /** How far slot i is from the home of n. */
  function Own(n: Node, i: nat, cap: nat): (d: nat)
    requires i < cap
    ensures d < cap
  {
    Dist(Home(n.hash, cap), i, cap)
  }

  lemma {:induction false} OwnSame(n: Node, i: nat, j: nat, cap: nat)
    requires i < cap && j < cap
    ensures Own(n, i, cap) == Own(n, j, cap) <==> i == j
  {
    hide Home;
  }

  predicate NodeOk(H: Hasher, n: Node, i: nat, cap: nat)
    requires i < cap
  {
    Occupied(n) ==> KeyOk(H, n) && n.dib == ToU16(Own(n, i, cap))
  }

  ghost predicate NodesOk(H: Hasher, t: Slots) {
    forall i | 0 <= i < |t| :: NodeOk(H, t[i], i, |t|)
  }

  /** The probe for the key of n passes slot i on its way to slot j. */
  predicate Passes(n: Node, j: nat, i: nat, cap: nat)
    requires j < cap && i < cap
  {
    Own(n, i, cap) < Own(n, j, cap)
  }

  /** With x in a slot d steps from its home, the probe for the key of n goes on. */
  predicate Yields(x: Node, n: Node, d: nat) {
    Occupied(x) && x.dib >= ToU16(d) && x.key != n.key
  }

  /** The probe for the key of n is not stopped before slot j. */
  ghost predicate Open(t: Slots, n: Node, j: nat)
    requires j < |t|
  {
    forall i | 0 <= i < |t| && Passes(n, j, i, |t|) :: Yields(t[i], n, Own(n, i, |t|))
  }

  ghost predicate AllOpen(t: Slots) {
    forall j | 0 <= j < |t| && Live(t[j]) :: Open(t, t[j], j)
  }

  /**
   * The invariant of the table: the capacity is one that masking with capacity - 1
   * works for, probe distances are true up to their 16 bits, and no live slot is cut off
   * from its home. Tombstones need not be in reach of theirs.
   */
  ghost predicate WellFormed(H: Hasher, t: Slots) {
    |t| > 0 && IsPow2(|t|) && NodesOk(H, t) && AllOpen(t)
  }

  ghost predicate LiveKey(t: Slots, key: bytes) {
    exists i :: 0 <= i < |t| && Live(t[i]) && t[i].key == key
  }

  /** No two live slots share a key. */
  ghost predicate LiveUnique(t: Slots) {
    forall i, j | 0 <= i < j < |t| && Live(t[i]) && Live(t[j]) :: t[i].key != t[j].key
  }

  lemma {:induction false} NextAt(h: nat, d: nat, cap: nat)
    requires h < cap && d < cap
    ensures Next(At(h, d, cap), cap) == At(h, d + 1, cap)
    ensures Dist(h, At(h, d, cap), cap) == d
  {
  }

  lemma {:induction false} AtDist(h: nat, i: nat, cap: nat)
    requires h < cap && i < cap
    ensures At(h, Dist(h, i, cap), cap) == i
  {
  }

  /**
   * Robin Hood: every slot from the home of a live slot up to it is occupied, and is at
   * least as deep as its own distance from that home, around the end of the array too.
   */
  lemma {:induction false} RobinHood(H: Hasher, t: Slots, j: nat, d: nat)
    requires WellFormed(H, t) && j < |t| && Live(t[j]) && d <= Own(t[j], j, |t|)
    ensures t[j].dib == ToU16(Own(t[j], j, |t|))
    ensures var i := At(Home(t[j].hash, |t|), d, |t|);
            Occupied(t[i]) && t[i].dib >= ToU16(d) && (t[i].key == t[j].key <==> i == j)
  {
    hide ToU16;
    var h := Home(t[j].hash, |t|);
    assert NodeOk(H, t[j], j, |t|) && Open(t, t[j], j);
    AtDist(h, j, |t|);
    NextAt(h, d, |t|);
    var i := At(h, d, |t|);
    assert d < Own(t[j], j, |t|) ==> Passes(t[j], j, i, |t|);
  }

  lemma {:induction false} KeysUnique(H: Hasher, t: Slots)
    requires WellFormed(H, t)
    ensures LiveUnique(t)
  {
    hide ToU16;
    forall i, j | 0 <= i < j < |t| && Live(t[i]) && Live(t[j]) ensures t[i].key != t[j].key {
      assert NodeOk(H, t[i], i, |t|) && NodeOk(H, t[j], j, |t|) && Open(t, t[i], i) && Open(t, t[j], j);
      OwnSame(t[i], i, j, |t|);
    }
  }

  // ---- hm_get and hm_delete: the early-exit search ----

  /** The probe from distance d on, over one round: the slot it stops at with a match, if any. */
  function FindFrom(H: Hasher, t: Slots, key: bytes, d: nat): (r: Option<nat>)
    requires |t| > 0 && d <= |t|
    ensures r.Some? ==> r.value < |t|
    decreases |t| - d
  {
    if d == |t| then None
    else
      var i := At(Home(H(key), |t|), d, |t|);
      if !Occupied(t[i]) || ToU16(d) > t[i].dib then None
      else if Matches(H, t[i], key) then Some(i)
      else FindFrom(H, t, key, d + 1)
  }

  function Find(H: Hasher, t: Slots, key: bytes): (r: Option<nat>)
    requires |t| > 0
    ensures r.Some? ==> r.value < |t|
  {
    FindFrom(H, t, key, 0)
  }

  /** A scan of all slots for a live one, as a reference for the early-exit search. */
  function Scan(t: Slots, key: bytes, from: nat): (r: Option<nat>)
    requires from <= |t|
    ensures r.Some? ==> from <= r.value < |t| && Live(t[r.value]) && t[r.value].key == key
    ensures r.None? ==> forall i | from <= i < |t| :: !(Live(t[i]) && t[i].key == key)
    decreases |t| - from
  {
    if from == |t| then None
    else if Live(t[from]) && t[from].key == key then Some(from)
    else Scan(t, key, from + 1)
  }

  lemma {:induction false} MatchesIsKey(H: Hasher, n: Node, key: bytes)
    requires KeyOk(H, n)
    ensures Matches(H, n, key) <==> n.key == key
  {
  }

  /** The 16-bit length field: a new node is found again exactly when its key is short. */
  lemma {:induction false} NewNodeMatches(H: Hasher, key: bytes, e: Entry)
    ensures Matches(H, NewNode(H, key, e), key) <==> |key| < U16
  {
  }

  /** What the probe for a key has passed in d steps. */
  ghost predicate Passed(H: Hasher, t: Slots, key: bytes, d: nat)
    requires |t| > 0
  {
    var h := Home(H(key), |t|);
    forall i | 0 <= i < |t| && Dist(h, i, |t|) < d ::
      Occupied(t[i]) && t[i].dib >= ToU16(Dist(h, i, |t|)) && t[i].key != key
  }

  /**
   * A whole round stops the probe nowhere, and as the 16-bit counter comes round with the
   * slots it does not stop in the next one either.
   */
  ghost predicate Endless(H: Hasher, t: Slots, key: bytes)
    requires |t| > 0
  {
    |t| >= U16 && Passed(H, t, key, |t|)
  }

  /** An unused slot ends every probe. */
  lemma {:induction false} UnusedEnds(H: Hasher, t: Slots, key: bytes, f: nat)
    requires f < |t| && !Occupied(t[f])
    ensures !Endless(H, t, key)
  {
  }

  lemma {:induction false} PassedNext(H: Hasher, t: Slots, key: bytes, d: nat)
    requires |t| > 0 && d < |t| && Passed(H, t, key, d)
    requires var i := At(Home(H(key), |t|), d, |t|); Occupied(t[i]) && t[i].dib >= ToU16(d) && t[i].key != key
    ensures Passed(H, t, key, d + 1)
  {
    hide ToU16;
    var h := Home(H(key), |t|);
    forall i | 0 <= i < |t| && Dist(h, i, |t|) < d + 1
      ensures Occupied(t[i]) && t[i].dib >= ToU16(Dist(h, i, |t|)) && t[i].key != key
    {
      AtDist(h, i, |t|);
    }
  }

  lemma {:induction false} FindsOnlyOpen(H: Hasher, t: Slots, key: bytes, d: nat)
    requires |t| > 0 && NodesOk(H, t) && d <= |t| && Passed(H, t, key, d)
    ensures match FindFrom(H, t, key, d)
            case None => true
            case Some(j) => Occupied(t[j]) && t[j].key == key && Open(t, t[j], j)
    decreases |t| - d
  {
    if d < |t| {
      var h := Home(H(key), |t|);
      var i := At(h, d, |t|);
      hide ToU16;
      assert NodeOk(H, t[i], i, |t|);
      if Occupied(t[i]) && ToU16(d) <= t[i].dib {
        NextAt(h, d, |t|);
        MatchesIsKey(H, t[i], key);
        if !Matches(H, t[i], key) {
          PassedNext(H, t, key, d);
          FindsOnlyOpen(H, t, key, d + 1);
        }
      }
    }
  }

  lemma {:induction false} FindsOpen(H: Hasher, t: Slots, j: nat, d: nat)
    requires NodesOk(H, t) && j < |t| && Occupied(t[j]) && Open(t, t[j], j) && d <= Own(t[j], j, |t|)
    ensures FindFrom(H, t, t[j].key, d) == Some(j)
    decreases Own(t[j], j, |t|) - d
  {
    hide ToU16;
    var h := Home(t[j].hash, |t|);
    var i := At(h, d, |t|);
    assert NodeOk(H, t[j], j, |t|) && NodeOk(H, t[i], i, |t|);
    NextAt(h, d, |t|);
    AtDist(h, j, |t|);
    MatchesIsKey(H, t[i], t[j].key);
    if d < Own(t[j], j, |t|) {
      assert Passes(t[j], j, i, |t|);
      FindsOpen(H, t, j, d + 1);
    }
  }

  /**
   * The early-exit search finds slot j exactly when it holds the key, live or deleted,
   * and no slot on the way from its home is empty, too shallow, or holds the key too.
   */
  lemma {:induction false} FindExactly(H: Hasher, t: Slots, key: bytes, j: nat)
    requires |t| > 0 && NodesOk(H, t) && j < |t|
    ensures Find(H, t, key) == Some(j) <==> Occupied(t[j]) && t[j].key == key && Open(t, t[j], j)
  {
    hide ToU16;
    FindsOnlyOpen(H, t, key, 0);
    assert NodeOk(H, t[j], j, |t|);
    if Occupied(t[j]) && t[j].key == key && Open(t, t[j], j) { FindsOpen(H, t, j, 0); }
  }

  /** Stopping early loses nothing: the search finds the live slot that a scan of all slots finds. */
  lemma {:induction false} FindIsScan(H: Hasher, t: Slots, key: bytes)
    requires WellFormed(H, t)
    ensures match Scan(t, key, 0)
            case Some(j) => Find(H, t, key) == Some(j)
            case None => Find(H, t, key).Some? ==> t[Find(H, t, key).value].tomb
  {
    FindsOnlyOpen(H, t, key, 0);
    var r := Scan(t, key, 0);
    if r.Some? {
      assert Open(t, t[r.value], r.value);
      FindExactly(H, t, key, r.value);
    }
  }

  lemma {:induction false} FindLive(H: Hasher, t: Slots, key: bytes)
    requires WellFormed(H, t)
    ensures LiveKey(t, key) <==> Find(H, t, key).Some? && Live(t[Find(H, t, key).value])
    ensures Find(H, t, key).Some? ==>
              var i := Find(H, t, key).value; Occupied(t[i]) && t[i].key == key && Open(t, t[i], i)
  {
    FindIsScan(H, t, key);
    FindsOnlyOpen(H, t, key, 0);
  }

  /** A key that is found is found before a round is over. */
  lemma {:induction false} FoundEnds(H: Hasher, t: Slots, key: bytes)
    requires WellFormed(H, t)
    ensures Find(H, t, key).Some? ==> !Endless(H, t, key)
  {
    FindLive(H, t, key);
  }

  // ---- hm_insert ----

  /**
   * The insertion loop from slot i with `cur` in hand: the new slots and whether a
   * slot was taken. None means that n rounds did not end it.
   */
  function InsertFrom(H: Hasher, t: Slots, key: bytes, e: Entry, cur: Node, i: nat, n: nat): (r: Option<(Slots, bool)>)
    requires i < |t|
    ensures r.Some? ==> |r.value.0| == |t|
    decreases n
  {
    if n == 0 then None
    else if Free(t[i]) then Some((t[i := cur], true))
    else if Matches(H, t[i], key) then Some((t[i := t[i].(entry := e)], false))
    else if t[i].dib < cur.dib then
      InsertFrom(H, t[i := cur], key, e, Deepen(t[i]), Next(i, |t|), n - 1)
    else
      InsertFrom(H, t, key, e, Deepen(cur), Next(i, |t|), n - 1)
  }

  /** hm_insert, cut off after two rounds of the table. */
  function Insert(H: Hasher, t: Slots, key: bytes, e: Entry): (r: Option<(Slots, bool)>)
    requires |t| > 0
    ensures r.Some? ==> |r.value.0| == |t|
  {
    var h := H(key);
    InsertFrom(H, t, key, e, NewNode(H, key, e), Home(h, |t|), 2 * |t| + 2)
  }

  /** The probe distance in hand one slot further on. */
  function Hand(x: Node, c: nat): nat {
    Inc16(if x.dib < c then x.dib else c)
  }

  /**
   * Where the insertion loop will stop and the probe distance in hand there. It reads
   * the slots as they were before the call: displaced nodes only land behind the walk.
   */
  function StopFrom(H: Hasher, t: Slots, key: bytes, c: nat, i: nat, n: nat): (r: (nat, nat))
    requires i < |t|
    ensures r.0 < |t|
    decreases n
  {
    if n == 0 || Free(t[i]) || Matches(H, t[i], key) then (i, c)
    else StopFrom(H, t, key, Hand(t[i], c), Next(i, |t|), n - 1)
  }

  function Stop(H: Hasher, t: Slots, key: bytes): (nat, nat)
    requires |t| > 0
  {
    StopFrom(H, t, key, 0, Home(H(key), |t|), |t|)
  }

  ghost predicate HasFree(t: Slots) {
    exists i :: 0 <= i < |t| && Free(t[i])
  }

  /** The key is live, or a slot is free. */
  ghost predicate Room(t: Slots, key: bytes) {
    LiveKey(t, key) || HasFree(t)
  }

  predicate Binds(n: Node, q: bytes, x: Entry) {
    Live(n) && n.key == q && n.entry == x
  }

  /** A live slot binds q to x. */
  ghost predicate Has(t: Slots, q: bytes, x: Entry) {
    exists i :: 0 <= i < |t| && Binds(t[i], q, x)
  }

  /** The probe for n to slot j passes slot s with a count of more than c. */
  predicate Deeper(n: Node, j: nat, s: nat, c: nat, cap: nat)
    requires j < cap && s < cap
  {
    Passes(n, j, s, cap) && ToU16(Own(n, s, cap)) > c
  }

  /** A node of distance c in slot s would cut off some live slot. */
  ghost predicate Cuts(t: Slots, s: nat, c: nat)
    requires s < |t|
  {
    exists j :: 0 <= j < |t| && Live(t[j]) && Deeper(t[j], j, s, c, |t|)
  }

  /**
   * What the caller can check before hm_insert: the walk does not stop at a tombstone,
   * or the key is not live and no live key is looked for across that tombstone, deeper
   * than the node that would be placed there.
   */
  ghost predicate InsertKeeps(H: Hasher, t: Slots, key: bytes)
    requires |t| > 0
  {
    var (s, c) := Stop(H, t, key);
    Occupied(t[s]) && t[s].tomb ==> !LiveKey(t, key) && !Cuts(t, s, c)
  }

  // ---- inserting a new key ----

  /** The table with a node in hand at slot i, ready to be placed there. */
  ghost predicate Carry(H: Hasher, t: Slots, cur: Node, i: nat) {
    && WellFormed(H, t) && i < |t|
    && KeyOk(H, cur) && Live(cur)
    && cur.dib == ToU16(Own(cur, i, |t|))
    && Open(t, cur, i) && !LiveKey(t, cur.key)
  }

  /** No live slot from i to f has the key. */
  ghost predicate Clear(t: Slots, key: bytes, i: nat, f: nat)
    requires i < |t| && f < |t|
  {
    forall j | 0 <= j < |t| && Dist(i, j, |t|) <= Dist(i, f, |t|) :: !(Live(t[j]) && t[j].key == key)
  }

  /** Writing slot i changes a probe only if it passes there. */
  lemma {:induction false} OpenUpdate(t: Slots, n: Node, j: nat, i: nat, x: Node)
    requires i < |t| && j < |t| && Open(t, n, j)
    ensures Open(t[i := x], n, j) <==> (Passes(n, j, i, |t|) ==> Yields(x, n, Own(n, i, |t|)))
  {
    hide Passes, Yields, Own;
    var t' := t[i := x];
    if Passes(n, j, i, |t|) && !Yields(x, n, Own(n, i, |t|)) {
      assert !Yields(t'[i], n, Own(n, i, |t|));
    }
  }

  /** With the node in hand placed, a live slot is cut off exactly by its depth. */
  lemma {:induction false} PlaceOpens(H: Hasher, t: Slots, cur: Node, i: nat, j: nat)
    requires Carry(H, t, cur, i) && j < |t| && j != i && Live(t[j])
    ensures Open(t[i := cur], t[j], j) <==> !Deeper(t[j], j, i, cur.dib, |t|)
  {
    hide ToU16, Own;
    assert Open(t, t[j], j);
    OpenUpdate(t, t[j], j, i, cur);
    assert t[j].key != cur.key;
  }

  lemma {:induction false} PlaceNodes(H: Hasher, t: Slots, cur: Node, i: nat)
    requires Carry(H, t, cur, i)
    ensures NodesOk(H, t[i := cur]) && Open(t[i := cur], cur, i)
    ensures Live(t[i]) || Free(t[i]) ==> LiveUnique(t[i := cur])
  {
    hide ToU16;
    var t' := t[i := cur];
    forall j | 0 <= j < |t| ensures NodeOk(H, t'[j], j, |t|) {
      assert NodeOk(H, t[j], j, |t|);
    }
    OpenUpdate(t, cur, i, i, cur);
    KeysUnique(H, t);
    hide WellFormed, Open;
    forall j | 0 <= j < |t| && j != i && Live(t[j]) ensures t[j].key != cur.key { }
  }

  /** Placing the node in hand in a free slot keeps the table exactly when it cuts nothing off. */
  lemma {:induction false} PlaceExactly(H: Hasher, t: Slots, cur: Node, i: nat)
    requires Carry(H, t, cur, i) && Free(t[i])
    ensures WellFormed(H, t[i := cur]) <==> !Cuts(t, i, cur.dib)
  {
    var t' := t[i := cur];
    PlaceNodes(H, t, cur, i);
    forall j | 0 <= j < |t| && j != i && Live(t[j])
      ensures Open(t', t'[j], j) <==> !Deeper(t[j], j, i, cur.dib, |t|)
    {
      PlaceOpens(H, t, cur, i, j);
    }
    hide Open, Deeper, NodesOk;
    if Cuts(t, i, cur.dib) {
      var j :| 0 <= j < |t| && Live(t[j]) && Deeper(t[j], j, i, cur.dib, |t|);
      assert Live(t'[j]) && !Open(t', t'[j], j);
    } else {
      forall j | 0 <= j < |t| && Live(t'[j]) ensures Open(t', t'[j], j) {
        if j != i { assert Live(t[j]); }
      }
    }
  }

  /** No live slot is looked for across an empty slot. */
  lemma {:induction false} EmptyCutsNone(H: Hasher, t: Slots, s: nat, c: nat)
    requires WellFormed(H, t) && s < |t| && !Occupied(t[s])
    ensures !Cuts(t, s, c)
  {
    hide ToU16, Own;
    forall j | 0 <= j < |t| && Live(t[j]) ensures !Deeper(t[j], j, s, c, |t|) { assert Open(t, t[j], j); }
  }

  /** The node in hand is that far from its home that one round has not been gone. */
  predicate Within(n: Node, i: nat, cap: nat)
    requires i < cap
  {
    cap < U16 ==> Own(n, i, cap) + 1 < cap
  }

  /** One slot further on: nearer to a whole round, or home again, where nothing is passed. */
  lemma {:induction false} OwnNext(n: Node, i: nat, cap: nat)
    requires i < cap && IsPow2(cap) && Within(n, i, cap) && n.dib == ToU16(Own(n, i, cap))
    ensures Next(i, cap) < cap && Deepen(n).dib == ToU16(Own(n, Next(i, cap), cap))
    ensures forall k | 0 <= k < cap && Passes(n, Next(i, cap), k, cap) :: Passes(n, i, k, cap) || k == i
    ensures Own(n, i, cap) + 1 < cap ==> Own(n, Next(i, cap), cap) == Own(n, i, cap) + 1
    ensures Own(n, i, cap) + 1 == cap ==> Own(n, Next(i, cap), cap) == 0 && Next(i, cap) == Home(n.hash, cap)
  {
    ToU16Next(Own(n, i, cap));
    if cap >= U16 { ToU16Round(cap, 0); }
    hide ToU16, IsPow2, Home;
    forall k | 0 <= k < cap && Passes(n, Next(i, cap), k, cap) ensures Passes(n, i, k, cap) || k == i { }
  }

  /** Passing a slot that is deep enough keeps the node in hand placeable. */
  lemma {:induction false} SkipCarries(H: Hasher, t: Slots, cur: Node, i: nat)
    requires Carry(H, t, cur, i) && Within(cur, i, |t|)
    requires Live(t[i]) && t[i].dib >= cur.dib
    ensures Carry(H, t, Deepen(cur), Next(i, |t|))
  {
    var cur1, k := Deepen(cur), Next(i, |t|);
    OwnNext(cur, i, |t|);
    hide ToU16, IsPow2, Home, Dist, NodesOk, AllOpen;
    forall x | 0 <= x < |t| && Passes(cur1, k, x, |t|) ensures Yields(t[x], cur1, Own(cur1, x, |t|)) {
      assert Passes(cur, k, x, |t|);
    }
  }

  /** Taking the slot of a shallower node keeps the table, with that node now in hand. */
  lemma {:induction false} SwapCarries(H: Hasher, t: Slots, cur: Node, i: nat)
    requires Carry(H, t, cur, i) && Within(t[i], i, |t|)
    requires Live(t[i]) && t[i].dib < cur.dib
    ensures Carry(H, t[i := cur], Deepen(t[i]), Next(i, |t|))
  {
    var t', cur1, k := t[i := cur], Deepen(t[i]), Next(i, |t|);
    PlaceNodes(H, t, cur, i);
    KeysUnique(H, t);
    assert NodeOk(H, t[i], i, |t|) && Open(t, t[i], i) && cur.key != t[i].key;
    OwnNext(t[i], i, |t|);
    hide ToU16, IsPow2, Home, Dist, NodesOk;
    forall j | 0 <= j < |t| && Live(t'[j]) ensures Open(t', t'[j], j) && t'[j].key != cur1.key {
      if j != i {
        PlaceOpens(H, t, cur, i, j);
        assert Open(t, t[j], j) && t[j].key != t[i].key;
        SwapCutsNone(t, cur, i, j);
      }
    }
    forall x | 0 <= x < |t| && Passes(cur1, k, x, |t|) ensures Yields(t'[x], cur1, Own(cur1, x, |t|)) {
      assert Passes(t[i], k, x, |t|);
    }
  }

  /** A node deeper than the one before it cuts nothing off. */
  lemma {:induction false} SwapCutsNone(t: Slots, cur: Node, i: nat, j: nat)
    requires i < |t| && j < |t| && Open(t, t[j], j) && t[i].dib < cur.dib
    ensures !Deeper(t[j], j, i, cur.dib, |t|)
  {
    hide ToU16, Own;
  }

  /** The stop only depends on the slots ahead of the walk. */
  lemma {:induction false} StopFrame(H: Hasher, t: Slots, t': Slots, key: bytes, c: nat, i: nat, n: nat)
    requires |t| == |t'| && i < |t| && n <= |t|
    requires forall j | 0 <= j < |t| && Dist(i, j, |t|) < n :: t[j] == t'[j]
    ensures StopFrom(H, t, key, c, i, n) == StopFrom(H, t', key, c, i, n)
    decreases n
  {
    hide Hand;
    if n != 0 && !Free(t[i]) && !Matches(H, t[i], key) {
      var k := Next(i, |t|);
      forall j | 0 <= j < |t| && Dist(k, j, |t|) < n - 1 ensures t[j] == t'[j] {
        assert Dist(i, j, |t|) <= Dist(k, j, |t|) + 1;
      }
      StopFrame(H, t, t', key, Hand(t[i], c), k, n - 1);
    }
  }

  /** The stop lies ahead of the walk, and within n steps at a free slot. */
  lemma {:induction false} StopAhead(H: Hasher, t: Slots, key: bytes, c: nat, i: nat, f: nat, n: nat)
    requires NodesOk(H, t) && i < |t| && f < |t| && Free(t[f]) && Clear(t, key, i, f)
    requires Dist(i, f, |t|) < n <= |t|
    ensures var s := StopFrom(H, t, key, c, i, n).0;
            Free(t[s]) && Dist(i, s, |t|) <= Dist(i, f, |t|)
    decreases Dist(i, f, |t|)
  {
    assert NodeOk(H, t[i], i, |t|) && Dist(i, i, |t|) == 0;
    hide NodeOk, Hand;
    if !Free(t[i]) {
      MatchesIsKey(H, t[i], key);
      ClearNext(t, key, i, f);
      StopAhead(H, t, key, Hand(t[i], c), Next(i, |t|), f, n - 1);
    }
  }

  lemma {:induction false} ClearNext(t: Slots, key: bytes, i: nat, f: nat)
    requires i < |t| && f < |t| && i != f && Clear(t, key, i, f)
    ensures Clear(t, key, Next(i, |t|), f) && Dist(Next(i, |t|), f, |t|) == Dist(i, f, |t|) - 1
  {
    var k := Next(i, |t|);
    forall j | 0 <= j < |t| && Dist(k, j, |t|) <= Dist(k, f, |t|)
      ensures !(Live(t[j]) && t[j].key == key)
    {
      assert Dist(i, j, |t|) <= Dist(i, f, |t|);
    }
  }

  /** The live entries of t' are those of t and those of the node in hand. */
  ghost predicate Adds(t: Slots, t': Slots, cur: Node) {
    forall q, x :: Has(t', q, x) <==> Has(t, q, x) || Binds(cur, q, x)
  }

  ghost predicate HasBut(t: Slots, i: nat, q: bytes, x: Entry) {
    exists j :: 0 <= j < |t| && j != i && Binds(t[j], q, x)
  }

  /** Writing one slot changes nothing that other slots bind. */
  lemma {:induction false} HasUpdate(t: Slots, i: nat, n: Node, q: bytes, x: Entry)
    requires i < |t|
    ensures Has(t, q, x) <==> HasBut(t, i, q, x) || Binds(t[i], q, x)
    ensures Has(t[i := n], q, x) <==> HasBut(t, i, q, x) || Binds(n, q, x)
  {
    var t' := t[i := n];
    if Has(t, q, x) && !Binds(t[i], q, x) {
      var j :| 0 <= j < |t| && Binds(t[j], q, x);
      assert HasBut(t, i, q, x);
    }
    if HasBut(t, i, q, x) {
      var j :| 0 <= j < |t| && j != i && Binds(t[j], q, x);
      assert Binds(t'[j], q, x);
    }
    if Binds(n, q, x) {
      assert Binds(t'[i], q, x);
    }
    if Has(t', q, x) && !Binds(n, q, x) {
      var j :| 0 <= j < |t'| && Binds(t'[j], q, x);
      assert Binds(t[j], q, x);
    }
  }

  /** What is cut off by a node of distance c in slot s, the node in hand at slot i included. */
  ghost predicate CutsWith(t: Slots, cur: Node, i: nat, s: nat, c: nat)
    requires i < |t| && s < |t|
  {
    Cuts(t, s, c) || Deeper(cur, i, s, c, |t|)
  }

  /** t' is t with the node in hand at i added, and the walk ended at s with distance c. */
  ghost predicate Lands(H: Hasher, t: Slots, t': Slots, cur: Node, i: nat, s: nat, c: nat) {
    && |t'| == |t| && i < |t| && s < |t| && Free(t[s]) && Live(t'[s]) && t'[s].dib == c
    && NodesOk(H, t') && LiveUnique(t') && Adds(t, t', cur)
    && (WellFormed(H, t') <==> !CutsWith(t, cur, i, s, c))
    && Stays(t, t', s)
  }

  /** Slots only become deeper, and tombstones are not made. */
  ghost predicate Stays(t: Slots, t': Slots, s: nat)
    requires |t'| == |t| && s < |t|
  {
    forall x | 0 <= x < |t| && x != s :: t'[x] == t[x] || (Live(t'[x]) && t'[x].dib > t[x].dib)
  }

  lemma {:induction false} LandsPlaced(H: Hasher, t: Slots, cur: Node, i: nat)
    requires Carry(H, t, cur, i) && Free(t[i])
    ensures Lands(H, t, t[i := cur], cur, i, i, cur.dib)
  {
    PlaceNodes(H, t, cur, i);
    PlaceExactly(H, t, cur, i);
    assert !Deeper(cur, i, i, cur.dib, |t|);
    hide WellFormed, NodesOk, Cuts, ToU16;
    forall q, x ensures Has(t[i := cur], q, x) <==> Has(t, q, x) || Binds(cur, q, x) {
      HasUpdate(t, i, cur, q, x);
    }
  }

  /** A node whose probe goes all the way round comes to slot s with its true count. */
  lemma {:induction false} HomeChain(H: Hasher, t: Slots, key: bytes, n: Node, i: nat, d: nat, f: nat, m: nat)
    requires i < |t| && f < |t| && f != i && Own(n, i, |t|) == |t| - 1 && Open(t, n, i)
    requires d <= Own(n, f, |t|) && Free(t[f]) && m > Own(n, f, |t|) - d
    ensures var (s, c) := StopFrom(H, t, key, ToU16(d), At(Home(n.hash, |t|), d, |t|), m);
            s != i ==> c == ToU16(Own(n, s, |t|))
    decreases Own(n, f, |t|) - d
  {
    var h := Home(n.hash, |t|);
    var x := At(h, d, |t|);
    NextAt(h, d, |t|);
    AtDist(h, f, |t|);
    AtDist(h, i, |t|);
    ToU16Next(d);
    hide ToU16, Home;
    assert Own(n, x, |t|) == d;
    if !Free(t[x]) && !Matches(H, t[x], key) {
      assert x != f && d < Own(n, f, |t|);
      assert Passes(n, i, x, |t|) && Yields(t[x], n, d);
      HomeChain(H, t, key, n, i, d + 1, f, m - 1);
    }
  }

  /** Where a node in hand is cut off does not change as it moves on. */
  lemma {:induction false} MoveCuts(H: Hasher, t: Slots, key: bytes, n: Node, i: nat, f: nat, m: nat)
    requires i < |t| && f < |t| && i != f && Free(t[f]) && IsPow2(|t|) && Open(t, n, i) && Within(n, i, |t|)
    requires n.dib == ToU16(Own(n, i, |t|)) && m > Dist(Next(i, |t|), f, |t|)
    ensures var k := Next(i, |t|);
            var (s, c) := StopFrom(H, t, key, Deepen(n).dib, k, m);
            s != i ==> (Deeper(Deepen(n), k, s, c, |t|) <==> Deeper(n, i, s, c, |t|))
  {
    OwnNext(n, i, |t|);
    var k := Next(i, |t|);
    var (s, c) := StopFrom(H, t, key, Deepen(n).dib, k, m);
    if Own(n, i, |t|) + 1 == |t| {
      ToU16Next(0);
      HomeChain(H, t, key, n, i, 0, f, m);
      assert At(Home(n.hash, |t|), 0, |t|) == k;
    } else if s != i {
      SamePasses(n, i, s, |t|);
    }
  }

  lemma {:induction false} SamePasses(n: Node, i: nat, s: nat, cap: nat)
    requires i < cap && s < cap && s != i && Own(n, i, cap) + 1 < cap
    ensures Next(i, cap) < cap && (Passes(Deepen(n), Next(i, cap), s, cap) <==> Passes(n, i, s, cap))
    ensures Own(Deepen(n), s, cap) == Own(n, s, cap)
  {
    hide Home;
  }

  lemma {:induction false} SwapCuts(t: Slots, cur: Node, i: nat, s: nat, c: nat, x: Node, k: nat)
    requires i < |t| && s < |t| && k < |t| && Live(t[i]) && Live(cur)
    requires Deeper(x, k, s, c, |t|) <==> Deeper(t[i], i, s, c, |t|)
    ensures CutsWith(t[i := cur], x, k, s, c) <==> CutsWith(t, cur, i, s, c)
  {
    hide Deeper;
    var t' := t[i := cur];
    if Cuts(t, s, c) {
      var j :| 0 <= j < |t| && Live(t[j]) && Deeper(t[j], j, s, c, |t|);
      assert j != i ==> t'[j] == t[j];
    }
    if Cuts(t', s, c) {
      var j :| 0 <= j < |t| && Live(t'[j]) && Deeper(t'[j], j, s, c, |t|);
      assert j != i ==> t'[j] == t[j];
    }
    assert Live(t[i]) && Live(t'[i]) && t'[i] == cur;
  }

  lemma {:induction false} LandsSwapped(H: Hasher, t: Slots, t': Slots, cur: Node, i: nat, s: nat, c: nat)
    requires i < |t| && s < |t| && s != i && Live(t[i]) && Live(cur) && t[i].dib < cur.dib
    requires Lands(H, t[i := cur], t', Deepen(t[i]), Next(i, |t|), s, c)
    requires Deeper(Deepen(t[i]), Next(i, |t|), s, c, |t|) <==> Deeper(t[i], i, s, c, |t|)
    ensures Lands(H, t, t', cur, i, s, c)
  {
    SwapCuts(t, cur, i, s, c, Deepen(t[i]), Next(i, |t|));
    hide WellFormed, NodesOk, CutsWith, Deeper, LiveUnique;
    forall q, x ensures Has(t', q, x) <==> Has(t, q, x) || Binds(cur, q, x) {
      HasUpdate(t, i, cur, q, x);
      assert Binds(Deepen(t[i]), q, x) <==> Binds(t[i], q, x);
    }
    assert forall j | 0 <= j < |t| && j != i :: t[i := cur][j] == t[j];
    assert t[i := cur][i] == cur;
  }

  lemma {:induction false} LandsSkipped(H: Hasher, t: Slots, t': Slots, cur: Node, i: nat, s: nat, c: nat)
    requires i < |t| && Lands(H, t, t', Deepen(cur), Next(i, |t|), s, c)
    requires Deeper(Deepen(cur), Next(i, |t|), s, c, |t|) <==> Deeper(cur, i, s, c, |t|)
    ensures Lands(H, t, t', cur, i, s, c)
  {
    hide WellFormed, Cuts, Deeper;
    assert forall q, x :: Binds(Deepen(cur), q, x) <==> Binds(cur, q, x);
  }

  /** The insertion ends, takes a slot, and lands where Stop says. */
  ghost predicate InsertLands(H: Hasher, t: Slots, key: bytes, e: Entry, cur: Node, i: nat, n: nat, m: nat)
    requires i < |t|
  {
    var r := InsertFrom(H, t, key, e, cur, i, n);
    var (s, c) := StopFrom(H, t, key, cur.dib, i, m);
    r.Some? && r.value.1 && Lands(H, t, r.value.0, cur, i, s, c)
  }

  /** What the walk needs to reach the free slot f. */
  ghost predicate Walk(H: Hasher, t: Slots, key: bytes, cur: Node, i: nat, f: nat) {
    && Carry(H, t, cur, i) && f < |t| && Free(t[f]) && Clear(t, key, i, f)
    && (|t| < U16 ==> Own(cur, i, |t|) + Dist(i, f, |t|) < |t|)
  }

  /**
   * Inserting a key that is not live: the walk ends at the free slot where Stop says,
   * the live entries are the old ones and the node in hand, and the table stays well
   * formed exactly when no live slot is looked for across that slot, deeper.
   */
  lemma {:induction false} InsertNew(H: Hasher, t: Slots, key: bytes, e: Entry, cur: Node,
                                     i: nat, f: nat, n: nat, m: nat)
    requires Walk(H, t, key, cur, i, f)
    requires Dist(i, f, |t|) < n && Dist(i, f, |t|) < m <= |t|
    ensures InsertLands(H, t, key, e, cur, i, n, m)
    decreases Dist(i, f, |t|)
  {
    hide *;
    WalkFacts(H, t, key, cur, i, f);
    if Free(t[i]) {
      InsertPlaced(H, t, key, e, cur, i, n, m);
    } else {
      StepFacts(H, t, key, cur, i, f);
      var k := Next(i, |t|);
      if t[i].dib < cur.dib {
        InsertNew(H, t[i := cur], key, e, Deepen(t[i]), k, f, n - 1, m - 1);
        InsertSwapped(H, t, key, e, cur, i, f, n, m);
      } else {
        InsertNew(H, t, key, e, Deepen(cur), k, f, n - 1, m - 1);
        InsertSkipped(H, t, key, e, cur, i, f, n, m);
      }
    }
  }

  lemma {:induction false} WalkFacts(H: Hasher, t: Slots, key: bytes, cur: Node, i: nat, f: nat)
    requires Walk(H, t, key, cur, i, f)
    ensures i < |t| && f < |t| && Carry(H, t, cur, i) && Free(t[f]) && Live(cur)
    ensures !Free(t[i]) ==> i != f
  {
  }

  lemma {:induction false} InsertPlaced(H: Hasher, t: Slots, key: bytes, e: Entry, cur: Node, i: nat, n: nat, m: nat)
    requires Carry(H, t, cur, i) && Free(t[i]) && n > 0 && m > 0
    ensures InsertLands(H, t, key, e, cur, i, n, m)
  {
    LandsPlaced(H, t, cur, i);
    hide Lands, Carry;
  }

  lemma {:induction false} AheadNotBehind(i: nat, f: nat, s: nat, cap: nat)
    requires i < cap && f < cap && s < cap && i != f
    requires Dist(Next(i, cap), s, cap) <= Dist(Next(i, cap), f, cap)
    ensures s != i && Dist(i, s, cap) <= Dist(i, f, cap)
  {
  }

  /** A swap at slot i changes nothing in the m - 1 slots behind it. */
  lemma {:induction false} SwapFrame(t: Slots, cur: Node, i: nat, m: nat)
    requires i < |t| && 0 < m <= |t|
    ensures Next(i, |t|) < |t|
    ensures forall j | 0 <= j < |t| && Dist(Next(i, |t|), j, |t|) < m - 1 :: t[j] == t[i := cur][j]
  {
  }

  /** A swap at slot i does not move the stop, which lies ahead of i. */
  lemma {:induction false} StopSwapped(H: Hasher, t: Slots, key: bytes, cur: Node, i: nat, f: nat, m: nat)
    requires Walk(H, t, key, cur, i, f) && !Free(t[i])
    requires Dist(i, f, |t|) < m <= |t|
    ensures var r, c := StopFrom(H, t, key, cur.dib, i, m), Hand(t[i], cur.dib);
            && r == StopFrom(H, t, key, c, Next(i, |t|), m - 1)
            && r == StopFrom(H, t[i := cur], key, c, Next(i, |t|), m - 1)
            && r.0 != i && Dist(Next(i, |t|), f, |t|) < m - 1
  {
    hide *;
    WalkFacts(H, t, key, cur, i, f);
    StepFacts(H, t, key, cur, i, f);
    StopStep(H, t, key, cur.dib, i, m);
    SwapFrame(t, cur, i, m);
    var k, c := Next(i, |t|), Hand(t[i], cur.dib);
    StopFrame(H, t, t[i := cur], key, c, k, m - 1);
    StopAhead(H, t, key, c, k, f, m - 1);
    AheadNotBehind(i, f, StopFrom(H, t, key, c, k, m - 1).0, |t|);
  }

  lemma {:induction false} InsertSwapped(H: Hasher, t: Slots, key: bytes, e: Entry, cur: Node,
                                         i: nat, f: nat, n: nat, m: nat)
    requires Walk(H, t, key, cur, i, f) && !Free(t[i]) && t[i].dib < cur.dib
    requires Dist(i, f, |t|) < n && Dist(i, f, |t|) < m <= |t|
    requires InsertLands(H, t[i := cur], key, e, Deepen(t[i]), Next(i, |t|), n - 1, m - 1)
    ensures InsertLands(H, t, key, e, cur, i, n, m)
  {
    hide InsertFrom, StopFrom, Walk, Carry, Clear, Lands, Matches, Next, Dist, NodesOk, WellFormed, Open, Deeper;
    hide Within;
    WalkFacts(H, t, key, cur, i, f);
    StopSwapped(H, t, key, cur, i, f, m);
    StepFacts(H, t, key, cur, i, f);
    InsertStep(H, t, key, e, cur, i, n);
    SwapMoves(H, t, key, cur, i, f, m);
    var (s, c) := StopFrom(H, t, key, cur.dib, i, m);
    LandsSwapped(H, t, InsertFrom(H, t, key, e, cur, i, n).value.0, cur, i, s, c);
  }

  /** The node displaced at slot i is cut off at the stop exactly as it was in its slot. */
  lemma {:induction false} SwapMoves(H: Hasher, t: Slots, key: bytes, cur: Node, i: nat, f: nat, m: nat)
    requires Walk(H, t, key, cur, i, f) && !Free(t[i]) && t[i].dib < cur.dib
    requires Dist(i, f, |t|) < m <= |t|
    ensures var (s, c) := StopFrom(H, t, key, cur.dib, i, m);
            && Next(i, |t|) < |t| && Hand(t[i], cur.dib) == Deepen(t[i]).dib
            && (Deeper(Deepen(t[i]), Next(i, |t|), s, c, |t|) <==> Deeper(t[i], i, s, c, |t|))
  {
    hide InsertFrom, StopFrom, Clear, Matches, Next, Dist, Deeper, ToU16;
    StopSwapped(H, t, key, cur, i, f, m);
    StepFacts(H, t, key, cur, i, f);
    assert NodeOk(H, t[i], i, |t|) && Open(t, t[i], i);
    MoveCuts(H, t, key, t[i], i, f, m - 1);
  }

  lemma {:induction false} InsertSkipped(H: Hasher, t: Slots, key: bytes, e: Entry, cur: Node,
                                         i: nat, f: nat, n: nat, m: nat)
    requires Walk(H, t, key, cur, i, f) && !Free(t[i]) && t[i].dib >= cur.dib
    requires Dist(i, f, |t|) < n && Dist(i, f, |t|) < m <= |t|
    requires InsertLands(H, t, key, e, Deepen(cur), Next(i, |t|), n - 1, m - 1)
    ensures InsertLands(H, t, key, e, cur, i, n, m)
  {
    hide InsertFrom, StopFrom, Walk, Carry, Clear, Lands, Matches, NodesOk, Dist, Next, WellFormed, Open, Deeper;
    hide Within;
    WalkFacts(H, t, key, cur, i, f);
    StepFacts(H, t, key, cur, i, f);
    InsertStep(H, t, key, e, cur, i, n);
    SkipMoves(H, t, key, cur, i, f, m);
    var (s, c) := StopFrom(H, t, key, cur.dib, i, m);
    LandsSkipped(H, t, InsertFrom(H, t, key, e, cur, i, n).value.0, cur, i, s, c);
  }

  lemma {:induction false} SkipMoves(H: Hasher, t: Slots, key: bytes, cur: Node, i: nat, f: nat, m: nat)
    requires Walk(H, t, key, cur, i, f) && !Free(t[i]) && t[i].dib >= cur.dib
    requires Dist(i, f, |t|) < m <= |t|
    ensures var (s, c) := StopFrom(H, t, key, cur.dib, i, m);
            && Next(i, |t|) < |t| && (s, c) == StopFrom(H, t, key, Deepen(cur).dib, Next(i, |t|), m - 1)
            && (Deeper(Deepen(cur), Next(i, |t|), s, c, |t|) <==> Deeper(cur, i, s, c, |t|))
  {
    hide InsertFrom, StopFrom, Clear, Matches, Next, Dist, Deeper, ToU16;
    StopSwapped(H, t, key, cur, i, f, m);
    StepFacts(H, t, key, cur, i, f);
    MoveCuts(H, t, key, cur, i, f, m - 1);
  }

  /** One step of the walk past an occupied slot that does not hold the key. */
  lemma {:induction false} StepFacts(H: Hasher, t: Slots, key: bytes, cur: Node, i: nat, f: nat)
    requires Walk(H, t, key, cur, i, f) && !Free(t[i])
    ensures !Matches(H, t[i], key) && Live(t[i]) && Live(cur) && NodesOk(H, t) && IsPow2(|t|)
    ensures if t[i].dib < cur.dib then Within(t[i], i, |t|) else Within(cur, i, |t|)
    ensures var k := Next(i, |t|);
            && Clear(t, key, k, f) && Dist(k, f, |t|) == Dist(i, f, |t|) - 1
            && if t[i].dib < cur.dib
               then Walk(H, t[i := cur], key, Deepen(t[i]), k, f)
               else Walk(H, t, key, Deepen(cur), k, f)
  {
    hide ToU16, Home, IsPow2, AllOpen, Open, LiveKey;
    assert NodeOk(H, t[i], i, |t|) && Dist(i, i, |t|) == 0;
    MatchesIsKey(H, t[i], key);
    ClearNext(t, key, i, f);
    ToU16Next(Own(t[i], i, |t|));
    ToU16Next(Own(cur, i, |t|));
    if t[i].dib < cur.dib {
      SwapCarries(H, t, cur, i);
      SwapClear(t, key, cur, i, f);
      OwnNext(t[i], i, |t|);
    } else {
      SkipCarries(H, t, cur, i);
      OwnNext(cur, i, |t|);
    }
  }

  /** One round of the insertion loop that passes or swaps. */
  lemma {:induction false} InsertStep(H: Hasher, t: Slots, key: bytes, e: Entry, cur: Node, i: nat, n: nat)
    requires i < |t| && n > 0 && !Free(t[i]) && !Matches(H, t[i], key)
    ensures t[i].dib < cur.dib ==>
              InsertFrom(H, t, key, e, cur, i, n) ==
              InsertFrom(H, t[i := cur], key, e, Deepen(t[i]), Next(i, |t|), n - 1)
    ensures t[i].dib >= cur.dib ==>
              InsertFrom(H, t, key, e, cur, i, n) == InsertFrom(H, t, key, e, Deepen(cur), Next(i, |t|), n - 1)
  {
  }

  lemma {:induction false} StopStep(H: Hasher, t: Slots, key: bytes, c: nat, i: nat, n: nat)
    requires i < |t| && n > 0 && !Free(t[i]) && !Matches(H, t[i], key)
    ensures StopFrom(H, t, key, c, i, n) == StopFrom(H, t, key, Hand(t[i], c), Next(i, |t|), n - 1)
  {
  }

  lemma {:induction false} SwapClear(t: Slots, key: bytes, cur: Node, i: nat, f: nat)
    requires i < |t| && f < |t| && i != f && Clear(t, key, i, f) && Dist(i, f, |t|) < |t|
    ensures Clear(t[i := cur], key, Next(i, |t|), f)
  {
    ClearNext(t, key, i, f);
    var k := Next(i, |t|);
    assert Dist(k, i, |t|) == |t| - 1;
  }

  // ---- inserting a key that is live, or whose tombstone can be found ----

  /**
   * No node is displaced on the way to a slot j that the probe for the key reaches: the
   * walk stops there, or at a tombstone before it.
   */
  lemma {:induction false} InsertStored(H: Hasher, t: Slots, key: bytes, e: Entry, d: nat, j: nat, n: nat, m: nat)
    requires NodesOk(H, t) && j < |t| && Occupied(t[j]) && t[j].key == key && Open(t, t[j], j)
    requires d <= Own(t[j], j, |t|) && |key| < U16
    requires n > Own(t[j], j, |t|) - d && m > Own(t[j], j, |t|) - d
    ensures var i := At(Home(H(key), |t|), d, |t|);
            var r := InsertFrom(H, t, key, e, NewNode(H, key, e).(dib := ToU16(d)), i, n);
            var (s, c) := StopFrom(H, t, key, ToU16(d), i, m);
            && r.Some? && c == ToU16(Dist(Home(H(key), |t|), s, |t|)) && (s == j || t[s].tomb)
            && Occupied(t[s])
            && r.value == if t[s].tomb then (t[s := NewNode(H, key, e).(dib := c)], true)
                          else (t[s := t[s].(entry := e)], false)
    decreases Own(t[j], j, |t|) - d
  {
    hide NodesOk, Open, Home, ToU16;
    var i := At(Home(H(key), |t|), d, |t|);
    StoredAhead(H, t, d, j);
    if !Free(t[i]) && t[i].key != key {
      InsertStep(H, t, key, e, NewNode(H, key, e).(dib := ToU16(d)), i, n);
      StopStep(H, t, key, ToU16(d), i, m);
      hide InsertFrom, StopFrom, Matches;
      ToU16Next(d);
      InsertStored(H, t, key, e, d + 1, j, n - 1, m - 1);
    }
  }

  /** What the walk to such a slot meets d steps from home. */
  lemma {:induction false} StoredAhead(H: Hasher, t: Slots, d: nat, j: nat)
    requires NodesOk(H, t) && j < |t| && Occupied(t[j]) && Open(t, t[j], j) && d <= Own(t[j], j, |t|)
    ensures var key, h := t[j].key, Home(t[j].hash, |t|);
            var i := At(h, d, |t|);
            && t[j].hash == H(key) && Dist(h, i, |t|) == d && Next(i, |t|) == At(h, d + 1, |t|)
            && Occupied(t[i]) && ToU16(d) <= t[i].dib
            && (Matches(H, t[i], key) <==> i == j) && (t[i].key == key <==> i == j)
            && (i != j ==> d < Own(t[j], j, |t|))
  {
    hide ToU16;
    var h := Home(t[j].hash, |t|);
    var i := At(h, d, |t|);
    assert NodeOk(H, t[i], i, |t|) && NodeOk(H, t[j], j, |t|);
    AtDist(h, j, |t|);
    NextAt(h, d, |t|);
    assert d < Own(t[j], j, |t|) ==> Passes(t[j], j, i, |t|);
    MatchesIsKey(H, t[i], t[j].key);
  }

  /** The fields that probing looks at are the same. */
  predicate SameProbe(n: Node, m: Node) {
    n.hash == m.hash && n.key == m.key && n.keyLen == m.keyLen && n.dib == m.dib
  }

  /** Rewriting the rest of a live slot, or deleting it, keeps the table. */
  lemma {:induction false} RewriteKeeps(H: Hasher, t: Slots, i: nat, n: Node)
    requires WellFormed(H, t) && i < |t| && Occupied(t[i])
    requires SameProbe(n, t[i]) && (Live(n) ==> Open(t, t[i], i))
    ensures WellFormed(H, t[i := n])
    ensures forall x, j | 0 <= j < |t| && Open(t, x, j) :: Open(t[i := n], x, j)
  {
    hide ToU16, Own;
    var t' := t[i := n];
    forall j | 0 <= j < |t| ensures NodeOk(H, t'[j], j, |t|) {
      assert NodeOk(H, t[j], j, |t|);
      SameOwn(n, t[i], j, |t|);
    }
    forall x, j | 0 <= j < |t| && Open(t, x, j) ensures Open(t', x, j) { OpenUpdate(t, x, j, i, n); }
    forall j | 0 <= j < |t| && Live(t'[j]) ensures Open(t', t'[j], j) {
      if j != i { assert Open(t, t[j], j); } else { SameOpen(t', n, t[i], i); }
    }
  }

  lemma {:induction false} SameOwn(n: Node, m: Node, i: nat, cap: nat)
    requires SameProbe(n, m) && i < cap
    ensures Own(n, i, cap) == Own(m, i, cap)
  {
  }

  lemma {:induction false} SameOpen(t: Slots, n: Node, m: Node, j: nat)
    requires SameProbe(n, m) && j < |t|
    ensures Open(t, n, j) <==> Open(t, m, j)
  {
    hide ToU16;
    forall i | 0 <= i < |t| ensures Passes(n, j, i, |t|) == Passes(m, j, i, |t|) { }
  }

  // ---- the two together ----

  /** A key that the table can hold: 16-bit length, and a hash that does not mean empty. */
  predicate Storable(H: Hasher, key: bytes) {
    |key| < U16 && H(key) != 0
  }

  /** The live entries of t' are those of t, with key bound to e alone. */
  ghost predicate Sets(t: Slots, t': Slots, key: bytes, e: Entry) {
    forall q, x :: Has(t', q, x) <==> (if q == key then x == e else Has(t, q, x))
  }

  /** Rewriting the slot of a live key rebinds that key alone. */
  lemma {:induction false} RewriteSets(t: Slots, j: nat, n: Node)
    requires LiveUnique(t) && j < |t| && Live(t[j]) && Live(n) && n.key == t[j].key
    ensures Sets(t, t[j := n], n.key, n.entry)
  {
    var t' := t[j := n];
    OnlyAt(t, j);
    forall q, x
      ensures Has(t', q, x) <==> (if q == n.key then x == n.entry else Has(t, q, x))
    {
      HasUpdate(t, j, n, q, x);
      assert q == t[j].key ==> !HasBut(t, j, q, x);
      assert Binds(t[j], q, x) ==> q == t[j].key;
    }
  }

  /** No key but the given one loses its entry. */
  ghost predicate Conserves(t: Slots, t': Slots, key: bytes) {
    forall q, x :: q != key && Has(t, q, x) ==> Has(t', q, x)
  }

  /** Some other key is still live, and its search no longer finds it. */
  ghost predicate Loses(H: Hasher, t: Slots, t': Slots, key: bytes)
    requires |t'| > 0
  {
    exists q :: q != key && LiveKey(t, q) && Find(H, t', q) == None
  }

  /**
   * The insertion as its callers see it. When InsertKeeps fails, either the key was
   * live and is counted again, or another live key is lost to the search.
   */
  ghost predicate InsertSpec(H: Hasher, t: Slots, key: bytes, e: Entry, t': Slots, added: bool) {
    && |t| > 0 && |t'| == |t|
    && (WellFormed(H, t') <==> InsertKeeps(H, t, key))
    && (InsertKeeps(H, t, key) ==> Sets(t, t', key, e) && (added <==> !LiveKey(t, key)))
    && (!InsertKeeps(H, t, key) ==> if LiveKey(t, key) then added else Loses(H, t, t', key))
    && Conserves(t, t', key)
  }

  lemma {:induction false} InsertOfLive(H: Hasher, t: Slots, key: bytes, e: Entry)
    requires WellFormed(H, t) && Storable(H, key) && LiveKey(t, key)
    ensures var r := Insert(H, t, key, e);
            r.Some? && InsertSpec(H, t, key, e, r.value.0, r.value.1)
  {
    hide WellFormed, Insert, Stop, NewNode, Sets, Conserves, Has;
    var j :| 0 <= j < |t| && Live(t[j]) && t[j].key == key;
    StoredOutcome(H, t, key, e, j);
    var (s, c) := Stop(H, t, key);
    var t' := Insert(H, t, key, e).value.0;
    if s == j {
      UpdateInPlace(H, t, j, t'[j]);
    } else {
      TwiceStored(H, t, t'[s], s, j);
    }
  }

  /** What the walk to a live key does, seen from the call. */
  lemma {:induction false} StoredOutcome(H: Hasher, t: Slots, key: bytes, e: Entry, j: nat)
    requires WellFormed(H, t) && Storable(H, key) && j < |t| && Live(t[j]) && t[j].key == key
    ensures var r, s := Insert(H, t, key, e), Stop(H, t, key).0;
            && r.Some? && s < |t| && (s == j || t[s].tomb) && Occupied(t[s]) && r.value.1 == t[s].tomb
            && (var n := r.value.0[s];
                && r.value.0 == t[s := n] && Live(n) && n.key == key && n.entry == e && (s == j ==> SameProbe(n, t[j])))
  {
    hide InsertFrom, StopFrom, Open;
    assert NodeOk(H, t[j], j, |t|) && Open(t, t[j], j);
    ToU16Next(0);
    ToU16Next(|key|);
    hide ToU16;
    assert NewNode(H, key, e).(dib := ToU16(0)) == NewNode(H, key, e);
    InsertStored(H, t, key, e, 0, j, 2 * |t| + 2, |t|);
    assert At(Home(H(key), |t|), 0, |t|) == Home(H(key), |t|);
  }

  lemma {:induction false} UpdateInPlace(H: Hasher, t: Slots, j: nat, n: Node)
    requires WellFormed(H, t) && j < |t| && Live(t[j]) && Live(n) && SameProbe(n, t[j])
    ensures var t' := t[j := n];
            WellFormed(H, t') && Sets(t, t', n.key, n.entry) && Conserves(t, t', n.key)
  {
    hide NodesOk, Open, Has;
    assert Open(t, t[j], j);
    KeysUnique(H, t);
    RewriteKeeps(H, t, j, n);
    RewriteSets(t, j, n);
  }

  lemma {:induction false} TwiceStored(H: Hasher, t: Slots, n: Node, s: nat, j: nat)
    requires WellFormed(H, t) && s < |t| && j < |t| && s != j
    requires t[s].tomb && Live(t[j]) && Live(n) && n.key == t[j].key
    ensures !WellFormed(H, t[s := n]) && Conserves(t, t[s := n], n.key)
  {
    var t' := t[s := n];
    assert t'[s].key == t'[j].key;
    if WellFormed(H, t') { KeysUnique(H, t'); }
    hide WellFormed;
    forall q, x | q != n.key && Has(t, q, x) ensures Has(t', q, x) {
      HasUpdate(t, s, n, q, x);
    }
  }

  /** The key of a live slot is bound by no other slot. */
  lemma {:induction false} OnlyAt(t: Slots, j: nat)
    requires LiveUnique(t) && j < |t| && Live(t[j])
    ensures forall x :: !HasBut(t, j, t[j].key, x)
  {
  }

  lemma {:induction false} InsertOfNew(H: Hasher, t: Slots, key: bytes, e: Entry)
    requires WellFormed(H, t) && Storable(H, key) && !LiveKey(t, key) && HasFree(t)
    ensures var r := Insert(H, t, key, e);
            && r.Some? && r.value.1 && InsertSpec(H, t, key, e, r.value.0, true)
            && Sets(t, r.value.0, key, e) && LiveUnique(r.value.0)
  {
    hide InsertFrom, StopFrom, Walk, Home, Sets, Conserves, NodesOk, AllOpen;
    var f :| 0 <= f < |t| && Free(t[f]);
    var cur, h := NewNode(H, key, e), Home(H(key), |t|);
    NewWalks(H, t, key, e, f);
    InsertNew(H, t, key, e, cur, h, f, 2 * |t| + 2, |t|);
    var (s, c) := Stop(H, t, key);
    LandsSpec(H, t, Insert(H, t, key, e).value.0, cur, s, c);
  }

  lemma {:induction false} NewWalks(H: Hasher, t: Slots, key: bytes, e: Entry, f: nat)
    requires WellFormed(H, t) && Storable(H, key) && !LiveKey(t, key)
    requires f < |t| && Free(t[f])
    ensures Walk(H, t, key, NewNode(H, key, e), Home(H(key), |t|), f)
  {
    ToU16Next(|key|);
    ToU16Next(0);
    hide ToU16, NodesOk, AllOpen, IsPow2;
    assert Own(NewNode(H, key, e), Home(H(key), |t|), |t|) == 0;
  }

  /** What landing at the stop means for the callers, when the walk began at home. */
  lemma {:induction false} LandsSpec(H: Hasher, t: Slots, t': Slots, cur: Node, s: nat, c: nat)
    requires |t| > 0
    requires var h := Home(cur.hash, |t|);
             WellFormed(H, t) && Lands(H, t, t', cur, h, s, c) && !LiveKey(t, cur.key) && Live(cur)
    ensures Sets(t, t', cur.key, cur.entry) && Conserves(t, t', cur.key)
    ensures WellFormed(H, t') <==> (Occupied(t[s]) && t[s].tomb ==> !Cuts(t, s, c))
    ensures Cuts(t, s, c) ==> Loses(H, t, t', cur.key)
  {
    hide ToU16;
    AddsSets(t, t', cur);
    NoneBehindHome(cur, s, c, |t|);
    if !(Occupied(t[s]) && t[s].tomb) { EmptyCutsNone(H, t, s, c); }
    if Cuts(t, s, c) {
      var j :| 0 <= j < |t| && Live(t[j]) && Deeper(t[j], j, s, c, |t|);
      CutIsLost(H, t, t', s, c, j);
      assert LiveKey(t, t[j].key) && t[j].key != cur.key;
    }
  }

  lemma {:induction false} NoneBehindHome(n: Node, s: nat, c: nat, cap: nat)
    requires s < cap
    ensures !Deeper(n, Home(n.hash, cap), s, c, cap)
  {
    hide ToU16;
  }

  lemma {:induction false} AddsSets(t: Slots, t': Slots, cur: Node)
    requires Adds(t, t', cur) && Live(cur) && !LiveKey(t, cur.key)
    ensures Sets(t, t', cur.key, cur.entry) && Conserves(t, t', cur.key)
  {
  }

  /** A live slot that is cut off is not found, nor anything in its place. */
  lemma {:induction false} CutIsLost(H: Hasher, t: Slots, t': Slots, s: nat, c: nat, j: nat)
    requires WellFormed(H, t) && |t'| == |t| && NodesOk(H, t') && s < |t| && Stays(t, t', s)
    requires j < |t| && Live(t[j]) && Deeper(t[j], j, s, c, |t|) && Live(t'[s]) && t'[s].dib == c
    ensures Find(H, t', t[j].key) == None
  {
    hide ToU16, Own;
    var key := t[j].key;
    assert Open(t, t[j], j);
    FindsOnlyOpen(H, t', key, 0);
    forall i | 0 <= i < |t| && Occupied(t'[i]) && t'[i].key == key ensures !Open(t', t'[i], i) {
      CutElsewhere(H, t, t', s, c, j, i);
    }
  }

  /** A slot of the key before the cut would have been deeper than it was, one behind it is cut off. */
  lemma {:induction false} CutElsewhere(H: Hasher, t: Slots, t': Slots, s: nat, c: nat, j: nat, i: nat)
    requires |t'| == |t| && NodesOk(H, t) && NodesOk(H, t') && s < |t| && i < |t| && Stays(t, t', s)
    requires j < |t| && Live(t[j]) && Deeper(t[j], j, s, c, |t|) && Live(t'[s]) && t'[s].dib == c
    requires Open(t, t[j], j) && Occupied(t'[i]) && t'[i].key == t[j].key
    ensures !Open(t', t'[i], i)
  {
    hide ToU16, Home, Dist;
    CutBehind(H, t, t', s, c, j, i);
    assert NodeOk(H, t[j], j, |t|) && NodeOk(H, t'[i], i, |t|);
    assert Own(t'[i], s, |t|) == Own(t[j], s, |t|) && Own(t'[i], i, |t|) == Own(t[j], i, |t|);
    assert Passes(t'[i], i, s, |t|) && !Yields(t'[s], t'[i], Own(t[j], s, |t|));
  }

  lemma {:induction false} CutBehind(H: Hasher, t: Slots, t': Slots, s: nat, c: nat, j: nat, i: nat)
    requires |t'| == |t| && NodesOk(H, t) && NodesOk(H, t') && s < |t| && i < |t| && Stays(t, t', s)
    requires j < |t| && Live(t[j]) && Deeper(t[j], j, s, c, |t|) && Live(t'[s]) && t'[s].dib == c
    requires Open(t, t[j], j) && Occupied(t'[i]) && t'[i].key == t[j].key
    ensures Own(t[j], s, |t|) < Own(t[j], i, |t|)
  {
    hide ToU16, Home, Dist;
    assert NodeOk(H, t[j], j, |t|) && NodeOk(H, t'[i], i, |t|) && NodeOk(H, t'[s], s, |t|);
    assert Own(t'[i], i, |t|) == Own(t[j], i, |t|);
    OwnSame(t[j], i, s, |t|);
    assert Passes(t[j], j, i, |t|) ==> Yields(t[i], t[j], Own(t[j], i, |t|));
  }

  // ---- hm_insert on a table with no free slot ----

  ghost predicate NoneFree(t: Slots) {
    forall i | 0 <= i < |t| :: !Free(t[i])
  }

  /** Where the probe for a key goes round for ever, so does the insertion of that key. */
  lemma {:induction false} InsertEndless(H: Hasher, t: Slots, key: bytes, e: Entry, d: nat, n: nat)
    requires |t| > 0 && IsPow2(|t|) && NodesOk(H, t) && NoneFree(t) && Endless(H, t, key) && d < |t|
    ensures InsertFrom(H, t, key, e, NewNode(H, key, e).(dib := ToU16(d)), At(Home(H(key), |t|), d, |t|), n) == None
    decreases n
  {
    hide NodesOk, NoneFree, Endless, InsertFrom, ToU16, NewNode, Home, Matches, Free;
    EndlessAt(H, t, key, d);
    var i, cur := At(Home(H(key), |t|), d, |t|), NewNode(H, key, e).(dib := ToU16(d));
    if n > 0 {
      InsertStep(H, t, key, e, cur, i, n);
      InsertEndless(H, t, key, e, if d + 1 == |t| then 0 else d + 1, n - 1);
    } else {
      NoSteps(H, t, key, e, cur, i);
    }
  }

  lemma {:induction false} NoSteps(H: Hasher, t: Slots, key: bytes, e: Entry, cur: Node, i: nat)
    requires i < |t|
    ensures InsertFrom(H, t, key, e, cur, i, 0) == None
  {
  }

  lemma {:induction false} EndlessAt(H: Hasher, t: Slots, key: bytes, d: nat)
    requires |t| > 0 && IsPow2(|t|) && NodesOk(H, t) && NoneFree(t) && Endless(H, t, key) && d < |t|
    ensures var h := Home(H(key), |t|);
            var i, d' := At(h, d, |t|), if d + 1 == |t| then 0 else d + 1;
            && i < |t| && !Free(t[i]) && t[i].dib >= ToU16(d) && !Matches(H, t[i], key)
            && Inc16(ToU16(d)) == ToU16(d') && Next(i, |t|) == At(h, d', |t|)
  {
    var h := Home(H(key), |t|);
    var i := At(h, d, |t|);
    ToU16Next(d);
    ToU16Next(0);
    ToU16Round(|t|, 0);
    hide ToU16, IsPow2, Home;
    NextAt(h, d, |t|);
    assert NodeOk(H, t[i], i, |t|) && Occupied(t[i]) && t[i].dib >= ToU16(d) && t[i].key != key;
    MatchesIsKey(H, t[i], key);
  }

  // ---- calls on one state, and runs of them ----

  /** hm_delete: the new slots, and whether it returned 0. */
  function Delete(H: Hasher, t: Slots, key: bytes): (r: (Slots, bool))
    requires |t| > 0
    ensures |r.0| == |t|
  {
    match Find(H, t, key)
    case None => (t, false)
    case Some(i) => (t[i := t[i].(tomb := true)], true)
  }

  /** hm_get: the stored pointer, or NULL. */
  function Get(H: Hasher, t: Slots, key: bytes): Value
    requires |t| > 0
  {
    match Find(H, t, key)
    case None => Null
    case Some(i) => t[i].entry.value
  }

  datatype Op = Put(key: bytes, entry: Entry) | Del(key: bytes)

  datatype State = State(t: Slots, count: nat)

  /** hm_create: `capacity` zeroed slots. */
  function Create(cap: nat): State {
    State(seq(cap, _ => EMPTY), 0)
  }

  /** `++` and `--` on a size_t. */
  function Inc64(n: nat): nat {
    if n + 1 == U64 then 0 else n + 1
  }

  function Dec64(n: nat): nat {
    if n == 0 then U64 - 1 else n - 1
  }

  /** One call of hm_insert or hm_delete, with the 64-bit `count`. */
  function Step(H: Hasher, s: State, op: Op): (s': State)
    requires |s.t| > 0
    ensures |s'.t| == |s.t|
  {
    match op
    case Put(key, e) =>
      (match Insert(H, s.t, key, e)
       case None => s
       case Some((t', added)) => State(t', if added then Inc64(s.count) else s.count))
    case Del(key) =>
      var (t', ok) := Delete(H, s.t, key);
      State(t', if ok then Dec64(s.count) else s.count)
  }

  function Run(H: Hasher, s: State, ops: seq<Op>): (s': State)
    requires |s.t| > 0
    ensures |s'.t| == |s.t|
    decreases |ops|
  {
    if ops == [] then s else Run(H, Step(H, s, ops[0]), ops[1..])
  }
}
