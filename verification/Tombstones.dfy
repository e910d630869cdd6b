/**
 * Runs on which the table of src/core/hashmap/hashmap.c stops agreeing with a map:
 * what a tombstone that is not checked does.
 */
module Tombstones {
  import opened Bytes
  import opened Bits
  import opened Table
  import opened Loops
  import opened Segments
  import opened Runs
  import Hash

  /** Four keys that fit the table: three at home in slot 0 of four, one in slot 1. */
  ghost predicate Clash(H: Hasher, a: bytes, b: bytes, c: bytes, d: bytes) {
    && Storable(H, a) && Storable(H, b) && Storable(H, c) && Storable(H, d)
    && H(a) % 4 == H(b) % 4 == H(c) % 4 == 0 && H(d) % 4 == 1
    && a != b && a != c && b != c && a != d && b != d && c != d
  }

  function Placed(H: Hasher, key: bytes, e: Entry, dib: nat): Node {
    NewNode(H, key, e).(dib := dib)
  }

  lemma {:induction false} PutAt(H: Hasher, s: State, key: bytes, e: Entry, d: nat)
    requires |s.t| == 4 && d < 4 && Storable(H, key)
    requires var h := H(key) % 4;
             && Free(s.t[At(h, d, 4)])
             && forall c | 0 <= c < d :: var n := s.t[At(h, c, 4)]; Live(n) && n.key != key && KeyOk(H, n) && n.dib >= c
    ensures Call(H, s, Put(key, e)) == State(s.t[At(H(key) % 4, d, 4) := Placed(H, key, e, d)], Inc64(s.count))
  {
    PutFrom(H, s.t, key, e, 0, d, 10);
    FourIsPow2();
    hide InsertFrom, PutEnds, PutCall, IsPow2;
    PutIsInsert(H, s.t, key, e);
  }

  lemma {:induction false} FourIsPow2()
    ensures IsPow2(4) && IsPow2(1)
  {
    assert Pow2(2) == 4 && Pow2(0) == 1;
  }

  /** hm_delete, and hm_get, in a table of four slots. */
  lemma {:induction false} SearchIn(H: Hasher, s: State, key: bytes)
    requires |s.t| == 4 && NodesOk(H, s.t)
    ensures ProbeEnds(H, s.t, key) && ProbeCall(H, s.t, key) == Find(H, s.t, key)
    ensures GetCall(H, s.t, key) == Get(H, s.t, key) && Call(H, s, Del(key)) == Step(H, s, Del(key))
  {
    FourIsPow2();
    hide FindFrom, ProbeEnds, ProbeCall;
    ProbeIsFind(H, s.t, key);
  }

  /** Small probe distances are the ones of the slots. */
  lemma {:induction false} SmallToU16()
    ensures ToU16(0) == 0 && ToU16(1) == 1 && ToU16(2) == 2 && ToU16(3) == 3
  {
  }

  lemma {:induction false} PutFrom(H: Hasher, t: Slots, key: bytes, e: Entry, c: nat, d: nat, n: nat)
    requires |t| == 4 && c <= d < 4 && Storable(H, key) && n > d - c
    requires var h := H(key) % 4;
             && Free(t[At(h, d, 4)])
             && forall c | 0 <= c < d :: var n := t[At(h, c, 4)]; Live(n) && n.key != key && KeyOk(H, n) && n.dib >= c
    ensures InsertFrom(H, t, key, e, Placed(H, key, e, c), At(H(key) % 4, c, 4), n) ==
            Some((t[At(H(key) % 4, d, 4) := Placed(H, key, e, d)], true))
    decreases d - c
  {
    if c < d {
      var i := At(H(key) % 4, c, 4);
      MatchesIsKey(H, t[i], key);
      InsertStep(H, t, key, e, Placed(H, key, e, c), i, n);
      NextAt(H(key) % 4, c, 4);
      PutFrom(H, t, key, e, c + 1, d, n - 1);
    }
  }

  lemma {:induction false} RunUnfold(H: Hasher, s: State, m: Map, op: Op, ops: seq<Op>)
    requires |s.t| > 0
    ensures CallRun(H, s, [op] + ops) == CallRun(H, Call(H, s, op), ops)
    ensures ApplyAll(m, [op] + ops) == ApplyAll(Apply(m, op), ops)
  {
    assert ([op] + ops)[1..] == ops;
  }

  lemma {:induction false} Run5(H: Hasher, s: State, m: Map, ops: seq<Op>)
    requires |s.t| > 0 && |ops| == 5
    ensures CallRun(H, s, ops) == Call(H, Call(H, Call(H, Call(H, Call(H, s, ops[0]), ops[1]), ops[2]), ops[3]), ops[4])
    ensures ApplyAll(m, ops) == Apply(Apply(Apply(Apply(Apply(m, ops[0]), ops[1]), ops[2]), ops[3]), ops[4])
  {
    var s', m' := s, m;
    assert ops == [ops[0]] + ops[1..] && ops[1..] == [ops[1]] + ops[2..] && ops[2..] == [ops[2]] + ops[3..];
    assert ops[3..] == [ops[3]] + ops[4..] && ops[4..] == [ops[4]] + [];
    var s5 := Call(H, Call(H, Call(H, Call(H, Call(H, s, ops[0]), ops[1]), ops[2]), ops[3]), ops[4]);
    var m5 := Apply(Apply(Apply(Apply(Apply(m, ops[0]), ops[1]), ops[2]), ops[3]), ops[4]);
    assert CallRun(H, s5, []) == s5 && ApplyAll(m5, []) == m5;
    hide Call, Apply, CallRun, ApplyAll;
    RunUnfold(H, s', m', ops[0], ops[1..]);
    s', m' := Call(H, s', ops[0]), Apply(m', ops[0]);
    RunUnfold(H, s', m', ops[1], ops[2..]);
    s', m' := Call(H, s', ops[1]), Apply(m', ops[1]);
    RunUnfold(H, s', m', ops[2], ops[3..]);
    s', m' := Call(H, s', ops[2]), Apply(m', ops[2]);
    RunUnfold(H, s', m', ops[3], ops[4..]);
    s', m' := Call(H, s', ops[3]), Apply(m', ops[3]);
    RunUnfold(H, s', m', ops[4], []);
  }

  /** The run PUT a, PUT b, PUT c, DELETE b, PUT d. */
  function HidingRun(a: bytes, b: bytes, c: bytes, d: bytes, e: Entry): seq<Op> {
    [Put(a, e), Put(b, e), Put(c, e), Del(b), Put(d, e)]
  }

  /** The slots of the run before and after DELETE b. */
  function HidingSlots(H: Hasher, a: bytes, b: bytes, c: bytes, e: Entry, gone: bool): (t: Slots)
    ensures |t| == 4
  {
    [Placed(H, a, e, 0), Placed(H, b, e, 1).(tomb := gone), Placed(H, c, e, 2), EMPTY]
  }

  lemma {:induction false} HidingDelete(H: Hasher, a: bytes, b: bytes, c: bytes, d: bytes, e: Entry)
    requires Clash(H, a, b, c, d)
    ensures Call(H, State(HidingSlots(H, a, b, c, e, false), 3), Del(b)) == State(HidingSlots(H, a, b, c, e, true), 2)
  {
    var s := State(HidingSlots(H, a, b, c, e, false), 3);
    SmallToU16();
    hide ToU16, Call;
    assert FindFrom(H, s.t, b, 1) == Some(1);
    assert Find(H, s.t, b) == Some(1);
    SearchIn(H, s, b);
  }

  lemma {:induction false} HidingPuts(H: Hasher, a: bytes, b: bytes, c: bytes, d: bytes, e: Entry)
    requires Clash(H, a, b, c, d)
    ensures var s1 := Call(H, Create(4), Put(a, e));
            Call(H, Call(H, s1, Put(b, e)), Put(c, e)) == State(HidingSlots(H, a, b, c, e, false), 3)
  {
    var s0 := Create(4);
    SmallToU16();
    hide ToU16, Call;
    PutAt(H, s0, a, e, 0);
    var s1 := State([Placed(H, a, e, 0), EMPTY, EMPTY, EMPTY], 1);
    assert Call(H, s0, Put(a, e)) == s1;
    PutAt(H, s1, b, e, 1);
    var s2 := State([Placed(H, a, e, 0), Placed(H, b, e, 1), EMPTY, EMPTY], 2);
    assert Call(H, s1, Put(b, e)) == s2;
    PutAt(H, s2, c, e, 2);
    assert HidingSlots(H, a, b, c, e, false) == s2.t[2 := Placed(H, c, e, 2)];
  }

  function HiddenSlots(H: Hasher, a: bytes, c: bytes, d: bytes, e: Entry): (t: Slots)
    ensures |t| == 4
  {
    [Placed(H, a, e, 0), Placed(H, d, e, 0), Placed(H, c, e, 2), EMPTY]
  }

  lemma {:induction false} HidingPut(H: Hasher, a: bytes, b: bytes, c: bytes, d: bytes, e: Entry)
    requires Clash(H, a, b, c, d)
    ensures Call(H, State(HidingSlots(H, a, b, c, e, true), 2), Put(d, e)) == State(HiddenSlots(H, a, c, d, e), 3)
    ensures NodesOk(H, HiddenSlots(H, a, c, d, e))
  {
    var s4 := State(HidingSlots(H, a, b, c, e, true), 2);
    SmallToU16();
    hide ToU16, Call;
    PutAt(H, s4, d, e, 0);
    assert s4.t[1 := Placed(H, d, e, 0)] == HiddenSlots(H, a, c, d, e);
  }

  lemma {:induction false} HidingRunEnds(H: Hasher, a: bytes, b: bytes, c: bytes, d: bytes, e: Entry)
    requires Clash(H, a, b, c, d)
    ensures CallRun(H, Create(4), HidingRun(a, b, c, d, e)) == State(HiddenSlots(H, a, c, d, e), 3)
  {
    hide ToU16, Call, CallRun, ApplyAll, HidingSlots, HiddenSlots, Clash;
    HidingPuts(H, a, b, c, d, e);
    HidingDelete(H, a, b, c, d, e);
    HidingPut(H, a, b, c, d, e);
    Run5(H, Create(4), map[], HidingRun(a, b, c, d, e));
  }

  /**
   * Writing d into the tombstone of b cuts c off: c was inserted and never deleted, its
   * node is still in the table, and hm_get answers NULL for it.
   */
  lemma {:induction false} TombstoneHidesKey(H: Hasher, a: bytes, b: bytes, c: bytes, d: bytes, e: Entry)
    requires Clash(H, a, b, c, d) && e.value != Null
    ensures var ops := HidingRun(a, b, c, d, e);
            var s := CallRun(H, Create(4), ops);
            && ProbeEnds(H, s.t, c) && GetCall(H, s.t, c) == Null && LiveKey(s.t, c)
            && Lookup(ApplyAll(map[], ops), c) == e.value
            && !WellFormed(H, s.t)
  {
    var ops := HidingRun(a, b, c, d, e);
    HidingRunEnds(H, a, b, c, d, e);
    HidingPut(H, a, b, c, d, e);
    Run5(H, Create(4), map[], ops);
    var s := CallRun(H, Create(4), ops);
    SmallToU16();
    hide ToU16, CallRun, Call, ProbeEnds, GetCall;
    SearchIn(H, s, c);
    assert Occupied(s.t[2]) && s.t[2].key == c;
    assert FindFrom(H, s.t, c, 1) == None;
    assert Passes(s.t[2], 2, 1, 4) && !Yields(s.t[1], s.t[2], 1);
    assert Live(s.t[2]) && !Open(s.t, s.t[2], 2);
  }

  /** The run PUT a, PUT b, DELETE a, PUT b, DELETE a. */
  function DoublingRun(a: bytes, b: bytes, e: Entry): seq<Op> {
    [Put(a, e), Put(b, e), Del(a), Put(b, e), Del(a)]
  }

  /** The slots of that run after PUT b, the first and the second time. */
  function DoubledSlots(H: Hasher, a: bytes, b: bytes, e: Entry, gone: bool): (t: Slots)
    ensures |t| == 4
  {
    [Placed(H, a, e, 0).(tomb := gone), Placed(H, b, e, 1), EMPTY, EMPTY]
  }

  lemma {:induction false} DoublingBegins(H: Hasher, a: bytes, b: bytes, c: bytes, d: bytes, e: Entry)
    requires Clash(H, a, b, c, d)
    ensures var s2 := Call(H, Call(H, Create(4), Put(a, e)), Put(b, e));
            Call(H, s2, Del(a)) == State(DoubledSlots(H, a, b, e, true), 1)
  {
    var s0 := Create(4);
    SmallToU16();
    hide ToU16, Call;
    PutAt(H, s0, a, e, 0);
    var s1 := State([Placed(H, a, e, 0), EMPTY, EMPTY, EMPTY], 1);
    assert Call(H, s0, Put(a, e)) == s1;
    PutAt(H, s1, b, e, 1);
    var s2 := State(DoubledSlots(H, a, b, e, false), 2);
    assert Call(H, s1, Put(b, e)) == s2;
    assert Find(H, s2.t, a) == Some(0);
    SearchIn(H, s2, a);
  }

  lemma {:induction false} DoublingEnds(H: Hasher, a: bytes, b: bytes, c: bytes, d: bytes, e: Entry)
    requires Clash(H, a, b, c, d)
    ensures var s4 := State([Placed(H, b, e, 0), Placed(H, b, e, 1), EMPTY, EMPTY], 2);
            && Call(H, State(DoubledSlots(H, a, b, e, true), 1), Put(b, e)) == s4
            && Call(H, s4, Del(a)) == s4
  {
    var s4 := State([Placed(H, b, e, 0), Placed(H, b, e, 1), EMPTY, EMPTY], 2);
    SmallToU16();
    hide ToU16, Call;
    PutAt(H, State(DoubledSlots(H, a, b, e, true), 1), b, e, 0);
    assert DoubledSlots(H, a, b, e, true)[0 := Placed(H, b, e, 0)] == s4.t;
    assert FindFrom(H, s4.t, a, 2) == None;
    assert FindFrom(H, s4.t, a, 1) == None;
    SearchIn(H, s4, a);
  }

  /**
   * Inserting b again takes the tombstone of a and leaves b's old node behind it. The
   * table then stores b twice, and `count` says two keys where a map holds one.
   */
  lemma {:induction false} TombstoneDoublesKey(H: Hasher, a: bytes, b: bytes, c: bytes, d: bytes, e: Entry)
    requires Clash(H, a, b, c, d)
    ensures var ops := DoublingRun(a, b, e);
            var s := CallRun(H, Create(4), ops);
            && s.t[0].key == b && s.t[1].key == b && Live(s.t[0]) && Live(s.t[1])
            && s.count == 2 && ApplyAll(map[], ops) == map[b := e]
            && !WellFormed(H, s.t)
  {
    var ops, t := DoublingRun(a, b, e), [Placed(H, b, e, 0), Placed(H, b, e, 1), EMPTY, EMPTY];
    DoublingBegins(H, a, b, c, d, e);
    DoublingEnds(H, a, b, c, d, e);
    hide Call, CallRun, WellFormed, ToU16;
    Run5(H, Create(4), map[], ops);
    assert t[0].key == t[1].key && Live(t[0]) && Live(t[1]);
    if WellFormed(H, t) { KeysUnique(H, t); }
  }

  /** A second delete of a key reports success again and takes another key off `count`. */
  lemma {:induction false} RepeatedDeleteMiscounts(H: Hasher, s: State, m: Map, key: bytes)
    requires Agrees(H, s, m) && key in m
    ensures var s1 := Call(H, s, Del(key));
            var s2 := Call(H, s1, Del(key));
            && Agrees(H, s1, m - {key})
            && ProbeEnds(H, s1.t, key) && ProbeCall(H, s1.t, key).Some?
            && Contents(s2.t) == m - {key} && s2.count == Dec64(|m - {key}|)
  {
    var s1 := Call(H, s, Del(key));
    DeleteIsRemove(H, s, key);
    GetIsLookup(H, s.t, key);
    StepRefines(H, s, m, Del(key));
    hide ProbeEnds, ProbeCall, Call, Contents, Endless, WellFormed, Serves;
    DeleteIsRemove(H, s1, key);
    ProbeCases(H, s1.t, key);
  }

  /** In a table of one slot a second key evicts the first, and `count` does not move. */
  lemma {:induction false} FullTableEvicts(H: Hasher, a: bytes, b: bytes, e: Entry)
    requires Storable(H, a) && Storable(H, b) && a != b
    ensures var s := CallRun(H, Create(1), [Put(a, e), Put(b, e)]);
            Contents(s.t) == map[b := e] && s.count == 1
  {
    var s0 := Create(1);
    var cur := NewNode(H, b, e);
    var s1 := State([NewNode(H, a, e)], 1);
    FourIsPow2();
    PutIsInsert(H, s0.t, a, e);
    assert Call(H, s0, Put(a, e)) == s1;
    MatchesIsKey(H, s1.t[0], b);
    InsertStep(H, s1.t, b, e, cur, 0, 4);
    InsertStep(H, s1.t, b, e, cur.(dib := 1), 0, 3);
    var s2 := State([cur.(dib := 1)], 1);
    MatchesIsKey(H, s2.t[0], b);
    assert s2.t[0 := s2.t[0].(entry := e)] == s2.t;
    assert InsertFrom(H, s2.t, b, e, NewNode(H, a, e).(dib := 1), 0, 2) == Some((s2.t, false));
    PutIsInsert(H, s1.t, b, e);
    assert Call(H, s1, Put(b, e)) == s2;
    RunUnfold(H, s0, map[], Put(a, e), [Put(b, e)]);
    assert [Put(a, e)] + [Put(b, e)] == [Put(a, e), Put(b, e)];
    RunUnfold(H, s1, map[], Put(b, e), []);
    assert ContentsUpTo(s2.t, 1) == map[][b := e];
  }

  lemma {:induction false} FnvOfA()
    ensures Hash.Fnv1a([97]) == 12638187200555641996
  {
    Hash.FnvEmpty();
    assert [] + [97] == [97];
    hide Hash.Fnv1a;
    assert Pow2(8) == 256;
    Hash.FnvAppend([], 57406175934947875, 37, 97, 68);
  }

  lemma {:induction false} FnvOfE()
    ensures Hash.Fnv1a([101]) == 12638182802509129152
  {
    Hash.FnvEmpty();
    assert [] + [101] == [101];
    hide Hash.Fnv1a;
    assert Pow2(8) == 256;
    Hash.FnvAppend([], 57406175934947875, 37, 101, 64);
  }

  lemma {:induction false} FnvOfI()
    ensures Hash.Fnv1a([105]) == 12638195996648667684
  {
    Hash.FnvEmpty();
    assert [] + [105] == [105];
    hide Hash.Fnv1a;
    assert Pow2(8) == 256;
    Hash.FnvAppend([], 57406175934947875, 37, 105, 76);
  }

  lemma {:induction false} FnvOfB()
    ensures Hash.Fnv1a([98]) == 12638190499090526629
  {
    Hash.FnvEmpty();
    assert [] + [98] == [98];
    hide Hash.Fnv1a;
    assert Pow2(8) == 256;
    Hash.FnvAppend([], 57406175934947875, 37, 98, 71);
  }

  /** With FNV-1a the keys "a", "e", "i" and "b" do this in a table of four slots. */
  lemma {:induction false} ClashExists()
    ensures Clash(Hash.Fnv1a, [97], [101], [105], [98])
  {
    FnvOfA();
    FnvOfE();
    FnvOfI();
    FnvOfB();
    hide Hash.Fnv1a;
  }
}
