/**
 * What masking with capacity - 1 makes of the table of src/core/hashmap/hashmap.c. The
 * slots that an index can reach fall into segments of equal length, the largest power of
 * two that divides the capacity, and each segment is a table of its own. With a power of
 * two there is one segment, and the loops are the functions of Table.
 */
module Segments {
  import opened Bytes
  import opened Bits
  import opened Table
  import opened Loops

  // ---- segments: what masking makes of a capacity ----

  /** Segment q of the slots is one that some hash is at home in. */
  predicate SegOk(q: nat, cap: nat)
    requires cap > 0
  {
    BitAnd(q, OddPart(cap) - 1) == q
  }

  /** Where segment q begins. */
  function Base(q: nat, cap: nat): nat
    requires cap > 0
  {
    LowBit(cap) * q
  }

  /** The segment of a hash. */
  function SegOf(x: nat, cap: nat): nat
    requires cap > 0
  {
    BitAnd(Div(x, LowBit(cap)), OddPart(cap) - 1)
  }

  /** An index is the remainder by the length of a segment, within the segment of the hash. */
  lemma {:induction false} IdxSplit(x: nat, cap: nat)
    requires cap > 0
    ensures var l, q := LowBit(cap), SegOf(x, cap);
            SegOk(q, cap) && Idx(x, cap) == Base(q, cap) + Home(x, l) && Base(q, cap) + l <= cap
  {
    MaskSplit(x, cap);
    MaskIdempotent(Div(x, LowBit(cap)), OddPart(cap) - 1);
    SegFits(SegOf(x, cap), cap);
  }

  lemma {:induction false} SegFits(q: nat, cap: nat)
    requires cap > 0 && SegOk(q, cap)
    ensures Base(q, cap) + LowBit(cap) <= cap
  {
    LowBitTimes(cap);
    var l, r := LowBit(cap), OddPart(cap);
    assert q + 1 <= r;
    MulGrows(l, q + 1, r);
    assert l * (q + 1) == l * q + l;
  }

  lemma {:induction false} MulGrows(l: nat, a: nat, b: nat)
    requires a <= b
    ensures l * a <= l * b
  {
    assert l * (b - a) >= 0;
    assert l * b == l * a + l * (b - a);
  }

  /** The step to the next slot goes round the segment. */
  lemma {:induction false} IdxNext(q: nat, j: nat, cap: nat)
    requires cap > 0 && SegOk(q, cap) && j < LowBit(cap)
    ensures Idx(Base(q, cap) + j + 1, cap) == Base(q, cap) + Next(j, LowBit(cap))
  {
    var l, x := LowBit(cap), Base(q, cap) + j + 1;
    MaskSplit(x, cap);
    if j + 1 < l {
      DivUnique(x, l, q, j + 1);
    } else {
      assert x == (q + 1) * l;
      DivUnique(x, l, q + 1, 0);
      AndEven(q, OddPart(cap));
    }
  }

  /** Segment q as a table of its own. */
  function Seg(t: Slots, q: nat): (u: Slots)
    requires |t| > 0 && SegOk(q, |t|)
    ensures |u| == LowBit(|t|)
  {
    SegFits(q, |t|);
    t[Base(q, |t|)..Base(q, |t|) + LowBit(|t|)]
  }

  /** t with segment q replaced. */
  function WithSeg(t: Slots, q: nat, u: Slots): (t': Slots)
    requires |t| > 0 && SegOk(q, |t|) && |u| == LowBit(|t|)
    ensures |t'| == |t|
  {
    SegFits(q, |t|);
    t[..Base(q, |t|)] + u + t[Base(q, |t|) + LowBit(|t|)..]
  }

  lemma {:induction false} SegAt(t: Slots, q: nat, j: nat, x: Node)
    requires |t| > 0 && SegOk(q, |t|) && j < LowBit(|t|)
    ensures Base(q, |t|) + j < |t| && Seg(t, q)[j] == t[Base(q, |t|) + j]
    ensures t[Base(q, |t|) + j := x] == WithSeg(t, q, Seg(t, q)[j := x])
    ensures Seg(t[Base(q, |t|) + j := x], q) == Seg(t, q)[j := x]
  {
    SegFits(q, |t|);
  }

  lemma {:induction false} WithSegTwice(t: Slots, q: nat, u: Slots, v: Slots)
    requires |t| > 0 && SegOk(q, |t|) && |u| == |v| == LowBit(|t|)
    ensures WithSeg(WithSeg(t, q, u), q, v) == WithSeg(t, q, v)
    ensures Seg(WithSeg(t, q, u), q) == u
  {
    SegFits(q, |t|);
  }

  /** Another segment does not see the change. */
  lemma {:induction false} OtherSeg(t: Slots, q: nat, u: Slots, p: nat)
    requires |t| > 0 && SegOk(q, |t|) && SegOk(p, |t|) && p != q && |u| == LowBit(|t|)
    ensures Seg(WithSeg(t, q, u), p) == Seg(t, p)
  {
    hide SegOk, LowBit;
    SegFits(q, |t|);
    SegFits(p, |t|);
    var l := LowBit(|t|);
    BasesApart(p, q, l);
    SliceOutside(t, Base(q, |t|), l, u, Base(p, |t|));
  }

  lemma {:induction false} BasesApart(p: nat, q: nat, l: nat)
    requires p != q
    ensures l * p + l <= l * q || l * q + l <= l * p
  {
    if p < q { MulGrows(l, p + 1, q); } else { MulGrows(l, q + 1, p); }
  }

  lemma {:induction false} SliceOutside(t: Slots, b: nat, l: nat, u: Slots, c: nat)
    requires b + l <= |t| && c + l <= |t| && |u| == l && (c + l <= b || b + l <= c)
    ensures (t[..b] + u + t[b + l..])[c..c + l] == t[c..c + l]
  {
    var t' := t[..b] + u + t[b + l..];
    forall k | c <= k < c + l ensures t'[k] == t[k] { }
  }

  /** The insertion loop from a slot of a segment is that of the segment alone. */
  lemma {:induction false} SegPut(H: Hasher, t: Slots, key: bytes, e: Entry, cur: Node, q: nat, j: nat, n: nat)
    requires |t| > 0 && SegOk(q, |t|) && j < LowBit(|t|)
    ensures Base(q, |t|) + j < |t|
    ensures PutLoop(H, t, key, e, cur, Base(q, |t|) + j, n) ==
            match InsertFrom(H, Seg(t, q), key, e, cur, j, n)
            case None => None
            case Some((u, added)) => Some((WithSeg(t, q, u), added))
    decreases n
  {
    hide Matches, Inc16, Next, Idx, Seg, WithSeg, Base, LowBit, SegOk;
    SegAt(t, q, j, t[0]);
    if n != 0 {
      var i, u, k := Base(q, |t|) + j, Seg(t, q), Next(j, LowBit(|t|));
      IdxNext(q, j, |t|);
      NextIn(j, LowBit(|t|));
      SegAt(t, q, j, cur);
      SegAt(t, q, j, u[j].(entry := e));
      if !Free(u[j]) && !Matches(H, u[j], key) {
        if u[j].dib < cur.dib {
          var t1 := t[i := cur];
          SegPut(H, t1, key, e, u[j].(dib := Inc16(u[j].dib)), q, k, n - 1);
          var r := InsertFrom(H, Seg(t1, q), key, e, u[j].(dib := Inc16(u[j].dib)), k, n - 1);
          if r.Some? { WithSegTwice(t, q, u[j := cur], r.value.0); }
        } else {
          SegPut(H, t, key, e, cur.(dib := Inc16(cur.dib)), q, k, n - 1);
        }
      }
    }
  }

  lemma {:induction false} NextIn(j: nat, cap: nat)
    requires j < cap
    ensures Next(j, cap) < cap
  {
  }

  /** So is the probe, unless it never ends. */
  lemma {:induction false} SegProbe(H: Hasher, t: Slots, key: bytes, q: nat, d: nat, n: nat)
    requires |t| > 0 && SegOk(q, |t|) && d <= LowBit(|t|) && n > LowBit(|t|) - d
    requires NodesOk(H, Seg(t, q)) && Passed(H, Seg(t, q), key, d) && !Endless(H, Seg(t, q), key)
    ensures var j := At(Home(H(key), LowBit(|t|)), d, LowBit(|t|));
            && Base(q, |t|) + j < |t|
            && ProbeLoop(H, t, key, Base(q, |t|) + j, ToU16(d), n) ==
               Some(match FindFrom(H, Seg(t, q), key, d) case None => None case Some(k) => Some(Base(q, |t|) + k))
    decreases n
  {
    hide Passed, NodesOk, FindFrom, ProbeLoop, Idx, Base, ToU16, Seg, LowBit, SegOk, Endless;
    SegProbeAt(H, t, key, q, d);
    var u, l := Seg(t, q), LowBit(|t|);
    var j := At(Home(H(key), l), d, l);
    ProbeUnfold(H, t, key, Base(q, |t|) + j, ToU16(d), n);
    FindUnfold(H, u, key, d);
    if d < l && Occupied(u[j]) && ToU16(d) <= u[j].dib && !Matches(H, u[j], key) {
      SegProbe(H, t, key, q, d + 1, n - 1);
    }
  }

  /** What the probe meets d steps from home, and where it goes from there. */
  lemma {:induction false} SegProbeAt(H: Hasher, t: Slots, key: bytes, q: nat, d: nat)
    requires |t| > 0 && SegOk(q, |t|) && d <= LowBit(|t|)
    requires NodesOk(H, Seg(t, q)) && Passed(H, Seg(t, q), key, d)
    ensures var u, l := Seg(t, q), LowBit(|t|);
            var j := At(Home(H(key), l), d, l);
            && |u| == l && j < l && Base(q, |t|) + j < |t| && u[j] == t[Base(q, |t|) + j]
            && (d == l && !Endless(H, u, key) ==> ToU16(d) > u[j].dib)
            && Inc16(ToU16(d)) == ToU16(d + 1)
            && (d < l ==>
                  && Idx(Base(q, |t|) + j + 1, |t|) == Base(q, |t|) + At(Home(H(key), l), d + 1, l)
                  && (Occupied(u[j]) && ToU16(d) <= u[j].dib && !Matches(H, u[j], key) ==> Passed(H, u, key, d + 1)))
  {
    var u, l := Seg(t, q), LowBit(|t|);
    var h := Home(H(key), l);
    var j := At(h, d, l);
    hide Seg, SegOk, LowBit;
    SegAt(t, q, j, t[0]);
    IdxNext(q, j, |t|);
    assert NodeOk(H, u[j], j, l);
    ToU16Next(d);
    if d < l {
      NextAt(h, d, l);
      if Occupied(u[j]) && ToU16(d) <= u[j].dib && !Matches(H, u[j], key) {
        MatchesIsKey(H, u[j], key);
        PassedNext(H, u, key, d);
      }
    } else {
      ToU16Next(Own(u[j], j, l));
      hide ToU16;
      assert Dist(h, j, l) < l;
    }
  }

  /** A probe that a whole round does not stop goes on for ever. */
  lemma {:induction false} SegEndless(H: Hasher, t: Slots, key: bytes, q: nat, d: nat, n: nat)
    requires |t| > 0 && SegOk(q, |t|) && d < LowBit(|t|)
    requires NodesOk(H, Seg(t, q)) && Endless(H, Seg(t, q), key)
    ensures var j := At(Home(H(key), LowBit(|t|)), d, LowBit(|t|));
            Base(q, |t|) + j < |t| && ProbeLoop(H, t, key, Base(q, |t|) + j, ToU16(d), n) == None
    decreases n
  {
    hide NodesOk, ProbeLoop, Idx, Base, ToU16, Seg, LowBit, SegOk, Endless;
    SegEndlessAt(H, t, key, q, d);
    if n > 0 {
      var l := LowBit(|t|);
      ProbeUnfold(H, t, key, Base(q, |t|) + At(Home(H(key), l), d, l), ToU16(d), n);
      SegEndless(H, t, key, q, if d + 1 == l then 0 else d + 1, n - 1);
    } else {
      NoRounds(H, t, key, Base(q, |t|) + At(Home(H(key), LowBit(|t|)), d, LowBit(|t|)), ToU16(d));
    }
  }

  lemma {:induction false} NoRounds(H: Hasher, t: Slots, key: bytes, i: nat, dib: nat)
    requires i < |t|
    ensures ProbeLoop(H, t, key, i, dib, 0) == None
  {
  }

  lemma {:induction false} SegEndlessAt(H: Hasher, t: Slots, key: bytes, q: nat, d: nat)
    requires |t| > 0 && SegOk(q, |t|) && d < LowBit(|t|)
    requires NodesOk(H, Seg(t, q)) && Endless(H, Seg(t, q), key)
    ensures var u, l := Seg(t, q), LowBit(|t|);
            var h := Home(H(key), l);
            var i := Base(q, |t|) + At(h, d, l);
            && i < |t| && Occupied(t[i]) && ToU16(d) <= t[i].dib && !Matches(H, t[i], key)
            && (var d' := if d + 1 == l then 0 else d + 1;
                Inc16(ToU16(d)) == ToU16(d') && Idx(i + 1, |t|) == Base(q, |t|) + At(h, d', l))
  {
    var u, l := Seg(t, q), LowBit(|t|);
    var h := Home(H(key), l);
    var j := At(h, d, l);
    LowBitPow2(|t|);
    ToU16Next(d);
    ToU16Next(0);
    ToU16Round(l, 0);
    hide Seg, SegOk, LowBit, ToU16, IsPow2;
    SegAt(t, q, j, t[0]);
    IdxNext(q, j, |t|);
    NextAt(h, d, l);
    assert NodeOk(H, u[j], j, l) && Dist(h, j, l) == d;
    assert Occupied(u[j]) && u[j].dib >= ToU16(d) && u[j].key != key;
    MatchesIsKey(H, u[j], key);
  }

  lemma {:induction false} FindUnfold(H: Hasher, t: Slots, key: bytes, d: nat)
    requires |t| > 0 && d <= |t|
    ensures FindFrom(H, t, key, d) ==
            if d == |t| then None
            else
              var i := At(Home(H(key), |t|), d, |t|);
              if !Occupied(t[i]) || ToU16(d) > t[i].dib then None
              else if Matches(H, t[i], key) then Some(i)
              else FindFrom(H, t, key, d + 1)
  {
  }

  // ---- calls, segment by segment ----

  lemma {:induction false} SegInsert(H: Hasher, t: Slots, key: bytes, e: Entry)
    requires |t| > 0 && SegOk(SegOf(H(key), |t|), |t|)
    requires Insert(H, Seg(t, SegOf(H(key), |t|)), key, e).Some?
    ensures var q := SegOf(H(key), |t|);
            var (u, added) := Insert(H, Seg(t, q), key, e).value;
            PutEnds(H, t, key, e) && PutCall(H, t, key, e) == (WithSeg(t, q, u), added)
  {
    hide InsertFrom, PutLoop, Seg, WithSeg, SegOf, LowBit, Base, SegOk, Idx, Home;
    var h, q, l := H(key), SegOf(H(key), |t|), LowBit(|t|);
    IdxSplit(h, |t|);
    HomeIn(h, l);
    SegPut(H, t, key, e, NewNode(H, key, e), q, Home(h, l), 2 * l + 2);
    PutCallIs(H, t, key, e, 2 * l + 2);
  }

  lemma {:induction false} HomeIn(h: nat, cap: nat)
    requires cap > 0
    ensures Home(h, cap) < cap && At(Home(h, cap), 0, cap) == Home(h, cap)
  {
  }

  /** Where the probe begins. */
  lemma {:induction false} SegStart(H: Hasher, t: Slots, key: bytes)
    requires |t| > 0
    ensures var q, l := SegOf(H(key), |t|), LowBit(|t|);
            && SegOk(q, |t|) && l > 0 && ToU16(0) == 0
            && Idx(H(key), |t|) == Base(q, |t|) + At(Home(H(key), l), 0, l)
  {
    IdxSplit(H(key), |t|);
    HomeIn(H(key), LowBit(|t|));
  }

  lemma {:induction false} SegFindEnds(H: Hasher, t: Slots, key: bytes)
    requires |t| > 0 && SegOk(SegOf(H(key), |t|), |t|) && NodesOk(H, Seg(t, SegOf(H(key), |t|)))
    requires !Endless(H, Seg(t, SegOf(H(key), |t|)), key)
    ensures var q := SegOf(H(key), |t|);
            var r := Find(H, Seg(t, q), key);
            && ProbeEnds(H, t, key)
            && ProbeCall(H, t, key) == (match r case None => None case Some(k) => Some(Base(q, |t|) + k))
            && GetCall(H, t, key) == Get(H, Seg(t, q), key)
  {
    hide FindFrom, ProbeLoop, SegOf, SegOk, Base, LowBit, Idx, ToU16, NodesOk, Seg, At, Home, Endless;
    hide ProbeEnds, ProbeCall;
    var q, l := SegOf(H(key), |t|), LowBit(|t|);
    SegStart(H, t, key);
    assert Passed(H, Seg(t, q), key, 0);
    hide Passed;
    SegProbe(H, t, key, q, 0, l + 1);
    ProbeCallIs(H, t, key, l + 1);
    var r := Find(H, Seg(t, q), key);
    if r.Some? { SegAt(t, q, r.value, t[0]); }
  }

  lemma {:induction false} SegFindNever(H: Hasher, t: Slots, key: bytes)
    requires |t| > 0 && SegOk(SegOf(H(key), |t|), |t|) && NodesOk(H, Seg(t, SegOf(H(key), |t|)))
    requires Endless(H, Seg(t, SegOf(H(key), |t|)), key)
    ensures !ProbeEnds(H, t, key)
  {
    hide ProbeLoop, SegOf, SegOk, Base, LowBit, Idx, ToU16, NodesOk, Seg, At, Home, Endless;
    SegStart(H, t, key);
    forall n: nat ensures ProbeIn(H, t, key, n) == None { SegEndless(H, t, key, SegOf(H(key), |t|), 0, n); }
  }

  /** The probe ends unless a whole round of its segment does not stop it, and then finds what Find does. */
  lemma {:induction false} SegFind(H: Hasher, t: Slots, key: bytes)
    requires |t| > 0 && SegOk(SegOf(H(key), |t|), |t|) && NodesOk(H, Seg(t, SegOf(H(key), |t|)))
    ensures var u := Seg(t, SegOf(H(key), |t|));
            var r := Find(H, u, key);
            && (ProbeEnds(H, t, key) <==> !Endless(H, u, key))
            && (ProbeEnds(H, t, key) ==>
                  && ProbeCall(H, t, key) == (match r case None => None
                                              case Some(k) => Some(Base(SegOf(H(key), |t|), |t|) + k))
                  && GetCall(H, t, key) == Get(H, u, key))
  {
    hide *;
    if Endless(H, Seg(t, SegOf(H(key), |t|)), key) { SegFindNever(H, t, key); } else { SegFindEnds(H, t, key); }
  }

  // ---- a power of two: one segment ----

  lemma {:induction false} OneSegment(t: Slots, x: nat)
    requires |t| > 0 && IsPow2(|t|)
    ensures LowBit(|t|) == |t| && SegOk(0, |t|) && SegOf(x, |t|) == 0 && Seg(t, 0) == t
    ensures forall u: Slots | |u| == |t| :: WithSeg(t, 0, u) == u
  {
    LowBitWhole(|t|);
    LowBitTimes(|t|);
    assert OddPart(|t|) == 1 by { WholeOdd(|t|, OddPart(|t|)); }
    AndZero(Div(x, |t|));
  }

  lemma {:induction false} WholeOdd(n: nat, r: nat)
    requires n > 0 && n == n * r
    ensures r == 1
  {
    if r > 1 { assert n * r == n + n * (r - 1); MulAtLeast(r - 1, n); }
  }

  lemma {:induction false} AndZero(x: nat)
    ensures BitAnd(x, 0) == 0 && BitAnd(0, 0) == 0
  {
  }

  /** On a table whose capacity is a power of two the loop of hm_insert is that of Table. */
  lemma {:induction false} PutIsInsert(H: Hasher, t: Slots, key: bytes, e: Entry)
    requires |t| > 0 && IsPow2(|t|) && Insert(H, t, key, e).Some?
    ensures PutEnds(H, t, key, e) && PutCall(H, t, key, e) == Insert(H, t, key, e).value
  {
    hide Insert, Seg, WithSeg, SegOf, SegOk, PutEnds, PutCall;
    OneSegment(t, H(key));
    SegInsert(H, t, key, e);
  }

  /** And it goes on for ever where no slot is free and the probe for the key does so too. */
  lemma {:induction false} PutNever(H: Hasher, t: Slots, key: bytes, e: Entry)
    requires |t| > 0 && IsPow2(|t|) && NodesOk(H, t) && NoneFree(t) && Endless(H, t, key)
    ensures !PutEnds(H, t, key, e)
  {
    hide InsertFrom, PutLoop, Seg, WithSeg, SegOf, LowBit, Idx, ToU16, NodesOk, Endless, NoneFree, Home, At;
    OneSegment(t, H(key));
    SegStart(H, t, key);
    assert Base(0, |t|) == 0 && NewNode(H, key, e).(dib := ToU16(0)) == NewNode(H, key, e);
    forall n: nat ensures PutIn(H, t, key, e, n) == None {
      InsertEndless(H, t, key, e, 0, n);
      SegPut(H, t, key, e, NewNode(H, key, e), 0, At(Home(H(key), |t|), 0, |t|), n);
    }
  }

  /** The loop of hm_get and hm_delete ends unless a whole round does not stop it, with the search of Table. */
  lemma {:induction false} ProbeIsFind(H: Hasher, t: Slots, key: bytes)
    requires |t| > 0 && IsPow2(|t|) && NodesOk(H, t)
    ensures ProbeEnds(H, t, key) <==> !Endless(H, t, key)
    ensures ProbeEnds(H, t, key) ==> ProbeCall(H, t, key) == Find(H, t, key) && GetCall(H, t, key) == Get(H, t, key)
  {
    hide Find, Seg, WithSeg, SegOf, SegOk, ProbeEnds, ProbeCall, NodesOk, Endless;
    OneSegment(t, H(key));
    SegFind(H, t, key);
    assert Base(0, |t|) == 0;
  }
}
