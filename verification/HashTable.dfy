/** src/core/hashmap/hashmap.c: the table itself, updated in place, at any capacity. */
module HashTable {
  import opened Bytes
  import opened Bits
  import opened Table
  import opened Runs
  import opened Loops
  import Hash

  class HashMap {
    const capacity: nat
    const buckets: array<Node>
    var count: nat

    ghost predicate Valid() {
      0 < capacity < U64 && buckets.Length == capacity
    }

    ghost function Abs(): State
      reads this, buckets
    {
      State(buckets[..], count)
    }

    /** hm_create. */
    constructor (cap: nat)
      requires 0 < cap < U64
      ensures Valid() && fresh(buckets) && capacity == cap && Abs() == Create(cap)
    {
      capacity := cap;
      buckets := new Node[cap](_ => EMPTY);
      count := 0;
      new;
      assert buckets[..] == Create(cap).t;
    }

    /** The two slot tests of hm_insert, as it writes them. */
    static lemma {:induction false} SlotTests(n: Node, key: bytes, hash: nat)
      requires hash == Hash.Fnv1a(key)
      ensures Free(n) <==> n.hash == 0 || n.tomb
      ensures Matches(Hash.Fnv1a, n, key) <==> n.hash == hash && n.keyLen == |key| && key <= n.key
    {
    }

    /** hm_insert, for any call whose loop ends. */
    method Insert(key: bytes, value: Value, valLen: nat) returns (rc: int)
      requires Valid() && PutEnds(Hash.Fnv1a, buckets[..], key, Entry(value, ToU16(valLen)))
      modifies this`count, buckets
      ensures rc == 0
      ensures Abs() == Call(Hash.Fnv1a, old(Abs()), Put(key, Entry(value, ToU16(valLen))))
    {
      hide Hash.Fnv1a, PutLoop, Idx, ToU16, Inc64, PutCall;
      var hash := Hash.ComputeFnv1a(key);
      var e := Entry(value, ToU16(valLen));
      var cur := Node(hash, key, e, ToU16(|key|), 0, false);
      var i: nat := Idx(hash, capacity);
      ghost var t := buckets[..];
      ghost var n: nat :| PutIn(Hash.Fnv1a, t, key, e, n).Some?;
      PutCallIs(Hash.Fnv1a, t, key, e, n);
      ghost var result := PutIn(Hash.Fnv1a, t, key, e, n);
      assert result == PutLoop(Hash.Fnv1a, t, key, e, cur, i, n);
      while true
        invariant i < capacity && buckets[..] == t && count == old(count)
        invariant result.Some? && PutLoop(Hash.Fnv1a, t, key, e, cur, i, n) == result
        decreases n
      {
        var node := buckets[i];
        assert node == t[i];
        SlotTests(node, key, hash);
        PutRound(Hash.Fnv1a, t, key, e, cur, i, n);
        if node.hash == 0 || node.tomb {
          buckets[i] := cur;
          count := Inc64(count);
          assert buckets[..] == t[i := cur];
          return 0;
        }
        if node.hash == hash && node.keyLen == |key| && key <= node.key {
          buckets[i] := node.(entry := e);
          assert buckets[..] == t[i := node.(entry := e)];
          return 0;
        }
        if node.dib < cur.dib {
          buckets[i] := cur;
          t := t[i := cur];
          cur := node;
        }
        cur := cur.(dib := Inc16(cur.dib));
        i := Idx(i + 1, capacity);
        n := n - 1;
      }
    }

    /** The probe loop that hm_get and hm_delete share. */
    method Probe(key: bytes) returns (r: Option<nat>)
      requires Valid() && ProbeEnds(Hash.Fnv1a, buckets[..], key)
      ensures r == ProbeCall(Hash.Fnv1a, buckets[..], key)
    {
      hide Hash.Fnv1a, ProbeLoop, Idx, ProbeCall;
      var hash := Hash.ComputeFnv1a(key);
      var i: nat, dib: nat := Idx(hash, capacity), 0;
      ghost var t := buckets[..];
      ghost var n: nat :| ProbeIn(Hash.Fnv1a, t, key, n).Some?;
      ProbeCallIs(Hash.Fnv1a, t, key, n);
      ghost var result := ProbeIn(Hash.Fnv1a, t, key, n);
      assert result == ProbeLoop(Hash.Fnv1a, t, key, i, dib, n);
      while true
        invariant i < capacity && result.Some? && ProbeLoop(Hash.Fnv1a, t, key, i, dib, n) == result
        decreases n
      {
        var node := buckets[i];
        assert node == t[i];
        SlotTests(node, key, hash);
        ProbeRound(Hash.Fnv1a, t, key, i, dib, n);
        if node.hash == 0 || dib > node.dib {
          return None;
        }
        if node.hash == hash && node.keyLen == |key| && key <= node.key {
          return Some(i);
        }
        dib := Inc16(dib);
        i := Idx(i + 1, capacity);
        n := n - 1;
      }
    }

    /** hm_get. */
    method Get(key: bytes) returns (value: Value)
      requires Valid() && ProbeEnds(Hash.Fnv1a, buckets[..], key)
      ensures value == GetCall(Hash.Fnv1a, buckets[..], key)
    {
      var r := Probe(key);
      value := match r case None => Null case Some(i) => buckets[i].entry.value;
    }

    /** hm_delete. */
    method Delete(key: bytes) returns (rc: int)
      requires Valid() && ProbeEnds(Hash.Fnv1a, buckets[..], key)
      modifies this`count, buckets
      ensures rc == if ProbeCall(Hash.Fnv1a, old(buckets[..]), key) == None then -1 else 0
      ensures Abs() == Call(Hash.Fnv1a, old(Abs()), Del(key))
    {
      hide Hash.Fnv1a, ProbeCall, ProbeEnds;
      var r := Probe(key);
      if r == None {
        return -1;
      }
      buckets[r.value] := buckets[r.value].(tomb := true);
      count := Dec64(count);
      assert buckets[..] == old(buckets[..])[r.value := old(buckets[r.value]).(tomb := true)];
      return 0;
    }
  }

  /** One round of a loop that ends. */
  lemma {:induction false} PutRound(H: Hasher, t: Slots, key: bytes, e: Entry, cur: Node, i: nat, n: nat)
    requires i < |t| && PutLoop(H, t, key, e, cur, i, n).Some?
    ensures n > 0
    ensures PutLoop(H, t, key, e, cur, i, n) ==
            if Free(t[i]) then Some((t[i := cur], true))
            else if Matches(H, t[i], key) then Some((t[i := t[i].(entry := e)], false))
            else if t[i].dib < cur.dib then
              PutLoop(H, t[i := cur], key, e, t[i].(dib := Inc16(t[i].dib)), Idx(i + 1, |t|), n - 1)
            else PutLoop(H, t, key, e, cur.(dib := Inc16(cur.dib)), Idx(i + 1, |t|), n - 1)
  {
  }

  lemma {:induction false} ProbeRound(H: Hasher, t: Slots, key: bytes, i: nat, dib: nat, n: nat)
    requires i < |t| && ProbeLoop(H, t, key, i, dib, n).Some?
    ensures n > 0
    ensures ProbeLoop(H, t, key, i, dib, n) ==
            if !Occupied(t[i]) || dib > t[i].dib then Some(None)
            else if Matches(H, t[i], key) then Some(Some(i))
            else ProbeLoop(H, t, key, Idx(i + 1, |t|), Inc16(dib), n - 1)
  {
  }
}
