/** The snapshot file of src/core/storage/storage.c byte by byte, and exactly which files load. */
module Format {
  import opened Bytes
  import opened Bits
  import opened Table
  import opened Runs
  import opened Storage
  import Aof
  import LogCodec
  import Capacity
  import Hash

  // ---- reading undone by writing ----

  lemma {:induction false} LeOfFromLe(s: bytes)
    ensures FromLe(s) < Pow2(8 * |s|) && Le(FromLe(s), |s|) == s
  {
    hide FromLe, Le;
    if |s| > 0 {
      LeOfFromLe(s[1..]);
      LeOfDigit(s, FromLe(s[1..]));
    } else {
      LeOfNone(s);
    }
  }

  lemma {:induction false} LeOfNone(s: bytes)
    requires |s| == 0
    ensures FromLe(s) == 0 && Le(0, 0) == s && Pow2(0) == 1
  {
  }

  lemma {:induction false} LeOfDigit(s: bytes, n: nat)
    requires |s| > 0 && n == FromLe(s[1..]) && n < Pow2(8 * (|s| - 1)) && Le(n, |s| - 1) == s[1..]
    ensures FromLe(s) < Pow2(8 * |s|) && Le(FromLe(s), |s|) == s
  {
    hide *;
    Pow2Sum(8, 8 * (|s| - 1));
    Pow2Of8();
    FromLeUnfold(s);
    LowDigit(s[0], n, Pow2(8 * (|s| - 1)));
    LeUnfold(FromLe(s), |s|);
    assert s == [s[0]] + s[1..];
  }

  lemma {:induction false} Pow2Of8()
    ensures Pow2(8) == 256
  {
  }

  lemma {:induction false} LowDigit(b: byte, n: nat, p: nat)
    requires n < p
    ensures b + 256 * n < 256 * p && (b + 256 * n) % 256 == b && (b + 256 * n) / 256 == n
  {
  }

  lemma {:induction false} LeUnfold(n: nat, k: nat)
    requires k > 0
    ensures Le(n, k) == [(n % 256) as byte] + Le(n / 256, k - 1)
  {
  }

  lemma {:induction false} FromLeUnfold(s: bytes)
    requires |s| > 0
    ensures FromLe(s) == s[0] + 256 * FromLe(s[1..])
  {
  }

  lemma {:induction false} ReadLeFrom(s: bytes, k: nat)
    ensures match ReadLe(s, k)
            case None => true
            case Some((n, rest)) => n < Pow2(8 * k) && s == Le(n, k) + rest
  {
    if |s| >= k {
      LeOfFromLe(s[..k]);
      assert s == s[..k] + s[k..];
    }
  }

  lemma {:induction false} ReadFieldFrom(s: bytes)
    ensures match ReadField(s)
            case None => true
            case Some((f, rest)) => |f| < U32 && s == (Le(|f|, 4) + f) + rest
  {
    Pow2Of32();
    ReadLeFrom(s, 4);
    hide Le, Pow2, ReadLe;
    match ReadLe(s, 4)
    case None =>
    case Some((n, t)) =>
      if n <= |t| {
        assert t == t[..n] + t[n..];
        Assoc(Le(n, 4), t[..n], t[n..]);
      }
  }

  lemma {:induction false} ReadItemsFrom(s: bytes, n: nat)
    ensures match ReadItems(s, n)
            case None => true
            case Some((items, rest)) =>
              |items| == n && (forall i | 0 <= i < n :: Small(items[i])) && s == EncodeItems(items) + rest
    decreases n
  {
    hide ReadField, Le, EncodeItems;
    if n == 0 {
      assert EncodeItems([]) == [] by { EncodeNone(s); }
    } else {
      ReadFieldFrom(s);
      match ReadField(s)
      case None =>
      case Some((key, s1)) =>
        ReadFieldFrom(s1);
        match ReadField(s1)
        case None =>
        case Some((val, s2)) =>
          ReadItemsFrom(s2, n - 1);
          match ReadItems(s2, n - 1)
          case None =>
          case Some((more, rest)) =>
            var items := [Item(key, val)] + more;
            assert items[1..] == more;
            EncodeItemsFirst(items, rest);
      }
  }

  // ---- the files that load ----

  /** A file with six bytes of magic, a version, a time and what was loaded from it; anything may follow. */
  ghost predicate IsFile(file: bytes, l: Loaded, time: nat, extra: bytes) {
    && time < U64 && |l.items| < U64 && l.stored < U32
    && (forall i | 0 <= i < |l.items| :: Small(l.items[i]))
    && file == FileOf(6, time, |l.items|, l.items, l.stored) + extra
  }

  lemma {:induction false} LoadsBack(file: bytes, l: Loaded, time: nat, extra: bytes)
    requires IsFile(file, l, time, extra)
    ensures ParseFile(file) == Some(l)
  {
    hide ReadLe, ReadItems, Le, EncodeItems;
    Pow2Of32();
    Pow2Of64();
    var t4 := Le(l.stored, 4) + extra;
    var s3 := EncodeItems(l.items) + t4;
    var s2 := Le(|l.items|, 8) + s3;
    var s1 := Le(time, 8) + s2;
    assert file == MAGIC[..6] + (Le(VERSION, 4) + s1) by { Regroup(l, time, extra); }
    MagicFirst(Le(VERSION, 4) + s1);
    ReadLeBack(VERSION, 4, s1);
    ReadLeBack(time, 8, s2);
    ReadLeBack(|l.items|, 8, s3);
    ReadItemsBack(l.items, t4);
    ReadLeBack(l.stored, 4, extra);
  }

  lemma {:induction false} Regroup(l: Loaded, time: nat, extra: bytes)
    requires time < U64
    ensures FileOf(6, time, |l.items|, l.items, l.stored) + extra ==
            MAGIC[..6] + (Le(VERSION, 4) + (Le(time, 8) + (Le(|l.items|, 8)
            + (EncodeItems(l.items) + (Le(l.stored, 4) + extra)))))
  {
    hide Le, EncodeItems;
    var a, b, c, d := MAGIC[..6], Le(VERSION, 4), Le(time, 8), Le(|l.items|, 8);
    var e, f := EncodeItems(l.items), Le(l.stored, 4);
    Assoc(e, f, extra);
    Assoc(d, e + f, extra);
    Assoc(c, d + (e + f), extra);
    Assoc(b, c + (d + (e + f)), extra);
    Assoc(a, b + (c + (d + (e + f))), extra);
  }

  lemma {:induction false} LoadsFrom(file: bytes, l: Loaded) returns (time: nat, extra: bytes)
    requires ParseFile(file) == Some(l)
    ensures IsFile(file, l, time, extra)
  {
    hide ReadLe, ReadItems, Le, EncodeItems, FileOf;
    Pow2Of32();
    Pow2Of64();
    assert file == file[..6] + file[6..];
    ReadLeFrom(file[6..], 4);
    var s1 := ReadLe(file[6..], 4).value.1;
    ReadLeFrom(s1, 8);
    var s2 := ReadLe(s1, 8).value.1;
    time := ReadLe(s1, 8).value.0;
    ReadLeFrom(s2, 8);
    var s3 := ReadLe(s2, 8).value.1;
    var count := ReadLe(s2, 8).value.0;
    ReadItemsFrom(s3, count);
    var s4 := ReadItems(s3, count).value.1;
    ReadLeFrom(s4, 4);
    extra := ReadLe(s4, 4).value.1;
    Regroup(l, time, extra);
  }

  /**
   * A file loads exactly when it is what was loaded from it, written out behind the six
   * bytes of magic; the time is not looked at, nor is what follows the checksum.
   */
  lemma {:induction false} LoadsExactly(file: bytes, l: Loaded)
    ensures ParseFile(file) == Some(l) <==> exists time: nat, extra: bytes :: IsFile(file, l, time, extra)
  {
    hide ParseFile, IsFile;
    if ParseFile(file) == Some(l) {
      var time, extra := LoadsFrom(file, l);
    } else {
      forall time: nat, extra: bytes ensures !IsFile(file, l, time, extra) {
        if IsFile(file, l, time, extra) { LoadsBack(file, l, time, extra); }
      }
    }
  }

  lemma {:induction false} PrefixLoads(file: bytes, l: Loaded, time: nat, k: nat, l': Loaded, time': nat, extra: bytes)
    requires IsFile(file, l, time, []) && k <= |file| && IsFile(file[..k], l', time', extra)
    ensures k == |file|
  {
    hide FileOf, ParseFile;
    var f := FileOf(6, time', |l'.items|, l'.items, l'.stored);
    assert file == file[..k] + file[k..];
    Assoc(f, extra, file[k..]);
    LoadsBack(file, l', time', extra + file[k..]);
    LoadsBack(file, l, time, []);
    FileLength(time, |l.items|, l.items, l.stored);
    FileLength(time', |l.items|, l.items, l.stored);
    assert |file| == 30 + Size(l.items) && |f| == 30 + Size(l.items);
  }

  /** A file cut short at any place does not load. */
  lemma {:induction false} TruncatedNeverLoads(file: bytes, l: Loaded, time: nat, k: nat)
    requires IsFile(file, l, time, []) && k < |file|
    ensures ParseFile(file[..k]) == None
  {
    hide ParseFile, IsFile;
    if ParseFile(file[..k]).Some? {
      var time', extra := LoadsFrom(file[..k], ParseFile(file[..k]).value);
      PrefixLoads(file, l, time, k, ParseFile(file[..k]).value, time', extra);
      assert false;
    }
  }

  // ---- the layout ----

  /** The bytes that items take. */
  function Size(items: seq<Item>): nat
    decreases |items|
  {
    if |items| == 0 then 0 else Size(items[..|items| - 1]) + 8 + |items[|items| - 1].key| + |items[|items| - 1].val|
  }

  lemma {:induction false} EncodedLength(items: seq<Item>)
    ensures |EncodeItems(items)| == Size(items)
    decreases |items|
  {
    hide Le;
    if |items| == 0 {
      EncodeNone([]);
    } else {
      var n := |items| - 1;
      EncodedLength(items[..n]);
      EncodeItemsSplit(items, n);
      EncodeOne(items[n..]);
    }
  }

  lemma {:induction false} EncodeOne(items: seq<Item>)
    requires |items| == 1
    ensures EncodeItems(items) == EncodeItem(items[0])
    ensures |EncodeItems(items)| == 8 + |items[0].key| + |items[0].val|
  {
    hide Le;
    assert EncodeItems(items[1..]) == [];
  }

  lemma {:induction false} FileLength(time: nat, count: nat, items: seq<Item>, sum: nat)
    ensures |FileOf(6, time, count, items, sum)| == 30 + Size(items)
  {
    hide Le, EncodeItems;
    EncodedLength(items);
  }

  /** The bytes of a number, lowest first. */
  lemma {:induction false} LeByte(n: nat, k: nat, i: nat)
    requires i < k
    ensures Le(n, k)[i] == n / Pow2(8 * i) % 256
    decreases i
  {
    if i == 0 {
      assert Pow2(0) == 1;
    } else {
      LeByte(n / 256, k - 1, i - 1);
      Pow2Sum(8, 8 * (i - 1));
      assert Pow2(8) == 256;
      DivDiv(n, 256, Pow2(8 * (i - 1)));
    }
  }

  lemma {:induction false} DivDiv(n: nat, a: nat, b: nat)
    requires a > 0 && b > 0
    ensures a * b > 0 && n / a / b == n / (a * b)
  {
    var m, s := n / a, n % a;
    var q, r := m / b, m % b;
    Regrouped(a, b, q, r);
    DigitFits(a, b, r, s);
    ModUnique(n, a * b, q, a * r + s);
  }

  lemma {:induction false} Regrouped(a: nat, b: nat, q: nat, r: nat)
    ensures a * (b * q + r) == q * (a * b) + a * r
  {
    assert a * (b * q) == q * (a * b);
  }

  lemma {:induction false} DigitFits(a: nat, b: nat, r: nat, s: nat)
    requires s < a && r < b
    ensures a * r + s < a * b
  {
    assert a * (r + 1) <= a * b;
  }

  /** The parts of a file that stand in front of its items. */
  lemma {:induction false} HeaderParts(f: bytes, a: bytes, v: bytes, t: bytes, c: bytes, r: bytes)
    requires f == a + (v + (t + (c + r))) && |a| == 7 && |v| == 4 && |t| == 8 && |c| == 8
    ensures |f| == 27 + |r| && f[..7] == a && f[7..11] == v && f[11..19] == t && f[19..27] == c && f[27..] == r
  {
    assert f == ((a + v) + t) + (c + r);
    assert f == (((a + v) + t) + c) + r;
  }

  /** The parts of an item, with other bytes before and behind it. */
  lemma {:induction false} ItemParts(r: bytes, x: bytes, it: Item, y: bytes)
    requires r == x + (EncodeItem(it) + y)
    ensures var p, q := |x|, |x| + 4 + |it.key|;
            && |r| == q + 4 + |it.val| + |y|
            && r[p..p + 4] == Le(|it.key|, 4) && r[p + 4..q] == it.key
            && r[q..q + 4] == Le(|it.val|, 4) && r[q + 4..q + 4 + |it.val|] == it.val
  {
    hide Le;
    var k, w := Le(|it.key|, 4), Le(|it.val|, 4);
    assert r == x + (k + (it.key + (w + (it.val + y))));
    var r1 := r[|x|..];
    assert r1 == k + (it.key + (w + (it.val + y)));
    var r2 := r1[4..];
    assert r2 == it.key + (w + (it.val + y));
    var r3 := r2[|it.key|..];
    assert r3 == w + (it.val + y);
    assert r3[4..] == it.val + y;
  }

  lemma {:induction false} Shifted(f: bytes, n: nat, r: bytes, a: nat, b: nat)
    requires n <= |f| && f[n..] == r && a <= b <= |r|
    ensures f[n + a..n + b] == r[a..b]
  {
    forall i | 0 <= i < b - a ensures f[n + a..n + b][i] == r[a..b][i] {
      assert f[n..][a + i] == r[a + i];
    }
  }

  lemma {:induction false} EncodeAround(items: seq<Item>, j: nat, z: bytes)
    requires j < |items|
    ensures EncodeItems(items) + z ==
            EncodeItems(items[..j]) + (EncodeItem(items[j]) + (EncodeItems(items[j + 1..]) + z))
  {
    hide EncodeItem, EncodeItems;
    EncodeItemsSplit(items, j);
    EncodeItemsUnfold(items[j..]);
    assert items[j..][1..] == items[j + 1..];
    var x, i, y := EncodeItems(items[..j]), EncodeItem(items[j]), EncodeItems(items[j + 1..]);
    Assoc(x, i + y, z);
    Assoc(i, y, z);
  }

  lemma {:induction false} VersionBytes()
    ensures Le(VERSION, 4) == [1, 0, 0, 0]
  {
    LeUnfold(VERSION, 4);
    LeUnfold(0, 3);
    LeUnfold(0, 2);
    LeUnfold(0, 1);
  }

  /**
   * The file that db_save writes: seven bytes of magic, the version, the time and the
   * count, then every item as the length of its key, its key, the length of its value
   * and its value, and the checksum at the end.
   */
  lemma {:induction false} FileLayout(time: nat, count: nat, items: seq<Item>, sum: nat, j: nat)
    requires j < |items|
    ensures var f, p, it := FileOf(7, time, count, items, sum), 27 + Size(items[..j]), items[j];
            var q := p + 4 + |it.key|;
            && |f| == 31 + Size(items) && q + 4 + |it.val| + 4 <= |f|
            && f[..7] == MAGIC && f[7..11] == [1, 0, 0, 0] && f[11..19] == Le(time, 8) && f[19..27] == Le(count, 8)
            && f[p..p + 4] == Le(|it.key|, 4) && f[p + 4..q] == it.key
            && f[q..q + 4] == Le(|it.val|, 4) && f[q + 4..q + 4 + |it.val|] == it.val
            && f[|f| - 4..] == Le(sum, 4)
  {
    hide Le, EncodeItems, EncodeItem, Size;
    var f, z := FileOf(7, time, count, items, sum), Le(sum, 4);
    var r := EncodeItems(items) + z;
    assert MAGIC[..7] == MAGIC;
    VersionBytes();
    HeaderParts(f, MAGIC, Le(VERSION, 4), Le(time, 8), Le(count, 8), r);
    EncodedLength(items);
    EncodedLength(items[..j]);
    EncodeAround(items, j, z);
    ItemParts(r, EncodeItems(items[..j]), items[j], EncodeItems(items[j + 1..]) + z);
    var p, q := Size(items[..j]), Size(items[..j]) + 4 + |items[j].key|;
    Shifted(f, 27, r, p, p + 4);
    Shifted(f, 27, r, p + 4, q);
    Shifted(f, 27, r, q, q + 4);
    Shifted(f, 27, r, q + 4, q + 4 + |items[j].val|);
    Shifted(f, 27, r, |r| - 4, |r|);
    assert r[|r| - 4..|r|] == z;
    assert f[|f| - 4..] == f[|f| - 4..|f|];
  }

  // ---- what a file loads as ----

  /** The last item with this key, as C reads it. */
  predicate LastAt(items: seq<Item>, key: bytes, i: nat) {
    i < |items| && CString(items[i].key) == key && forall j | i < j < |items| :: CString(items[j].key) != key
  }

  /** The value of an item, an empty one as NULL, with its length cut to 16 bits. */
  predicate Carries(e: Entry, val: bytes) {
    e.value == (if val == [] then Null else Data(val)) && e.valLen == |val| % U16
  }

  /** The map that a file's items make: every key up to its first NUL, with its last value. */
  lemma {:induction false} LoadedMap(items: seq<Item>, key: bytes)
    ensures var m := ApplyAll(map[], PutsOf(items));
            && (key in m <==> exists i: nat :: LastAt(items, key, i))
            && forall i: nat | LastAt(items, key, i) :: Carries(m[key], items[i].val)
    decreases |items|
  {
    hide CString;
    if |items| > 0 {
      var n := |items| - 1;
      LoadedMap(items[..n], key);
      PutsSnoc(items);
      hide ApplyAll, PutsOf;
      if CString(items[n].key) == key {
        assert LastAt(items, key, n);
        assert forall i: nat | LastAt(items, key, i) :: i == n;
      } else {
        forall i: nat
          ensures LastAt(items, key, i) <==> LastAt(items[..n], key, i)
          ensures i < n ==> items[..n][i] == items[i]
        {
          assert forall j | 0 <= j < n :: items[..n][j] == items[j];
        }
      }
    }
  }

  lemma {:induction false} PutsSnoc(items: seq<Item>)
    requires |items| > 0
    ensures var n := |items| - 1;
            ApplyAll(map[], PutsOf(items)) ==
            ApplyAll(map[], PutsOf(items[..n]))[CString(items[n].key) := LoadedEntry(items[n].val)]
  {
    hide ApplyAll, CString, LoadedEntry;
    var n := |items| - 1;
    assert PutsOf(items) == PutsOf(items[..n]) + [PutOf(items[n])];
    ApplyAllSnoc(map[], PutsOf(items[..n]), PutOf(items[n]));
  }

  /**
   * A file that loads, whoever wrote it, with keys the table can store: it comes back as
   * the map of its items exactly when no segment of the new table gets more keys than it
   * has slots.
   */
  lemma {:induction false} AnyFileLoads(file: bytes, l: Loaded)
    requires ParseFile(file) == Some(l) && 2 * |l.items| < U64
    requires forall i | 0 <= i < |l.items| :: Storable(Hash.Fnv1a, CString(l.items[i].key))
    ensures LoadsAs(file, ApplyAll(map[], PutsOf(l.items))) <==>
            Capacity.Spread(Hash.Fnv1a, KeysOf(PutsOf(l.items)), Capacity.LoadCapacity(|l.items|))
  {
    hide ParseFile, CString, ApplyAll, KeysOf, Capacity.Spread, Storable, Serves, Hash.Fnv1a;
    Capacity.SpreadExactly(Hash.Fnv1a, Capacity.LoadCapacity(|l.items|), PutsOf(l.items));
  }

  // ---- the table of a log ----

  /** An operation about a C string that the table can store. */
  predicate CKey(op: LogCodec.LogOp) { NUL !in op.key && Storable(Hash.Fnv1a, op.key) }

  /** Whatever is replayed or handled about such keys, the table is one whose snapshots are understood. */
  lemma {:induction false} ReplayedCEntries(cap: nat, ops: seq<LogCodec.LogOp>)
    requires cap > 0 && forall i | 0 <= i < |ops| :: CKey(ops[i])
    ensures CEntries(Aof.ReplayInto(Create(cap), ops).t)
    decreases |ops|
  {
    hide CEntries, CKey, Aof.ReplayStep;
    if |ops| == 0 {
      CreateCounts(cap);
    } else {
      ReplayedCEntries(cap, ops[..|ops| - 1]);
      StepCEntries(Aof.ReplayInto(Create(cap), ops[..|ops| - 1]), ops[|ops| - 1]);
    }
  }

  lemma {:induction false} StepCEntries(s: State, op: LogCodec.LogOp)
    requires |s.t| > 0 && CEntries(s.t) && CKey(op)
    ensures CEntries(Aof.ReplayStep(s, op).t)
  {
    hide CEntries, Storable, Hash.Fnv1a;
    CallCEntries(s, if op.Set? then Put(op.key, Aof.EntryOf(op.value)) else Op.Del(op.key));
  }
}
