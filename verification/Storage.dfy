/** src/core/storage/storage.c: the binary snapshot, its checksum, and loading it back. */
module Storage {
  import opened Bytes
  import opened Bits
  import opened Table
  import opened Runs
  import opened Loops
  import opened HashTable
  import Capacity
  import Hash
  import Tombstones

  // ---- little-endian numbers ----

  function Le(n: nat, k: nat): (s: bytes)
    ensures |s| == k
    decreases k
  {
    if k == 0 then [] else [(n % 256) as byte] + Le(n / 256, k - 1)
  }

  function FromLe(s: bytes): nat {
    if |s| == 0 then 0 else s[0] + 256 * FromLe(s[1..])
  }

  lemma {:induction false} LeRoundTrip(n: nat, k: nat)
    requires n < Pow2(8 * k)
    ensures FromLe(Le(n, k)) == n
    decreases k
  {
    if k > 0 {
      Pow2Sum(8, 8 * (k - 1));
      assert Pow2(8) == 256;
      assert n / 256 < Pow2(8 * (k - 1));
      LeRoundTrip(n / 256, k - 1);
      assert Le(n, k)[1..] == Le(n / 256, k - 1);
    }
  }

  // ---- the file format ----

  /** DB_MAGIC with its terminating NUL. */
  const MAGIC: bytes := [79, 114, 99, 97, 68, 66, 0]
  const VERSION := 1

  /** The bytes of a key and of a value as they stand in the file. */
  datatype Item = Item(key: bytes, val: bytes)

  function EncodeItem(it: Item): bytes {
    Le(|it.key|, 4) + it.key + (Le(|it.val|, 4) + it.val)
  }

  function EncodeItems(items: seq<Item>): bytes
    decreases |items|
  {
    if |items| == 0 then [] else EncodeItem(items[0]) + EncodeItems(items[1..])
  }

  /** The checksum of the file: the sum over all fields. */
  function SumItems(items: seq<Item>): (s: nat)
    ensures s < U32
    decreases |items|
  {
    if |items| == 0 then 0
    else (Hash.Checksum(items[0].key) + Hash.Checksum(items[0].val) + SumItems(items[1..])) % U32
  }

  /** A file that writes `magicLen` bytes of the magic, and any checksum at its end. */
  function FileOf(magicLen: nat, time: nat, count: nat, items: seq<Item>, sum: nat): bytes
    requires magicLen <= 7
  {
    MAGIC[..magicLen] + (Le(VERSION, 4) + (Le(time, 8) + (Le(count, 8) + (EncodeItems(items) + Le(sum, 4)))))
  }

  // ---- reading ----

  function ReadLe(s: bytes, k: nat): Option<(nat, bytes)> {
    if |s| < k then None else Some((FromLe(s[..k]), s[k..]))
  }

  function ReadBytes(s: bytes, n: nat): Option<(bytes, bytes)> {
    if |s| < n then None else Some((s[..n], s[n..]))
  }

  /** One length and that many bytes. */
  function ReadField(s: bytes): Option<(bytes, bytes)> {
    match ReadLe(s, 4) case None => None case Some((n, rest)) => ReadBytes(rest, n)
  }

  function ReadItems(s: bytes, n: nat): Option<(seq<Item>, bytes)>
    decreases n
  {
    if n == 0 then Some(([], s))
    else
      match ReadField(s)
      case None => None
      case Some((key, s1)) =>
        match ReadField(s1)
        case None => None
        case Some((val, s2)) =>
          match ReadItems(s2, n - 1)
          case None => None
          case Some((items, rest)) => Some(([Item(key, val)] + items, rest))
  }

  /** What db_load gets out of a file: the items, and the checksum stored behind them. */
  datatype Loaded = Loaded(items: seq<Item>, stored: nat)

  /** db_load up to the table: six bytes of magic, then the rest. */
  function ParseFile(file: bytes): Option<Loaded> {
    if |file| < 6 || file[..6] != MAGIC[..6] then None
    else
      match ReadLe(file[6..], 4)
      case None => None
      case Some((version, s1)) =>
        if version != VERSION then None
        else
          match ReadLe(s1, 8)
          case None => None
          case Some((_, s2)) =>
            match ReadLe(s2, 8)
            case None => None
            case Some((count, s3)) =>
              match ReadItems(s3, count)
              case None => None
              case Some((items, s4)) =>
                match ReadLe(s4, 4)
                case None => None
                case Some((stored, _)) => Some(Loaded(items, stored))
  }

  // ---- the format round trip ----

  predicate Small(it: Item) {
    |it.key| < U32 && |it.val| < U32
  }

  lemma {:induction false} Pow2Of32()
    ensures Pow2(32) == U32
  {
    hide Pow2;
    Pow2Of4();
    Pow2Sum(4, 4);
    Pow2Sum(8, 8);
    Pow2Sum(16, 16);
  }

  lemma {:induction false} ReadLeBack(n: nat, k: nat, rest: bytes)
    requires n < Pow2(8 * k)
    ensures ReadLe(Le(n, k) + rest, k) == Some((n, rest))
  {
    LeRoundTrip(n, k);
    assert (Le(n, k) + rest)[..k] == Le(n, k) && (Le(n, k) + rest)[k..] == rest;
  }

  lemma {:induction false} Assoc(a: bytes, b: bytes, c: bytes)
    ensures (a + b) + c == a + (b + c)
  {
  }

  lemma {:induction false} SplitSum(a: bytes, b: bytes)
    ensures (a + b)[..|a|] == a && (a + b)[|a|..] == b
  {
  }

  lemma {:induction false} ReadFieldBack(f: bytes, rest: bytes)
    requires |f| < U32
    ensures ReadField((Le(|f|, 4) + f) + rest) == Some((f, rest))
  {
    hide Le, FromLe, Pow2, ReadLe;
    Pow2Of32();
    Assoc(Le(|f|, 4), f, rest);
    ReadLeBack(|f|, 4, f + rest);
    SplitSum(f, rest);
  }

  lemma {:induction false} ReadItemsBack(items: seq<Item>, rest: bytes)
    requires forall i | 0 <= i < |items| :: Small(items[i])
    ensures ReadItems(EncodeItems(items) + rest, |items|) == Some((items, rest))
    decreases |items|
  {
    hide ReadField, EncodeItem, Le;
    if |items| == 0 {
      assert EncodeItems(items) + rest == rest;
    } else {
      ReadItemsBack(items[1..], rest);
      ReadItemBack(items, rest);
    }
  }

  lemma {:induction false} ReadItemBack(items: seq<Item>, rest: bytes)
    requires |items| > 0 && Small(items[0])
    requires ReadItems(EncodeItems(items[1..]) + rest, |items| - 1) == Some((items[1..], rest))
    ensures ReadItems(EncodeItems(items) + rest, |items|) == Some((items, rest))
  {
    hide ReadField, EncodeItem, EncodeItems, ReadItems, Le;
    var it, more := items[0], items[1..];
    var s2 := EncodeItems(more) + rest;
    var s1 := (Le(|it.val|, 4) + it.val) + s2;
    EncodeItemsFirst(items, rest);
    ReadFieldBack(it.key, s1);
    ReadFieldBack(it.val, s2);
    ReadItemsFirst(EncodeItems(items) + rest, it.key, s1, it.val, s2, more, rest);
    assert [Item(it.key, it.val)] + more == items;
  }

  lemma {:induction false} ReadItemsFirst(s: bytes, key: bytes, s1: bytes, val: bytes, s2: bytes,
                                          more: seq<Item>, rest: bytes)
    requires ReadField(s) == Some((key, s1)) && ReadField(s1) == Some((val, s2))
    requires ReadItems(s2, |more|) == Some((more, rest))
    ensures ReadItems(s, |more| + 1) == Some(([Item(key, val)] + more, rest))
  {
    hide ReadField;
  }

  lemma {:induction false} EncodeItemsFirst(items: seq<Item>, rest: bytes)
    requires |items| > 0
    ensures var it := items[0];
            EncodeItems(items) + rest ==
            (Le(|it.key|, 4) + it.key) + ((Le(|it.val|, 4) + it.val) + (EncodeItems(items[1..]) + rest))
  {
    hide Le, EncodeItems;
    assert EncodeItems(items) == EncodeItem(items[0]) + EncodeItems(items[1..]) by { EncodeItemsUnfold(items); }
  }

  lemma {:induction false} EncodeItemsUnfold(items: seq<Item>)
    requires |items| > 0
    ensures EncodeItems(items) == EncodeItem(items[0]) + EncodeItems(items[1..])
  {
  }

  /** What a file with six bytes of magic is read as, whatever count stands in its header. */
  lemma {:induction false} HeaderRead(time: nat, count: nat, items: seq<Item>, sum: nat)
    requires time < U64 && count < U64
    ensures ParseFile(FileOf(6, time, count, items, sum)) ==
            match ReadItems(EncodeItems(items) + Le(sum, 4), count)
            case None => None
            case Some((read, s4)) =>
              match ReadLe(s4, 4) case None => None case Some((stored, _)) => Some(Loaded(read, stored))
  {
    hide ReadLe, ReadItems, Le, EncodeItems;
    Pow2Of32();
    Pow2Of64();
    var s3 := EncodeItems(items) + Le(sum, 4);
    var s2 := Le(count, 8) + s3;
    var s1 := Le(time, 8) + s2;
    MagicFirst(Le(VERSION, 4) + s1);
    ReadLeBack(VERSION, 4, s1);
    ReadLeBack(time, 8, s2);
    ReadLeBack(count, 8, s3);
  }

  /**
   * A file with the six bytes of magic that db_load expects is read back item by item,
   * with the checksum that was stored.
   */
  lemma {:induction false} FormatRoundTrip(time: nat, items: seq<Item>, sum: nat)
    requires time < U64 && |items| < U64 && sum < U32
    requires forall i | 0 <= i < |items| :: Small(items[i])
    ensures ParseFile(FileOf(6, time, |items|, items, sum)) == Some(Loaded(items, sum))
  {
    hide ReadLe, ReadItems, Le, EncodeItems, ParseFile, FileOf;
    Pow2Of32();
    HeaderRead(time, |items|, items, sum);
    ReadItemsBack(items, Le(sum, 4));
    assert Le(sum, 4) == Le(sum, 4) + [];
    ReadLeBack(sum, 4, []);
  }

  lemma {:induction false} EncodeItemsSplit(items: seq<Item>, c: nat)
    requires c <= |items|
    ensures EncodeItems(items) == EncodeItems(items[..c]) + EncodeItems(items[c..])
    decreases c
  {
    hide EncodeItem;
    if c == 0 {
      assert items[0..] == items;
    } else {
      EncodeItemsSplit(items[1..], c - 1);
      assert items[..c][1..] == items[1..][..c - 1] && items[1..][c - 1..] == items[c..];
      Assoc(EncodeItem(items[0]), EncodeItems(items[1..][..c - 1]), EncodeItems(items[c..]));
    }
  }

  /** With a smaller count in its header only the first records are read. */
  lemma {:induction false} FewerRead(time: nat, c: nat, items: seq<Item>, sum: nat)
    requires time < U64 && c < |items| && c < U64
    requires forall i | 0 <= i < |items| :: Small(items[i])
    ensures ParseFile(FileOf(6, time, c, items, sum)) == Some(Loaded(items[..c], |items[c].key|))
  {
    hide ReadLe, ReadItems, Le, EncodeItems, ParseFile, FileOf;
    Pow2Of32();
    HeaderRead(time, c, items, sum);
    EncodeItemsSplit(items, c);
    var more, it := items[c..], items[c];
    var rest := Le(sum, 4);
    Assoc(EncodeItems(items[..c]), EncodeItems(more), rest);
    ReadItemsBack(items[..c], EncodeItems(more) + rest);
    EncodeItemsFirst(more, rest);
    var behind := (Le(|it.val|, 4) + it.val) + (EncodeItems(more[1..]) + rest);
    Assoc(Le(|it.key|, 4), it.key, behind);
    ReadLeBack(|it.key|, 4, it.key + behind);
  }

  /** With a greater one the file ends too soon. */
  lemma {:induction false} MoreRead(time: nat, c: nat, items: seq<Item>, sum: nat)
    requires time < U64 && |items| < c < U64
    requires forall i | 0 <= i < |items| :: Small(items[i])
    ensures ParseFile(FileOf(6, time, c, items, sum)) == None
  {
    hide ReadLe, ReadItems, Le, EncodeItems, ParseFile, FileOf;
    HeaderRead(time, c, items, sum);
    PastItems(items, Le(sum, 4), c - |items|);
  }

  lemma {:induction false} PastItems(items: seq<Item>, rest: bytes, k: nat)
    requires |rest| == 4 && k > 0 && forall i | 0 <= i < |items| :: Small(items[i])
    ensures ReadItems(EncodeItems(items) + rest, |items| + k) == None
    decreases |items|
  {
    hide *;
    EncodeNone(rest);
    if |items| == 0 {
      ShortItems(rest, k);
      assert items == [];
    } else {
      var it, more := items[0], items[1..];
      var s2 := EncodeItems(more) + rest;
      PastItems(more, rest, k);
      EncodeItemsFirst(items, rest);
      SmallItem(it);
      ReadFieldBack(it.key, (Le(|it.val|, 4) + it.val) + s2);
      ReadFieldBack(it.val, s2);
      NextItemNone(EncodeItems(items) + rest, it.key, (Le(|it.val|, 4) + it.val) + s2, it.val, s2, |items| - 1 + k);
    }
  }

  lemma {:induction false} EncodeNone(rest: bytes)
    ensures EncodeItems([]) + rest == rest
  {
  }

  lemma {:induction false} SmallItem(it: Item)
    requires Small(it)
    ensures |it.key| < U32 && |it.val| < U32
  {
  }

  lemma {:induction false} ShortItems(s: bytes, k: nat)
    requires |s| == 4 && k > 0
    ensures ReadItems(s, k) == None
  {
    hide FromLe;
    assert s[4..] == [];
  }

  lemma {:induction false} NextItemNone(s: bytes, key: bytes, s1: bytes, val: bytes, s2: bytes, n: nat)
    requires ReadField(s) == Some((key, s1)) && ReadField(s1) == Some((val, s2)) && ReadItems(s2, n) == None
    ensures ReadItems(s, n + 1) == None
  {
    hide ReadField;
  }

  lemma {:induction false} MagicFirst(rest: bytes)
    ensures var file := MAGIC[..6] + rest; |file| >= 6 && file[..6] == MAGIC[..6] && file[6..] == rest
  {
  }

  /**
   * The seven bytes that db_save writes shift the version by one byte: no snapshot is
   * ever loaded, whatever it holds.
   */
  lemma {:induction false} SavedFileNeverLoads(time: nat, count: nat, items: seq<Item>, sum: nat)
    ensures ParseFile(FileOf(7, time, count, items, sum)) == None
  {
    hide Le, EncodeItems, ReadItems;
    var file := FileOf(7, time, count, items, sum);
    var v := file[6..][..4];
    assert file[6] == MAGIC[6] == 0;
    assert v[0] == 0;
    assert FromLe(v) == 256 * FromLe(v[1..]);
  }

  // ---- single-byte corruption ----

  /** Items that differ in one byte of one key or one value. */
  ghost predicate OneByteOff(a: Item, b: Item, p: nat) {
    || (a.val == b.val && Hash.DifferOnlyAt(a.key, b.key, p))
    || (a.key == b.key && Hash.DifferOnlyAt(a.val, b.val, p))
  }

  lemma {:induction false} AddDiffers(x: nat, y: nat, c: nat)
    requires x < U32 && y < U32 && x != y
    ensures (x + c) % U32 != (y + c) % U32
  {
    var d := (x + c) / U32 - (y + c) / U32;
    MulAtLeast(d, U32);
    MulAtLeast(-d, U32);
  }

  lemma {:induction false} SumDiffers(items: seq<Item>, i: nat, it: Item, p: nat)
    requires i < |items| && OneByteOff(items[i], it, p)
    ensures SumItems(items[i := it]) != SumItems(items)
    decreases i
  {
    hide Hash.Checksum;
    var items' := items[i := it];
    if i == 0 {
      assert items'[1..] == items[1..];
      var rest := SumItems(items[1..]);
      if items[0].val == it.val && Hash.DifferOnlyAt(items[0].key, it.key, p) {
        Hash.ChecksumOneByte(items[0].key, it.key, p);
        AddDiffers(Hash.Checksum(items[0].key), Hash.Checksum(it.key), Hash.Checksum(it.val) + rest);
      } else {
        Hash.ChecksumOneByte(items[0].val, it.val, p);
        AddDiffers(Hash.Checksum(items[0].val), Hash.Checksum(it.val), Hash.Checksum(it.key) + rest);
      }
    } else {
      assert items'[1..] == items[1..][i - 1 := it];
      SumDiffers(items[1..], i - 1, it, p);
      AddDiffers(SumItems(items[1..]), SumItems(items'[1..]),
        Hash.Checksum(items[0].key) + Hash.Checksum(items[0].val));
    }
  }

  /**
   * Corrupting one byte of one key or value of a snapshot, whatever its length, is
   * noticed: the file still parses, and the checksum computed is not the one stored.
   */
  lemma {:induction false} CorruptionDetected(time: nat, items: seq<Item>, i: nat, it: Item, p: nat)
    requires time < U64 && |items| < U64 && forall j | 0 <= j < |items| :: Small(items[j])
    requires i < |items| && OneByteOff(items[i], it, p)
    ensures var items' := items[i := it];
            var r := ParseFile(FileOf(6, time, |items|, items', SumItems(items)));
            r.Some? && r.value.items == items' && SumItems(r.value.items) != r.value.stored
  {
    FormatRoundTrip(time, items[i := it], SumItems(items));
    SumDiffers(items, i, it, p);
  }

  // ---- the items of a table ----

  /** The bytes that db_save writes of a value: val_len of them, or none for NULL. */
  function Saved(e: Entry): bytes {
    match e.value
    case Null => []
    case Data(d) => if e.valLen <= |d| then d[..e.valLen] else d
  }

  function ItemOf(n: Node): Item {
    Item(n.key, Saved(n.entry))
  }

  /** One item for every live slot, in the order of the slots. */
  function ItemsUpTo(t: Slots, n: nat): (items: seq<Item>)
    requires n <= |t|
    ensures |items| == LiveUpTo(t, n)
  {
    if n == 0 then [] else ItemsUpTo(t, n - 1) + (if Live(t[n - 1]) then [ItemOf(t[n - 1])] else [])
  }

  /** What db_load hands to hm_insert for an item: no bytes come back as a NULL value. */
  function LoadedEntry(val: bytes): Entry {
    Entry(if |val| == 0 then Null else Data(val), ToU16(|val|))
  }

  function PutOf(it: Item): Op {
    Put(CString(it.key), LoadedEntry(it.val))
  }

  function PutsOf(items: seq<Item>): (ops: seq<Op>)
    ensures |ops| == |items|
  {
    seq(|items|, i requires 0 <= i < |items| => PutOf(items[i]))
  }

  /** The table after db_load has inserted all items into a fresh one. */
  ghost function LoadInto(cap: nat, items: seq<Item>): State
    requires cap > 0
  {
    CallRun(Hash.Fnv1a, Create(cap), PutsOf(items))
  }

  /** An entry after a save and a load. */
  function Reload(e: Entry): Entry {
    LoadedEntry(Saved(e))
  }

  function ReloadAll(m: Map): Map {
    map k | k in m :: Reload(m[k])
  }

  /** An entry as the server stores it: the length is that of the value, cut to 16 bits. */
  predicate Stored16(e: Entry) {
    match e.value
    case Null => e.valLen == 0
    case Data(d) => e.valLen == ToU16(|d|)
  }

  /** A stored entry survives exactly when its value is NULL, or not empty and short enough. */
  lemma {:induction false} ReloadExactly(e: Entry)
    requires Stored16(e)
    ensures Reload(e) == e <==> e.value == Null || 0 < |e.value.data| < U16
  {
  }

  /** What callers put into a table: storable C strings as keys, lengths cut to 16 bits. */
  ghost predicate CEntries(t: Slots) {
    forall i | 0 <= i < |t| && Live(t[i]) ::
      NUL !in t[i].key && Storable(Hash.Fnv1a, t[i].key) && Stored16(t[i].entry)
  }

  lemma {:induction false} ItemsApply(t: Slots, n: nat)
    requires n <= |t| && CEntries(t)
    ensures ApplyAll(map[], PutsOf(ItemsUpTo(t, n))) == ReloadAll(ContentsUpTo(t, n))
    decreases n
  {
    hide ApplyAll, PutOf, Reload, ReloadAll, ItemOf, CString, Hash.Fnv1a;
    ItemsSnoc(t, n);
    if n == 0 {
      NoneApplied();
    } else {
      ItemsApply(t, n - 1);
      if Live(t[n - 1]) {
        var items, it := ItemsUpTo(t, n - 1), ItemOf(t[n - 1]);
        hide ItemsUpTo, PutsOf;
        PutOfSlot(t[n - 1]);
        ApplyAllSnoc(map[], PutsOf(items), PutOf(it));
        ReloadSet(ContentsUpTo(t, n - 1), t[n - 1].key, t[n - 1].entry);
      }
    }
  }

  lemma {:induction false} NoneApplied()
    ensures ApplyAll(map[], PutsOf([])) == ReloadAll(map[])
  {
    assert PutsOf([]) == [];
  }

  lemma {:induction false} ItemsSnoc(t: Slots, n: nat)
    requires n <= |t|
    ensures n > 0 ==>
              PutsOf(ItemsUpTo(t, n)) ==
              if Live(t[n - 1]) then PutsOf(ItemsUpTo(t, n - 1)) + [PutOf(ItemOf(t[n - 1]))]
              else PutsOf(ItemsUpTo(t, n - 1))
    ensures n == 0 ==> ItemsUpTo(t, n) == []
  {
    hide PutOf, ItemOf;
    if n > 0 && !Live(t[n - 1]) { assert ItemsUpTo(t, n) == ItemsUpTo(t, n - 1); }
  }

  /** What is saved of a slot and put back. */
  lemma {:induction false} PutOfSlot(n: Node)
    requires NUL !in n.key
    ensures PutOf(ItemOf(n)) == Put(n.key, Reload(n.entry))
  {
    CStringNoNul(n.key);
  }

  lemma {:induction false} ReloadSet(m: Map, k: bytes, e: Entry)
    ensures ReloadAll(m[k := e]) == ReloadAll(m)[k := Reload(e)]
  {
  }

  lemma {:induction false} ItemsFromSlots(t: Slots, n: nat, i: nat)
    requires n <= |t| && i < |ItemsUpTo(t, n)|
    ensures exists j :: 0 <= j < n && Live(t[j]) && ItemsUpTo(t, n)[i] == ItemOf(t[j])
    decreases n
  {
    if i < |ItemsUpTo(t, n - 1)| {
      ItemsFromSlots(t, n - 1, i);
      var j :| 0 <= j < n - 1 && Live(t[j]) && ItemsUpTo(t, n - 1)[i] == ItemOf(t[j]);
    }
  }

  /**
   * Saving a table and inserting what was saved into a fresh one of any capacity: every
   * insertion ends, and the table has the same keys with their reloaded entries, and
   * counts them, exactly when no segment of it gets more keys than it has slots; slot
   * order and capacity do not show otherwise. It answers the keys that it does not have
   * too, when no segment of 2^16 slots or more is filled. The entries are the same
   * exactly when none of them is changed by reloading.
   */
  lemma {:induction false} SnapshotRoundTrip(t: Slots, cap: nat)
    requires LiveUnique(t) && CEntries(t) && 0 < cap < U64
    ensures var items, m := ItemsUpTo(t, |t|), ReloadAll(Contents(t));
            && (EndRun(Hash.Fnv1a, Create(cap), PutsOf(items)) && Serves(Hash.Fnv1a, LoadInto(cap, items), m) <==>
                Capacity.Spread(Hash.Fnv1a, Contents(t).Keys, cap))
            && (Capacity.Roomy(Hash.Fnv1a, Contents(t).Keys, cap) ==> LoadServes(cap, items, m))
    ensures ReloadAll(Contents(t)) == Contents(t) <==>
            forall k | k in Contents(t) :: Reload(Contents(t)[k]) == Contents(t)[k]
  {
    hide Hash.Fnv1a, CallRun, EndRun, ProbeEnds, GetCall, KeysOf, PutsOf, Storable, Reload, Serves;
    hide Capacity.Spread, Capacity.Roomy;
    var items := ItemsUpTo(t, |t|);
    var ops := PutsOf(items);
    ItemsApply(t, |t|);
    ItemPuts(t);
    LoadKeys(t);
    Capacity.SpreadExactly(Hash.Fnv1a, cap, ops);
    if Capacity.Roomy(Hash.Fnv1a, Contents(t).Keys, cap) {
      Capacity.RoomyIsMap(Hash.Fnv1a, cap, ops);
      ServesCount(Hash.Fnv1a, LoadInto(cap, items), ReloadAll(Contents(t)));
    }
    ReloadSame(Contents(t));
  }

  lemma {:induction false} LoadKeys(t: Slots)
    requires LiveUnique(t) && CEntries(t)
    ensures KeysOf(PutsOf(ItemsUpTo(t, |t|))) == Contents(t).Keys
  {
    hide Hash.Fnv1a, KeysOf, PutsOf, Storable, Reload;
    ItemsApply(t, |t|);
    ItemPuts(t);
    var none: Map := map[];
    KeysApplied(none, PutsOf(ItemsUpTo(t, |t|)));
    assert none.Keys + KeysOf(PutsOf(ItemsUpTo(t, |t|))) == KeysOf(PutsOf(ItemsUpTo(t, |t|)));
    assert ReloadAll(Contents(t)).Keys == Contents(t).Keys;
  }

  /** Every load call ends, and then every answer, and `count`, are those of m. */
  ghost predicate LoadServes(cap: nat, items: seq<Item>, m: Map)
    requires cap > 0
  {
    var s := LoadInto(cap, items);
    && EndRun(Hash.Fnv1a, Create(cap), PutsOf(items)) && s.count == |m|
    && forall key :: ProbeEnds(Hash.Fnv1a, s.t, key) && GetCall(Hash.Fnv1a, s.t, key) == Lookup(m, key)
  }

  lemma {:induction false} ItemPuts(t: Slots)
    requires LiveUnique(t) && CEntries(t)
    ensures var ops := PutsOf(ItemsUpTo(t, |t|));
            forall i | 0 <= i < |ops| ::
              ops[i].Put? && Storable(Hash.Fnv1a, ops[i].key) && ops[i].key in Contents(t).Keys
  {
    hide Hash.Fnv1a, Storable;
    var items := ItemsUpTo(t, |t|);
    var ops := PutsOf(items);
    forall i | 0 <= i < |ops|
      ensures ops[i].Put? && Storable(Hash.Fnv1a, ops[i].key) && ops[i].key in Contents(t).Keys
    {
      ItemsFromSlots(t, |t|, i);
      var j :| 0 <= j < |t| && Live(t[j]) && items[i] == ItemOf(t[j]);
      CStringNoNul(t[j].key);
      ContentsBinds(t, |t|, j);
    }
  }

  lemma {:induction false} ReloadSame(m: Map)
    ensures ReloadAll(m) == m <==> forall k | k in m :: Reload(m[k]) == m[k]
  {
    if ReloadAll(m) == m {
      forall k | k in m ensures Reload(m[k]) == m[k] { assert ReloadAll(m)[k] == m[k]; }
    }
  }

  /** db_load takes the file, all its insertions end, and the table is seen as m. */
  ghost predicate LoadsAs(file: bytes, m: Map) {
    match ParseFile(file)
    case None => false
    case Some(l) =>
      var cap := Capacity.LoadCapacity(|l.items|);
      EndRun(Hash.Fnv1a, Create(cap), PutsOf(l.items)) && Serves(Hash.Fnv1a, LoadInto(cap, l.items), m)
  }

  /**
   * The whole way at the capacity that db_load asks for, with the six-byte magic and with
   * any count c in the header: with more than there are records the file is refused; with
   * fewer it is read up to there, and the length of the next key is taken for the
   * checksum. The table has the same keys with their reloaded entries exactly when c is
   * the number of keys and no segment gets more of them than it has slots; so it is,
   * whatever the hash function, for at most 512 keys or a power of two.
   */
  lemma {:induction false} SaveThenLoad(t: Slots, c: nat, time: nat)
    requires LiveUnique(t) && CEntries(t) && time < U64 && c < U64 && 2 * |Contents(t)| < U64
    ensures var items, n, m := ItemsUpTo(t, |t|), |Contents(t)|, ReloadAll(Contents(t));
            var file := FileOf(6, time, c, items, SumItems(items));
            && |items| == n
            && ParseFile(file) == (if c > n then None else if c == n then Some(Loaded(items, SumItems(items)))
                                   else Some(Loaded(items[..c], |items[c].key|)))
            && (LoadsAs(file, m) <==>
                c == n && Capacity.Spread(Hash.Fnv1a, Contents(t).Keys, Capacity.LoadCapacity(n)))
            && (c == n && (n <= 512 || IsPow2(n)) ==> LoadServes(Capacity.LoadCapacity(n), items, m))
  {
    hide LiveUnique, CEntries, LoadServes, ParseFile, FileOf, SumItems, Contents, Capacity.Spread;
    hide EndRun, Serves, Reload;
    var items, n := ItemsUpTo(t, |t|), |Contents(t)|;
    ItemCount(t);
    ItemsSmall(t);
    hide ItemsUpTo;
    if c > n {
      MoreRead(time, c, items, SumItems(items));
    } else if c < n {
      FewerRead(time, c, items, SumItems(items));
      var cap := Capacity.LoadCapacity(c);
      PutsCount(Hash.Fnv1a, Create(cap), PutsOf(items[..c]));
      assert ReloadAll(Contents(t)).Keys == Contents(t).Keys;
      FewerServes(LoadInto(cap, items[..c]), ReloadAll(Contents(t)));
    } else {
      FormatRoundTrip(time, items, SumItems(items));
      SavedWhole(t);
    }
  }

  lemma {:induction false} SavedWhole(t: Slots)
    requires LiveUnique(t) && CEntries(t) && 2 * |Contents(t)| < U64
    ensures var items, n, m := ItemsUpTo(t, |t|), |Contents(t)|, ReloadAll(Contents(t));
            var cap := Capacity.LoadCapacity(n);
            && (EndRun(Hash.Fnv1a, Create(cap), PutsOf(items)) && Serves(Hash.Fnv1a, LoadInto(cap, items), m) <==>
                Capacity.Spread(Hash.Fnv1a, Contents(t).Keys, cap))
            && (n <= 512 || IsPow2(n) ==> LoadServes(cap, items, m))
  {
    hide LiveUnique, CEntries, LoadServes, Contents, Capacity.ServesAll;
    hide Capacity.Spread, Capacity.Roomy, EndRun, CallRun, Serves;
    var n := |Contents(t)|;
    Capacity.LoadServesExactly(n);
    Capacity.ServesExactly(Capacity.LoadCapacity(n), n);
    if n <= 512 || IsPow2(n) {
      Capacity.FewIsRoomy(Hash.Fnv1a, Capacity.LoadCapacity(n), Contents(t).Keys, n);
    }
    SnapshotRoundTrip(t, Capacity.LoadCapacity(n));
  }

  /** A put counts at most one key. */
  lemma {:induction false} PutsCount(H: Hasher, s: State, ops: seq<Op>)
    requires |s.t| > 0 && forall i | 0 <= i < |ops| :: ops[i].Put?
    ensures CallRun(H, s, ops).count <= s.count + |ops|
    decreases |ops|
  {
    hide PutEnds, PutCall;
    if ops != [] { PutsCount(H, Call(H, s, ops[0]), ops[1..]); }
  }

  lemma {:induction false} FewerServes(s: State, m: Map)
    requires |s.t| > 0 && s.count < |m|
    ensures !Serves(Hash.Fnv1a, s, m)
  {
  }

  /**
   * Whatever is in the table, doubled keys too: a file with c in its header, and c records
   * or more, loads as its first c records, the last one about a key deciding, exactly
   * when no segment gets more of their keys than it has slots.
   */
  lemma {:induction false} LoadsFirst(t: Slots, c: nat, time: nat)
    requires CEntries(t) && time < U64 && c <= |ItemsUpTo(t, |t|)| && 2 * |ItemsUpTo(t, |t|)| < U64
    ensures var items := ItemsUpTo(t, |t|);
            var ops := PutsOf(items[..c]);
            LoadsAs(FileOf(6, time, c, items, SumItems(items)), ApplyAll(map[], ops)) <==>
            Capacity.Spread(Hash.Fnv1a, KeysOf(ops), Capacity.LoadCapacity(c))
  {
    hide CEntries, ParseFile, FileOf, SumItems, Capacity.Spread, EndRun, Serves, KeysOf, ApplyAll, CallRun, Storable;
    var items := ItemsUpTo(t, |t|);
    ItemsSmall(t);
    StorablePuts(t);
    hide ItemsUpTo;
    if c < |items| {
      FewerRead(time, c, items, SumItems(items));
    } else {
      FormatRoundTrip(time, items, SumItems(items));
      assert items[..c] == items;
    }
    Capacity.SpreadExactly(Hash.Fnv1a, Capacity.LoadCapacity(c), PutsOf(items[..c]));
  }

  lemma {:induction false} StorablePuts(t: Slots)
    requires CEntries(t)
    ensures var items := ItemsUpTo(t, |t|);
            forall i | 0 <= i < |items| :: PutOf(items[i]).Put? && Storable(Hash.Fnv1a, PutOf(items[i]).key)
  {
    hide Hash.Fnv1a, Storable;
    var items := ItemsUpTo(t, |t|);
    forall i | 0 <= i < |items| ensures PutOf(items[i]).Put? && Storable(Hash.Fnv1a, PutOf(items[i]).key) {
      ItemsFromSlots(t, |t|, i);
      var j :| 0 <= j < |t| && Live(t[j]) && items[i] == ItemOf(t[j]);
      CStringNoNul(t[j].key);
    }
  }

  // ---- the count that db_save writes ----

  /** What the server puts: a C string that is storable, with a length cut to 16 bits. */
  predicate CPut(op: Op) {
    op.Put? ==> NUL !in op.key && Storable(Hash.Fnv1a, op.key) && Stored16(op.entry)
  }

  ghost predicate CNode(n: Node) {
    Live(n) ==> NUL !in n.key && Storable(Hash.Fnv1a, n.key) && Stored16(n.entry)
  }

  lemma {:induction false} PutCEntries(t: Slots, key: bytes, e: Entry, cur: Node, i: nat, n: nat)
    requires CEntries(t) && i < |t| && CNode(cur) && Stored16(e)
    ensures var r := PutLoop(Hash.Fnv1a, t, key, e, cur, i, n); r.Some? ==> CEntries(r.value.0)
    decreases n
  {
    hide Matches, Hash.Fnv1a, Idx, Storable, Stored16;
    if n != 0 {
      if Occupied(t[i]) {
        PutCEntries(t[i := cur], key, e, t[i].(dib := Inc16(t[i].dib)), Idx(i + 1, |t|), n - 1);
      }
      PutCEntries(t, key, e, cur.(dib := Inc16(cur.dib)), Idx(i + 1, |t|), n - 1);
    }
  }

  lemma {:induction false} CallCEntries(s: State, op: Op)
    requires |s.t| > 0 && CEntries(s.t) && CPut(op)
    ensures CEntries(Call(Hash.Fnv1a, s, op).t)
  {
    hide PutLoop, ProbeLoop, Hash.Fnv1a, Idx, ToU16, Storable, Stored16;
    if op.Put? && Ends(Hash.Fnv1a, s.t, op) {
      var n: nat :| PutIn(Hash.Fnv1a, s.t, op.key, op.entry, n).Some?;
      PutCallIs(Hash.Fnv1a, s.t, op.key, op.entry, n);
      PutCEntries(s.t, op.key, op.entry, NewNode(Hash.Fnv1a, op.key, op.entry), Idx(Hash.Fnv1a(op.key), |s.t|), n);
    }
  }

  lemma {:induction false} RunCEntries(s: State, ops: seq<Op>)
    requires |s.t| > 0 && CEntries(s.t) && forall i | 0 <= i < |ops| :: CPut(ops[i])
    ensures CEntries(CallRun(Hash.Fnv1a, s, ops).t)
    decreases |ops|
  {
    hide Call, CEntries, CPut;
    if ops != [] {
      CallCEntries(s, ops[0]);
      RunCEntries(Call(Hash.Fnv1a, s, ops[0]), ops[1..]);
    }
  }

  lemma {:induction false} CreateCounts(cap: nat)
    ensures CEntries(Create(cap).t) && LiveUpTo(Create(cap).t, cap) == 0
  {
    NoneLive(Create(cap).t, cap);
  }

  lemma {:induction false} NoneLive(t: Slots, n: nat)
    requires n <= |t| && forall i | 0 <= i < |t| :: !Live(t[i])
    ensures LiveUpTo(t, n) == 0
  {
    if n > 0 { NoneLive(t, n - 1); }
  }

  lemma {:induction false} HashNotZero(op: Op)
    requires CPut(op) && op.Put?
    ensures Hash.Fnv1a(op.key) != 0
  {
  }

  /**
   * What db_save leaves of the table after a run from a new one, with its own `count` in
   * the header and the six-byte magic: as long as no key is stored twice, all keys come
   * back exactly when no delete of the run found a tombstone and no segment of the new
   * table gets more keys than it has slots.
   */
  lemma {:induction false} RunSavedExactly(cap: nat, ops: seq<Op>, time: nat)
    requires 0 < cap < U64 && |ops| < U64 && time < U64 && forall i | 0 <= i < |ops| :: CPut(ops[i])
    requires var t := CallRun(Hash.Fnv1a, Create(cap), ops).t; LiveUnique(t) && 2 * |Contents(t)| < U64
    ensures var s := CallRun(Hash.Fnv1a, Create(cap), ops);
            var items := ItemsUpTo(s.t, |s.t|);
            LoadsAs(FileOf(6, time, s.count, items, SumItems(items)), ReloadAll(Contents(s.t))) <==>
            NoTombDeleted(Hash.Fnv1a, Create(cap), ops) &&
            Capacity.Spread(Hash.Fnv1a, Contents(s.t).Keys, Capacity.LoadCapacity(|Contents(s.t)|))
  {
    hide Hash.Fnv1a, CallRun, NoTombDeleted, LoadsAs, FileOf, SumItems, Contents, Capacity.Spread, CEntries, LiveUnique;
    hide ParseFile, LoadServes, CPut, LiveUpTo, ItemsUpTo;
    CreateCounts(cap);
    RunCEntries(Create(cap), ops);
    forall i | 0 <= i < |ops| && ops[i].Put? ensures Hash.Fnv1a(ops[i].key) != 0 { HashNotZero(ops[i]); }
    assert |Create(cap).t| == cap;
    CountEndExactly(Hash.Fnv1a, Create(cap), ops);
    var s := CallRun(Hash.Fnv1a, Create(cap), ops);
    SaveThenLoad(s.t, s.count, time);
  }

  /**
   * A key deleted twice costs the next snapshot another one: from any table that agrees
   * with a map of two keys or more, the second delete leaves every other key stored and
   * answered, and the file that db_save would write brings back all of them but one.
   */
  lemma {:induction false} DeletedTwiceLoadsFewer(s: State, m: Map, key: bytes, time: nat)
    requires Agrees(Hash.Fnv1a, s, m) && key in m && |m| >= 2 && CEntries(s.t) && time < U64 && 2 * |m| < U64
    ensures var s2 := Call(Hash.Fnv1a, Call(Hash.Fnv1a, s, Op.Del(key)), Op.Del(key));
            var items := ItemsUpTo(s2.t, |s2.t|);
            var file := FileOf(6, time, s2.count, items, SumItems(items));
            && Contents(s2.t) == m - {key} && |items| == |m| - 1 && s2.count == |m| - 2
            && ParseFile(file) == Some(Loaded(items[..|m| - 2], |items[|m| - 2].key|))
            && !LoadsAs(file, ReloadAll(m - {key}))
  {
    hide *;
    TwiceDeleted(s, m, key);
    var s2 := Call(Hash.Fnv1a, Call(Hash.Fnv1a, s, Op.Del(key)), Op.Del(key));
    SaveThenLoad(s2.t, s2.count, time);
  }

  /** The table after the second delete. */
  lemma {:induction false} TwiceDeleted(s: State, m: Map, key: bytes)
    requires Agrees(Hash.Fnv1a, s, m) && key in m && |m| >= 2 && CEntries(s.t) && 2 * |m| < U64
    ensures |s.t| > 0
    ensures var s2 := Call(Hash.Fnv1a, Call(Hash.Fnv1a, s, Op.Del(key)), Op.Del(key));
            && Contents(s2.t) == m - {key} && |m - {key}| == |m| - 1 && s2.count == |m| - 2 < U64
            && LiveUnique(s2.t) && CEntries(s2.t) && 2 * |m - {key}| < U64
  {
    hide Hash.Fnv1a, Call, Contents, CEntries, ProbeEnds, ProbeCall, LiveUnique, Agrees;
    AgreesFacts(Hash.Fnv1a, s, m);
    Tombstones.RepeatedDeleteMiscounts(Hash.Fnv1a, s, m, key);
    var s1 := Call(Hash.Fnv1a, s, Op.Del(key));
    DelCEntries(s, key);
    DelCEntries(s1, key);
    assert |m - {key}| == |m| - 1 by { assert (m - {key}).Keys == m.Keys - {key}; }
    StillUnique(s1, m - {key}, key);
  }

  /** PUT a, PUT b, DELETE a, DELETE a: b is stored, and the file brings back nothing. */
  lemma {:induction false} LoadsNothing(cap: nat, a: Op, b: Op, time: nat)
    requires IsPow2(cap) && 2 <= cap < U64 && time < U64
    requires a.Put? && b.Put? && CPut(a) && CPut(b) && a.key != b.key
    ensures var s := CallRun(Hash.Fnv1a, Create(cap), [a, b] + [Op.Del(a.key), Op.Del(a.key)]);
            var items := ItemsUpTo(s.t, |s.t|);
            && Contents(s.t) == map[b.key := b.entry] && s.count == 0
            && items == [Item(b.key, Saved(b.entry))]
            && ParseFile(FileOf(6, time, s.count, items, SumItems(items))) == Some(Loaded([], |b.key|))
  {
    hide *;
    TwoPuts(cap, a, b);
    var m: Map := map[a.key := a.entry, b.key := b.entry];
    TwiceDeleted(CallRun(Hash.Fnv1a, Create(cap), [a, b]), m, a.key);
    TwoLeft(a, b);
    TwoDeletes(Create(cap), [a, b], a.key);
    var s := CallRun(Hash.Fnv1a, Create(cap), [a, b] + [Op.Del(a.key), Op.Del(a.key)]);
    NothingRead(s.t, b.key, b.entry, time);
  }

  lemma {:induction false} TwoLeft(a: Op, b: Op)
    requires a.Put? && b.Put? && a.key != b.key
    ensures map[a.key := a.entry, b.key := b.entry] - {a.key} == map[b.key := b.entry]
  {
  }

  lemma {:induction false} NothingRead(t: Slots, key: bytes, e: Entry, time: nat)
    requires LiveUnique(t) && CEntries(t) && Contents(t) == map[key := e] && time < U64
    ensures var items := ItemsUpTo(t, |t|);
            && items == [Item(key, Saved(e))]
            && ParseFile(FileOf(6, time, 0, items, SumItems(items))) == Some(Loaded([], |key|))
  {
    hide LiveUnique, CEntries, Contents, ItemsUpTo, ParseFile, FileOf, SumItems, Saved, Small;
    OnlyItem(t, key, e);
    ItemsSmall(t);
    var items := ItemsUpTo(t, |t|);
    FewerRead(time, 0, items, SumItems(items));
    assert items[..0] == [];
  }

  lemma {:induction false} OnlyItem(t: Slots, key: bytes, e: Entry)
    requires LiveUnique(t) && Contents(t) == map[key := e]
    ensures ItemsUpTo(t, |t|) == [Item(key, Saved(e))]
  {
    hide LiveUnique, Contents;
    ItemCount(t);
    InContents(t, Item(key, Saved(e)));
    var items := ItemsUpTo(t, |t|);
    assert |map[key := e].Keys| == 1 by { assert map[key := e].Keys == {key}; }
    assert Item(key, Saved(e)) in items;
  }

  lemma {:induction false} InContents(t: Slots, x: Item)
    requires LiveUnique(t)
    ensures x in ItemsUpTo(t, |t|) <==> x.key in Contents(t) && x == Item(x.key, Saved(Contents(t)[x.key]))
  {
    hide LiveUnique, ItemsUpTo, ContentsUpTo;
    ItemsAre(t, |t|, x);
  }

  lemma {:induction false} TwoDeletes(s: State, ops: seq<Op>, key: bytes)
    requires |s.t| > 0
    ensures CallRun(Hash.Fnv1a, s, ops + [Op.Del(key), Op.Del(key)]) ==
            Call(Hash.Fnv1a, Call(Hash.Fnv1a, CallRun(Hash.Fnv1a, s, ops), Op.Del(key)), Op.Del(key))
  {
    hide *;
    CallRunSnoc(Hash.Fnv1a, s, ops, Op.Del(key));
    CallRunSnoc(Hash.Fnv1a, s, ops + [Op.Del(key)], Op.Del(key));
    assert ops + [Op.Del(key), Op.Del(key)] == (ops + [Op.Del(key)]) + [Op.Del(key)];
  }

  lemma {:induction false} TwoPuts(cap: nat, a: Op, b: Op)
    requires IsPow2(cap) && 2 <= cap < U64
    requires a.Put? && b.Put? && CPut(a) && CPut(b) && a.key != b.key
    ensures |Create(cap).t| == cap
    ensures var s, m := CallRun(Hash.Fnv1a, Create(cap), [a, b]), map[a.key := a.entry, b.key := b.entry];
            Agrees(Hash.Fnv1a, s, m) && CEntries(s.t) && |m| == 2 && 2 * |m| < U64
  {
    hide Hash.Fnv1a, CEntries, Agrees, CallRun, NoTombs, AllowedRun, EndRun, Storable, Contents, WellFormed, Endless;
    var ops, keys, m := [a, b], {a.key, b.key}, map[a.key := a.entry, b.key := b.entry];
    CreateAgrees(Hash.Fnv1a, cap);
    CreateCounts(cap);
    PutRunAllowed(Hash.Fnv1a, Create(cap), map[], ops, keys);
    RunRefines(Hash.Fnv1a, Create(cap), map[], ops);
    AppliedTwo(a, b);
    RunCEntries(Create(cap), ops);
    assert m.Keys == keys;
  }

  lemma {:induction false} AppliedTwo(a: Op, b: Op)
    requires a.Put? && b.Put? && a.key != b.key
    ensures ApplyAll(map[], [a, b]) == map[a.key := a.entry, b.key := b.entry]
  {
    assert [a, b][1..] == [b] && [b][1..] == [];
    assert ApplyAll(map[], [a, b]) == ApplyAll(map[a.key := a.entry], [b]);
    assert ApplyAll(map[a.key := a.entry], [b]) == map[a.key := a.entry][b.key := b.entry];
  }

  lemma {:induction false} DelCEntries(s: State, key: bytes)
    requires |s.t| > 0 && CEntries(s.t)
    ensures CEntries(Call(Hash.Fnv1a, s, Op.Del(key)).t)
  {
    hide Hash.Fnv1a, CEntries, Call;
    CallCEntries(s, Op.Del(key));
  }

  lemma {:induction false} StillUnique(s: State, m: Map, key: bytes)
    requires Agrees(Hash.Fnv1a, s, m)
    ensures LiveUnique(Call(Hash.Fnv1a, s, Op.Del(key)).t)
  {
    AgreesFacts(Hash.Fnv1a, s, m);
    hide Hash.Fnv1a, Call, WellFormed, Contents, Endless;
    DeleteIsRemove(Hash.Fnv1a, s, key);
    if Ends(Hash.Fnv1a, s.t, Op.Del(key)) {
      KeysUnique(Hash.Fnv1a, Call(Hash.Fnv1a, s, Op.Del(key)).t);
    } else {
      NotEnded(s, Op.Del(key));
      KeysUnique(Hash.Fnv1a, s.t);
    }
  }

  lemma {:induction false} NotEnded(s: State, op: Op)
    requires |s.t| > 0 && !Ends(Hash.Fnv1a, s.t, op)
    ensures Call(Hash.Fnv1a, s, op) == s
  {
    hide Ends;
  }

  lemma {:induction false} ItemCount(t: Slots)
    requires LiveUnique(t)
    ensures |ItemsUpTo(t, |t|)| == |Contents(t)|
  {
    ContentsCard(t, |t|);
  }

  lemma {:induction false} ItemsSmall(t: Slots)
    requires CEntries(t)
    ensures forall i | 0 <= i < |ItemsUpTo(t, |t|)| :: Small(ItemsUpTo(t, |t|)[i])
  {
    forall i | 0 <= i < |ItemsUpTo(t, |t|)| ensures Small(ItemsUpTo(t, |t|)[i]) {
      ItemsFromSlots(t, |t|, i);
      var j :| 0 <= j < |t| && Live(t[j]) && ItemsUpTo(t, |t|)[i] == ItemOf(t[j]);
    }
  }

  // ---- the checksum does not depend on the order of the slots ----

  function Cost(it: Item): nat {
    Hash.Checksum(it.key) + Hash.Checksum(it.val)
  }

  lemma {:induction false} SumFirst(items: seq<Item>)
    ensures items != [] ==> SumItems(items) == (Cost(items[0]) + SumItems(items[1..])) % U32
  {
    hide Hash.Checksum;
  }

  lemma {:induction false} SumRemove(items: seq<Item>, j: nat)
    requires j < |items|
    ensures SumItems(items) == (Cost(items[j]) + SumItems(items[..j] + items[j + 1..])) % U32
    decreases j
  {
    hide Cost, SumItems;
    var rest := items[..j] + items[j + 1..];
    SumFirst(items);
    SumFirst(rest);
    if j == 0 {
      assert rest == items[1..];
    } else {
      SumRemove(items[1..], j - 1);
      assert items[1..][..j - 1] + items[1..][j..] == rest[1..] && rest[0] == items[0];
      AddMod(Cost(items[0]), Cost(items[j]) + SumItems(rest[1..]));
      AddMod(Cost(items[j]), Cost(items[0]) + SumItems(rest[1..]));
    }
  }

  lemma {:induction false} RemoveOne<T>(a: seq<T>, j: nat)
    requires j < |a|
    ensures multiset(a[..j] + a[j + 1..]) == multiset(a) - multiset{a[j]}
  {
    assert a == a[..j] + ([a[j]] + a[j + 1..]);
  }

  lemma {:induction false} SumPermuted(a: seq<Item>, b: seq<Item>)
    requires multiset(a) == multiset(b)
    ensures SumItems(a) == SumItems(b)
    decreases |a|
  {
    hide *;
    assert |multiset(a)| == |a| && |multiset(b)| == |b|;
    if |a| == 0 {
      assert a == b;
    } else {
      assert a[0] in multiset(b);
      var j :| 0 <= j < |b| && b[j] == a[0];
      RemoveOne(a, 0);
      RemoveOne(b, j);
      SumPermuted(a[..0] + a[1..], b[..j] + b[j + 1..]);
      SumRemove(a, 0);
      SumRemove(b, j);
    }
  }

  lemma {:induction false} NoDuplicates<T>(a: seq<T>, x: T)
    requires forall i, j | 0 <= i < j < |a| :: a[i] != a[j]
    ensures multiset(a)[x] == if x in a then 1 else 0
    decreases |a|
  {
    if |a| > 0 {
      var n := |a| - 1;
      assert a == a[..n] + [a[n]];
      NoDuplicates(a[..n], x);
    }
  }

  lemma {:induction false} ItemsAre(t: Slots, n: nat, x: Item)
    requires LiveUnique(t) && n <= |t|
    ensures x in ItemsUpTo(t, n) <==> x.key in ContentsUpTo(t, n) && x == Item(x.key, Saved(ContentsUpTo(t, n)[x.key]))
    ensures forall i, j | 0 <= i < j < |ItemsUpTo(t, n)| :: ItemsUpTo(t, n)[i] != ItemsUpTo(t, n)[j]
    decreases n
  {
    if n > 0 {
      ItemsAre(t, n - 1, x);
      if Live(t[n - 1]) {
        var it, m := ItemOf(t[n - 1]), ContentsUpTo(t, n - 1);
        assert it.key !in m by {
          if it.key in m { var i := ContentsAt(t, n - 1, it.key); }
        }
        ItemsAre(t, n - 1, it);
      }
    }
  }

  /**
   * Tables with the same live entries have the same checksum, whatever their capacities
   * and the order of their slots.
   */
  lemma {:induction false} ChecksumOfContents(t: Slots, t': Slots)
    requires LiveUnique(t) && LiveUnique(t') && Contents(t) == Contents(t')
    ensures SumItems(ItemsUpTo(t, |t|)) == SumItems(ItemsUpTo(t', |t'|))
  {
    var a, b := ItemsUpTo(t, |t|), ItemsUpTo(t', |t'|);
    forall x ensures multiset(a)[x] == multiset(b)[x] {
      ItemsAre(t, |t|, x);
      ItemsAre(t', |t'|, x);
      NoDuplicates(a, x);
      NoDuplicates(b, x);
    }
    SumPermuted(a, b);
  }

  // ---- the loops of the code ----

  /** Where db_save's nested loops are; `node` is the address of a slot and never NULL. */
  datatype SaveLoop = Outer(i: nat) | Inner(i: nat) | Returned

  /** One test of a loop condition, and the body behind it: `node` is not moved on. */
  function SaveLoopStep(l: SaveLoop, cap: nat): SaveLoop {
    match l
    case Outer(i) => if i < cap then Inner(i) else Returned
    case Inner(i) => if cap == 0 then Inner(i) else Inner(BitAnd(i + 1, cap - 1))
    case Returned => Returned
  }

  function SaveLoopAfter(n: nat, cap: nat): SaveLoop {
    if n == 0 then Outer(0) else SaveLoopStep(SaveLoopAfter(n - 1, cap), cap)
  }

  /** The loops of db_save, and those of aof_rewrite, come to an end exactly for capacity 0. */
  lemma {:induction false} SaveReturnsExactly(cap: nat)
    ensures (exists n :: SaveLoopAfter(n, cap) == Returned) <==> cap == 0
  {
    if cap == 0 {
      assert SaveLoopAfter(1, cap) == SaveLoopStep(SaveLoopAfter(0, cap), cap);
      assert SaveLoopAfter(1, cap) == Returned;
    } else {
      forall n: nat ensures SaveLoopAfter(n, cap) != Returned { SaveStaysInside(n, cap); }
    }
  }

  lemma {:induction false} SaveStaysInside(n: nat, cap: nat)
    requires cap > 0
    ensures if n == 0 then SaveLoopAfter(n, cap) == Outer(0) else SaveLoopAfter(n, cap).Inner?
  {
    if n > 0 { SaveStaysInside(n - 1, cap); }
  }

  lemma {:induction false} EncodeItemsSnoc(items: seq<Item>, it: Item)
    ensures EncodeItems(items + [it]) == EncodeItems(items) + EncodeItem(it)
    ensures SumItems(items + [it]) == (SumItems(items) + Hash.Checksum(it.key) + Hash.Checksum(it.val)) % U32
    decreases |items|
  {
    hide EncodeItem, Hash.Checksum;
    if |items| == 0 {
      assert items + [it] == [it] && [it][1..] == [];
      assert EncodeItem(it) + [] == EncodeItem(it) == [] + EncodeItem(it);
    } else {
      assert (items + [it])[1..] == items[1..] + [it];
      EncodeItemsSnoc(items[1..], it);
      Assoc(EncodeItem(items[0]), EncodeItems(items[1..]), EncodeItem(it));
      var a := Hash.Checksum(items[0].key) + Hash.Checksum(items[0].val);
      var b := Hash.Checksum(it.key) + Hash.Checksum(it.val);
      AddMod(a, SumItems(items[1..]) + b);
      AddMod(b, a + SumItems(items[1..]));
    }
  }

  lemma {:induction false} AddMod(a: nat, b: nat)
    ensures (a + b % U32) % U32 == (a + b) % U32
  {
    var q, r := (a + b % U32) / U32, (a + b % U32) % U32;
    ModUnique(a + b, U32, q + b / U32, r);
  }

  /** The record loops of db_save, moved on to one record for every live slot. */
  method SaveRecords(hm: HashMap) returns (body: bytes, sum: nat)
    ensures var items := ItemsUpTo(hm.buckets[..], hm.buckets.Length);
            body == EncodeItems(items) && sum == SumItems(items)
  {
    hide EncodeItem, EncodeItems, SumItems, ItemOf, Hash.Checksum;
    ghost var t := hm.buckets[..];
    body, sum := [], 0;
    SaveNone();
    var i := 0;
    while i < hm.buckets.Length
      invariant 0 <= i <= hm.buckets.Length
      invariant body == EncodeItems(ItemsUpTo(t, i)) && sum == SumItems(ItemsUpTo(t, i))
    {
      var node := hm.buckets[i];
      assert node == t[i];
      assert ItemsUpTo(t, i + 1) == ItemsUpTo(t, i) + (if Live(node) then [ItemOf(node)] else []);
      if node.hash != 0 && !node.tomb {
        var it := ItemOf(node);
        EncodeItemsSnoc(ItemsUpTo(t, i), it);
        var k := Hash.ComputeChecksum(it.key);
        var v := Hash.ComputeChecksum(it.val);
        body := body + EncodeItem(it);
        sum := (sum + k + v) % U32;
      } else {
        assert ItemsUpTo(t, i + 1) == ItemsUpTo(t, i);
      }
      i := i + 1;
    }
  }

  lemma {:induction false} SaveNone()
    ensures EncodeItems([]) == [] && SumItems([]) == 0
  {
  }

  /** db_save; the magic takes `magicLen` bytes, 7 in the code and 6 for what db_load reads. */
  method DbSave(hm: HashMap, time: nat, magicLen: nat) returns (file: bytes)
    requires magicLen <= 7
    ensures var items := ItemsUpTo(hm.buckets[..], hm.buckets.Length);
            file == FileOf(magicLen, time, hm.count, items, SumItems(items))
  {
    hide EncodeItems, SumItems, ItemsUpTo, Le;
    var body, sum := SaveRecords(hm);
    file := MAGIC[..magicLen] + (Le(VERSION, 4) + (Le(time, 8) + (Le(hm.count, 8) + (body + Le(sum, 4)))));
  }

  /**
   * db_load behind the header: the table, and whether the checksum came out as stored. A
   * mismatch is only reported. Every insertion has to come to an end.
   */
  method DbLoad(loaded: Loaded) returns (hm: HashMap, matches: bool)
    requires var cap := Capacity.LoadCapacity(|loaded.items|);
             cap < U64 && EndRun(Hash.Fnv1a, Create(cap), PutsOf(loaded.items))
    ensures fresh(hm) && fresh(hm.buckets)
    ensures hm.Abs() == LoadInto(Capacity.LoadCapacity(|loaded.items|), loaded.items)
    ensures matches <==> SumItems(loaded.items) == loaded.stored
  {
    hide Hash.Fnv1a, Hash.Checksum, CallRun, EndRun, Call, Ends, PutOf, EncodeItem, EncodeItems, SumItems;
    var cap := Capacity.LoadCapacity(|loaded.items|);
    hm := new HashMap(cap);
    var sum, i := 0, 0;
    ghost var ops, goal := PutsOf(loaded.items), LoadInto(cap, loaded.items);
    assert loaded.items[..0] == [] && ops[0..] == ops;
    SaveNone();
    while i < |loaded.items|
      invariant 0 <= i <= |loaded.items| && fresh(hm) && fresh(hm.buckets) && hm.Valid()
      invariant EndRun(Hash.Fnv1a, hm.Abs(), ops[i..]) && CallRun(Hash.Fnv1a, hm.Abs(), ops[i..]) == goal
      invariant sum == SumItems(loaded.items[..i])
    {
      var it := loaded.items[i];
      var k := Hash.ComputeChecksum(it.key);
      var v := Hash.ComputeChecksum(it.val);
      assert loaded.items[..i + 1] == loaded.items[..i] + [it];
      EncodeItemsSnoc(loaded.items[..i], it);
      sum := (sum + k + v) % U32;
      assert ops[i..][0] == PutOf(it) && ops[i..][1..] == ops[i + 1..];
      CallRunNext(hm.Abs(), ops[i..]);
      LoadItem(hm, it);
      i := i + 1;
    }
    assert loaded.items[..i] == loaded.items && ops[i..] == [];
    CallRunNext(hm.Abs(), ops[i..]);
    matches := sum == loaded.stored;
  }

  lemma {:induction false} CallRunNext(s: State, ops: seq<Op>)
    requires |s.t| > 0
    ensures ops == [] ==> CallRun(Hash.Fnv1a, s, ops) == s
    ensures ops != [] ==> CallRun(Hash.Fnv1a, s, ops) == CallRun(Hash.Fnv1a, Call(Hash.Fnv1a, s, ops[0]), ops[1..])
    ensures ops != [] && EndRun(Hash.Fnv1a, s, ops) ==>
              Ends(Hash.Fnv1a, s.t, ops[0]) && EndRun(Hash.Fnv1a, Call(Hash.Fnv1a, s, ops[0]), ops[1..])
  {
  }

  /** hm_insert of one item. */
  method LoadItem(hm: HashMap, it: Item)
    requires hm.Valid() && Ends(Hash.Fnv1a, hm.buckets[..], PutOf(it))
    modifies hm, hm.buckets
    ensures hm.Abs() == Call(Hash.Fnv1a, old(hm.Abs()), PutOf(it))
  {
    hide Hash.Fnv1a, CString, Call, PutEnds;
    var _ := hm.Insert(CString(it.key), if |it.val| == 0 then Null else Data(it.val), |it.val|);
  }
}
