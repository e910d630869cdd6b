/**
 * The text log of src/core/storage/aof.c: the records that aof_append_set and
 * aof_append_del write, and what aof_replay makes of the lines it reads back.
 */
module LogCodec {
  import opened Bytes
  import opened Bits

  datatype LogOp = Set(key: bytes, value: bytes) | Del(key: bytes)

  const SET: bytes := [83, 69, 84]
  const DEL: bytes := [68, 69, 76]

  // ---- decimal numbers ----

  predicate IsDigit(b: byte) { ZERO <= b <= NINE }

  /** `%zu` of printf. */
  function Digits(n: nat): (s: bytes)
    ensures |s| > 0 && forall i | 0 <= i < |s| :: IsDigit(s[i])
  {
    if n < 10 then [(ZERO + n) as byte] else Digits(n / 10) + [(ZERO + n % 10) as byte]
  }

  function DigitsValue(s: bytes): nat
    requires forall i | 0 <= i < |s| :: IsDigit(s[i])
  {
    if |s| == 0 then 0
    else
      assert IsDigit(s[|s| - 1]);
      10 * DigitsValue(s[..|s| - 1]) + (s[|s| - 1] - ZERO)
  }

  /** Printing and parsing a number in decimal are inverse. */
  lemma {:induction false} DigitsRoundTrip(n: nat)
    ensures DigitsValue(Digits(n)) == n
  {
    var s := Digits(n);
    if n < 10 {
      assert s[..0] == [];
    } else {
      DigitsRoundTrip(n / 10);
      assert s[..|s| - 1] == Digits(n / 10);
    }
  }

  // ---- writing ----

  /** aof_append_set: `SET key_len key val_len value` and a newline; the key ends at its first NUL. */
  function SetHead(key: bytes): bytes {
    SET + [SP] + Digits(|key|) + [SP]
  }

  function DelHead(key: bytes): bytes {
    DEL + [SP] + Digits(|key|) + [SP]
  }

  function ValueHead(value: bytes): bytes {
    [SP] + Digits(|value|) + [SP]
  }

  /** A record without its final newline. */
  function Body(op: LogOp): bytes {
    match op
    case Set(key, value) => SetHead(key) + key + ValueHead(value) + value
    case Del(key) => DelHead(key) + key
  }

  function Record(op: LogOp): bytes {
    Body(op) + [LF]
  }

  function Encode(ops: seq<LogOp>): bytes {
    if ops == [] then [] else Record(ops[0]) + Encode(ops[1..])
  }

  // ---- reading: the C library calls of aof_replay ----

  const LINE_SIZE := 4096

  /** fgets(line, 4096, file): at most 4095 bytes, up to and including a newline. */
  function Line(s: bytes): (r: bytes)
    requires s != []
    ensures r != [] && r <= s && |r| < LINE_SIZE
  {
    var i := IndexOf(s, LF, 0);
    var n := if i < |s| then i + 1 else |s|;
    s[..if n < LINE_SIZE then n else LINE_SIZE - 1]
  }

  predicate IsSpace(b: byte) { b == SP || TAB <= b <= CR }

  function SkipSpace(buf: bytes, p: nat): (q: nat)
    requires p <= |buf|
    ensures p <= q <= |buf|
    decreases |buf| - p
  {
    if p < |buf| && IsSpace(buf[p]) then SkipSpace(buf, p + 1) else p
  }

  function WordEnd(buf: bytes, p: nat, room: nat): (q: nat)
    requires p <= |buf|
    ensures p <= q <= |buf|
    decreases |buf| - p
  {
    if p < |buf| && room > 0 && !IsSpace(buf[p]) && buf[p] != NUL then WordEnd(buf, p + 1, room - 1) else p
  }

  /** sscanf(buf, "%15s"): the word, empty when there is none. */
  function Word(buf: bytes): bytes {
    var p := SkipSpace(buf, 0);
    buf[p..WordEnd(buf, p, 15)]
  }

  function DigitsEnd(buf: bytes, p: nat): (q: nat)
    requires p <= |buf|
    ensures p <= q <= |buf|
    ensures forall i | p <= i < q :: IsDigit(buf[i])
    decreases |buf| - p
  {
    if p < |buf| && IsDigit(buf[p]) then DigitsEnd(buf, p + 1) else p
  }

  lemma {:induction false} DigitsEndStops(buf: bytes, p: nat)
    requires p <= |buf|
    ensures var q := DigitsEnd(buf, p); q < |buf| ==> !IsDigit(buf[q])
    decreases |buf| - p
  {
    if p < |buf| && IsDigit(buf[p]) { DigitsEndStops(buf, p + 1); }
  }

  datatype Scanned = NoNumber | Number(n: nat) | ScanPast

  /** sscanf(b + p, "%zu"): spaces, a sign, digits; out of range gives the largest size. */
  function ScanSize(b: bytes, p: nat): Scanned
    requires p <= |b|
  {
    var q := SkipSpace(b, p);
    var signed := q < |b| && (b[q] == 43 || b[q] == 45);
    var d := if signed then q + 1 else q;
    var end := DigitsEnd(b, d);
    if end == |b| then ScanPast
    else if d == end then NoNumber
    else
      var v := DigitsValue(b[d..end]);
      if v >= U64 then Number(U64 - 1)
      else if signed && b[q] == 45 && v > 0 then Number(U64 - v)
      else Number(v)
  }

  datatype Pointer = NullPointer | Into(at: nat) | PointerPast

  /** strchr(b + p, ' ') */
  function FindSpace(b: bytes, p: nat): (r: Pointer)
    requires p <= |b|
    ensures r.Into? ==> p <= r.at < |b|
  {
    var i, j := IndexOf(b, SP, p), IndexOf(b, NUL, p);
    if i == |b| && j == |b| then PointerPast else if i < j then Into(i) else NullPointer
  }

  /**
   * What aof_replay does with one line: nothing, a command, a copy from or a scan at
   * address 1 or 2, behind the null pointer of strchr, or an access past the buffer.
   */
  datatype LineResult = Skip | Command(op: LogOp) | AtNull | Past

  /** The copy of n bytes behind the space: none are copied from behind a null pointer when n is 0. */
  datatype Copied = Bytes(data: bytes, next: Option<nat>) | NotCopied(why: LineResult)

  function CopyBehind(b: bytes, space: Pointer, n: nat): (r: Copied)
    ensures r.Bytes? && r.next.Some? ==> r.next.value <= |b|
  {
    match space
    case PointerPast => NotCopied(Past)
    case NullPointer => if n == 0 then Bytes([], None) else NotCopied(AtNull)
    case Into(i) => if i + 1 + n > |b| then NotCopied(Past) else Bytes(b[i + 1..i + 1 + n], Some(i + 1 + n))
  }

  /** The length and the key after the command word. */
  function ParseKey(b: bytes): (r: Copied)
    ensures r.Bytes? && r.next.Some? ==> r.next.value <= |b|
  {
    if |b| <= 4 then NotCopied(Past)
    else
      match ScanSize(b, 4)
      case NoNumber => NotCopied(Skip)
      case ScanPast => NotCopied(Past)
      case Number(n) => CopyBehind(b, FindSpace(b, 4), n)
  }

  /** The length at p and the value, with the key read. */
  function ParseValue(key: bytes, b: bytes, p: nat): LineResult {
    if p >= |b| then Past
    else
      match ScanSize(b, p)
      case NoNumber => Skip
      case ScanPast => Past
      case Number(n) =>
        match CopyBehind(b, FindSpace(b, p), n)
        case NotCopied(why) => why
        case Bytes(value, _) => Command(Set(CString(key), value))
  }

  function ParseSet(b: bytes): LineResult {
    match ParseKey(b)
    case NotCopied(why) => why
    case Bytes(_, None) => AtNull
    case Bytes(key, Some(next)) => ParseValue(key, b, next + 1)
  }

  function ParseDel(b: bytes): LineResult {
    match ParseKey(b)
    case NotCopied(why) => why
    case Bytes(key, _) => Command(Del(CString(key)))
  }

  /** The body of aof_replay's loop on what is in its buffer. */
  function ReplayLine(b: bytes): LineResult {
    var w := Word(b);
    if w == SET then ParseSet(b)
    else if w == DEL then ParseDel(b)
    else Skip
  }

  /** The buffer after fgets: the line, a NUL, and what was there before behind them. */
  function Filled(buf: bytes, line: bytes): (b: bytes)
    requires |line| < |buf|
    ensures |b| == |buf| && line + [NUL] <= b
  {
    var b := line + [NUL] + buf[|line| + 1..];
    assert b[..|line| + 1] == line + [NUL];
    b
  }

  /** The commands carried out, and whether the process then died. */
  datatype Outcome = Outcome(ops: seq<LogOp>, died: bool)

  function After(op: LogOp, rest: Outcome): Outcome {
    Outcome([op] + rest.ops, rest.died)
  }

  /** aof_replay, with whatever its buffer holds at first. */
  function Replay(buf: bytes, log: bytes): Outcome
    requires |buf| == LINE_SIZE
    decreases |log|
  {
    if log == [] then Outcome([], false)
    else
      var line := Line(log);
      var b := Filled(buf, line);
      match ReplayLine(b)
      case Skip => Replay(b, log[|line|..])
      case Command(op) => After(op, Replay(b, log[|line|..]))
      case _ => Outcome([], true)
  }

  // ---- scanning what was printed ----

  lemma {:induction false} DigitsEndAt(buf: bytes, p: nat, q: nat)
    requires p <= q < |buf| && (forall i | p <= i < q :: IsDigit(buf[i])) && !IsDigit(buf[q])
    ensures DigitsEnd(buf, p) == q
    decreases q - p
  {
    if p < q { DigitsEndAt(buf, p + 1, q); }
  }

  lemma {:induction false} IndexOfAt(s: bytes, b: byte, from: nat, i: nat)
    requires from <= i <= |s| && (forall j | from <= j < i :: s[j] != b)
    ensures IndexOf(s, b, from) >= i
    ensures i < |s| && s[i] == b ==> IndexOf(s, b, from) == i
    decreases i - from
  {
    if from < i { IndexOfAt(s, b, from + 1, i); }
  }

  /** Where a printed number and the space behind it lie in a buffer. */
  lemma {:induction false} PrintedAt(buf: bytes, p: nat, n: nat)
    requires p <= |buf| && Digits(n) + [SP] <= buf[p..]
    ensures var q := p + |Digits(n)|;
            q < |buf| && buf[p..q] == Digits(n) && buf[q] == SP && forall i | p <= i < q :: IsDigit(buf[i])
  {
    var d := Digits(n);
    var q := p + |d|;
    assert buf[p..q] == d by { assert (d + [SP])[..|d|] == d; }
    assert forall i | p <= i < q :: buf[i] == d[i - p];
    assert buf[q] == (d + [SP])[|d|] == SP;
  }

  lemma {:induction false} ScanPrinted(b: bytes, p: nat, n: nat)
    requires n < U64 && p <= |b| && Digits(n) + [SP] <= b[p..]
    ensures ScanSize(b, p) == Number(n) && FindSpace(b, p) == Into(p + |Digits(n)|)
  {
    PrintedAt(b, p, n);
    var q := p + |Digits(n)|;
    DigitsEndAt(b, p, q);
    DigitsRoundTrip(n);
    IndexOfAt(b, SP, p, q);
    IndexOfAt(b, NUL, p, q + 1);
    hide Digits, DigitsValue;
  }

  /** The first digit of a number is 0 only for 0. */
  lemma {:induction false} DigitsFirst(n: nat)
    ensures Digits(n)[0] == ZERO <==> n == 0
    ensures n == 0 ==> |Digits(n)| == 1
  {
    if n >= 10 { DigitsFirst(n / 10); }
  }

  lemma {:induction false} DigitsPositive(s: bytes)
    requires s != [] && forall i | 0 <= i < |s| :: IsDigit(s[i])
    ensures s[0] != ZERO ==> DigitsValue(s) > 0
    ensures s == [ZERO as byte] ==> DigitsValue(s) == 0
  {
    if |s| > 1 { DigitsPositive(s[..|s| - 1]); } else { assert s[..0] == []; }
  }

  /** The digits of a size cut short, with the NUL behind them: a smaller size, and no space. */
  lemma {:induction false} ScanCut(b: bytes, p: nat, q: nat, n: nat)
    requires p < q < |b| && q - p <= |Digits(n)| && b[p..q] == Digits(n)[..q - p] && b[q] == NUL
    ensures FindSpace(b, p) == NullPointer
    ensures ScanSize(b, p).Number? && (ScanSize(b, p).n == 0 <==> n == 0)
  {
    var s := b[p..q];
    assert forall i | p <= i < q :: b[i] == s[i - p] == Digits(n)[i - p];
    DigitsEndAt(b, p, q);
    IndexOfAt(b, NUL, p, q);
    IndexOfAt(b, SP, p, q + 1);
    DigitsFirst(n);
    hide Digits;
    assert forall i | 0 <= i < |s| :: IsDigit(s[i]);
    assert s[0] == Digits(n)[0];
    if n == 0 { assert s == [ZERO as byte]; }
    DigitsPositive(s);
    hide DigitsValue;
  }

  lemma {:induction false} WordOfRecord(buf: bytes, w: bytes)
    requires w == SET || w == DEL
    requires |buf| > 3 && w <= buf && (buf[3] == SP || buf[3] == NUL)
    ensures Word(buf) == w
  {
    assert buf[0] == w[0] && buf[1] == w[1] && buf[2] == w[2];
    assert WordEnd(buf, 3, 12) == 3;
    assert WordEnd(buf, 2, 13) == 3;
    assert WordEnd(buf, 1, 14) == 3;
    assert WordEnd(buf, 0, 15) == 3;
    assert buf[0..3] == w;
  }

  // ---- one record, possibly cut short ----

  // The sizes of the parts of a set record: up to the key, the value field, the value.

  function KeyStart(key: bytes): nat { 5 + |Digits(|key|)| }

  function SizeStart(key: bytes): nat { KeyStart(key) + |key| + 1 }

  function ValueStart(key: bytes, value: bytes): nat { SizeStart(key) + |Digits(|value|)| + 1 }

  lemma {:induction false} Assoc(a: bytes, b: bytes, c: bytes, d: bytes)
    ensures (a + b) + c == a + (b + c) && ((a + b) + c) + d == (a + b) + (c + d)
  {
  }

  lemma {:induction false} SubSlice(r: bytes, i: nat, j: nat, m: nat)
    requires i <= m <= j <= |r|
    ensures r[i..j][..m - i] == r[i..m]
  {
  }

  /** Where four strings lie in their sum. */
  lemma {:induction false} Pieces(a: bytes, b: bytes, c: bytes, d: bytes)
    ensures var r := a + b + c + d;
            && |r| == |a| + |b| + |c| + |d|
            && r[..|a|] == a && r[|a|..|a| + |b|] == b && r[|a| + |b|..|a| + |b| + |c|] == c
            && r[|a| + |b| + |c|..] == d
  {
  }

  /** Where the length and the key of a record lie in it. */
  lemma {:induction false} KeyParts(op: LogOp)
    ensures var r, h := Record(op), KeyStart(op.key);
            && |r| == |Body(op)| + 1 && r[|Body(op)|] == LF && r[..|Body(op)|] == Body(op)
            && 6 <= h && h + |op.key| <= |Body(op)| && (op.Del? ==> |Body(op)| == h + |op.key|)
            && r[..4] == (if op.Set? then SET else DEL) + [SP]
            && r[4..h] == Digits(|op.key|) + [SP] && r[h..h + |op.key|] == op.key
  {
    var w, g, key := if op.Set? then SET else DEL, Digits(|op.key|), op.key;
    var rest := if op.Set? then (ValueHead(op.value) + op.value) + [LF] else [LF];
    var head := w + [SP] + g + [SP];
    assert Record(op) == (w + [SP]) + (g + [SP]) + key + rest by {
      Assoc(w + [SP], g, [SP], key);
      if op.Set? {
        assert Body(op) == head + key + ValueHead(op.value) + op.value;
        Assoc(head + key, ValueHead(op.value), op.value, [LF]);
      } else {
        assert Body(op) == head + key;
      }
    }
    hide ValueHead, Digits;
    Pieces(w + [SP], g + [SP], key, rest);
    assert |g| >= 1;
  }

  /** Where the length and the value of a SET lie in its record. */
  lemma {:induction false} ValueParts(key: bytes, value: bytes)
    ensures var op := Set(key, value);
            var r, p, v := Record(op), SizeStart(key), ValueStart(key, value);
            && |r| == |Body(op)| + 1 && p < v && |Body(op)| == v + |value|
            && r[p..v] == Digits(|value|) + [SP] && r[v..v + |value|] == value
  {
    var op, g := Set(key, value), Digits(|value|);
    var a := SetHead(key) + key;
    assert |a| + 1 == SizeStart(key) && Body(op) == a + ValueHead(value) + value;
    SetSum(a, g, value);
    assert ValueHead(value) == [SP] + g + [SP];
    hide SetHead, ValueHead, Digits, Body, SizeStart;
    Pieces(a + [SP], g + [SP], value, [LF]);
  }

  lemma {:induction false} SetSum(a: bytes, g: bytes, u: bytes)
    ensures (a + ([SP] + g + [SP]) + u) + [LF] == (a + [SP]) + (g + [SP]) + u + [LF]
  {
    assert [SP] + g + [SP] == [SP] + (g + [SP]);
    Assoc(a, [SP], g + [SP], u);
  }

  /** How many bytes of a record are enough: a last NUL is there anyway, and no space is needed before no bytes. */
  function Needed(op: LogOp): (n: nat)
    ensures |Body(op)| - 1 <= n <= |Body(op)| && n >= 5
  {
    var b := Body(op);
    if b[|b| - 1] == NUL || Tail(op) == [] then |b| - 1 else |b|
  }

  /** What is read last from a record is its value, or the key of a delete. */
  function Tail(op: LogOp): bytes {
    match op case Set(_, value) => value case Del(key) => key
  }

  /** The line holds what is needed of the record. */
  predicate Fits(op: LogOp, line: bytes) {
    Body(op)[..Needed(op)] <= line
  }

  /** What a C caller can pass: sizes are size_t and the key ends before its first NUL. */
  predicate Sized(op: LogOp) {
    |op.key| < U64 && NUL !in op.key && (op.Set? ==> |op.value| < U64)
  }

  // ---- one record, cut anywhere, in a buffer with anything behind it ----

  /** The first n bytes of r and a NUL are at the front of the buffer. */
  ghost predicate Front(b: bytes, r: bytes, n: nat) {
    n <= |r| && n < |b| && b[n] == NUL && b[..n] == r[..n]
  }

  ghost predicate Holds(b: bytes, op: LogOp, n: nat) {
    Front(b, Record(op), n)
  }

  /**
   * What aof_replay makes of a record cut to n bytes. Cut in a length, it goes on from a
   * null pointer; cut in the key, it takes the length and the value of a SET from what an
   * earlier line has left in the buffer, and deletes another key for a DEL; cut in the
   * value, it fills up from there.
   */
  function Reads(b: bytes, op: LogOp, n: nat): LineResult {
    var h, k := KeyStart(op.key), |op.key|;
    if n < 3 || n == 4 then Skip
    else if n == 3 then if op.Set? then ParseSet(b) else ParseDel(b)
    else if n < h then if op.Del? && op.key == [] then Command(op) else AtNull
    else if h + k > |b| then Past
    else
      match op
      case Del(_) => Command(Del(CString(b[h..h + k])))
      case Set(key, value) =>
        var s, v := SizeStart(key), ValueStart(key, value);
        if n < s then ParseValue(b[h..h + k], b, s)
        else if n == s then Skip
        else if n < v then if value == [] then Command(op) else AtNull
        else if v + |value| > |b| then Past
        else Command(Set(key, b[v..v + |value|]))
  }

  /** A part of it. */
  lemma {:induction false} PartIn(b: bytes, r: bytes, n: nat, i: nat, j: nat)
    requires Front(b, r, n) && i <= j <= n
    ensures j <= |b| && b[i..j] == r[i..j]
  {
    assert b[..n][i..j] == b[i..j] && r[..n][i..j] == r[i..j];
  }

  lemma {:induction false} LineWord(b: bytes, op: LogOp, n: nat)
    requires Holds(b, op, n)
    ensures n >= 3 ==> ReplayLine(b) == if op.Set? then ParseSet(b) else ParseDel(b)
    ensures n < 3 ==> ReplayLine(b) == Skip
  {
    KeyParts(op);
    hide Body, Record, ParseSet, ParseDel, Digits, KeyStart;
    var r, w := Record(op), if op.Set? then SET else DEL;
    assert forall i | 0 <= i < n && i < 4 :: b[i] == b[..n][i] == r[i] == r[..4][i];
    if n >= 3 {
      assert b[..3] == w;
      assert b[3] == SP || b[3] == NUL;
      WordOfRecord(b, w);
    } else {
      ShortWord(b, n);
    }
  }

  /** Fewer than three bytes are no command. */
  lemma {:induction false} ShortWord(b: bytes, n: nat)
    requires n < 3 && n < |b| && b[n] == NUL
    ensures |Word(b)| < 3
  {
    var p := SkipSpace(b, 0);
    SkipStops(b, 0, n);
    WordStops(b, p, 15, n);
  }

  lemma {:induction false} SkipStops(b: bytes, p: nat, n: nat)
    requires p <= n < |b| && b[n] == NUL
    ensures SkipSpace(b, p) <= n
    decreases n - p
  {
    if p < n && IsSpace(b[p]) { SkipStops(b, p + 1, n); }
  }

  lemma {:induction false} WordStops(b: bytes, p: nat, room: nat, n: nat)
    requires p <= n < |b| && b[n] == NUL
    ensures WordEnd(b, p, room) <= n
    decreases n - p
  {
    if p < n && room > 0 && !IsSpace(b[p]) && b[p] != NUL { WordStops(b, p + 1, room - 1, n); }
  }

  /** A printed length, cut or whole. */
  lemma {:induction false} FieldReads(b: bytes, r: bytes, n: nat, i: nat, j: nat, m: nat)
    requires Front(b, r, n) && i < n && i < j <= |r| && m < U64
    requires r[i..j] == Digits(m) + [SP]
    ensures i <= |b|
    ensures n >= j ==> ScanSize(b, i) == Number(m) && FindSpace(b, i) == Into(j - 1)
    ensures n < j ==>
              && ScanSize(b, i).Number? && (ScanSize(b, i).n == 0 <==> m == 0)
              && FindSpace(b, i) == NullPointer
  {
    hide Digits, DigitsValue, ScanSize, FindSpace;
    var g := Digits(m);
    assert |g| == j - i - 1;
    if n >= j {
      PartIn(b, r, n, i, j);
      assert b[i..][..j - i] == b[i..j];
      ScanPrinted(b, i, m);
    } else {
      PartIn(b, r, n, i, n);
      SubSlice(r, i, j, n);
      assert (g + [SP])[..n - i] == g[..n - i];
      ScanCut(b, i, n, m);
    }
  }

  /** A NUL where a length should be. */
  lemma {:induction false} NoSize(b: bytes, p: nat)
    requires p < |b| && b[p] == NUL
    ensures ScanSize(b, p) == NoNumber
  {
    assert SkipSpace(b, p) == p && DigitsEnd(b, p) == p;
  }

  /** The length and the key of a record cut to n bytes. */
  lemma {:induction false} KeyReads(b: bytes, op: LogOp, n: nat)
    requires Holds(b, op, n) && Sized(op) && n >= 4
    ensures var h, k := KeyStart(op.key), |op.key|;
            ParseKey(b) ==
            if n == 4 then NotCopied(Skip)
            else if n < h then if op.key == [] then Bytes([], None) else NotCopied(AtNull)
            else if h + k > |b| then NotCopied(Past)
            else Bytes(b[h..h + k], Some(h + k))
  {
    KeyParts(op);
    hide Body, Record, Digits, ScanSize, FindSpace, KeyStart;
    if n == 4 {
      NoSize(b, 4);
    } else {
      FieldReads(b, Record(op), n, 4, KeyStart(op.key), |op.key|);
    }
  }

  /** The length and the value of a SET cut to n bytes, behind its key. */
  lemma {:induction false} ValueReads(b: bytes, key: bytes, value: bytes, n: nat)
    requires Holds(b, Set(key, value), n) && Sized(Set(key, value)) && n >= SizeStart(key)
    ensures var s, v, h := SizeStart(key), ValueStart(key, value), KeyStart(key);
            && h + |key| <= |b|
            && ParseValue(b[h..h + |key|], b, s) ==
               if n == s then Skip
               else if n < v then if value == [] then Command(Set(key, value)) else AtNull
               else if v + |value| > |b| then Past
               else Command(Set(key, b[v..v + |value|]))
  {
    hide *;
    var op := Set(key, value);
    KeyParts(op);
    ValueParts(key, value);
    KeyFirst(key);
    var h, s, v := KeyStart(key), SizeStart(key), ValueStart(key, value);
    assert Front(b, Record(op), n) by { HoldsFront(b, op, n); }
    assert |key| < U64 && NUL !in key && |value| < U64 by { SizedSet(key, value); }
    ValueReadsAt(b, Record(op), key, value, n, h, s, v);
  }

  lemma {:induction false} HoldsFront(b: bytes, op: LogOp, n: nat)
    ensures Holds(b, op, n) <==> Front(b, Record(op), n)
  {
  }

  lemma {:induction false} SizedKey(op: LogOp)
    requires Sized(op)
    ensures |op.key| < U64 && NUL !in op.key
  {
  }

  lemma {:induction false} SizedSet(key: bytes, value: bytes)
    ensures Sized(Set(key, value)) <==> |key| < U64 && NUL !in key && |value| < U64
  {
  }

  lemma {:induction false} ValueReadsAt(b: bytes, r: bytes, key: bytes, value: bytes, n: nat, h: nat, s: nat, v: nat)
    requires Front(b, r, n) && NUL !in key && |value| < U64
    requires s == h + |key| + 1 <= n && s < v && v + |value| <= |r|
    requires r[h..h + |key|] == key && r[s..v] == Digits(|value|) + [SP]
    ensures h + |key| <= |b|
    ensures ParseValue(b[h..h + |key|], b, s) ==
            if n == s then Skip
            else if n < v then if value == [] then Command(Set(key, value)) else AtNull
            else if v + |value| > |b| then Past
            else Command(Set(key, b[v..v + |value|]))
  {
    CStringNoNul(key);
    hide Digits, ScanSize, FindSpace, CString;
    PartIn(b, r, n, h, h + |key|);
    if n == s { NoSize(b, s); } else { FieldReads(b, r, n, s, v, |value|); }
  }

  /** One line with a record in it, whole or cut, and any bytes behind it. */
  lemma {:induction false} LineExact(b: bytes, op: LogOp, n: nat)
    requires Holds(b, op, n) && Sized(op)
    ensures ReplayLine(b) == Reads(b, op, n)
  {
    hide *;
    LineWord(b, op, n);
    if n < 4 {
      ReadsFew(b, op, n);
    } else {
      KeyReads(b, op, n);
      if op.Del? {
        ReadsDel(b, op.key, n);
      } else {
        if n >= SizeStart(op.key) { ValueReads(b, op.key, op.value, n); }
        ReadsSet(b, op.key, op.value, n);
      }
    }
  }

  lemma {:induction false} ReadsFew(b: bytes, op: LogOp, n: nat)
    requires n < 4
    ensures Reads(b, op, n) == if n < 3 then Skip else if op.Set? then ParseSet(b) else ParseDel(b)
  {
    hide ParseSet, ParseDel;
  }

  lemma {:induction false} ReadsDel(b: bytes, key: bytes, n: nat)
    requires n >= 4
    requires var h, k := KeyStart(key), |key|;
             ParseKey(b) ==
             if n == 4 then NotCopied(Skip)
             else if n < h then if key == [] then Bytes([], None) else NotCopied(AtNull)
             else if h + k > |b| then NotCopied(Past)
             else Bytes(b[h..h + k], Some(h + k))
    ensures ParseDel(b) == Reads(b, Del(key), n)
  {
    KeyFirst(key);
    hide ParseKey, ParseSet, ParseValue, CString, KeyStart, SizeStart, ValueStart;
  }

  lemma {:induction false} ReadsSet(b: bytes, key: bytes, value: bytes, n: nat)
    requires n >= 4
    requires var h, k := KeyStart(key), |key|;
             ParseKey(b) ==
             if n == 4 then NotCopied(Skip)
             else if n < h then if key == [] then Bytes([], None) else NotCopied(AtNull)
             else if h + k > |b| then NotCopied(Past)
             else Bytes(b[h..h + k], Some(h + k))
    requires var s, v, h := SizeStart(key), ValueStart(key, value), KeyStart(key);
             n >= s ==>
               && h + |key| <= |b|
               && ParseValue(b[h..h + |key|], b, s) ==
                  if n == s then Skip
                  else if n < v then if value == [] then Command(Set(key, value)) else AtNull
                  else if v + |value| > |b| then Past
                  else Command(Set(key, b[v..v + |value|]))
    ensures ParseSet(b) == Reads(b, Set(key, value), n)
  {
    KeyFirst(key);
    hide ParseKey, ParseDel, ParseValue, CString, KeyStart, SizeStart, ValueStart;
  }

  lemma {:induction false} KeyFirst(key: bytes)
    ensures KeyStart(key) >= 6 && SizeStart(key) == KeyStart(key) + |key| + 1 && CString([]) == []
    ensures key == [] ==> KeyStart(key) == 6
  {
  }

  // ---- records that are read back ----

  lemma {:induction false} FilledHolds(buf: bytes, op: LogOp, line: bytes)
    requires |line| < |buf| && line <= Record(op)
    ensures Holds(Filled(buf, line), op, |line|)
  {
    hide Record;
    var b := Filled(buf, line);
    assert (line + [NUL])[|line|] == NUL && b[..|line|] == (line + [NUL])[..|line|] == line;
  }

  /** A record that the line holds is read as written, whatever is behind it in the buffer. */
  lemma {:induction false} FitsReads(b: bytes, op: LogOp, n: nat)
    requires Holds(b, op, n) && Sized(op) && n >= Needed(op)
    ensures Reads(b, op, n) == Command(op)
  {
    hide *;
    match op
    case Del(key) => FitsDel(b, key, n);
    case Set(key, value) => FitsSet(b, key, value, n);
  }

  lemma {:induction false} FitsDel(b: bytes, key: bytes, n: nat)
    requires Holds(b, Del(key), n) && Sized(Del(key)) && n >= Needed(Del(key))
    ensures Reads(b, Del(key), n) == Command(Del(key))
  {
    var op := Del(key);
    KeyParts(op);
    LastByte(op);
    CStringNoNul(key);
    KeyFirst(key);
    hide Body, Record, Digits, CString, KeyStart;
    var h, k := KeyStart(key), |key|;
    if key != [] {
      assert key[k - 1] != NUL;
      PartIn(b, Record(op), n, h, h + k);
    } else if n >= h {
      assert b[h..h + k] == [];
    }
  }

  lemma {:induction false} FitsSet(b: bytes, key: bytes, value: bytes, n: nat)
    requires Holds(b, Set(key, value), n) && Sized(Set(key, value)) && n >= Needed(Set(key, value))
    ensures Reads(b, Set(key, value), n) == Command(Set(key, value))
  {
    var op := Set(key, value);
    KeyParts(op);
    ValueParts(key, value);
    LastByte(op);
    KeyFirst(key);
    hide Body, Record, Digits, CString, KeyStart, SizeStart, ParseValue;
    var v, u := ValueStart(key, value), |value|;
    assert SizeStart(key) < v;
    hide ValueStart;
    if n >= v + u {
      PartIn(b, Record(op), n, v, v + u);
    } else if value != [] {
      PartIn(b, Record(op), n, v, n);
      SubSlice(Record(op), v, v + u, n);
      assert b[v..v + u] == b[v..n] + [b[n]];
      assert value == value[..u - 1] + [value[u - 1]];
    }
  }

  /** The last byte of what a record is read from is that of its body. */
  lemma {:induction false} LastByte(op: LogOp)
    ensures Tail(op) != [] ==> Body(op)[|Body(op)| - 1] == Tail(op)[|Tail(op)| - 1]
  {
    hide Digits, ValueHead, SetHead, DelHead;
  }

  /** The line that fgets returns for a record. */
  lemma {:induction false} LineOfRecord(op: LogOp)
    ensures var line := Line(Record(op)); 6 <= |line| && line <= Record(op)
  {
    KeyParts(op);
    hide Body, IndexOf, Digits;
    var r, g, h := Record(op), Digits(|op.key|), KeyStart(op.key);
    hide Record, KeyStart;
    assert r[4] == r[4..h][0] == (g + [SP])[0] != LF;
    assert r[5] == r[4..h][1] == (g + [SP])[1] != LF;
    assert r[0] == r[..4][0] && r[1] == r[..4][1] && r[2] == r[..4][2] && r[3] == r[..4][3];
    IndexOfAt(r, LF, 0, 6);
  }

  /** A buffer full of one byte. */
  function Stale(c: byte): (buf: bytes)
    ensures |buf| == LINE_SIZE
  {
    seq(LINE_SIZE, _ => c)
  }

  /** When it does not, there is a buffer with which something else is read. */
  lemma {:induction false} UnfitReads(op: LogOp, line: bytes) returns (buf: bytes)
    requires Sized(op) && line <= Record(op) && 6 <= |line| < LINE_SIZE && |line| < Needed(op)
    ensures |buf| == LINE_SIZE && ReplayLine(Filled(buf, line)) != Command(op)
  {
    var n := |line|;
    buf := Stale(OtherByte(op, n));
    FilledHolds(buf, op, line);
    var b := Filled(buf, line);
    LineExact(b, op, n);
    hide ReplayLine, Filled, Sized;
    match op
    case Del(key) => UnfitDel(b, key, n);
    case Set(key, value) =>
      assert forall i | n < i < LINE_SIZE :: b[i] == OtherByte(op, n) by { FilledRest(buf, line); }
      UnfitSet(b, key, value, n);
  }

  /** A byte that is not the one of the value behind the NUL. */
  function OtherByte(op: LogOp, n: nat): byte {
    match op
    case Del(_) => 0
    case Set(key, value) =>
      var v := ValueStart(key, value);
      if v <= n && n + 1 - v < |value| && value[n + 1 - v] == 0 then 1 else 0
  }

  lemma {:induction false} FilledRest(buf: bytes, line: bytes)
    requires |line| < |buf|
    ensures forall i | |line| < i < |buf| :: Filled(buf, line)[i] == buf[i]
  {
  }

  lemma {:induction false} UnfitDel(b: bytes, key: bytes, n: nat)
    requires Holds(b, Del(key), n) && 6 <= n < Needed(Del(key)) && NUL !in key
    ensures Reads(b, Del(key), n) != Command(Del(key))
  {
    KeyParts(Del(key));
    KeyFirst(key);
    hide Body, Record, Digits, KeyStart;
    var h, k := KeyStart(key), |key|;
    if n >= h && h + k <= |b| {
      assert b[h..h + k][n - h] == NUL;
      IndexOfFirst(b[h..h + k], n - h);
    }
  }

  lemma {:induction false} IndexOfFirst(s: bytes, i: nat)
    requires i < |s| && s[i] == NUL
    ensures |CString(s)| <= i
  {
  }

  lemma {:induction false} UnfitSet(b: bytes, key: bytes, value: bytes, n: nat)
    requires Holds(b, Set(key, value), n) && 6 <= n < Needed(Set(key, value))
    requires forall i | n < i < |b| :: b[i] == OtherByte(Set(key, value), n)
    ensures Reads(b, Set(key, value), n) != Command(Set(key, value))
  {
    var op := Set(key, value);
    KeyParts(op);
    ValueParts(key, value);
    LastByte(op);
    KeyFirst(key);
    var s, v, u := SizeStart(key), ValueStart(key, value), |value|;
    assert s < v;
    hide Body, Record, Digits, ScanSize, CString, KeyStart, SizeStart, ValueStart;
    if n < s && s < |b| { NoSize(b, s); }
    if v <= n && v + u <= |b| {
      var got := b[v..v + u];
      assert got[n - v] == NUL;
      assert n + 1 - v < u ==> got[n + 1 - v] == OtherByte(op, n);
    }
  }

  /** One record of the log is read back, with every buffer, exactly when its line holds it. */
  lemma {:induction false} RecordLineExact(op: LogOp)
    requires Sized(op)
    ensures (forall buf: bytes | |buf| == LINE_SIZE :: ReplayLine(Filled(buf, Line(Record(op)))) == Command(op)) <==>
            Fits(op, Line(Record(op)))
  {
    LineOfRecord(op);
    hide Record, Body, Line, ReplayLine, Filled, Sized, Needed;
    var line := Line(Record(op));
    FitsIsLong(op, line);
    if |line| >= Needed(op) {
      forall buf: bytes | |buf| == LINE_SIZE ensures ReplayLine(Filled(buf, line)) == Command(op) {
        FilledHolds(buf, op, line);
        LineExact(Filled(buf, line), op, |line|);
        FitsReads(Filled(buf, line), op, |line|);
      }
    } else {
      var buf := UnfitReads(op, line);
    }
  }

  lemma {:induction false} FitsIsLong(op: LogOp, line: bytes)
    requires line <= Record(op)
    ensures Fits(op, line) <==> |line| >= Needed(op)
  {
    KeyParts(op);
    hide Record, Body, Digits, KeyStart;
    if |line| >= Needed(op) {
      assert line[..Needed(op)] == Record(op)[..Needed(op)] == Body(op)[..Needed(op)];
    }
  }

  // ---- whole logs ----

  /** What is in the buffer after all lines of a log. */
  function Left(buf: bytes, log: bytes): (b: bytes)
    requires |buf| == LINE_SIZE
    ensures |b| == LINE_SIZE
    decreases |log|
  {
    if log == [] then buf else Left(Filled(buf, Line(log)), log[|Line(log)|..])
  }

  function Then(a: Outcome, b: Outcome): Outcome {
    if a.died then a else Outcome(a.ops + b.ops, b.died)
  }

  /** Whole lines are replayed before what is behind them. */
  lemma {:induction false} LinesJoin(buf: bytes, a: bytes, rest: bytes)
    requires |buf| == LINE_SIZE && (a != [] ==> a[|a| - 1] == LF)
    ensures Left(buf, a + rest) == Left(Left(buf, a), rest)
    ensures Replay(buf, a + rest) == Then(Replay(buf, a), Replay(Left(buf, a), rest))
    decreases |a|
  {
    if a == [] {
      assert a + rest == rest;
      assert [] + Replay(buf, rest).ops == Replay(buf, rest).ops;
    } else {
      LineJoins(a, rest);
      var line, b := Line(a), Filled(buf, Line(a));
      hide Line, Filled, ReplayLine, IndexOf;
      assert (a + rest)[|line|..] == a[|line|..] + rest;
      LinesJoin(b, a[|line|..], rest);
      var x := ReplayLine(b);
      if x.Command? {
        var p, q := Replay(b, a[|line|..]), Replay(Left(b, a[|line|..]), rest);
        assert [x.op] + (p.ops + q.ops) == ([x.op] + p.ops) + q.ops;
      }
    }
  }

  lemma {:induction false} LineJoins(a: bytes, rest: bytes)
    requires a != [] && a[|a| - 1] == LF
    ensures Line(a + rest) == Line(a)
    ensures a[|Line(a)|..] != [] ==> a[|Line(a)|..][|a| - |Line(a)| - 1] == LF
  {
    IndexOfExtends(a, rest, LF, 0);
    hide IndexOf;
    var n := |Line(a)|;
    assert (a + rest)[..n] == a[..n];
  }

  /** The rest of a record behind a line that holds it is passed over. */
  lemma {:induction false} SkipRest(buf: bytes, op: LogOp, line: bytes)
    requires |buf| == LINE_SIZE && line <= Record(op) && |line| >= Needed(op)
    ensures Replay(buf, Record(op)[|line|..]) == Outcome([], false)
  {
    var r, body := Record(op), Body(op);
    assert r == body + [LF];
    EndOfBody(op);
    hide Body, Record, Replay, Needed;
    var rest, x := r[|line|..], body[|body| - 1];
    if |line| == |body| - 1 {
      assert rest == [x, LF];
      SkipTwo(buf, x);
    } else if |line| == |body| {
      assert rest == [LF];
      SkipOne(buf);
    } else {
      assert rest == [];
      SkipNone(buf);
    }
  }

  lemma {:induction false} SkipNone(buf: bytes)
    requires |buf| == LINE_SIZE
    ensures Replay(buf, []) == Outcome([], false)
  {
  }

  lemma {:induction false} SkipOne(buf: bytes)
    requires |buf| == LINE_SIZE
    ensures Replay(buf, [LF]) == Outcome([], false)
  {
    hide ReplayLine, Filled;
    assert Line([LF]) == [LF] && [LF][1..] == [];
    BlankLine(Filled(buf, [LF]), [LF]);
  }

  lemma {:induction false} SkipTwo(buf: bytes, x: byte)
    requires |buf| == LINE_SIZE && (x == NUL || x == SP)
    ensures Replay(buf, [x, LF]) == Outcome([], false)
  {
    hide ReplayLine, Filled;
    var s := [x, LF];
    assert IndexOf(s, LF, 1) == 1;
    assert IndexOf(s, LF, 0) == 1;
    assert Line(s) == s && s[2..] == [];
    BlankLine(Filled(buf, s), s);
  }

  /** The last byte of a body that need not be there is a NUL or a space. */
  lemma {:induction false} EndOfBody(op: LogOp)
    ensures Needed(op) < |Body(op)| ==> Body(op)[|Body(op)| - 1] == NUL || Body(op)[|Body(op)| - 1] == SP
  {
    if Tail(op) == [] { EmptyTail(op); }
    hide Body;
  }

  lemma {:induction false} EmptyTail(op: LogOp)
    requires Tail(op) == []
    ensures Body(op)[|Body(op)| - 1] == SP
  {
    hide Digits;
  }

  lemma {:induction false} BlankLine(b: bytes, s: bytes)
    requires s + [NUL] <= b && (s == [LF] || s == [NUL, LF] || s == [SP, LF])
    ensures ReplayLine(b) == Skip
  {
    hide ParseSet, ParseDel;
    assert forall i | 0 <= i <= |s| :: b[i] == (s + [NUL])[i];
    SkipStops(b, 0, |s|);
    var p := SkipSpace(b, 0);
    assert b[0] == SP ==> SkipSpace(b, 0) == SkipSpace(b, 1);
    assert b[0] == LF ==> SkipSpace(b, 0) == SkipSpace(b, 1);
    assert |s| == 2 ==> SkipSpace(b, 1) == SkipSpace(b, 2) == 2;
    assert |s| == 1 ==> SkipSpace(b, 1) == 1;
    assert b[p] == NUL;
  }

  lemma {:induction false} ReplayRecord(buf: bytes, op: LogOp)
    requires |buf| == LINE_SIZE && Sized(op) && Fits(op, Line(Record(op)))
    ensures Replay(buf, Record(op)) == Outcome([op], false)
  {
    hide Record, Body, ReplayLine, Fits, Sized, Needed, Filled;
    var r, line := Record(op), Line(Record(op));
    LineOfRecord(op);
    FitsIsLong(op, line);
    FilledHolds(buf, op, line);
    LineExact(Filled(buf, line), op, |line|);
    FitsReads(Filled(buf, line), op, |line|);
    SkipRest(Filled(buf, line), op, line);
    assert [op] + [] == [op];
  }

  lemma {:induction false} EncodeEnds(ops: seq<LogOp>)
    ensures Encode(ops) != [] ==> Encode(ops)[|Encode(ops)| - 1] == LF
    decreases |ops|
  {
    hide Body;
    if ops != [] { EncodeEnds(ops[1..]); }
  }

  /**
   * The AOF round trip: replaying what any sequence of appends wrote gives those
   * operations in order, keys with spaces and digits included, when every record is
   * held by its line; and then goes on with what is behind them.
   */
  lemma {:induction false} ReplayEncode(buf: bytes, ops: seq<LogOp>, rest: bytes)
    requires |buf| == LINE_SIZE
    requires forall i | 0 <= i < |ops| :: Sized(ops[i]) && Fits(ops[i], Line(Record(ops[i])))
    ensures Replay(buf, Encode(ops)) == Outcome(ops, false)
    ensures Replay(buf, Encode(ops) + rest) == Then(Outcome(ops, false), Replay(Left(buf, Encode(ops)), rest))
    decreases |ops|
  {
    hide *;
    EncodeEnds(ops);
    EncodeFirst(ops);
    if ops != [] {
      var r := Record(ops[0]);
      RecordEnds(ops[0]);
      ReplayEncode(Left(buf, r), ops[1..], rest);
      ReplayRecord(buf, ops[0]);
      LinesJoin(buf, r, Encode(ops[1..]));
      ThenSum([ops[0]], Outcome(ops[1..], false));
      assert [ops[0]] + ops[1..] == ops;
    } else {
      ReplayNothing(buf);
    }
    LinesJoin(buf, Encode(ops), rest);
  }

  lemma {:induction false} ReplayNothing(buf: bytes)
    requires |buf| == LINE_SIZE
    ensures Replay(buf, []) == Outcome([], false)
  {
  }

  lemma {:induction false} ThenSum(ops: seq<LogOp>, o: Outcome)
    ensures Then(Outcome(ops, false), o) == Outcome(ops + o.ops, o.died)
  {
  }

  lemma {:induction false} EncodeFirst(ops: seq<LogOp>)
    ensures Encode(ops) == if ops == [] then [] else Record(ops[0]) + Encode(ops[1..])
  {
  }

  lemma {:induction false} RecordEnds(op: LogOp)
    ensures Record(op) != [] && Record(op)[|Record(op)| - 1] == LF
  {
    hide Body;
  }

  /**
   * When a record is held by its line, in terms of the operation: its needed bytes fit
   * the 4095 of a line, and none of them but possibly the last is a newline.
   */
  lemma {:induction false} FitsExactly(op: LogOp)
    ensures Fits(op, Line(Record(op))) <==> Needed(op) < LINE_SIZE && LF !in Body(op)[..Needed(op) - 1]
  {
    var body, r, n := Body(op), Record(op), Needed(op);
    hide Body;
    var i := IndexOf(r, LF, 0);
    assert r == body + [LF] && r[|body|] == LF;
    hide Record;
    FitsIsLong(op, Line(r));
    if i < n - 1 { assert body[..n - 1][i] == LF; }
    if LF in body[..n - 1] {
      var k :| 0 <= k < n - 1 && body[..n - 1][k] == LF;
      assert r[k] == LF;
    }
  }

  // ---- a record torn by a crash ----

  /**
   * What is made of the first p bytes of a record that a crash has cut: its first line as
   * Reads says, and the lines behind a newline in it, or behind the 4095th byte, as lines
   * of their own.
   */
  function Torn(buf: bytes, op: LogOp, p: bytes): Outcome
    requires |buf| == LINE_SIZE
  {
    if p == [] then Outcome([], false)
    else
      var line := Line(p);
      var b := Filled(buf, line);
      match Reads(b, op, |line|)
      case Skip => Replay(b, p[|line|..])
      case Command(x) => After(x, Replay(b, p[|line|..]))
      case _ => Outcome([], true)
  }

  /**
   * A log whose last record a crash has cut after the bytes p: the whole records are
   * carried out, and then what is read of the cut one, which may be nothing, another
   * operation, or the end of the process.
   */
  lemma {:induction false} TornExactly(buf: bytes, ops: seq<LogOp>, op: LogOp, p: bytes)
    requires |buf| == LINE_SIZE && Sized(op) && p <= Body(op)
    requires forall i | 0 <= i < |ops| :: Sized(ops[i]) && Fits(ops[i], Line(Record(ops[i])))
    ensures Replay(buf, Encode(ops) + p) == Then(Outcome(ops, false), Torn(Left(buf, Encode(ops)), op, p))
  {
    hide *;
    ReplayEncode(buf, ops, p);
    TornTail(Left(buf, Encode(ops)), op, p);
  }

  lemma {:induction false} TornTail(buf: bytes, op: LogOp, p: bytes)
    requires |buf| == LINE_SIZE && Sized(op) && p <= Body(op)
    ensures Replay(buf, p) == Torn(buf, op, p)
  {
    if p != [] {
      var line := Line(p);
      PrefixOfBody(op, p);
      hide Body, Record, Line, Filled, Reads, ReplayLine, Sized;
      FilledHolds(buf, op, line);
      LineExact(Filled(buf, line), op, |line|);
    }
  }

  /** A cut record of one line. */
  lemma {:induction false} TornLine(buf: bytes, op: LogOp, p: bytes)
    requires |buf| == LINE_SIZE && (p != [] ==> Line(p) == p)
    ensures |p| < LINE_SIZE
    ensures Torn(buf, op, p) ==
            match Reads(Filled(buf, p), op, |p|)
            case Skip => Outcome([], false)
            case Command(x) => Outcome([x], false)
            case _ => Outcome([], true)
  {
    LineIsShort(p);
    hide Filled, Reads, Line, Replay;
    if p == [] {
      NothingRead(Filled(buf, p), op);
    } else {
      assert p[|p|..] == [];
      ReplayNothing(Filled(buf, p));
      var x := Reads(Filled(buf, p), op, |p|);
      if x.Command? { assert [x.op] + [] == [x.op]; }
    }
  }

  lemma {:induction false} PrefixOfBody(op: LogOp, p: bytes)
    requires p <= Body(op)
    ensures p <= Record(op) && |p| <= |Body(op)|
  {
    hide Body;
    assert Record(op)[..|p|] == Body(op)[..|p|];
  }

  lemma {:induction false} LineIsShort(p: bytes)
    requires p != [] ==> Line(p) == p
    ensures |p| < LINE_SIZE
  {
  }

  lemma {:induction false} NothingRead(b: bytes, op: LogOp)
    ensures Reads(b, op, 0) == Skip
  {
  }

  lemma {:induction false} TornIsLine(body: bytes, p: bytes)
    requires p != [] && p <= body && |body| < LINE_SIZE && LF !in body[..|body| - 1]
    ensures Line(p) == p
  {
    forall i | 0 <= i < |p| - 1 ensures p[i] != LF { assert body[..|body| - 1][i] == p[i]; }
  }

  /** Digits up to the end of the buffer. */
  lemma {:induction false} OnlyDigits(b: bytes, p: nat)
    requires p < |b| && forall i | p <= i < |b| :: IsDigit(b[i])
    ensures ScanSize(b, p) == ScanPast
  {
    assert SkipSpace(b, p) == p;
    DigitsToEnd(b, p);
  }

  lemma {:induction false} DigitsToEnd(b: bytes, p: nat)
    requires p <= |b| && forall i | p <= i < |b| :: IsDigit(b[i])
    ensures DigitsEnd(b, p) == |b|
    decreases |b| - p
  {
    if p < |b| { DigitsToEnd(b, p + 1); }
  }

  lemma {:induction false} NulIsNoDigit()
    ensures NUL != ZERO
  {
  }

  /** A cut that leaves the rest to the buffer: a buffer of NULs, or of digits. */
  lemma {:induction false} StaleCut(op: LogOp, n: nat, c: byte) returns (b: bytes)
    requires Sized(op) && n < Needed(op) && |Body(op)| < LINE_SIZE && (c == NUL || c == ZERO)
    requires n == 3 || (op.Set? && KeyStart(op.key) <= n < SizeStart(op.key))
    ensures |b| == LINE_SIZE && Holds(b, op, n) && ReplayLine(b) == if c == NUL then Skip else Past
  {
    hide *;
    KeyParts(op);
    KeyFirst(op.key);
    if op.Set? { ValueParts(op.key, op.value); }
    var p := Record(op)[..n];
    b := Filled(Stale(c), p);
    FilledHolds(Stale(c), op, p);
    FilledRest(Stale(c), p);
    LineExact(b, op, n);
    StaleAll(c);
    if n == 3 {
      StaleKey(b, op, c);
    } else {
      StaleValue(b, op.key, op.value, n, c);
    }
  }

  lemma {:induction false} StaleAll(c: byte)
    ensures forall i | 0 <= i < LINE_SIZE :: Stale(c)[i] == c
  {
  }

  lemma {:induction false} StaleKey(b: bytes, op: LogOp, c: byte)
    requires |b| == LINE_SIZE && (c == NUL || c == ZERO) && forall i | 3 < i < |b| :: b[i] == c
    ensures Reads(b, op, 3) == if c == NUL then Skip else Past
  {
    hide KeyStart, SizeStart, ValueStart, ScanSize, ParseValue, CString, FindSpace;
    if c == NUL { NoSize(b, 4); } else { OnlyDigits(b, 4); }
  }

  lemma {:induction false} StaleValue(b: bytes, key: bytes, value: bytes, n: nat, c: byte)
    requires |b| == LINE_SIZE && (c == NUL || c == ZERO) && forall i | n < i < |b| :: b[i] == c
    requires KeyStart(key) <= n < SizeStart(key) < |b|
    ensures Reads(b, Set(key, value), n) == if c == NUL then Skip else Past
  {
    KeyFirst(key);
    var s := SizeStart(key);
    hide KeyStart, SizeStart, ValueStart, ScanSize, CString, FindSpace;
    if c == NUL { NoSize(b, s); } else { OnlyDigits(b, s); }
  }

  /**
   * Which cuts are passed over and which end the process, whatever is in the buffer: the
   * first exactly those inside the command word or right before a length, the second
   * exactly those inside a length.
   */
  lemma {:induction false} CutOutcomes(op: LogOp, n: nat)
    requires Sized(op) && n < Needed(op) && |Body(op)| < LINE_SIZE
    ensures (forall b: bytes | |b| == LINE_SIZE && Holds(b, op, n) :: ReplayLine(b) == Skip) <==>
            n < 3 || n == 4 || (op.Set? && n == SizeStart(op.key))
    ensures (forall b: bytes | |b| == LINE_SIZE && Holds(b, op, n) :: ReplayLine(b) == AtNull) <==>
            5 <= n < KeyStart(op.key) || (op.Set? && SizeStart(op.key) < n < ValueStart(op.key, op.value))
  {
    hide *;
    KeyParts(op);
    KeyFirst(op.key);
    if op.Set? { ValueParts(op.key, op.value); }
    var p := Record(op)[..n];
    var b0 := Filled(Stale(NUL), p);
    FilledHolds(Stale(NUL), op, p);
    if n == 3 || (op.Set? && KeyStart(op.key) <= n < SizeStart(op.key)) {
      NulIsNoDigit();
      var b := StaleCut(op, n, NUL);
      var b' := StaleCut(op, n, ZERO);
    } else {
      forall b: bytes | |b| == LINE_SIZE && Holds(b, op, n)
        ensures ReplayLine(b) == Skip <==> n < 3 || n == 4 || (op.Set? && n == SizeStart(op.key))
        ensures ReplayLine(b) == AtNull <==>
                5 <= n < KeyStart(op.key) || (op.Set? && SizeStart(op.key) < n < ValueStart(op.key, op.value))
      {
        LineExact(b, op, n);
        CutCases(b, op, n);
        CutIs(op, n, b);
      }
      assert |b0| == LINE_SIZE && Holds(b0, op, n);
    }
  }

  /** The outcome where it does not depend on the buffer, but for the operation. */
  function CutReads(op: LogOp, n: nat, b: bytes): LineResult {
    if n < 3 || n == 4 || (op.Set? && n == SizeStart(op.key)) then Skip
    else if n < KeyStart(op.key) || (op.Set? && SizeStart(op.key) < n < ValueStart(op.key, op.value)) then AtNull
    else Reads(b, op, n)
  }

  lemma {:induction false} CutCases(b: bytes, op: LogOp, n: nat)
    requires n < Needed(op) && |Body(op)| < LINE_SIZE == |b|
    requires n != 3 && !(op.Set? && KeyStart(op.key) <= n < SizeStart(op.key))
    ensures Reads(b, op, n) == CutReads(op, n, b)
  {
    KeyParts(op);
    KeyFirst(op.key);
    CutNeeded(op);
    if op.Set? { ValueParts(op.key, op.value); }
    hide KeyStart, SizeStart, ValueStart, ParseValue, CString, Body, Record, Digits, Needed;
  }

  lemma {:induction false} CutNeeded(op: LogOp)
    ensures op.Del? && op.key == [] ==> Needed(op) == 5
    ensures op.Set? && op.value == [] ==> Needed(op) == ValueStart(op.key, op.value) - 1
  {
    if op.Set? { ValueParts(op.key, op.value); } else { KeyParts(op); KeyFirst(op.key); }
    hide Body, Record, Digits, ValueStart, KeyStart;
  }

  lemma {:induction false} CutIs(op: LogOp, n: nat, b: bytes)
    requires n < Needed(op) && |Body(op)| < LINE_SIZE == |b|
    requires n != 3 && !(op.Set? && KeyStart(op.key) <= n < SizeStart(op.key))
    ensures CutReads(op, n, b) == Skip <==> n < 3 || n == 4 || (op.Set? && n == SizeStart(op.key))
    ensures CutReads(op, n, b) == AtNull <==>
            5 <= n < KeyStart(op.key) || (op.Set? && SizeStart(op.key) < n < ValueStart(op.key, op.value))
  {
    KeyParts(op);
    KeyFirst(op.key);
    CutNeeded(op);
    if op.Set? { ValueParts(op.key, op.value); }
    hide KeyStart, SizeStart, ValueStart, ParseValue, CString, Body, Record, Digits, Needed;
  }

  /** With every buffer the cut of two bytes or more from a DEL deletes the key that is left of it. */
  lemma {:induction false} TornDelete(b: bytes, key: bytes, n: nat)
    requires Holds(b, Del(key), n) && Sized(Del(key))
    requires KeyStart(key) <= n < KeyStart(key) + |key| <= |b|
    ensures ReplayLine(b) == Command(Del(key[..n - KeyStart(key)]))
  {
    hide *;
    var h, r := KeyStart(key), Record(Del(key));
    LineExact(b, Del(key), n);
    KeyParts(Del(key));
    HoldsFront(b, Del(key), n);
    SizedKey(Del(key));
    assert Reads(b, Del(key), n) == Command(Del(CString(b[h..h + |key|]))) by { DelReads(b, key, n); }
    CutKey(b, r, key, h, n);
  }

  lemma {:induction false} DelReads(b: bytes, key: bytes, n: nat)
    requires KeyStart(key) <= n && KeyStart(key) + |key| <= |b|
    ensures Reads(b, Del(key), n) == Command(Del(CString(b[KeyStart(key)..KeyStart(key) + |key|])))
  {
    KeyFirst(key);
    hide KeyStart, CString;
  }

  lemma {:induction false} CutKey(b: bytes, r: bytes, key: bytes, h: nat, n: nat)
    requires Front(b, r, n) && h <= n < h + |key| <= |b| && h + |key| <= |r| && r[h..h + |key|] == key && NUL !in key
    ensures CString(b[h..h + |key|]) == key[..n - h]
  {
    PartIn(b, r, n, h, n);
    SubSlice(r, h, h + |key|, n);
    var s := b[h..h + |key|];
    SubSlice(b, h, h + |key|, n);
    assert s[n - h] == NUL && s[..n - h] == key[..n - h];
    forall i | 0 <= i < n - h ensures s[i] != NUL { assert s[i] == s[..n - h][i] == key[i]; }
    IndexOfAt(s, NUL, 0, n - h);
  }

  /**
   * A SET torn behind its key takes the value of the record before it, when the keys are
   * equally long: after SET b x, a torn SET a is carried out as SET a x.
   */
  lemma {:induction false} TornSetTakesStale(buf: bytes, a: bytes, b: bytes, x: bytes, y: bytes)
    requires |buf| == LINE_SIZE && |a| == |b| && Sized(Set(a, y)) && Sized(Set(b, x))
    requires |Record(Set(b, x))| < LINE_SIZE && LF !in Body(Set(b, x))
    requires |Body(Set(a, y))| < LINE_SIZE && LF !in Body(Set(a, y))
    ensures KeyStart(a) + |a| <= |Body(Set(a, y))|
    ensures var p := Body(Set(a, y))[..KeyStart(a) + |a|];
            Replay(buf, Record(Set(b, x)) + p) == Outcome([Set(b, x), Set(a, x)], false)
  {
    hide *;
    var first, op, n := Set(b, x), Set(a, y), KeyStart(a) + |a|;
    KeyParts(first);
    KeyParts(op);
    var p := Body(op)[..n];
    EncodeOne(first);
    OneLine(first);
    FitsExactly(first);
    NoLfBefore(Body(op));
    if p != [] { TornIsLine(Body(op), p); }
    TornExactly(buf, [first], op, p);
    TornLine(Left(buf, Encode([first])), op, p);
    ThenSum([first], Outcome([Set(a, x)], false));
    LeftOne(buf, first);
    PrefixOfBody(op, p);
    StaleReads(Filled(Filled(buf, Record(first)), p), buf, first, op, p);
    assert [first] + [Set(a, x)] == [first, Set(a, x)];
  }

  lemma {:induction false} EncodeOne(op: LogOp)
    ensures Encode([op]) == Record(op) && Record(op) != []
  {
    hide Body;
    assert [op][1..] == [] && Record(op) + [] == Record(op);
  }

  lemma {:induction false} NoLfBefore(s: bytes)
    requires LF !in s && s != []
    ensures LF !in s[..|s| - 1]
  {
  }

  /** A record without a newline but the last is one line. */
  lemma {:induction false} OneLine(op: LogOp)
    requires |Record(op)| < LINE_SIZE && LF !in Body(op)
    ensures Line(Record(op)) == Record(op) && LF !in Body(op)[..Needed(op) - 1] && Needed(op) < LINE_SIZE
  {
    hide Body;
    IndexOfAt(Record(op), LF, 0, |Body(op)|);
  }

  lemma {:induction false} LeftOne(buf: bytes, op: LogOp)
    requires |buf| == LINE_SIZE && |Record(op)| < LINE_SIZE && Record(op) != [] && Line(Record(op)) == Record(op)
    requires Encode([op]) == Record(op)
    ensures Left(buf, Encode([op])) == Filled(buf, Record(op))
  {
    hide Record, Line, Filled;
    assert Record(op)[|Record(op)|..] == [];
  }

  lemma {:induction false} StaleReads(b: bytes, buf: bytes, first: LogOp, op: LogOp, p: bytes)
    requires |buf| == LINE_SIZE && first.Set? && op.Set? && Sized(first) && Sized(op) && |first.key| == |op.key|
    requires |Record(first)| < LINE_SIZE && p <= Record(op) && |p| == KeyStart(op.key) + |op.key|
    requires |p| < LINE_SIZE && b == Filled(Filled(buf, Record(first)), p)
    ensures Reads(b, op, |p|) == Command(Set(op.key, first.value))
  {
    hide *;
    var c, r := Filled(buf, Record(first)), Record(first);
    assert |c| == LINE_SIZE;
    FilledHolds(c, op, p);
    FilledHolds(buf, first, r);
    FilledRest(c, p);
    KeyParts(op);
    KeyFirst(op.key);
    ValueParts(first.key, first.value);
    KeyFirst(first.key);
    SameStart(op.key, first.key);
    var h, s, v, u := KeyStart(op.key), SizeStart(op.key), ValueStart(first.key, first.value), first.value;
    HoldsFront(b, op, |p|);
    HoldsFront(c, first, |r|);
    SizedKey(op);
    SizedSet(first.key, u);
    assert Reads(b, op, |p|) == ParseValue(b[h..h + |op.key|], b, s) by { SetReads(b, op.key, op.value); }
    StaleAt(b, c, Record(op), r, op.key, h, s, v, u);
  }

  lemma {:induction false} SameStart(a: bytes, b: bytes)
    requires |a| == |b|
    ensures KeyStart(a) == KeyStart(b)
  {
  }

  lemma {:induction false} SetReads(b: bytes, key: bytes, value: bytes)
    requires KeyStart(key) + |key| <= |b|
    ensures var h := KeyStart(key);
            Reads(b, Set(key, value), h + |key|) == ParseValue(b[h..h + |key|], b, SizeStart(key))
  {
    KeyFirst(key);
    hide KeyStart, SizeStart, ParseValue;
  }

  lemma {:induction false} StaleAt(b: bytes, c: bytes, p: bytes, r: bytes, key: bytes, h: nat, s: nat, v: nat, u: bytes)
    requires |b| == |c| && s == h + |key| + 1 && Front(b, p, h + |key|) && Front(c, r, |r|)
    requires NUL !in key && |u| < U64 && s < v && v + |u| <= |r| && h + |key| <= |p| && p[h..h + |key|] == key
    requires r[s..v] == Digits(|u|) + [SP] && r[v..v + |u|] == u
    requires forall i | h + |key| < i < |b| :: b[i] == c[i]
    ensures h + |key| <= |b| && ParseValue(b[h..h + |key|], b, s) == Command(Set(key, u))
  {
    CStringNoNul(key);
    hide Digits, CString;
    PartIn(b, p, h + |key|, h, h + |key|);
    PartIn(c, r, |r|, s, v);
    PartIn(c, r, |r|, v, v + |u|);
    SameSlice(b, c, h + |key|, s, v);
    SameSlice(b, c, h + |key|, v, v + |u|);
    ValueAt(key, b, s, v, u);
  }

  lemma {:induction false} SameSlice(b: bytes, c: bytes, n: nat, i: nat, j: nat)
    requires |b| == |c| && n < i <= j <= |b| && forall k | n < k < |b| :: b[k] == c[k]
    ensures b[i..j] == c[i..j]
  {
  }

  /** A length and a value in the buffer. */
  lemma {:induction false} ValueAt(key: bytes, b: bytes, s: nat, v: nat, u: bytes)
    requires s < v && v + |u| <= |b| && |u| < U64 && b[s..v] == Digits(|u|) + [SP] && b[v..v + |u|] == u
    ensures ParseValue(key, b, s) == Command(Set(CString(key), u))
  {
    hide Digits, ScanSize, FindSpace, CString;
    assert b[s..][..v - s] == b[s..v];
    ScanPrinted(b, s, |u|);
    assert |Digits(|u|)| == v - s - 1;
  }

  /**
   * A record cut in a length ends the process at every start, until the log is mended:
   * whatever is in the buffer, the replay goes on from a null pointer.
   */
  lemma {:induction false} TornInLengthKills(buf: bytes, ops: seq<LogOp>, op: LogOp, p: bytes)
    requires |buf| == LINE_SIZE
    requires forall i | 0 <= i < |ops| :: Sized(ops[i]) && Fits(ops[i], Line(Record(ops[i])))
    requires Sized(op) && p <= Body(op) && (p != [] ==> Line(p) == p) && |p| < Needed(op)
    requires 5 <= |p| < KeyStart(op.key) ||
             (op.Set? && SizeStart(op.key) < |p| < ValueStart(op.key, op.value))
    ensures Replay(buf, Encode(ops) + p) == Outcome(ops, true)
  {
    hide *;
    TornExactly(buf, ops, op, p);
    TornLine(Left(buf, Encode(ops)), op, p);
    ThenSum(ops, Outcome([], true));
    assert ops + [] == ops;
    LengthIsNull(Filled(Left(buf, Encode(ops)), p), op, |p|);
  }

  lemma {:induction false} LengthIsNull(b: bytes, op: LogOp, n: nat)
    requires n < Needed(op) && |b| == LINE_SIZE
    requires 5 <= n < KeyStart(op.key) || (op.Set? && SizeStart(op.key) < n < ValueStart(op.key, op.value))
    requires n < LINE_SIZE
    ensures Reads(b, op, n) == AtNull
  {
    KeyFirst(op.key);
    CutNeeded(op);
    if op.Set? { NoValue(op.key); }
    hide KeyStart, SizeStart, ValueStart, ParseValue, CString, Needed;
  }

  lemma {:induction false} NoValue(key: bytes)
    ensures ValueStart(key, []) == SizeStart(key) + 2
  {
  }

  // ---- the record appended behind a torn one ----

  /**
   * The next record is appended behind the bytes of a torn one, on the same line. Of the
   * two at most one operation is carried out, wherever the first one was cut.
   */
  lemma {:induction false} TornJoinsNext(buf: bytes, ops: seq<LogOp>, p: bytes, next: LogOp)
    requires |buf| == LINE_SIZE && p != [] && Line(p + Record(next)) == p + Record(next)
    requires forall i | 0 <= i < |ops| :: Sized(ops[i]) && Fits(ops[i], Line(Record(ops[i])))
    ensures |p + Record(next)| < LINE_SIZE
    ensures Replay(buf, Encode(ops) + (p + Record(next))) ==
            match ReplayLine(Filled(Left(buf, Encode(ops)), p + Record(next)))
            case Skip => Outcome(ops, false)
            case Command(x) => Outcome(ops + [x], false)
            case _ => Outcome(ops, true)
  {
    var line := p + Record(next);
    LineIsShort(line);
    hide Record, Line, Filled, ReplayLine, Encode, Left, Sized, Fits;
    ReplayEncode(buf, ops, line);
    var b0 := Left(buf, Encode(ops));
    assert line[|line|..] == [];
    ReplayNothing(Filled(b0, line));
    var x := ReplayLine(Filled(b0, line));
    if x.Command? { assert [x.op] + [] == [x.op]; }
    ThenSum(ops, Replay(b0, line));
    assert ops + [] == ops;
  }

  /**
   * Behind a SET torn in its value, its first bytes become the end of that value, and it is
   * itself never carried out.
   */
  lemma {:induction false} TornSwallowsNext(buf: bytes, ops: seq<LogOp>, op: LogOp, p: bytes, next: LogOp, got: bytes)
    requires |buf| == LINE_SIZE
    requires forall i | 0 <= i < |ops| :: Sized(ops[i]) && Fits(ops[i], Line(Record(ops[i])))
    requires op.Set? && Sized(op) && p <= Body(op) && ValueStart(op.key, op.value) <= |p|
    requires |Body(op)| - |p| <= |Record(next)| && Line(p + Record(next)) == p + Record(next)
    requires got == p[ValueStart(op.key, op.value)..] + Record(next)[..|Body(op)| - |p|]
    ensures Replay(buf, Encode(ops) + (p + Record(next))) == Outcome(ops + [Set(op.key, got)], false)
  {
    hide *;
    var line := p + Record(next);
    ReplayEncode(buf, ops, line);
    var b0 := Left(buf, Encode(ops));
    RecordEnds(next);
    LineIsShort(line);
    SwallowedBody(op, p, next, got);
    var x := Set(op.key, got);
    BodyReads(Filled(b0, line), line, x);
    assert line[|line|..] == [];
    ReplayNothing(Filled(b0, line));
    ReplayOne(b0, line, line, x);
    ThenSum(ops, Outcome([x], false));
  }

  /** The torn bytes and those behind them are the record of another value. */
  lemma {:induction false} SwallowedBody(op: LogOp, p: bytes, next: LogOp, got: bytes)
    requires op.Set? && Sized(op) && p <= Body(op) && ValueStart(op.key, op.value) <= |p|
    requires |Body(op)| - |p| <= |Record(next)|
    requires got == p[ValueStart(op.key, op.value)..] + Record(next)[..|Body(op)| - |p|]
    ensures Sized(Set(op.key, got)) && Body(Set(op.key, got)) <= p + Record(next)
  {
    var v := ValueStart(op.key, op.value);
    var a := SetHead(op.key) + op.key + ValueHead(op.value);
    BodySplit(op.key, op.value);
    BodySplit(op.key, got);
    SizedSet(op.key, op.value);
    hide *;
    Swallowed(a, op.value, p, Record(next), got);
    assert |got| == |op.value|;
    SameHead(op.key, op.value, got);
    SizedSame(op, got);
  }

  lemma {:induction false} BodySplit(key: bytes, value: bytes)
    ensures var a := SetHead(key) + key + ValueHead(value);
            Body(Set(key, value)) == a + value && |a| == ValueStart(key, value)
  {
    hide Digits;
  }

  lemma {:induction false} Swallowed(a: bytes, value: bytes, p: bytes, r: bytes, got: bytes)
    requires p <= a + value && |a| <= |p| && |a + value| - |p| <= |r|
    requires got == p[|a|..] + r[..|a + value| - |p|]
    ensures |got| == |value| && a + got <= p + r
  {
    var m := |a + value| - |p|;
    assert p[..|a|] == (a + value)[..|p|][..|a|] == a;
    assert p == a + p[|a|..];
    assert a + got == p + r[..m];
    assert (p + r)[..|p| + m] == p + r[..m];
  }

  lemma {:induction false} SameHead(key: bytes, u: bytes, v: bytes)
    requires |u| == |v|
    ensures ValueHead(u) == ValueHead(v)
  {
  }

  lemma {:induction false} SizedSame(op: LogOp, got: bytes)
    requires op.Set? && Sized(op) && |got| == |op.value|
    ensures Sized(Set(op.key, got))
  {
  }

  /** The body of a SET at the front of the line, with anything behind it. */
  lemma {:induction false} BodyReads(b: bytes, line: bytes, op: LogOp)
    requires op.Set? && Sized(op) && Body(op) <= line && line <= b
    ensures ReplayLine(b) == Command(op)
  {
    hide *;
    var r, n := Record(op), |Body(op)|;
    var h, k, s, v, u := KeyStart(op.key), |op.key|, SizeStart(op.key), ValueStart(op.key, op.value), |op.value|;
    KeyParts(op);
    ValueParts(op.key, op.value);
    KeyFirst(op.key);
    SizedKey(op);
    SizedSet(op.key, op.value);
    SameFront(b, line, r, n);
    SetWord(b, r, n);
    SameFrontAt(b, r, n, 4, h);
    SameFrontAt(b, r, n, h, h + k);
    SameFrontAt(b, r, n, s, v);
    SameFrontAt(b, r, n, v, v + u);
    KeyAt(b, op.key, h);
    CStringNoNul(op.key);
    ValueAt(op.key, b, s, v, op.value);
    SetOfParts(b, op, h);
  }

  lemma {:induction false} SameFront(b: bytes, line: bytes, r: bytes, n: nat)
    requires n <= |r| && r[..n] <= line && line <= b
    ensures n <= |b| && b[..n] == r[..n]
  {
    assert b[..|line|][..n] == b[..n] && line[..n] == r[..n];
  }

  lemma {:induction false} SameFrontAt(b: bytes, r: bytes, n: nat, i: nat, j: nat)
    requires n <= |r| && n <= |b| && b[..n] == r[..n] && i <= j <= n
    ensures b[i..j] == r[i..j]
  {
    assert b[..n][i..j] == b[i..j] && r[..n][i..j] == r[i..j];
  }

  lemma {:induction false} SetWord(b: bytes, r: bytes, n: nat)
    requires 4 <= n <= |r| && n <= |b| && b[..n] == r[..n] && r[..4] == SET + [SP]
    ensures ReplayLine(b) == ParseSet(b)
  {
    hide ParseSet, ParseDel, Word;
    assert forall i | 0 <= i < 4 :: b[i] == b[..n][i] == r[i] == r[..4][i];
    assert b[..3] == SET;
    WordOfRecord(b, SET);
  }

  /** A length and a key in the buffer. */
  lemma {:induction false} KeyAt(b: bytes, key: bytes, h: nat)
    requires 4 < h && h + |key| <= |b| && |key| < U64 && b[4..h] == Digits(|key|) + [SP] && b[h..h + |key|] == key
    ensures ParseKey(b) == Bytes(key, Some(h + |key|))
  {
    hide Digits, ScanSize, FindSpace;
    assert b[4..][..h - 4] == b[4..h];
    ScanPrinted(b, 4, |key|);
    assert |Digits(|key|)| == h - 4 - 1;
  }

  lemma {:induction false} SetOfParts(b: bytes, op: LogOp, h: nat)
    requires op.Set? && ParseKey(b) == Bytes(op.key, Some(h + |op.key|))
    requires ReplayLine(b) == ParseSet(b) && ParseValue(op.key, b, h + |op.key| + 1) == Command(op)
    ensures ReplayLine(b) == Command(op)
  {
    hide ParseKey, ParseValue, ReplayLine;
  }

  // ---- a newline in a value ----

  /**
   * A value with a newline before its last byte, such as "a\nb", is not read back as
   * written: the line ends there, and the NUL that fgets adds takes the last byte's place.
   */
  lemma {:induction false} NewlineInValue(buf: bytes, key: bytes, v: bytes, x: byte)
    requires |buf| == LINE_SIZE
    requires |key| < U64 && |v| + 2 < U64 && NUL !in key && LF !in key && LF !in v && x != LF && x != NUL
    requires |Record(Set(key, v + [LF, x]))| <= LINE_SIZE
    ensures Replay(buf, Record(Set(key, v + [LF, x]))) == Outcome([Set(key, v + [LF, NUL])], false)
  {
    var op := Set(key, v + [LF, x]);
    NewlineShape(key, v, x);
    KeyParts(op);
    var r := Record(op);
    hide Record, Body, Replay, Reads, Digits, KeyStart, Filled;
    var n := |r| - 2;
    var line := r[..n];
    NewlineLine(r, n);
    var b := Filled(buf, line);
    FilledHolds(buf, op, line);
    LineExact(b, op, n);
    NewlineReads(b, key, v, x, n);
    SkipByte(b, x);
    assert r[n..] == [x, LF];
    ReplayOne(buf, r, line, Set(key, v + [LF, NUL]));
  }

  lemma {:induction false} NewlineLine(r: bytes, n: nat)
    requires 0 < n <= |r| && n < LINE_SIZE && r[n - 1] == LF && LF !in r[..n - 1]
    ensures Line(r) == r[..n]
  {
    assert forall j | 0 <= j < n - 1 :: r[j] == r[..n - 1][j];
    IndexOfAt(r, LF, 0, n - 1);
  }

  lemma {:induction false} SkipByte(buf: bytes, x: byte)
    requires |buf| == LINE_SIZE && x != LF
    ensures Replay(buf, [x, LF]) == Outcome([], false)
  {
    hide ReplayLine, Filled;
    var s := [x, LF];
    assert IndexOf(s, LF, 1) == 1;
    assert IndexOf(s, LF, 0) == 1;
    assert Line(s) == s && s[2..] == [];
    var b := Filled(buf, s);
    assert (s + [NUL])[0] == x && (s + [NUL])[1] == LF && (s + [NUL])[2] == NUL;
    ByteLine(b, x);
  }

  lemma {:induction false} ReplayOne(buf: bytes, log: bytes, line: bytes, op: LogOp)
    requires |buf| == LINE_SIZE && log != [] && Line(log) == line && ReplayLine(Filled(buf, line)) == Command(op)
    requires Replay(Filled(buf, line), log[|line|..]) == Outcome([], false)
    ensures Replay(buf, log) == Outcome([op], false)
  {
    hide ReplayLine, Filled, Line;
    assert [op] + [] == [op];
  }

  lemma {:induction false} NewlineShape(key: bytes, v: bytes, x: byte)
    requires LF !in key && LF !in v && x != LF
    ensures var r := Record(Set(key, v + [LF, x]));
            |r| > 4 && r[|r| - 1] == LF && r[|r| - 2] == x && r[|r| - 3] == LF && LF !in r[..|r| - 3]
  {
    hide Digits;
    var value := v + [LF, x];
    var head := SetHead(key) + key + ValueHead(value);
    assert Record(Set(key, value)) == (head + v) + [LF, x, LF];
    assert LF !in SetHead(key) && LF !in ValueHead(value);
  }

  lemma {:induction false} NewlineReads(b: bytes, key: bytes, v: bytes, x: byte, n: nat)
    requires Holds(b, Set(key, v + [LF, x]), n) && n == |Record(Set(key, v + [LF, x]))| - 2
    ensures Reads(b, Set(key, v + [LF, x]), n) == Command(Set(key, v + [LF, NUL]))
  {
    var op := Set(key, v + [LF, x]);
    KeyParts(op);
    ValueParts(key, op.value);
    KeyFirst(key);
    var w, u := ValueStart(key, op.value), |op.value|;
    assert SizeStart(key) < w;
    hide Record, Body, Digits, KeyStart, SizeStart, ValueStart;
    PartIn(b, Record(op), n, w, n);
    SubSlice(Record(op), w, w + u, n);
    assert op.value[..u - 1] == v + [LF];
    assert b[w..w + u] == b[w..n] + [b[n]];
    assert (v + [LF]) + [NUL] == v + [LF, NUL];
  }

  /** A line of one byte is no command. */
  lemma {:induction false} ByteLine(b: bytes, x: byte)
    requires |b| >= 3 && b[0] == x && b[1] == LF && b[2] == NUL
    ensures ReplayLine(b) == Skip
  {
    hide ParseSet, ParseDel;
    assert SkipSpace(b, 2) == 2 && SkipSpace(b, 1) == 2;
    assert WordEnd(b, 1, 14) == 1 && WordEnd(b, 2, 15) == 2;
    assert |Word(b)| <= 1;
  }
}
