/**
 * src/misc/http/parse.c: the request line, the headers and the body of a request at the
 * front of a buffer. A slice is its bytes; the code's pointers point at them.
 */
module Parse {
  import opened Bytes
  import opened Bits
  import LogCodec

  datatype Param = Param(key: bytes, val: bytes)

  datatype Request = Request(
    verb: bytes, path: bytes, params: seq<Param>, contentLength: int, body: bytes)

  // ---- the request line ----

  /** The first byte at or after p that is one of a, b, c, or the end. */
  function Until(s: bytes, p: nat, a: byte, b: byte, c: byte): (q: nat)
    requires p <= |s|
    ensures p <= q <= |s|
    ensures forall i | p <= i < q :: s[i] != a && s[i] != b && s[i] != c
    ensures q < |s| ==> s[q] == a || s[q] == b || s[q] == c
    decreases |s| - p
  {
    if p == |s| || s[p] == a || s[p] == b || s[p] == c then p else Until(s, p + 1, a, b, c)
  }

  const MAX_PARAMS: nat := 8

  /** One parameter from p on, and where the next one starts. */
  function OneParam(s: bytes, p: nat): (r: (Param, nat))
    requires p <= |s|
    ensures p <= r.1 <= |s|
  {
    var k := Until(s, p, EQ, AMP, SP);
    var hasVal := k < |s| && s[k] == EQ;
    var v := if hasVal then Until(s, k + 1, AMP, SP, SP) else k;
    (Param(s[p..k], if hasVal then s[k + 1..v] else []), if v < |s| && s[v] == AMP then v + 1 else v)
  }

  /** The parameters from p on, with `room` places left, and where the loop stops. */
  function Params(s: bytes, p: nat, room: nat): (r: (seq<Param>, nat))
    requires p <= |s|
    ensures p <= r.1 <= |s| && |r.0| <= room
    decreases room
  {
    if p == |s| || room == 0 || s[p] == SP then ([], p)
    else
      var (param, next) := OneParam(s, p);
      var (rest, end) := Params(s, next, room - 1);
      ([param] + rest, end)
  }

  /** What a request line is made of. */
  datatype RequestLine = RequestLine(verb: bytes, path: bytes, params: seq<Param>, consumed: nat)

  function ParseReqLine(s: bytes): (r: Option<RequestLine>)
    ensures r.Some? ==> r.value.consumed <= |s|
  {
    var m := Until(s, 0, SP, SP, SP);
    if m == |s| then None
    else
      var p := Until(s, m + 1, SP, QUERY, QUERY);
      if p == |s| then None
      else
        var (params, q) := if s[p] == QUERY then Params(s, p + 1, MAX_PARAMS) else ([], p);
        var e := IndexOf(s, LF, q);
        Some(RequestLine(s[..m], s[m + 1..p], params, if e < |s| then e + 1 else e))
  }

  // ---- the headers ----

  /** "Content-Length:" */
  const CONTENT_LENGTH: bytes := [67, 111, 110, 116, 101, 110, 116, 45, 76, 101, 110, 103, 116, 104, 58]

  const INT_LIMIT := 0x8000_0000

  /** The int that `len * 10 + digit` leaves, taking an overflow to wrap around. */
  function WrapInt(n: int): int {
    (n + INT_LIMIT) % U32 - INT_LIMIT
  }

  function SkipBlanks(s: bytes, p: nat): (q: nat)
    requires p <= |s|
    ensures p <= q <= |s|
    decreases |s| - p
  {
    if p < |s| && (s[p] == SP || s[p] == TAB) then SkipBlanks(s, p + 1) else p
  }

  /** The digit loop: the number and where it stops. */
  function ScanInt(s: bytes, p: nat, len: int): (r: (int, nat))
    requires p <= |s|
    ensures p <= r.1 <= |s|
    decreases |s| - p
  {
    if p < |s| && ZERO <= s[p] <= NINE then ScanInt(s, p + 1, WrapInt(len * 10 + (s[p] - ZERO))) else (len, p)
  }

  /** memcmp(p, "Content-Length:", 15) == 0 inside the buffer. */
  predicate IsLengthHeader(s: bytes, p: nat)
    requires p <= |s|
  {
    |s| - p >= 15 && s[p..p + 15] == CONTENT_LENGTH
  }

  /** The value and the position after a header line that sets the length, if it is one. */
  function LengthHeader(s: bytes, p: nat): (r: Option<(int, nat)>)
    requires p <= |s|
    ensures r.Some? ==> p < r.value.1 <= |s|
  {
    if IsLengthHeader(s, p) then Some(ScanInt(s, SkipBlanks(s, p + 15), 0)) else None
  }

  /** The header loop from p on with the length so far: the length and the end of the headers. */
  function HeadersFrom(s: bytes, p: nat, length: int): (r: Option<(int, nat)>)
    requires p <= |s|
    ensures r.Some? ==> p < r.value.1 <= |s|
    decreases |s| - p
  {
    if p + 1 >= |s| then None
    else if s[p] == CR && s[p + 1] == LF then Some((length, p + 2))
    else
      var h := LengthHeader(s, p);
      var (length', q) := if h.Some? then h.value else (length, p);
      var e := IndexOf(s, LF, q);
      if e < |s| then HeadersFrom(s, e + 1, length') else None
  }

  // ---- the request ----

  /** parse_http_req: the request at the front of the buffer and the bytes it takes, or -1. */
  function ParseRequest(s: bytes): (r: Option<(Request, nat)>)
    ensures r.Some? ==> 0 < r.value.1 <= |s|
  {
    var eol := IndexOf(s, LF, 0);
    if eol == |s| then None
    else
      match ParseReqLine(s[..eol + 1])
      case None => None
      case Some(line) =>
        var rest := s[line.consumed..];
        match HeadersFrom(rest, 0, 0)
        case None => None
        case Some((length, end)) =>
          var pos := line.consumed + end;
          if length > 0 then
            if |s| - pos < length then None
            else Some((Request(line.verb, line.path, line.params, length, s[pos..pos + length]), pos + length))
          else
            Some((Request(line.verb, line.path, line.params, length, []), pos))
  }

  // ---- more input does not change a request that is complete ----

  lemma {:induction false} SkipBlanksStable(s: bytes, ext: bytes, p: nat)
    requires p <= |s| && SkipBlanks(s, p) < |s|
    ensures SkipBlanks(s + ext, p) == SkipBlanks(s, p)
    decreases |s| - p
  {
    if s[p] == SP || s[p] == TAB { SkipBlanksStable(s, ext, p + 1); }
  }

  lemma {:induction false} ScanIntStable(s: bytes, ext: bytes, p: nat, len: int)
    requires p <= |s| && ScanInt(s, p, len).1 < |s|
    ensures ScanInt(s + ext, p, len) == ScanInt(s, p, len)
    decreases |s| - p
  {
    if ZERO <= s[p] <= NINE { ScanIntStable(s, ext, p + 1, WrapInt(len * 10 + (s[p] - ZERO))); }
  }

  lemma {:induction false} NoLfInLengthHeader()
    ensures |CONTENT_LENGTH| == 15 && LF !in CONTENT_LENGTH
  {
  }

  /** A line that ends in the buffer starts with the field name or not, whatever follows it. */
  lemma {:induction false} IsLengthHeaderStable(s: bytes, ext: bytes, p: nat)
    requires p <= |s| && (|s| - p >= 15 || IndexOf(s, LF, p) < |s|)
    ensures IsLengthHeader(s + ext, p) == IsLengthHeader(s, p)
  {
    NoLfInLengthHeader();
    hide CONTENT_LENGTH;
    var t := s + ext;
    if |s| - p >= 15 {
      assert t[p..p + 15] == s[p..p + 15];
    } else if |t| - p >= 15 {
      var e := IndexOf(s, LF, p);
      assert t[p..p + 15][e - p] == LF;
    }
  }

  /** Where the code looks for the end of a header line. */
  function ValueEnd(s: bytes, p: nat): (q: nat)
    requires p <= |s|
    ensures p <= q <= |s|
  {
    match LengthHeader(s, p) case None => p case Some((_, q)) => q
  }

  lemma {:induction false} LengthHeaderStable(s: bytes, ext: bytes, p: nat)
    requires p <= |s| && IndexOf(s, LF, ValueEnd(s, p)) < |s|
    ensures LengthHeader(s + ext, p) == LengthHeader(s, p)
  {
    hide IsLengthHeader;
    if IsLengthHeader(s, p) {
      LengthHeaderLong(s, p);
      SkipBlanksStable(s, ext, p + 15);
      ScanIntStable(s, ext, SkipBlanks(s, p + 15), 0);
    }
    IsLengthHeaderStable(s, ext, p);
  }

  lemma {:induction false} LengthHeaderLong(s: bytes, p: nat)
    requires p <= |s| && IsLengthHeader(s, p)
    ensures |s| - p >= 15
  {
  }

  lemma {:induction false} HeadersStable(s: bytes, ext: bytes, p: nat, length: int)
    requires p <= |s| && HeadersFrom(s, p, length).Some?
    ensures HeadersFrom(s + ext, p, length) == HeadersFrom(s, p, length)
    decreases |s| - p
  {
    hide LengthHeader, IndexOf;
    if !(s[p] == CR && s[p + 1] == LF) {
      LengthHeaderStable(s, ext, p);
      var (length', q) := match LengthHeader(s, p) case None => (length, p) case Some(h) => h;
      IndexOfExtends(s, ext, LF, q);
      HeadersStable(s, ext, IndexOf(s, LF, q) + 1, length');
    }
  }

  /** The request line is always taken whole. */
  lemma {:induction false} ReqLineTakesLine(line: bytes)
    requires |line| > 0 && line[|line| - 1] == LF && LF !in line[..|line| - 1]
    ensures ParseReqLine(line).Some? ==> ParseReqLine(line).value.consumed == |line|
  {
    forall i | 0 <= i < |line| - 1 ensures line[i] != LF { assert line[i] == line[..|line| - 1][i]; }
    forall q: nat | q <= |line| ensures IndexOf(line, LF, q) == |line| || IndexOf(line, LF, q) == |line| - 1 { }
  }

  /**
   * Prefix stability: once a request parses, it parses to the same request, taking the
   * same bytes, whatever else has arrived behind it.
   */
  lemma {:induction false} ParseStable(s: bytes, ext: bytes)
    requires ParseRequest(s).Some?
    ensures ParseRequest(s + ext) == ParseRequest(s)
  {
    hide ParseReqLine, HeadersFrom;
    var t, eol := s + ext, IndexOf(s, LF, 0);
    IndexOfExtends(s, ext, LF, 0);
    assert t[..eol + 1] == s[..eol + 1];
    var line := ParseReqLine(s[..eol + 1]).value;
    var rest := s[line.consumed..];
    assert t[line.consumed..] == rest + ext;
    HeadersStable(rest, ext, 0, 0);
    var (length, end) := HeadersFrom(rest, 0, 0).value;
    var pos := line.consumed + end;
    if length > 0 {
      assert t[pos..pos + length] == s[pos..pos + length];
    }
  }

  // ---- the length field ----

  /**
   * The length that the code reads is an int that differs from the number written by a
   * multiple of 2^32; so it is that number exactly when the number fits.
   */
  lemma {:induction false} ContentLengthExactly(s: bytes, p: nat)
    requires p <= |s|
    ensures var (len, q) := ScanInt(s, p, 0);
            && (forall i | p <= i < q :: LogCodec.IsDigit(s[i])) && (q < |s| ==> !LogCodec.IsDigit(s[q]))
            && IntRange(len) && (len - LogCodec.DigitsValue(s[p..q])) % U32 == 0
            && (len == LogCodec.DigitsValue(s[p..q]) <==> LogCodec.DigitsValue(s[p..q]) < INT_LIMIT)
  {
    var e := LogCodec.DigitsEnd(s, p);
    LogCodec.DigitsEndStops(s, p);
    assert s[p..p] == [];
    ScanIntValue(s, p, p, e, 0);
    var len, v := ScanInt(s, p, 0).0, LogCodec.DigitsValue(s[p..e]);
    hide ScanInt, LogCodec.DigitsValue;
    NearIsSame(len, v);
  }

  predicate IntRange(n: int) { -INT_LIMIT <= n < INT_LIMIT }

  lemma {:induction false} WrapIntRange(n: int)
    ensures IntRange(WrapInt(n)) && (WrapInt(n) - n) % U32 == 0
  {
    var q := (n + INT_LIMIT) / U32;
    ModUnique(WrapInt(n) - n, U32, -q, 0);
  }

  lemma {:induction false} NearIsSame(len: int, v: nat)
    requires IntRange(len) && (len - v) % U32 == 0
    ensures len == v <==> v < INT_LIMIT
  {
  }

  lemma {:induction false} MultiplesAdd(a: int, b: int)
    requires a % U32 == 0 && b % U32 == 0
    ensures (a + 10 * b) % U32 == 0
  {
    ModUnique(a + 10 * b, U32, a / U32 + 10 * (b / U32), 0);
  }

  lemma {:induction false} ScanIntValue(s: bytes, p: nat, i: nat, e: nat, len: int)
    requires p <= i <= e <= |s| && (forall j | p <= j < e :: LogCodec.IsDigit(s[j]))
    requires e < |s| ==> !LogCodec.IsDigit(s[e])
    requires IntRange(len) && (len - LogCodec.DigitsValue(s[p..i])) % U32 == 0
    ensures var r := ScanInt(s, i, len);
            r.1 == e && IntRange(r.0) && (r.0 - LogCodec.DigitsValue(s[p..e])) % U32 == 0
    decreases e - i
  {
    if i < e {
      assert s[p..i + 1][..i - p] == s[p..i];
      var d, v := s[i] - ZERO, LogCodec.DigitsValue(s[p..i]);
      assert LogCodec.DigitsValue(s[p..i + 1]) == 10 * v + d;
      var len' := WrapInt(len * 10 + d);
      WrapIntRange(len * 10 + d);
      MultiplesAdd(len' - (len * 10 + d), len - v);
      hide WrapInt, LogCodec.DigitsValue;
      ScanIntValue(s, p, i + 1, e, len');
    }
  }

  // ---- what a parameter slice can contain ----

  /** The delimiters and the newline are outside a slice. */
  predicate CleanParam(param: Param) {
    && SP !in param.key && AMP !in param.key && EQ !in param.key && LF !in param.key
    && SP !in param.val && AMP !in param.val && LF !in param.val
  }

  predicate CleanBut(param: Param) {
    && SP !in param.key && AMP !in param.key && EQ !in param.key
    && SP !in param.val && AMP !in param.val
  }

  lemma {:induction false} SliceWithout(s: bytes, i: nat, j: nat, b: byte)
    requires i <= j <= |s| && forall l | i <= l < j :: s[l] != b
    ensures b !in s[i..j]
  {
  }

  lemma {:induction false} SliceEnd(s: bytes, i: nat, j: nat)
    requires i <= j <= |s| && s != [] && s[|s| - 1] == LF && LF !in s[..|s| - 1]
    ensures LF in s[i..j] <==> i < j == |s|
  {
    if i < j == |s| {
      assert s[i..j][j - i - 1] == LF;
    } else {
      forall l | i <= l < j ensures s[l] != LF { assert s[l] == s[..|s| - 1][l]; }
    }
  }

  /** A slice takes in the newline at the end of the line exactly when the loop runs over it. */
  lemma {:induction false} OneParamSlices(s: bytes, p: nat)
    requires p < |s| && s[|s| - 1] == LF && LF !in s[..|s| - 1] && s[p] != SP
    ensures var (param, next) := OneParam(s, p);
            && CleanBut(param) && p < next
            && (LF in param.key || LF in param.val <==> next == |s|)
  {
    hide Until;
    var k := Until(s, p, EQ, AMP, SP);
    SliceWithout(s, p, k, EQ);
    SliceWithout(s, p, k, AMP);
    SliceWithout(s, p, k, SP);
    SliceEnd(s, p, k);
    if k < |s| && s[k] == EQ {
      var v := Until(s, k + 1, AMP, SP, SP);
      SliceWithout(s, k + 1, v, AMP);
      SliceWithout(s, k + 1, v, SP);
      SliceEnd(s, k + 1, v);
    }
  }

  predicate AllCleanBut(params: seq<Param>) {
    |params| == 0 || (CleanBut(params[0]) && AllCleanBut(params[1..]))
  }

  predicate AllClean(params: seq<Param>) {
    |params| == 0 || (CleanParam(params[0]) && AllClean(params[1..]))
  }

  lemma {:induction false} AllCleanAt(params: seq<Param>, i: nat)
    requires AllClean(params) && i < |params|
    ensures CleanParam(params[i])
    decreases i
  {
    if i > 0 { AllCleanAt(params[1..], i - 1); }
  }

  /** One round of the parameter loop. */
  lemma {:induction false} ParamsStep(s: bytes, p: nat, room: nat)
    requires p <= |s|
    ensures p == |s| || room == 0 || s[p] == SP ==> Params(s, p, room) == ([], p)
    ensures p < |s| && room > 0 && s[p] != SP ==>
              var (param, next) := OneParam(s, p);
              Params(s, p, room) == ([param] + Params(s, next, room - 1).0, Params(s, next, room - 1).1)
  {
    hide OneParam;
  }

  /**
   * The parameters of a line are free of spaces, ampersands and, exactly when the loop
   * stops before the end of the line, of its newline.
   */
  lemma {:induction false} ParamsClean(s: bytes, p: nat, room: nat)
    requires p < |s| && s[|s| - 1] == LF && LF !in s[..|s| - 1]
    ensures var (params, end) := Params(s, p, room);
            AllCleanBut(params) && (AllClean(params) <==> end < |s|)
    decreases room
  {
    hide Params, OneParam;
    ParamsStep(s, p, room);
    if room != 0 && s[p] != SP {
      OneParamSlices(s, p);
      var (param, next) := OneParam(s, p);
      var rest := Params(s, next, room - 1).0;
      assert ([param] + rest)[0] == param && ([param] + rest)[1..] == rest;
      if next < |s| { ParamsClean(s, next, room - 1); } else { ParamsStep(s, next, room - 1); }
    }
  }

  /** A space at or behind p stops the loop there at the latest. */
  lemma {:induction false} ParamsStopAtSpace(s: bytes, p: nat, room: nat, sp: nat)
    requires p <= sp < |s| && s[sp] == SP
    ensures Params(s, p, room).1 <= sp
    decreases room
  {
    hide Params;
    ParamsStep(s, p, room);
    if room != 0 && s[p] != SP {
      ParamsStopAtSpace(s, OneParam(s, p).1, room - 1, sp);
    }
  }

  /** Where the query of a line starts, behind the `?`. */
  function QueryStart(line: bytes): nat {
    var m := Until(line, 0, SP, SP, SP);
    if m == |line| then |line|
    else
      var p := Until(line, m + 1, SP, QUERY, QUERY);
      if p == |line| || line[p] != QUERY then |line| else p + 1
  }

  /**
   * For a request line with a space behind its query, every parameter is free of
   * spaces, ampersands and newlines.
   */
  lemma {:induction false} LineParamsClean(line: bytes, sp: nat)
    requires line != [] && line[|line| - 1] == LF && LF !in line[..|line| - 1]
    requires ParseReqLine(line).Some? && QueryStart(line) <= sp < |line| && line[sp] == SP
    ensures var params := ParseReqLine(line).value.params; forall i | 0 <= i < |params| :: CleanParam(params[i])
  {
    var q := QueryStart(line);
    ParamsStopAtSpace(line, q, MAX_PARAMS, sp);
    ParamsClean(line, q, MAX_PARAMS);
    var params := ParseReqLine(line).value.params;
    hide ParseReqLine, QueryStart;
    forall i | 0 <= i < |params| ensures CleanParam(params[i]) { AllCleanAt(params, i); }
  }

  /** A newline is at most the last byte. */
  predicate LfLast(s: bytes) {
    s != [] ==> LF !in s[..|s| - 1]
  }

  lemma {:induction false} SliceLf(s: bytes, i: nat, j: nat)
    requires i <= j <= |s| && s != [] && LF !in s[..|s| - 1]
    ensures LfLast(s[i..j])
  {
    if i < j {
      forall k | i <= k < j - 1 ensures s[k] != LF { assert s[k] == s[..|s| - 1][k]; }
      assert s[i..j][..j - i - 1] == s[i..j - 1];
    }
  }

  lemma {:induction false} ParamsLf(s: bytes, p: nat, room: nat)
    requires p <= |s| && s != [] && LF !in s[..|s| - 1]
    ensures var params := Params(s, p, room).0;
            forall i | 0 <= i < |params| :: LfLast(params[i].key) && LfLast(params[i].val)
    decreases room
  {
    hide Params, OneParam, LfLast;
    ParamsStep(s, p, room);
    if p < |s| && room > 0 && s[p] != SP {
      var (param, next) := OneParam(s, p);
      OneParamLf(s, p);
      ParamsLf(s, next, room - 1);
    }
  }

  lemma {:induction false} OneParamLf(s: bytes, p: nat)
    requires p <= |s| && s != [] && LF !in s[..|s| - 1]
    ensures var param := OneParam(s, p).0; LfLast(param.key) && LfLast(param.val)
  {
    hide Until;
    var k := Until(s, p, EQ, AMP, SP);
    SliceLf(s, p, k);
    if k < |s| && s[k] == EQ { SliceLf(s, k + 1, Until(s, k + 1, AMP, SP, SP)); }
  }

  /** In every accepted request line a newline is at most the last byte of a parameter. */
  lemma {:induction false} LineParamsLf(line: bytes)
    requires line != [] && LF !in line[..|line| - 1] && ParseReqLine(line).Some?
    ensures var params := ParseReqLine(line).value.params;
            forall i | 0 <= i < |params| :: LfLast(params[i].key) && LfLast(params[i].val)
  {
    hide Params, LfLast;
    var p := Until(line, Until(line, 0, SP, SP, SP) + 1, SP, QUERY, QUERY);
    if line[p] == QUERY {
      ParamsLf(line, p + 1, MAX_PARAMS);
      assert ParseReqLine(line).value.params == Params(line, p + 1, MAX_PARAMS).0;
    } else {
      assert ParseReqLine(line).value.params == [];
    }
  }

  // ---- the loops of the code ----

  /** The loops of parse_req_line that run up to a delimiter. */
  method ScanUntil(buf: bytes, start: nat, a: byte, b: byte, c: byte) returns (p: nat)
    requires start <= |buf|
    ensures p == Until(buf, start, a, b, c)
  {
    p := start;
    while p < |buf| && buf[p] != a && buf[p] != b && buf[p] != c
      invariant start <= p <= |buf| && Until(buf, p, a, b, c) == Until(buf, start, a, b, c)
    {
      p := p + 1;
    }
  }

  /** The loops that run to the end of a line and step over its newline. */
  method SkipLine(buf: bytes, start: nat) returns (p: nat)
    requires start <= |buf|
    ensures var e := IndexOf(buf, LF, start); p == if e < |buf| then e + 1 else e
  {
    p := start;
    while p < |buf| && buf[p] != LF
      invariant start <= p <= |buf| && IndexOf(buf, LF, p) == IndexOf(buf, LF, start)
    {
      p := p + 1;
    }
    if p < |buf| {
      p := p + 1;
    }
  }

  /** parse_req_line, on the bytes of the line. */
  method ReqLine(buf: bytes) returns (r: Option<RequestLine>)
    ensures r == ParseReqLine(buf)
  {
    hide Until, Params, IndexOf;
    var m := ScanUntil(buf, 0, SP, SP, SP);
    if m == |buf| {
      return None;
    }
    var p := ScanUntil(buf, m + 1, SP, QUERY, QUERY);
    if p == |buf| {
      return None;
    }
    var params, q := [], p;
    if buf[p] == QUERY {
      params, q := Query(buf, p + 1);
    }
    var e := SkipLine(buf, q);
    return Some(RequestLine(buf[..m], buf[m + 1..p], params, e));
  }

  /** The body of the parameter loop. */
  method NextParam(buf: bytes, p: nat) returns (param: Param, next: nat)
    requires p <= |buf|
    ensures (param, next) == OneParam(buf, p)
  {
    hide Until;
    var k := ScanUntil(buf, p, EQ, AMP, SP);
    var val, v := [], k;
    if k < |buf| && buf[k] == EQ {
      v := ScanUntil(buf, k + 1, AMP, SP, SP);
      val := buf[k + 1..v];
    }
    param := Param(buf[p..k], val);
    next := if v < |buf| && buf[v] == AMP then v + 1 else v;
  }

  /** The parameter loop of parse_req_line. */
  method Query(buf: bytes, start: nat) returns (params: seq<Param>, p: nat)
    requires start <= |buf|
    ensures params == Params(buf, start, MAX_PARAMS).0 && p == Params(buf, start, MAX_PARAMS).1
  {
    hide OneParam, Params;
    params, p := [], start;
    var idx := 0;
    ghost var rest := Params(buf, start, MAX_PARAMS).0;
    ghost var all := rest;
    assert params + rest == all;
    while p < |buf| && idx < MAX_PARAMS && buf[p] != SP
      invariant 0 <= idx <= MAX_PARAMS && p <= |buf|
      invariant all == params + rest && rest == Params(buf, p, MAX_PARAMS - idx).0
      invariant Params(buf, start, MAX_PARAMS).1 == Params(buf, p, MAX_PARAMS - idx).1
      decreases MAX_PARAMS - idx
    {
      ParamsStep(buf, p, MAX_PARAMS - idx);
      var param, next := NextParam(buf, p);
      assert rest == [param] + rest[1..];
      params, p, idx, rest := params + [param], next, idx + 1, rest[1..];
    }
    ParamsStep(buf, p, MAX_PARAMS - idx);
    assert params + [] == params;
  }

  /** The blanks and digits after the field name. */
  method LengthValue(buf: bytes, start: nat) returns (len: int, p: nat)
    requires start <= |buf|
    ensures (len, p) == ScanInt(buf, SkipBlanks(buf, start), 0)
  {
    p := start;
    while p < |buf| && (buf[p] == SP || buf[p] == TAB)
      invariant start <= p <= |buf| && SkipBlanks(buf, p) == SkipBlanks(buf, start)
    {
      p := p + 1;
    }
    len := 0;
    ghost var d := p;
    while p < |buf| && ZERO <= buf[p] <= NINE
      invariant d <= p <= |buf| && ScanInt(buf, p, len) == ScanInt(buf, d, 0)
    {
      len := WrapInt(len * 10 + (buf[p] - ZERO));
      p := p + 1;
    }
  }

  /** parse_headers: the length and the end of the headers. */
  method Headers(buf: bytes) returns (r: Option<(int, nat)>)
    ensures r == HeadersFrom(buf, 0, 0)
  {
    hide IsLengthHeader, ScanInt, SkipBlanks, IndexOf;
    var p: nat, length := 0, 0;
    while p < |buf| - 1
      invariant p <= |buf| && HeadersFrom(buf, 0, 0) == HeadersFrom(buf, p, length)
      decreases |buf| - p
    {
      if buf[p] == CR && buf[p + 1] == LF {
        return Some((length, p + 2));
      }
      var q := p;
      if IsLengthHeader(buf, p) {
        LengthHeaderLong(buf, p);
        length, q := LengthValue(buf, p + 15);
      }
      p := SkipLine(buf, q);
    }
    return None;
  }

  /** parse_http_req. */
  method HttpReq(buf: bytes) returns (r: Option<(Request, nat)>)
    ensures r == ParseRequest(buf)
  {
    hide ParseReqLine, HeadersFrom, IndexOf;
    var eol := IndexOf(buf, LF, 0);
    if eol == |buf| {
      return None;
    }
    var line := ReqLine(buf[..eol + 1]);
    if line == None {
      return None;
    }
    var pos := line.value.consumed;
    var headers := Headers(buf[pos..]);
    if headers == None {
      return None;
    }
    var (length, end) := headers.value;
    pos := pos + end;
    var body := [];
    if length > 0 {
      if |buf| - pos < length {
        return None;
      }
      body := buf[pos..pos + length];
      pos := pos + length;
    }
    return Some((Request(line.value.verb, line.value.path, line.value.params, length, body), pos));
  }
}
