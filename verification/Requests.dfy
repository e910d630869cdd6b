/**
 * Requests as a client writes them, and what src/misc/http/parse.c makes of them: the
 * request line with its query, header lines, and a body of the length they announce.
 */
module Requests {
  import opened Bytes
  import opened Bits
  import opened Parse
  import LogCodec

  // ---- the query ----

  /** One `key=value` or `key` of a query. */
  datatype Arg = Arg(key: bytes, val: Option<bytes>)

  function ArgText(a: Arg): bytes {
    match a.val case None => a.key case Some(v) => a.key + ([EQ] + v)
  }

  /** Arguments joined with `&`. */
  function QueryText(args: seq<Arg>): bytes
    decreases |args|
  {
    if |args| == 0 then []
    else if |args| == 1 then ArgText(args[0])
    else ArgText(args[0]) + ([AMP] + QueryText(args[1..]))
  }

  /** No delimiter where it would end the key or the value. */
  predicate ArgOk(a: Arg) {
    && EQ !in a.key && AMP !in a.key && SP !in a.key && LF !in a.key
    && (a.val.Some? ==> AMP !in a.val.value && SP !in a.val.value && LF !in a.val.value)
  }

  predicate ArgsOk(args: seq<Arg>) {
    && (forall i | 0 <= i < |args| :: ArgOk(args[i]))
    && (|args| > 0 ==> ArgText(args[|args| - 1]) != [])
  }

  function ParamOf(a: Arg): Param {
    Param(a.key, match a.val case None => [] case Some(v) => v)
  }

  /** What a handler sees of the arguments: the first `room` of them. */
  function ParamsOf(args: seq<Arg>, room: nat): seq<Param>
    decreases |args|
  {
    if |args| == 0 || room == 0 then [] else [ParamOf(args[0])] + ParamsOf(args[1..], room - 1)
  }

  lemma {:induction false} UntilAt(s: bytes, p: nat, q: nat, a: byte, b: byte, c: byte)
    requires p <= q < |s| && (s[q] == a || s[q] == b || s[q] == c)
    requires forall i | p <= i < q :: s[i] != a && s[i] != b && s[i] != c
    ensures Until(s, p, a, b, c) == q
    decreases q - p
  {
    if p < q { UntilAt(s, p + 1, q, a, b, c); }
  }

  /** A part of a string, at its place. */
  lemma {:induction false} PartAt(s: bytes, p: nat, w: bytes, rest: bytes)
    requires p <= |s| && s[p..] == w + rest
    ensures p + |w| <= |s| && s[p..p + |w|] == w && s[p + |w|..] == rest
    ensures forall i | 0 <= i < |w| :: s[p + i] == w[i]
  {
    assert |s[p..]| == |w| + |rest|;
    assert s[p..p + |w|] == s[p..][..|w|] == w;
    assert s[p + |w|..] == s[p..][|w|..] == rest;
    forall i | 0 <= i < |w| ensures s[p + i] == w[i] { assert s[p..][i] == (w + rest)[i]; }
  }

  /** A field that ends at the first of its delimiters. */
  lemma {:induction false} FieldEnds(s: bytes, p: nat, w: bytes, d: byte, rest: bytes, a: byte, b: byte, c: byte)
    requires p <= |s| && s[p..] == w + ([d] + rest) && (d == a || d == b || d == c)
    requires a !in w && b !in w && c !in w
    ensures var e := p + |w|;
            && e < |s| && s[e] == d && s[p..e] == w && s[e + 1..] == rest && Until(s, p, a, b, c) == e
  {
    hide Until;
    PartAt(s, p, w, [d] + rest);
    var e := p + |w|;
    PartAt(s, e, [d], rest);
    forall i | p <= i < e ensures s[i] != a && s[i] != b && s[i] != c { assert s[i] == s[p + (i - p)] == w[i - p]; }
    UntilAt(s, p, e, a, b, c);
  }

  /** One argument, up to the `&` or the space behind it. */
  lemma {:induction false} OneArg(s: bytes, p: nat, a: Arg, d: byte, rest: bytes)
    requires p <= |s| && ArgOk(a) && (d == AMP || d == SP) && s[p..] == ArgText(a) + ([d] + rest)
    ensures var e := p + |ArgText(a)|;
            e < |s| && s[e] == d && s[e + 1..] == rest && OneParam(s, p) == (ParamOf(a), if d == AMP then e + 1 else e)
  {
    hide *;
    match a.val
    case None =>
      KeyAlone(a);
      FieldEnds(s, p, a.key, d, rest, EQ, AMP, SP);
      BareParam(s, p, a.key, d);
    case Some(v) =>
      KeyAndValue(a, d, rest);
      OneValued(s, p, a.key, v, d, rest);
  }

  lemma {:induction false} OneValued(s: bytes, p: nat, key: bytes, v: bytes, d: byte, rest: bytes)
    requires p <= |s| && s[p..] == key + ([EQ] + (v + ([d] + rest))) && (d == AMP || d == SP)
    requires EQ !in key && AMP !in key && SP !in key && AMP !in v && SP !in v
    ensures var e := p + |key| + 1 + |v|;
            && e < |s| && s[e] == d && s[e + 1..] == rest
            && OneParam(s, p) == (Param(key, v), if d == AMP then e + 1 else e)
  {
    hide *;
    FieldEnds(s, p, key, EQ, v + ([d] + rest), EQ, AMP, SP);
    FieldEnds(s, p + |key| + 1, v, d, rest, AMP, SP, SP);
    ValuedParam(s, p, key, v, d);
  }

  lemma {:induction false} KeyAlone(a: Arg)
    requires ArgOk(a) && a.val == None
    ensures ArgText(a) == a.key && EQ !in a.key && AMP !in a.key && SP !in a.key && ParamOf(a) == Param(a.key, [])
  {
  }

  lemma {:induction false} KeyAndValue(a: Arg, d: byte, rest: bytes)
    requires ArgOk(a) && a.val.Some?
    ensures var v := a.val.value;
            && ArgText(a) + ([d] + rest) == a.key + ([EQ] + (v + ([d] + rest))) && |ArgText(a)| == |a.key| + 1 + |v|
            && EQ !in a.key && AMP !in a.key && SP !in a.key && AMP !in v && SP !in v && ParamOf(a) == Param(a.key, v)
  {
    Assoc4(a.key, [EQ], a.val.value, [d] + rest);
  }

  lemma {:induction false} BareParam(s: bytes, p: nat, key: bytes, d: byte)
    requires p + |key| < |s| && s[p + |key|] == d && s[p..p + |key|] == key && (d == AMP || d == SP)
    requires Until(s, p, EQ, AMP, SP) == p + |key|
    ensures OneParam(s, p) == (Param(key, []), if d == AMP then p + |key| + 1 else p + |key|)
  {
    hide Until;
  }

  lemma {:induction false} ValuedParam(s: bytes, p: nat, key: bytes, v: bytes, d: byte)
    requires var k := p + |key|;
             var e := k + 1 + |v|;
             && e < |s| && s[k] == EQ && s[e] == d && s[p..k] == key && s[k + 1..e] == v && (d == AMP || d == SP)
             && Until(s, p, EQ, AMP, SP) == k && Until(s, k + 1, AMP, SP, SP) == e
    ensures var e := p + |key| + 1 + |v|; OneParam(s, p) == (Param(key, v), if d == AMP then e + 1 else e)
  {
    hide Until;
  }

  lemma {:induction false} Assoc4(a: bytes, b: bytes, c: bytes, d: bytes)
    ensures (a + (b + c)) + d == a + (b + (c + d))
  {
  }

  /** A query is read back argument by argument. */
  lemma {:induction false} QueryParams(s: bytes, p: nat, args: seq<Arg>, rest: bytes, room: nat)
    requires p <= |s| && ArgsOk(args) && s[p..] == QueryText(args) + ([SP] + rest)
    ensures Params(s, p, room).0 == ParamsOf(args, room)
    ensures Params(s, p, room).1 <= p + |QueryText(args)|
    decreases |args|
  {
    hide *;
    ParamsStep(s, p, room);
    QueryUnfold(args, rest, room);
    if |args| == 0 {
      PartAt(s, p, [SP], rest);
    } else {
      var a, more, d := args[0], args[1..], if |args| == 1 then SP else AMP;
      var behind := if |args| == 1 then rest else QueryText(more) + ([SP] + rest);
      FirstNotSpace(s, p, a, d, behind);
      OneArg(s, p, a, d, behind);
      if room > 0 {
        var e := p + |ArgText(a)|;
        if |args| == 1 {
          ParamsStep(s, e, room - 1);
          SpaceStops(s, e, room - 1);
        } else {
          QueryParams(s, e + 1, more, rest, room - 1);
        }
      }
    }
  }

  lemma {:induction false} SpaceStops(s: bytes, p: nat, room: nat)
    requires p < |s| && s[p] == SP
    ensures Params(s, p, room) == ([], p)
  {
  }

  /** The first argument, and what follows it. */
  lemma {:induction false} QueryUnfold(args: seq<Arg>, rest: bytes, room: nat)
    requires ArgsOk(args)
    ensures |args| == 0 || room == 0 ==> ParamsOf(args, room) == []
    ensures |args| == 0 ==> QueryText(args) + ([SP] + rest) == [SP] + rest && QueryText(args) == []
    ensures |args| > 0 ==>
              && ArgOk(args[0]) && ArgsOk(args[1..]) && (|args| == 1 ==> ArgText(args[0]) != [])
              && QueryText(args) + ([SP] + rest) ==
                 (if |args| == 1 then ArgText(args[0]) + ([SP] + rest)
                  else ArgText(args[0]) + ([AMP] + (QueryText(args[1..]) + ([SP] + rest))))
              && |QueryText(args)| == |ArgText(args[0])| + if |args| == 1 then 0 else 1 + |QueryText(args[1..])|
    ensures |args| > 0 && room > 0 ==>
              && ParamsOf(args, room) == [ParamOf(args[0])] + ParamsOf(args[1..], room - 1)
              && (|args| == 1 ==> ParamsOf(args[1..], room - 1) == [])
    ensures |args| == 1 ==> SP != AMP
  {
    hide ArgText, ArgOk;
    if |args| > 1 {
      Assoc4(ArgText(args[0]), [AMP], QueryText(args[1..]), [SP] + rest);
    }
  }

  lemma {:induction false} FirstNotSpace(s: bytes, p: nat, a: Arg, d: byte, rest: bytes)
    requires p <= |s| && ArgOk(a) && (d == AMP || d == SP) && s[p..] == ArgText(a) + ([d] + rest)
    requires ArgText(a) != [] || d == AMP
    ensures p < |s| && s[p] != SP
  {
    var t := ArgText(a);
    assert s[p] == s[p..][0] == (t + ([d] + rest))[0];
    if t != [] && a.key != [] { assert t[0] == a.key[0]; }
  }

  // ---- the request line ----

  /** `verb path?query tail` and a newline. */
  function LineText(verb: bytes, path: bytes, args: Option<seq<Arg>>, tail: bytes): bytes {
    match args
    case None => verb + ([SP] + (path + ([SP] + (tail + [LF]))))
    case Some(q) => verb + ([SP] + (path + ([QUERY] + (QueryText(q) + ([SP] + (tail + [LF]))))))
  }

  predicate LineOk(verb: bytes, path: bytes, args: Option<seq<Arg>>, tail: bytes) {
    && SP !in verb && LF !in verb && SP !in path && QUERY !in path && LF !in path && LF !in tail
    && (args.Some? ==> ArgsOk(args.value))
  }

  function LineParams(args: Option<seq<Arg>>): seq<Param> {
    match args case None => [] case Some(q) => ParamsOf(q, MAX_PARAMS)
  }

  lemma {:induction false} QueryNoLf(args: seq<Arg>)
    requires forall i | 0 <= i < |args| :: ArgOk(args[i])
    ensures LF !in QueryText(args)
    decreases |args|
  {
    if |args| > 1 { QueryNoLf(args[1..]); }
  }

  /** The newline of a line is its last byte. */
  lemma {:induction false} LineEnds(verb: bytes, path: bytes, args: Option<seq<Arg>>, tail: bytes)
    requires LineOk(verb, path, args, tail)
    ensures var s := LineText(verb, path, args, tail); s != [] && s[|s| - 1] == LF && LF !in s[..|s| - 1]
  {
    hide QueryText;
    match args
    case None =>
      var front := verb + ([SP] + (path + ([SP] + tail)));
      assert LF !in front && LineText(verb, path, args, tail) == front + [LF];
    case Some(q) =>
      QueryNoLf(q);
      var front := verb + ([SP] + (path + ([QUERY] + (QueryText(q) + ([SP] + tail)))));
      assert LF !in front && LineText(verb, path, args, tail) == front + [LF];
  }

  /** A request line is read back: its verb, its path, and the first eight of its arguments. */
  lemma {:induction false} LineBack(verb: bytes, path: bytes, args: Option<seq<Arg>>, tail: bytes)
    requires LineOk(verb, path, args, tail)
    ensures var s := LineText(verb, path, args, tail);
            ParseReqLine(s) == Some(RequestLine(verb, path, LineParams(args), |s|))
  {
    hide LineText, LineOk, ParseReqLine, ParamsOf;
    var s := LineText(verb, path, args, tail);
    LineEnds(verb, path, args, tail);
    ReqLineTakesLine(s);
    match args
    case None => PlainLine(verb, path, tail);
    case Some(q) => QueryLine(verb, path, q, tail);
  }

  lemma {:induction false} PlainLine(verb: bytes, path: bytes, tail: bytes)
    requires LineOk(verb, path, None, tail)
    requires ParseReqLine(LineText(verb, path, None, tail)).Some? ==>
               ParseReqLine(LineText(verb, path, None, tail)).value.consumed == |LineText(verb, path, None, tail)|
    ensures var s := LineText(verb, path, None, tail); ParseReqLine(s) == Some(RequestLine(verb, path, [], |s|))
  {
    hide Until, IndexOf, Params;
    var s := LineText(verb, path, None, tail);
    assert s[0..] == s;
    FieldEnds(s, 0, verb, SP, path + ([SP] + (tail + [LF])), SP, SP, SP);
    FieldEnds(s, |verb| + 1, path, SP, tail + [LF], SP, QUERY, QUERY);
  }

  lemma {:induction false} QueryLine(verb: bytes, path: bytes, q: seq<Arg>, tail: bytes)
    requires LineOk(verb, path, Some(q), tail)
    requires ParseReqLine(LineText(verb, path, Some(q), tail)).Some? ==>
               ParseReqLine(LineText(verb, path, Some(q), tail)).value.consumed == |LineText(verb, path, Some(q), tail)|
    ensures var s := LineText(verb, path, Some(q), tail);
            ParseReqLine(s) == Some(RequestLine(verb, path, ParamsOf(q, MAX_PARAMS), |s|))
  {
    hide *;
    var s, rest := LineText(verb, path, Some(q), tail), QueryText(q) + ([SP] + (tail + [LF]));
    QueryLineText(verb, path, q, tail);
    assert s[0..] == s;
    FieldEnds(s, 0, verb, SP, path + ([QUERY] + rest), SP, SP, SP);
    FieldEnds(s, |verb| + 1, path, QUERY, rest, SP, QUERY, QUERY);
    QueryParams(s, |verb| + 1 + |path| + 1, q, tail + [LF], MAX_PARAMS);
    LineOfParts(s, verb, path, ParamsOf(q, MAX_PARAMS));
  }

  lemma {:induction false} QueryLineText(verb: bytes, path: bytes, q: seq<Arg>, tail: bytes)
    requires LineOk(verb, path, Some(q), tail)
    ensures LineText(verb, path, Some(q), tail) ==
            verb + ([SP] + (path + ([QUERY] + (QueryText(q) + ([SP] + (tail + [LF]))))))
    ensures SP !in verb && SP !in path && QUERY !in path && ArgsOk(q)
  {
    hide QueryText, ArgsOk;
  }

  lemma {:induction false} LineOfParts(s: bytes, verb: bytes, path: bytes, params: seq<Param>)
    requires var m := |verb|;
             var p := m + 1 + |path|;
             && p < |s| && s[..m] == verb && s[m + 1..p] == path && s[p] == QUERY
             && Until(s, 0, SP, SP, SP) == m && Until(s, m + 1, SP, QUERY, QUERY) == p
             && Params(s, p + 1, MAX_PARAMS).0 == params
    requires ParseReqLine(s).Some? ==> ParseReqLine(s).value.consumed == |s|
    ensures ParseReqLine(s) == Some(RequestLine(verb, path, params, |s|))
  {
    hide Until, IndexOf, Params;
  }

  // ---- header lines ----

  /** A line that does not set the length, or one that does, with anything but a digit behind the number. */
  datatype Header = Other(text: bytes) | Length(blanks: bytes, n: nat, rest: bytes)

  function HeaderText(h: Header): bytes {
    match h
    case Other(text) => text + [LF]
    case Length(blanks, n, rest) => CONTENT_LENGTH + (blanks + (LogCodec.Digits(n) + (rest + [LF])))
  }

  predicate HeaderOk(h: Header) {
    match h
    case Other(text) => LF !in text && text != [CR] && !(CONTENT_LENGTH <= text)
    case Length(blanks, n, rest) =>
      && (forall i | 0 <= i < |blanks| :: blanks[i] == SP || blanks[i] == TAB)
      && n < INT_LIMIT && LF !in rest && (rest != [] ==> !LogCodec.IsDigit(rest[0]))
  }

  function HeadersText(hs: seq<Header>): bytes
    decreases |hs|
  {
    if |hs| == 0 then [] else HeaderText(hs[0]) + HeadersText(hs[1..])
  }

  /** The length that header lines announce: the last one counts, and none means `len`. */
  function Announced(hs: seq<Header>, len: int): int
    decreases |hs|
  {
    if |hs| == 0 then len else Announced(hs[1..], match hs[0] case Other(_) => len case Length(_, n, _) => n)
  }

  lemma {:induction false} IndexAt(s: bytes, p: nat, q: nat)
    requires p <= q < |s| && s[q] == LF && forall i | p <= i < q :: s[i] != LF
    ensures IndexOf(s, LF, p) == q
    decreases q - p
  {
    if p < q { IndexAt(s, p + 1, q); }
  }

  /** A line that does not begin with the field name. */
  lemma {:induction false} OtherLine(s: bytes, p: nat, text: bytes, rest: bytes)
    requires p <= |s| && HeaderOk(Other(text)) && s[p..] == (text + [LF]) + rest && rest != []
    ensures var e := p + |text|;
            && e + 1 < |s| && s[e + 1..] == rest && !IsLengthHeader(s, p) && IndexOf(s, LF, p) == e
            && !(s[p] == CR && s[p + 1] == LF)
  {
    NoLfInLengthHeader();
    hide CONTENT_LENGTH;
    assert (text + [LF]) + rest == text + ([LF] + rest);
    PartAt(s, p, text, [LF] + rest);
    PartAt(s, p + |text|, [LF], rest);
    IndexAt(s, p, p + |text|);
    if |text| >= 15 {
      assert text[..15] == s[p..p + |text|][..15] == s[p..p + 15];
    } else {
      assert p + 15 <= |s| ==> s[p..p + 15][|text|] == LF;
    }
    if |text| == 1 { assert text == [text[0]]; }
    assert |text| > 0 ==> s[p + 0] == text[0];
    assert |text| > 1 ==> s[p + 1] == text[1];
  }

  lemma {:induction false} BlanksSkip(s: bytes, p: nat, q: nat)
    requires p <= q < |s| && (forall i | p <= i < q :: s[i] == SP || s[i] == TAB) && s[q] != SP && s[q] != TAB
    ensures SkipBlanks(s, p) == q
    decreases q - p
  {
    if p < q { BlanksSkip(s, p + 1, q); }
  }

  lemma {:induction false} NumberScan(s: bytes, p: nat, n: nat, rest: bytes)
    requires p <= |s| && s[p..] == LogCodec.Digits(n) + rest && n < INT_LIMIT
    requires rest != [] && !LogCodec.IsDigit(rest[0])
    ensures ScanInt(s, p, 0) == (n, p + |LogCodec.Digits(n)|)
  {
    var g := LogCodec.Digits(n);
    PartAt(s, p, g, rest);
    var q := p + |g|;
    assert s[q] == s[q..][0] == rest[0];
    ContentLengthExactly(s, p);
    var e := ScanInt(s, p, 0).1;
    forall i | p <= i < q ensures s[i] == g[i - p] { assert s[p + (i - p)] == g[i - p]; }
    LogCodec.DigitsRoundTrip(n);
  }

  /** A line that sets the length. */
  lemma {:induction false} LengthLine(s: bytes, p: nat, h: Header, more: bytes)
    requires p <= |s| && h.Length? && HeaderOk(h) && s[p..] == HeaderText(h) + more && more != []
    ensures LengthHeader(s, p).Some? && LengthHeader(s, p).value.0 == h.n
    ensures var e := p + |HeaderText(h)| - 1;
            && p + 15 < e && e + 1 < |s| && s[e + 1..] == more
            && IndexOf(s, LF, LengthHeader(s, p).value.1) == e
            && s[p] != CR
  {
    hide *;
    LengthText(h, more);
    LengthParts(s, p, h.blanks, LogCodec.Digits(h.n), h.n, h.rest, more);
  }

  lemma {:induction false} LengthParts(s: bytes, p: nat, blanks: bytes, g: bytes, n: nat, r: bytes, more: bytes)
    requires p <= |s| && s[p..] == CONTENT_LENGTH + (blanks + (g + (r + ([LF] + more)))) && more != []
    requires g == LogCodec.Digits(n) && |g| > 0 && g[0] != SP && g[0] != TAB && n < INT_LIMIT && LF !in r
    requires forall i | 0 <= i < |blanks| :: blanks[i] == SP || blanks[i] == TAB
    requires !LogCodec.IsDigit((r + ([LF] + more))[0])
    ensures LengthHeader(s, p).Some? && LengthHeader(s, p).value.0 == n
    ensures var e := p + |CONTENT_LENGTH| + |blanks| + |g| + |r|;
            && p + 15 < e && e + 1 < |s| && s[e + 1..] == more
            && IndexOf(s, LF, LengthHeader(s, p).value.1) == e
            && s[p] != CR
  {
    hide *;
    FieldName();
    PartAt(s, p, CONTENT_LENGTH, blanks + (g + (r + ([LF] + more))));
    assert s[p + 0] == CONTENT_LENGTH[0];
    ValueParts(s, p + 15, blanks, g, n, r, more);
    HeaderOfParts(s, p, p + 15 + |blanks|, n, p + 15 + |blanks| + |g|);
  }

  /** What lies behind the field name. */
  lemma {:induction false} ValueParts(s: bytes, b: nat, blanks: bytes, g: bytes, n: nat, r: bytes, more: bytes)
    requires b <= |s| && s[b..] == blanks + (g + (r + ([LF] + more)))
    requires g == LogCodec.Digits(n) && |g| > 0 && g[0] != SP && g[0] != TAB && n < INT_LIMIT && LF !in r
    requires forall i | 0 <= i < |blanks| :: blanks[i] == SP || blanks[i] == TAB
    requires !LogCodec.IsDigit((r + ([LF] + more))[0])
    ensures var d := b + |blanks|;
            var x := d + |g|;
            && x + |r| < |s| && s[x + |r| + 1..] == more && IndexOf(s, LF, x) == x + |r|
            && SkipBlanks(s, b) == d && ScanInt(s, d, 0) == (n, x)
  {
    hide *;
    PartAt(s, b, blanks, g + (r + ([LF] + more)));
    var d := b + |blanks|;
    NumberScan(s, d, n, r + ([LF] + more));
    PartAt(s, d, g, r + ([LF] + more));
    assert s[d + 0] == g[0];
    BlanksAt(s, b, blanks, g[0]);
    LineRest(s, d + |g|, r, more);
  }

  lemma {:induction false} LineRest(s: bytes, x: nat, r: bytes, more: bytes)
    requires x <= |s| && s[x..] == r + ([LF] + more) && LF !in r
    ensures x + |r| < |s| && s[x + |r| + 1..] == more && IndexOf(s, LF, x) == x + |r|
  {
    hide *;
    PartAt(s, x, r, [LF] + more);
    PartAt(s, x + |r|, [LF], more);
    assert s[x + |r| + 0] == LF;
    NoLfAt(s, x, r);
  }

  lemma {:induction false} LengthText(h: Header, more: bytes)
    requires h.Length? && HeaderOk(h)
    ensures var g := LogCodec.Digits(h.n);
            && |g| > 0 && LogCodec.IsDigit(g[0]) && g[0] != SP && g[0] != TAB
            && HeaderText(h) + more == CONTENT_LENGTH + (h.blanks + (g + (h.rest + ([LF] + more))))
            && |HeaderText(h)| == |CONTENT_LENGTH| + |h.blanks| + |g| + |h.rest| + 1
            && h.n < INT_LIMIT && LF !in h.rest
            && (forall i | 0 <= i < |h.blanks| :: h.blanks[i] == SP || h.blanks[i] == TAB)
            && !LogCodec.IsDigit((h.rest + ([LF] + more))[0])
  {
    hide CONTENT_LENGTH, LogCodec.Digits;
    var g := LogCodec.Digits(h.n);
    Assoc4(h.rest, [LF], [], more);
    assert h.rest + [LF] + more == h.rest + ([LF] + more);
    Assoc4(CONTENT_LENGTH, h.blanks, g + (h.rest + [LF]), more);
    Assoc4(h.blanks, g, h.rest + [LF], more);
  }

  lemma {:induction false} FieldName()
    ensures |CONTENT_LENGTH| == 15 && CONTENT_LENGTH[0] != CR
  {
  }

  lemma {:induction false} BlanksAt(s: bytes, b: nat, blanks: bytes, g: byte)
    requires b + |blanks| < |s| && s[b + |blanks|] == g && g != SP && g != TAB
    requires forall i | 0 <= i < |blanks| :: s[b + i] == blanks[i] && (blanks[i] == SP || blanks[i] == TAB)
    ensures SkipBlanks(s, b) == b + |blanks|
  {
    forall i | b <= i < b + |blanks| ensures s[i] == SP || s[i] == TAB { assert s[b + (i - b)] == blanks[i - b]; }
    BlanksSkip(s, b, b + |blanks|);
  }

  lemma {:induction false} NoLfAt(s: bytes, x: nat, r: bytes)
    requires x + |r| < |s| && s[x + |r|] == LF && LF !in r && forall i | 0 <= i < |r| :: s[x + i] == r[i]
    ensures IndexOf(s, LF, x) == x + |r|
  {
    forall i | x <= i < x + |r| ensures s[i] != LF { assert s[x + (i - x)] == r[i - x]; }
    IndexAt(s, x, x + |r|);
  }

  lemma {:induction false} HeaderOfParts(s: bytes, p: nat, d: nat, n: nat, x: nat)
    requires p + 15 <= d <= |s| && s[p..p + 15] == CONTENT_LENGTH && SkipBlanks(s, p + 15) == d
    requires x <= |s| && ScanInt(s, d, 0) == (n, x)
    ensures LengthHeader(s, p) == Some((n, x))
  {
    hide CONTENT_LENGTH, SkipBlanks, ScanInt;
  }

  /** Headers are read back: the length they announce, and where they end. */
  lemma {:induction false} HeadersBack(s: bytes, p: nat, hs: seq<Header>, rest: bytes, len: int)
    requires p <= |s| && (forall i | 0 <= i < |hs| :: HeaderOk(hs[i]))
    requires s[p..] == HeadersText(hs) + ([CR, LF] + rest)
    ensures HeadersFrom(s, p, len) == Some((Announced(hs, len), p + |HeadersText(hs)| + 2))
    decreases |hs|
  {
    hide *;
    HeadersUnfold(hs, rest, len);
    if |hs| == 0 {
      HeadersEnd(s, p, rest, len);
    } else {
      var h, more := hs[0], HeadersText(hs[1..]) + ([CR, LF] + rest);
      var len' := match h case Other(_) => len case Length(_, n, _) => n;
      HeaderStep(s, p, h, more, len);
      HeadersBack(s, p + |HeaderText(h)|, hs[1..], rest, len');
    }
  }

  lemma {:induction false} HeadersUnfold(hs: seq<Header>, rest: bytes, len: int)
    ensures |hs| == 0 ==> HeadersText(hs) + ([CR, LF] + rest) == [CR, LF] + rest && HeadersText(hs) == []
    ensures |hs| == 0 ==> Announced(hs, len) == len
    ensures |hs| > 0 ==>
              && HeadersText(hs) + ([CR, LF] + rest) == HeaderText(hs[0]) + (HeadersText(hs[1..]) + ([CR, LF] + rest))
              && |HeadersText(hs)| == |HeaderText(hs[0])| + |HeadersText(hs[1..])|
              && HeadersText(hs[1..]) + ([CR, LF] + rest) != []
              && Announced(hs, len) ==
                 Announced(hs[1..], match hs[0] case Other(_) => len case Length(_, n, _) => n)
  {
    hide HeaderText;
  }

  lemma {:induction false} HeadersEnd(s: bytes, p: nat, rest: bytes, len: int)
    requires p <= |s| && s[p..] == [CR, LF] + rest
    ensures HeadersFrom(s, p, len) == Some((len, p + 2))
  {
    PartAt(s, p, [CR, LF], rest);
    assert s[p + 0] == CR && s[p + 1] == LF;
  }

  /** One header line. */
  lemma {:induction false} HeaderStep(s: bytes, p: nat, h: Header, more: bytes, len: int)
    requires p <= |s| && HeaderOk(h) && s[p..] == HeaderText(h) + more && more != []
    ensures var q := p + |HeaderText(h)|;
            && q <= |s| && s[q..] == more
            && HeadersFrom(s, p, len) ==
               HeadersFrom(s, q, match h case Other(_) => len case Length(_, n, _) => n)
  {
    hide HeaderText, LengthHeader, IndexOf, CONTENT_LENGTH, IsLengthHeader, HeaderOk;
    match h
    case Other(text) =>
      OtherText(h);
      OtherLine(s, p, text, more);
      NoLength(s, p);
    case Length(_, n, _) =>
      LengthLine(s, p, h, more);
  }

  lemma {:induction false} OtherText(h: Header)
    requires h.Other?
    ensures HeaderText(h) == h.text + [LF]
  {
  }

  lemma {:induction false} NoLength(s: bytes, p: nat)
    requires p <= |s| && !IsLengthHeader(s, p)
    ensures LengthHeader(s, p) == None
  {
  }

  // ---- whole requests ----

  /** A request as it is sent: line, headers, empty line, body. */
  function RequestText(verb: bytes, path: bytes, args: Option<seq<Arg>>, tail: bytes,
                       hs: seq<Header>, body: bytes): bytes
  {
    LineText(verb, path, args, tail) + (HeadersText(hs) + ([CR, LF] + body))
  }

  /**
   * Every request that a client writes is read back as it was written: verb, path, the
   * first eight arguments, the length that its headers announce and exactly that many
   * bytes of body; it takes all its bytes, whatever has arrived behind it.
   */
  lemma {:induction false} RequestBack(verb: bytes, path: bytes, args: Option<seq<Arg>>, tail: bytes,
                                       hs: seq<Header>, body: bytes, behind: bytes)
    requires LineOk(verb, path, args, tail) && (forall i | 0 <= i < |hs| :: HeaderOk(hs[i]))
    requires |body| == Announced(hs, 0)
    ensures var s := RequestText(verb, path, args, tail, hs, body);
            ParseRequest(s + behind) == Some((Request(verb, path, LineParams(args), |body|, body), |s|))
  {
    hide *;
    var line, heads := LineText(verb, path, args, tail), HeadersText(hs);
    var rest := heads + ([CR, LF] + body);
    LineEnds(verb, path, args, tail);
    LineBack(verb, path, args, tail);
    LineFirst(line, rest);
    assert rest[0..] == rest;
    HeadersBack(rest, 0, hs, body, 0);
    Assembled(verb, path, LineParams(args), line, heads, body);
    TextIs(verb, path, args, tail, hs, body);
    ParseStable(line + rest, behind);
  }

  /** And while a byte of it is missing, it is waited for. */
  lemma {:induction false} RequestWaits(verb: bytes, path: bytes, args: Option<seq<Arg>>, tail: bytes,
                                        hs: seq<Header>, body: bytes, k: nat)
    requires LineOk(verb, path, args, tail) && (forall i | 0 <= i < |hs| :: HeaderOk(hs[i]))
    requires |body| == Announced(hs, 0) && k < |RequestText(verb, path, args, tail, hs, body)|
    ensures ParseRequest(RequestText(verb, path, args, tail, hs, body)[..k]) == None
  {
    hide RequestText, LineOk, HeaderOk, Announced, ParseRequest, LineParams;
    var s := RequestText(verb, path, args, tail, hs, body);
    RequestBack(verb, path, args, tail, hs, body, []);
    assert s + [] == s == s[..k] + s[k..];
    if ParseRequest(s[..k]).Some? { ParseStable(s[..k], s[k..]); }
  }

  lemma {:induction false} TextIs(verb: bytes, path: bytes, args: Option<seq<Arg>>, tail: bytes,
                                  hs: seq<Header>, body: bytes)
    ensures RequestText(verb, path, args, tail, hs, body) ==
            LineText(verb, path, args, tail) + (HeadersText(hs) + ([CR, LF] + body))
  {
    hide LineText, HeadersText;
  }

  lemma {:induction false} Assembled(verb: bytes, path: bytes, params: seq<Param>, line: bytes, heads: bytes,
                                     body: bytes)
    requires line != []
    requires var rest := heads + ([CR, LF] + body);
             && IndexOf(line + rest, LF, 0) == |line| - 1
             && (line + rest)[..|line|] == line && (line + rest)[|line|..] == rest
             && ParseReqLine(line) == Some(RequestLine(verb, path, params, |line|))
             && HeadersFrom(rest, 0, 0) == Some((|body|, |heads| + 2))
    ensures var s := line + (heads + ([CR, LF] + body));
            ParseRequest(s) == Some((Request(verb, path, params, |body|, body), |s|))
  {
    hide ParseReqLine, HeadersFrom, IndexOf;
    var s, pos := line + (heads + ([CR, LF] + body)), |line| + |heads| + 2;
    BodyAt(line, heads, body);
  }

  lemma {:induction false} BodyAt(line: bytes, heads: bytes, body: bytes)
    ensures var s, pos := line + (heads + ([CR, LF] + body)), |line| + |heads| + 2;
            |s| == pos + |body| && s[pos..pos + |body|] == body
  {
  }

  lemma {:induction false} LineFirst(line: bytes, rest: bytes)
    requires line != [] && line[|line| - 1] == LF && LF !in line[..|line| - 1]
    ensures var s := line + rest;
            IndexOf(s, LF, 0) == |line| - 1 && s[..|line|] == line && s[|line|..] == rest
  {
    var s := line + rest;
    hide IndexOf;
    forall i | 0 <= i < |line| - 1 ensures s[i] != LF { assert s[i] == line[..|line| - 1][i]; }
    IndexAt(s, 0, |line| - 1);
  }
}
