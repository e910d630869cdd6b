/** src/misc/http/parse.c on any bytes at all: what is a request, where it ends and what length it has. */
module AnyBytes {
  import opened Bytes
  import opened Bits
  import opened Parse

  /** A line of s begins at p. */
  predicate LineStart(s: bytes, p: nat) { p <= |s| && (p == 0 || s[p - 1] == LF) }

  /** The empty line that ends the headers. */
  predicate EmptyLine(s: bytes, p: nat) { LineStart(s, p) && p + 1 < |s| && s[p] == CR && s[p + 1] == LF }

  predicate NamesLength(s: bytes, p: nat) { LineStart(s, p) && IsLengthHeader(s, p) }

  lemma {:induction false} BlanksNoLf(s: bytes, p: nat)
    requires p <= |s|
    ensures forall i | p <= i < SkipBlanks(s, p) :: s[i] != LF
    decreases |s| - p
  {
    if p < |s| && (s[p] == SP || s[p] == TAB) { BlanksNoLf(s, p + 1); }
  }

  /** The length of a header is read on its line. */
  lemma {:induction false} ValueOnLine(s: bytes, p: nat)
    requires p <= |s|
    ensures forall i | p <= i < ValueEnd(s, p) :: s[i] != LF
  {
    if IsLengthHeader(s, p) {
      var b := SkipBlanks(s, p + 15);
      BlanksNoLf(s, p + 15);
      ContentLengthExactly(s, b);
      ScanFrom(s, b);
      NoLfInLengthHeader();
      hide SkipBlanks, ScanInt, CONTENT_LENGTH;
      assert forall i | p <= i < p + 15 :: s[i] == s[p..p + 15][i - p];
    }
  }

  lemma {:induction false} ScanFrom(s: bytes, b: nat)
    requires b <= |s|
    ensures b <= ScanInt(s, b, 0).1 <= |s|
  {
  }

  /** One header line. */
  lemma {:induction false} HeaderLine(s: bytes, p: nat, length: int) returns (e: nat)
    requires LineStart(s, p) && !EmptyLine(s, p) && p + 1 < |s|
    ensures p <= e <= |s| && (forall i | p < i <= e :: !LineStart(s, i))
    ensures e < |s| ==> LineStart(s, e + 1)
    ensures HeadersFrom(s, p, length) ==
            if e == |s| then None
            else HeadersFrom(s, e + 1, if NamesLength(s, p) then LengthHeader(s, p).value.0 else length)
  {
    var q := ValueEnd(s, p);
    e := IndexOf(s, LF, q);
    ValueOnLine(s, p);
    hide IndexOf;
    assert forall i | p <= i < e :: s[i] != LF;
    hide ScanInt, SkipBlanks, CONTENT_LENGTH;
  }

  /** A header line that gives the length which counts: no later one does. */
  predicate LastLength(s: bytes, i: nat, e: nat) {
    i < e && NamesLength(s, i) && forall j | i < j < e :: !NamesLength(s, j)
  }

  /** What the headers that stand from p on come to, when `length` was read before. */
  predicate Ends(s: bytes, p: nat, length: int, r: Option<(int, nat)>) {
    match r
    case None => forall e | p <= e < |s| :: !EmptyLine(s, e)
    case Some((len, end)) =>
      && p + 2 <= end <= |s| && EmptyLine(s, end - 2) && (forall e | p <= e < end - 2 :: !EmptyLine(s, e))
      && ((forall i | p <= i < end - 2 :: !NamesLength(s, i)) ==> len == length)
      && forall i | p <= i < end - 2 && LastLength(s, i, end - 2) :: len == LengthHeader(s, i).value.0
  }

  /** With one line more in front. */
  lemma {:induction false} EndsBefore(s: bytes, p: nat, e: nat, length: int, length': int, r: Option<(int, nat)>)
    requires LineStart(s, p) && !EmptyLine(s, p) && p <= e < |s| && forall i | p < i <= e :: !LineStart(s, i)
    requires length' == if NamesLength(s, p) then LengthHeader(s, p).value.0 else length
    requires Ends(s, e + 1, length', r)
    ensures Ends(s, p, length, r)
  {
    hide ScanInt, SkipBlanks, IsLengthHeader, LineStart;
    assert forall i | p < i <= e :: !EmptyLine(s, i) && !NamesLength(s, i) by { NoneWithin(s, p, e); }
    if r.Some? {
      var end := r.value.1;
      forall i | p <= i < end - 2 && LastLength(s, i, end - 2) ensures r.value.0 == LengthHeader(s, i).value.0 {
        if i == p { assert forall j | e < j < end - 2 :: !NamesLength(s, j); }
      }
      if forall i | p <= i < end - 2 :: !NamesLength(s, i) {
        assert forall j | e < j < end - 2 :: !NamesLength(s, j);
      }
    }
  }

  lemma {:induction false} NoneWithin(s: bytes, p: nat, e: nat)
    requires forall i | p < i <= e :: !LineStart(s, i)
    ensures forall i | p < i <= e :: !EmptyLine(s, i) && !NamesLength(s, i)
  {
  }

  /**
   * The headers of any bytes end at the first empty line, and only if there is one; the
   * length is that of the last header line that gives one.
   */
  lemma {:induction false} HeadersEndExactly(s: bytes, p: nat, length: int)
    requires LineStart(s, p)
    ensures Ends(s, p, length, HeadersFrom(s, p, length))
    decreases |s| - p
  {
    if p + 1 < |s| && !EmptyLine(s, p) {
      var e := HeaderLine(s, p, length);
      hide *;
      if e < |s| {
        var length' := if NamesLength(s, p) then LengthHeader(s, p).value.0 else length;
        HeadersEndExactly(s, e + 1, length');
        EndsBefore(s, p, e, length, length', HeadersFrom(s, e + 1, length'));
      } else {
        NoEnd(s, p, length);
      }
    }
  }

  lemma {:induction false} NoEnd(s: bytes, p: nat, length: int)
    requires !EmptyLine(s, p) && forall i | p < i <= |s| :: !LineStart(s, i)
    ensures Ends(s, p, length, None)
  {
  }

  // ---- requests ----

  /** A line of two words at least, the second of which a question mark may end. */
  ghost predicate TwoWords(line: bytes) {
    exists m, p :: 0 <= m < p < |line| && line[m] == SP && (line[p] == SP || line[p] == QUERY)
  }

  /** The first two words, and that no more of the line belongs to them. */
  predicate Spelled(line: bytes, verb: bytes, path: bytes) {
    && SP !in verb && SP !in path && QUERY !in path
    && (verb + [SP] + path + [SP] <= line || verb + [SP] + path + [QUERY] <= line)
  }

  /** A first line is a request line exactly when it has two words, which are the verb and the path. */
  lemma {:induction false} LineExactly(line: bytes)
    ensures match ParseReqLine(line)
            case None => !TwoWords(line)
            case Some(l) => TwoWords(line) && Spelled(line, l.verb, l.path)
  {
    hide Params, IndexOf, Spelled;
    var m := Until(line, 0, SP, SP, SP);
    if m < |line| {
      var p := Until(line, m + 1, SP, QUERY, QUERY);
      if p < |line| { WordsAt(line, m, p); }
    }
  }

  lemma {:induction false} WordsAt(line: bytes, m: nat, p: nat)
    requires m < p < |line| && line[m] == SP && (line[p] == SP || line[p] == QUERY)
    requires (forall i | 0 <= i < m :: line[i] != SP)
    requires (forall i | m < i < p :: line[i] != SP && line[i] != QUERY)
    ensures Spelled(line, line[..m], line[m + 1..p])
  {
    assert line[..m] + [line[m]] + line[m + 1..p] + [line[p]] == line[..p + 1];
  }

  lemma {:induction false} LastOf(s: bytes, p: nat, e: nat) returns (i: nat)
    requires exists j :: p <= j < e && NamesLength(s, j)
    ensures p <= i < e && LastLength(s, i, e)
    decreases e
  {
    hide NamesLength;
    if NamesLength(s, e - 1) {
      i := e - 1;
    } else {
      var j :| p <= j < e && NamesLength(s, j);
      assert p <= j < e - 1;
      i := LastOf(s, p, e - 1);
    }
  }

  /** There is one such end and one such length. */
  lemma {:induction false} EndsOnce(s: bytes, p: nat, length: int, r: Option<(int, nat)>, len: int, end: nat)
    requires Ends(s, p, length, r) && Ends(s, p, length, Some((len, end)))
    ensures r == Some((len, end))
  {
    hide EmptyLine, IsLengthHeader, ScanInt, SkipBlanks;
    assert EmptyLine(s, end - 2);
    assert r.Some?;
    var end' := r.value.1;
    assert EmptyLine(s, end' - 2) && end == end';
    if exists j :: p <= j < end - 2 && NamesLength(s, j) {
      var i := LastOf(s, p, end - 2);
      assert LastLength(s, i, end' - 2);
      assert len == LengthHeader(s, i).value.0;
    } else {
      assert forall i | p <= i < end - 2 :: !NamesLength(s, i);
    }
  }

  /** A request stands complete at the front: its first line, its headers, its body. */
  ghost predicate Complete(s: bytes, eol: nat, end: nat, len: int) {
    && eol < end <= |s| && s[eol] == LF && LF !in s[..eol] && TwoWords(s[..eol + 1])
    && Ends(s[eol + 1..], 0, 0, Some((len, end - (eol + 1))))
    && end + len <= |s|
  }

  /** What is taken from the front of s as this request. */
  predicate Takes(s: bytes, req: Request, end: nat, n: nat) {
    && end <= n <= |s| && req.body == s[end..n] && Spelled(s, req.verb, req.path)
    && n == if req.contentLength > 0 then end + req.contentLength else end
  }

  lemma {:induction false} SpelledOn(s: bytes, k: nat, verb: bytes, path: bytes)
    requires k <= |s| && Spelled(s[..k], verb, path)
    ensures Spelled(s, verb, path)
  {
  }

  /** The first newline is where the first line ends. */
  lemma {:induction false} FirstLine(s: bytes, eol: nat)
    requires eol < |s| && s[eol] == LF && LF !in s[..eol]
    ensures IndexOf(s, LF, 0) == eol
  {
    assert forall j | 0 <= j < eol :: s[..eol][j] == s[j];
  }

  lemma {:induction false} LineTaken(s: bytes, eol: nat)
    requires eol < |s| && eol == IndexOf(s, LF, 0)
    ensures LF !in s[..eol]
    ensures ParseReqLine(s[..eol + 1]).Some? ==> ParseReqLine(s[..eol + 1]).value.consumed == eol + 1
  {
    hide ParseReqLine;
    assert s[..eol + 1][..|s[..eol + 1]| - 1] == s[..eol];
    ReqLineTakesLine(s[..eol + 1]);
  }

  /** The parse in the terms of its two parts. */
  lemma {:induction false} ParseParts(s: bytes, eol: nat)
    requires eol < |s| && eol == IndexOf(s, LF, 0)
    ensures ParseRequest(s) ==
            match ParseReqLine(s[..eol + 1])
            case None => None
            case Some(l) =>
              match HeadersFrom(s[eol + 1..], 0, 0)
              case None => None
              case Some((len, e)) =>
                var end := eol + 1 + e;
                if end + len > |s| then None
                else
                  var n := if len > 0 then end + len else end;
                  Some((Request(l.verb, l.path, l.params, len, s[end..n]), n))
  {
    LineTaken(s, eol);
    hide *;
    ParseFirst(s, eol);
    if ParseReqLine(s[..eol + 1]).Some? { ParseRest(s, eol, ParseReqLine(s[..eol + 1]).value); }
  }

  lemma {:induction false} ParseFirst(s: bytes, eol: nat)
    requires eol < |s| && eol == IndexOf(s, LF, 0)
    ensures ParseReqLine(s[..eol + 1]) == None ==> ParseRequest(s) == None
  {
    hide IndexOf, ParseReqLine, HeadersFrom;
  }

  lemma {:induction false} ParseRest(s: bytes, eol: nat, l: RequestLine)
    requires eol < |s| && eol == IndexOf(s, LF, 0) && ParseReqLine(s[..eol + 1]) == Some(l) && l.consumed == eol + 1
    ensures ParseRequest(s) ==
            match HeadersFrom(s[eol + 1..], 0, 0)
            case None => None
            case Some((len, e)) =>
              var end := eol + 1 + e;
              if end + len > |s| then None
              else
                var n := if len > 0 then end + len else end;
                Some((Request(l.verb, l.path, l.params, len, s[end..n]), n))
  {
    hide IndexOf, ParseReqLine, HeadersFrom;
    var h := HeadersFrom(s[eol + 1..], 0, 0);
    if h.Some? {
      var end := eol + 1 + h.value.1;
      assert s[end..end] == [];
    }
  }

  /** What stands complete parses. */
  lemma {:induction false} CompleteParses(s: bytes, eol: nat, end: nat, len: int)
    requires Complete(s, eol, end, len)
    ensures ParseRequest(s).Some?
  {
    hide TwoWords, ParseReqLine, HeadersFrom, Ends, IndexOf, ParseRequest;
    FirstLine(s, eol);
    LineExactly(s[..eol + 1]);
    ParseParts(s, eol);
    HeadersEndExactly(s[eol + 1..], 0, 0);
    EndsOnce(s[eol + 1..], 0, 0, HeadersFrom(s[eol + 1..], 0, 0), len, end - (eol + 1));
  }

  /** What parses stands complete. */
  lemma {:induction false} ParsedComplete(s: bytes) returns (eol: nat, end: nat)
    requires ParseRequest(s).Some?
    ensures var (req, n) := ParseRequest(s).value; Complete(s, eol, end, req.contentLength) && Takes(s, req, end, n)
  {
    hide *;
    eol := LineThere(s);
    ParseParts(s, eol);
    LineExactly(s[..eol + 1]);
    HeadersEndExactly(s[eol + 1..], 0, 0) by { StartsLine(s[eol + 1..]); }
    var l, h := ParseReqLine(s[..eol + 1]).value, HeadersFrom(s[eol + 1..], 0, 0).value;
    end := eol + 1 + h.1;
    SpelledOn(s, eol + 1, l.verb, l.path);
    Stands(s, eol, end, h.0, ParseRequest(s).value.0, ParseRequest(s).value.1);
  }

  lemma {:induction false} StartsLine(s: bytes)
    ensures LineStart(s, 0)
  {
  }

  lemma {:induction false} LineThere(s: bytes) returns (eol: nat)
    requires ParseRequest(s).Some?
    ensures eol < |s| && eol == IndexOf(s, LF, 0) && s[eol] == LF && LF !in s[..eol]
  {
    hide ParseReqLine, HeadersFrom;
    eol := IndexOf(s, LF, 0);
    LineTaken(s, eol);
  }

  lemma {:induction false} Stands(s: bytes, eol: nat, end: nat, len: int, req: Request, n: nat)
    requires eol < end <= |s| && s[eol] == LF && LF !in s[..eol] && TwoWords(s[..eol + 1]) && end + len <= |s|
    requires Ends(s[eol + 1..], 0, 0, Some((len, end - (eol + 1)))) && Spelled(s, req.verb, req.path)
    requires n == if len > 0 then end + len else end
    requires req.contentLength == len && req.body == s[end..n]
    ensures Complete(s, eol, end, len) && Takes(s, req, end, n)
  {
    hide TwoWords, Ends, Spelled;
  }

  /**
   * Any bytes at all parse exactly when a complete request stands at their front; the
   * request has the two words of its first line and the length of its headers, and takes
   * so many bytes behind them, none when that number is negative.
   */
  lemma {:induction false} RequestExactly(s: bytes)
    ensures match ParseRequest(s)
            case None => forall eol: nat, end: nat, len: int :: !Complete(s, eol, end, len)
            case Some((req, n)) =>
              exists eol: nat, end: nat :: Complete(s, eol, end, req.contentLength) && Takes(s, req, end, n)
  {
    hide Complete, Takes, ParseRequest;
    if ParseRequest(s).Some? {
      var eol, end := ParsedComplete(s);
    } else {
      forall eol: nat, end: nat, len: int ensures !Complete(s, eol, end, len) {
        if Complete(s, eol, end, len) { CompleteParses(s, eol, end, len); }
      }
    }
  }
}
