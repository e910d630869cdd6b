/**
 * src/misc/http/conn.c: a connection that reads into a fixed buffer, parses after every
 * read, and keeps what is left behind a request for the next one.
 */
module Conn {
  import opened Bytes
  import opened Parse

  const BUFFER_SIZE := 16384

  datatype Phase = Reading | Writing | Closing

  /** What a call to read() may do, given the bytes that wait in the socket. */
  datatype Reply =
    | Take(most: nat)   // up to this many bytes, at least one if any wait
    | WouldBlock
    | Broken            // an error, or end of file

  /**
   * The read buffer up to read_total and the state; for the specification, the requests
   * dispatched and all the bytes they took.
   */
  datatype Link = Link(buf: bytes, phase: Phase, dispatched: seq<Request>, consumed: bytes)

  function Min(a: nat, b: nat): nat { if a < b then a else b }

  /** How many bytes read() returns. */
  function Count(most: nat, space: nat, waiting: nat): (n: nat)
    ensures n <= space && n <= waiting
    ensures space > 0 && waiting > 0 ==> n > 0
  {
    Min(Min(if most == 0 then 1 else most, space), waiting)
  }

  /** One read of data and the parse behind it. */
  function Receive(c: Link, data: bytes): Link {
    var buf := c.buf + data;
    match ParseRequest(buf)
    case None => c.(buf := buf)
    case Some((req, n)) => Link(buf[n..], Writing, c.dispatched + [req], c.consumed + buf[..n])
  }

  /** handle_readable against a script of read() results; returns the bytes still waiting. */
  function HandleReadable(c: Link, waiting: bytes, script: seq<Reply>): (Link, bytes)
    decreases |script|
  {
    if |c.buf| >= BUFFER_SIZE then (c.(phase := Closing), waiting)
    else if |script| == 0 then (c, waiting)
    else
      match script[0]
      case WouldBlock => (c, waiting)
      case Broken => (c.(phase := Closing), waiting)
      case Take(most) =>
        var n := Count(most, BUFFER_SIZE - |c.buf|, |waiting|);
        if n == 0 then (c, waiting)
        else
          var c' := Receive(c, waiting[..n]);
          if c'.phase == Writing then (c', waiting[n..]) else HandleReadable(c', waiting[n..], script[1..])
  }

  /** A connection's life: one handle_readable per script, the response sent in between. */
  function Session(c: Link, waiting: bytes, scripts: seq<seq<Reply>>): (Link, bytes)
    decreases |scripts|
  {
    if |scripts| == 0 || c.phase == Closing then (c, waiting)
    else
      var (c', left) := HandleReadable(c.(phase := Reading), waiting, scripts[0]);
      Session(c', left, scripts[1..])
  }

  /** Parsing a whole stream in one go. */
  function ParseAll(s: bytes): seq<Request>
    decreases |s|
  {
    match ParseRequest(s)
    case None => []
    case Some((req, n)) => [req] + ParseAll(s[n..])
  }

  /**
   * The bytes taken so far are exactly the requests dispatched, as far as any parse of
   * the stream from its start can tell.
   */
  ghost predicate Tracks(c: Link, stream: bytes, waiting: bytes) {
    && stream == c.consumed + c.buf + waiting
    && ParseAll(stream) == c.dispatched + ParseAll(c.buf + waiting)
  }

  lemma {:induction false} ReceiveTracks(c: Link, stream: bytes, waiting: bytes, n: nat)
    requires Tracks(c, stream, waiting) && n <= |waiting|
    ensures Tracks(Receive(c, waiting[..n]), stream, waiting[n..])
  {
    hide ParseRequest, ParseAll;
    var buf, left := c.buf + waiting[..n], waiting[n..];
    assert waiting == waiting[..n] + left;
    assert buf + left == c.buf + waiting;
    if ParseRequest(buf).Some? {
      var (req, k) := ParseRequest(buf).value;
      ParseAllFirst(buf, left);
      assert c.consumed + buf[..k] + buf[k..] + left == c.consumed + (buf[..k] + buf[k..]) + left;
      assert c.consumed + buf + left == c.consumed + (buf + left);
      assert c.dispatched + ([req] + ParseAll(buf[k..] + left)) == (c.dispatched + [req]) + ParseAll(buf[k..] + left);
    }
  }

  /** The first request of a stream is the one that its front already shows. */
  lemma {:induction false} ParseAllFirst(buf: bytes, left: bytes)
    requires ParseRequest(buf).Some?
    ensures var (req, k) := ParseRequest(buf).value;
            ParseAll(buf + left) == [req] + ParseAll(buf[k..] + left)
  {
    ParseStable(buf, left);
    hide ParseRequest;
    var (req, k) := ParseRequest(buf).value;
    assert (buf + left)[k..] == buf[k..] + left;
  }

  lemma {:induction false} ReadableTracks(c: Link, stream: bytes, waiting: bytes, script: seq<Reply>)
    requires Tracks(c, stream, waiting)
    ensures var (c', left) := HandleReadable(c, waiting, script); Tracks(c', stream, left)
    decreases |script|
  {
    hide Tracks, Receive;
    if |c.buf| >= BUFFER_SIZE {
      PhaseTracks(c, stream, waiting, Closing);
    } else if |script| > 0 {
      PhaseTracks(c, stream, waiting, Closing);
      match script[0]
      case WouldBlock =>
      case Broken =>
      case Take(most) =>
        var n := Count(most, BUFFER_SIZE - |c.buf|, |waiting|);
        ReceiveTracks(c, stream, waiting, n);
        if n > 0 && Receive(c, waiting[..n]).phase != Writing {
          ReadableTracks(Receive(c, waiting[..n]), stream, waiting[n..], script[1..]);
        }
    }
  }

  lemma {:induction false} PhaseTracks(c: Link, stream: bytes, waiting: bytes, p: Phase)
    requires Tracks(c, stream, waiting)
    ensures Tracks(c.(phase := p), stream, waiting)
  {
  }

  lemma {:induction false} SessionTracks(c: Link, stream: bytes, waiting: bytes, scripts: seq<seq<Reply>>)
    requires Tracks(c, stream, waiting)
    ensures var (c', left) := Session(c, waiting, scripts); Tracks(c', stream, left)
    decreases |scripts|
  {
    hide Tracks, HandleReadable;
    if |scripts| > 0 && c.phase != Closing {
      PhaseTracks(c, stream, waiting, Reading);
      ReadableTracks(c.(phase := Reading), stream, waiting, scripts[0]);
      var (c', left) := HandleReadable(c.(phase := Reading), waiting, scripts[0]);
      SessionTracks(c', stream, left, scripts[1..]);
    }
  }

  const FRESH := Link([], Reading, [], [])

  /**
   * Chunking independence: however the stream is cut into reads, the requests
   * dispatched are the first ones of parsing the stream in one go, no byte is lost or
   * kept twice, and they are all of them exactly when neither the buffer nor the bytes
   * behind it hold another complete request.
   */
  lemma {:induction false} ChunkingIndependent(stream: bytes, scripts: seq<seq<Reply>>)
    ensures var (c, left) := Session(FRESH, stream, scripts);
            && c.consumed + c.buf + left == stream
            && ParseAll(stream) == c.dispatched + ParseAll(c.buf + left)
            && c.dispatched <= ParseAll(stream)
            && (c.dispatched == ParseAll(stream) <==> ParseRequest(c.buf + left) == None)
  {
    hide Session, ParseAll, ParseRequest;
    FreshTracks(stream);
    SessionTracks(FRESH, stream, stream, scripts);
    var (c, left) := Session(FRESH, stream, scripts);
    ParseAllEmpty(c.buf + left);
    var rest := ParseAll(c.buf + left);
    if |rest| > 0 {
      assert |c.dispatched + rest| > |c.dispatched|;
    } else {
      assert c.dispatched + rest == c.dispatched;
    }
  }

  lemma {:induction false} FreshTracks(stream: bytes)
    ensures Tracks(FRESH, stream, stream)
  {
    hide ParseAll;
    var none: bytes := [];
    assert none + none + stream == stream && none + stream == stream;
    assert FRESH.dispatched + ParseAll(stream) == ParseAll(stream);
  }

  lemma {:induction false} ParseAllEmpty(s: bytes)
    ensures |ParseAll(s)| == 0 <==> ParseRequest(s) == None
  {
    hide ParseRequest;
  }

  // ---- requests that stay behind ----

  /** A read leaves a complete request behind exactly when it makes two or more of them. */
  lemma {:induction false} LeavesBehind(c: Link, data: bytes)
    ensures ParseRequest(Receive(c, data).buf).Some? <==> |ParseAll(c.buf + data)| >= 2
  {
    hide ParseRequest;
    var buf := c.buf + data;
    if ParseRequest(buf).Some? {
      ParseAllEmpty(buf[ParseRequest(buf).value.1..]);
    } else {
      ParseAllEmpty(buf);
    }
  }

  /**
   * A complete request that lies in the buffer is dispatched exactly when a further read
   * brings bytes; when none does, nothing changes.
   */
  lemma {:induction false} StrandedExactly(c: Link, waiting: bytes, script: seq<Reply>)
    requires c.phase == Reading && |c.buf| < BUFFER_SIZE && ParseRequest(c.buf).Some?
    ensures var (c', left) := HandleReadable(c, waiting, script);
            var first := ParseRequest(c.buf).value.0;
            if waiting != [] && script != [] && script[0].Take? then
              c'.dispatched == c.dispatched + [first] && c'.phase == Writing
            else
              c'.dispatched == c.dispatched && c'.buf == c.buf && left == waiting
  {
    hide HandleReadable;
    ReadableUnfold(c, waiting, script);
    if waiting != [] && script != [] && script[0].Take? {
      ParseStable(c.buf, waiting[..Count(script[0].most, BUFFER_SIZE - |c.buf|, |waiting|)]);
    }
  }

  /** Without further bytes the connection dispatches nothing, whatever its buffer holds. */
  lemma {:induction false} StrandedForGood(c: Link, scripts: seq<seq<Reply>>)
    ensures var (c', left) := Session(c, [], scripts);
            c'.dispatched == c.dispatched && c'.buf == c.buf && left == []
    decreases |scripts|
  {
    hide Receive, HandleReadable;
    if |scripts| > 0 && c.phase != Closing {
      ReadableUnfold(c.(phase := Reading), [], scripts[0]);
      StrandedForGood(HandleReadable(c.(phase := Reading), [], scripts[0]).0, scripts[1..]);
    }
  }

  /**
   * Two requests that arrive in one read: the second is never dispatched unless the
   * client sends more, though parsing the stream in one go finds both.
   */
  lemma {:induction false} TwoInOneRead(a: bytes, b: bytes, scripts: seq<seq<Reply>>)
    requires ParseRequest(a).Some? && ParseRequest(a).value.1 == |a|
    requires ParseRequest(b).Some? && ParseRequest(b).value.1 == |b|
    requires 0 < |a + b| <= BUFFER_SIZE
    ensures var (c, left) := Session(FRESH, a + b, [[Take(|a + b|)]] + scripts);
            && c.dispatched == [ParseRequest(a).value.0] && c.buf == b && left == []
            && ParseAll(a + b) == c.dispatched + [ParseRequest(b).value.0]
  {
    hide ParseRequest, HandleReadable;
    var stream, c1 := a + b, Link(b, Writing, [ParseRequest(a).value.0], a);
    ParseStable(a, b);
    ReadableUnfold(FRESH, stream, [Take(|stream|)]);
    assert stream[..|stream|] == stream && [] + stream == stream && stream[|stream|..] == [];
    assert stream[|a|..] == b && FRESH.consumed + stream[..|a|] == a;
    assert FRESH.dispatched + [ParseRequest(a).value.0] == c1.dispatched;
    assert FRESH.buf + stream == stream;
    assert HandleReadable(FRESH, stream, [Take(|stream|)]) == (c1, []);
    StrandedForGood(c1, scripts);
    assert ([[Take(|stream|)]] + scripts)[1..] == scripts;
    ParseAllFirst(a, b);
    assert a[|a|..] + b == b && b[|b|..] == [] && b + [] == b;
    ParseAllFirst(b, []);
    ParseNothing();
  }

  lemma {:induction false} ParseNothing()
    ensures ParseRequest([]) == None && ParseAll([]) == []
  {
  }

  // ---- what the reads bring is dispatched ----

  predicate AllTake(script: seq<Reply>) {
    forall i | 0 <= i < |script| :: script[i].Take?
  }

  /** What the reads would bring of a long stream. */
  function Wanted(script: seq<Reply>): nat
    requires AllTake(script)
    decreases |script|
  {
    if |script| == 0 then 0 else (if script[0].most == 0 then 1 else script[0].most) + Wanted(script[1..])
  }

  /**
   * Reads that bring no complete request only fill the buffer, in order; what the script
   * says next decides: nothing, or the end of the connection.
   */
  lemma {:induction false} ReadsFill(c: Link, waiting: bytes, takes: seq<Reply>, last: Reply)
    requires c.phase == Reading && AllTake(takes) && !last.Take? && Wanted(takes) <= |waiting|
    requires |c.buf| + Wanted(takes) < BUFFER_SIZE && ParseRequest(c.buf + waiting[..Wanted(takes)]) == None
    ensures HandleReadable(c, waiting, takes + [last]) ==
            (c.(buf := c.buf + waiting[..Wanted(takes)], phase := if last == Broken then Closing else Reading),
             waiting[Wanted(takes)..])
    decreases |takes|
  {
    hide ParseRequest, HandleReadable;
    ReadableUnfold(c, waiting, takes + [last]);
    if |takes| == 0 {
      assert takes + [last] == [last] && c.buf + waiting[..0] == c.buf;
    } else {
      var n, w := if takes[0].most == 0 then 1 else takes[0].most, Wanted(takes);
      var data, left := waiting[..n], waiting[n..];
      assert (takes + [last])[1..] == takes[1..] + [last];
      assert c.buf + waiting[..w] == (c.buf + data) + left[..w - n];
      if ParseRequest(c.buf + data).Some? { ParseStable(c.buf + data, left[..w - n]); }
      ReadsFill(Receive(c, data), left, takes[1..], last);
      assert left[w - n..] == waiting[w..];
    }
  }

  /**
   * A request that the reads complete is dispatched by the same handle_readable, in as
   * many reads as it takes, as long as it fits the buffer with what is read behind it.
   */
  lemma {:induction false} ReadsDispatch(c: Link, waiting: bytes, script: seq<Reply>)
    requires c.phase == Reading && AllTake(script) && Wanted(script) <= |waiting|
    requires script != [] && |c.buf| + Wanted(script) <= BUFFER_SIZE
    requires ParseRequest(c.buf + waiting[..Wanted(script)]).Some?
    ensures var (c', left) := HandleReadable(c, waiting, script);
            var (req, k) := ParseRequest(c.buf + waiting[..Wanted(script)]).value;
            && c'.phase == Writing && c'.dispatched == c.dispatched + [req]
            && c'.consumed == c.consumed + (c.buf + waiting)[..k] && c'.buf + left == (c.buf + waiting)[k..]
    decreases |script|
  {
    hide ParseRequest, HandleReadable;
    var n, w := if script[0].most == 0 then 1 else script[0].most, Wanted(script);
    ReadableUnfold(c, waiting, script);
    var data, left := waiting[..n], waiting[n..];
    assert c.buf + waiting[..w] == (c.buf + data) + left[..w - n];
    assert c.buf + waiting == (c.buf + data) + left;
    assert |script| == 1 ==> w == n && waiting[..w] == data;
    if ParseRequest(c.buf + data).Some? {
      ParseStable(c.buf + data, left[..w - n]);
    } else {
      ReadsDispatch(Receive(c, data), left, script[1..]);
    }
  }

  /** A buffer that is full without a request in it closes the connection. */
  lemma {:induction false} TooLongCloses(c: Link, waiting: bytes, script: seq<Reply>)
    requires c.phase == Reading && AllTake(script) && |c.buf| + |waiting| == BUFFER_SIZE && Wanted(script) >= |waiting|
    requires ParseRequest(c.buf + waiting) == None
    ensures HandleReadable(c, waiting, script) == (c.(buf := c.buf + waiting, phase := Closing), [])
    decreases |script|
  {
    hide ParseRequest, HandleReadable;
    ReadableUnfold(c, waiting, script);
    if waiting == [] {
      assert c.buf + waiting == c.buf;
    } else {
      var n := Count(script[0].most, BUFFER_SIZE - |c.buf|, |waiting|);
      var data, left := waiting[..n], waiting[n..];
      assert c.buf + waiting == (c.buf + data) + left;
      if ParseRequest(c.buf + data).Some? { ParseStable(c.buf + data, left); }
      TooLongCloses(Receive(c, data), left, script[1..]);
    }
  }

  /** The bytes of requests, one behind the other. */
  function Joined(rs: seq<bytes>): bytes
    decreases |rs|
  {
    if |rs| == 0 then [] else rs[0] + Joined(rs[1..])
  }

  /** A text that is one whole request, no longer than the buffer. */
  predicate Whole(r: bytes) {
    r != [] && |r| <= BUFFER_SIZE && ParseRequest(r).Some? && ParseRequest(r).value.1 == |r|
  }

  function Firsts(rs: seq<bytes>): seq<Request>
    requires forall i | 0 <= i < |rs| :: Whole(rs[i])
    decreases |rs|
  {
    if |rs| == 0 then []
    else
      assert Whole(rs[0]);
      [ParseRequest(rs[0]).value.0] + Firsts(rs[1..])
  }

  /** A client that sends its requests one at a time has all of them dispatched, in order. */
  lemma {:induction false} OneByOne(c: Link, rs: seq<bytes>)
    requires c.buf == [] && c.phase != Closing && forall i | 0 <= i < |rs| :: Whole(rs[i])
    ensures var scripts := seq(|rs|, i requires 0 <= i < |rs| => [Take(|rs[i]|)]);
            var (c', left) := Session(c, Joined(rs), scripts);
            c'.dispatched == c.dispatched + Firsts(rs) && c'.buf == [] && left == [] && c'.phase != Closing
    decreases |rs|
  {
    hide ParseRequest, HandleReadable, Receive;
    var scripts := seq(|rs|, i requires 0 <= i < |rs| => [Take(|rs[i]|)]);
    if |rs| > 0 {
      var r, more := rs[0], Joined(rs[1..]);
      var c1 := c.(phase := Reading);
      assert c1.buf + (r + more)[..|r|] == r && c1.buf + (r + more) == r + more;
      assert Wanted([Take(|r|)][1..]) == 0;
      ReadsDispatch(c1, r + more, [Take(|r|)]);
      var (c', left) := HandleReadable(c1, r + more, [Take(|r|)]);
      OneRead(c1, r, more);
      assert scripts[1..] == seq(|rs[1..]|, i requires 0 <= i < |rs[1..]| => [Take(|rs[1..][i]|)]);
      OneByOne(c', rs[1..]);
    }
  }

  lemma {:induction false} OneRead(c: Link, r: bytes, more: bytes)
    requires c.buf == [] && c.phase == Reading && Whole(r)
    ensures HandleReadable(c, r + more, [Take(|r|)]).1 == more
    ensures HandleReadable(c, r + more, [Take(|r|)]).0.buf == []
  {
    hide ParseRequest, HandleReadable;
    ReadableUnfold(c, r + more, [Take(|r|)]);
    assert c.buf + (r + more)[..|r|] == r && (r + more)[|r|..] == more;
  }

  // ---- the connection ----

  datatype SendReply = Sent(most: nat) | SendBlocks | SendBroken

  function SendCount(most: nat, remaining: nat): nat {
    Min(if most == 0 then 1 else most, remaining)
  }

  /** Where a script first refuses to send, or its end. */
  function FirstStop(script: seq<SendReply>): (k: nat)
    ensures k <= |script| && (forall i | 0 <= i < k :: script[i].Sent?) && (k < |script| ==> !script[k].Sent?)
    decreases |script|
  {
    if |script| == 0 || !script[0].Sent? then 0
    else
      assert forall i | 0 <= i < |script| - 1 :: script[1..][i] == script[i + 1];
      1 + FirstStop(script[1..])
  }

  /** What the first k entries would send of a long response; send() never returns 0 for a byte. */
  function Offered(script: seq<SendReply>, k: nat): nat
    requires k <= |script| && forall i | 0 <= i < k :: script[i].Sent?
  {
    if k == 0 then 0 else Offered(script, k - 1) + if script[k - 1].most == 0 then 1 else script[k - 1].most
  }

  lemma {:induction false} OfferedGrows(script: seq<SendReply>, j: nat, k: nat)
    requires j <= k <= |script| && forall i | 0 <= i < k :: script[i].Sent?
    ensures Offered(script, j) + (k - j) <= Offered(script, k)
    decreases k - j
  {
    if j < k { OfferedGrows(script, j, k - 1); }
  }

  lemma {:induction false} Further(s: bytes, start: nat, p: nat, n: nat)
    requires start <= p && p + n <= |s|
    ensures s[start..][..p - start + n] == s[start..][..p - start] + s[p..p + n]
  {
    assert s[start..][..p - start] == s[start..p];
    assert s[start..][..p - start + n] == s[start..p + n];
    assert s[start..p + n] == s[start..p] + s[p..p + n];
  }

  class Connection {
    const readBuf: array<byte>
    var readTotal: nat
    var phase: Phase
    var writeBuf: bytes
    var writePos: nat

    ghost var dispatched: seq<Request>
    ghost var consumed: bytes

    ghost predicate Valid()
      reads this
    {
      readBuf.Length == BUFFER_SIZE && readTotal <= BUFFER_SIZE && writePos <= |writeBuf|
    }

    ghost function Abs(): Link
      reads this, readBuf
      requires Valid()
    {
      Link(readBuf[..readTotal], phase, dispatched, consumed)
    }

    /** alloc_conn, and the state that the worker sets. */
    constructor ()
      ensures Valid() && fresh(readBuf) && Abs() == FRESH && writeBuf == []
    {
      readBuf := new byte[BUFFER_SIZE](_ => 0);
      readTotal, phase, writeBuf, writePos, dispatched, consumed := 0, Reading, [], 0, [], [];
    }

    /** read() into the free part of the buffer. */
    method Fill(data: bytes)
      requires Valid() && readTotal + |data| <= BUFFER_SIZE
      modifies this`readTotal, readBuf
      ensures Valid() && readTotal == old(readTotal) + |data|
      ensures readBuf[..readTotal] == old(readBuf[..readTotal]) + data
    {
      forall i | 0 <= i < |data| {
        readBuf[readTotal + i] := data[i];
      }
      readTotal := readTotal + |data|;
    }

    /** memmove of what lies behind the request to the front. */
    method Drop(n: nat)
      requires Valid() && n <= readTotal
      modifies this`readTotal, readBuf
      ensures Valid() && readBuf[..readTotal] == old(readBuf[..readTotal])[n..]
    {
      forall i | 0 <= i < readTotal - n {
        readBuf[i] := readBuf[n + i];
      }
      readTotal := readTotal - n;
    }

    /** What handle_readable does after a read; the response is built by the caller's handler. */
    method Dispatch()
      requires Valid()
      modifies this`readTotal, this`phase, this`dispatched, this`consumed, readBuf
      ensures Valid()
      ensures var before := old(Link(readBuf[..readTotal], phase, dispatched, consumed));
              Abs() == Receive(before, [])
    {
      ghost var buf := readBuf[..readTotal];
      assert buf + [] == buf;
      hide ParseRequest;
      var r := HttpReq(readBuf[..readTotal]);
      if r == None {
        return;
      }
      var n := r.value.1;
      Drop(n);
      phase := Writing;
      dispatched := dispatched + [r.value.0];
      consumed := consumed + buf[..n];
    }

    /** handle_readable, against the bytes that wait and a script of read() results. */
    method Readable(waiting: bytes, script: seq<Reply>) returns (left: bytes)
      requires Valid() && phase == Reading
      modifies this`readTotal, this`phase, this`dispatched, this`consumed, readBuf
      ensures Valid()
      ensures (Abs(), left) == HandleReadable(old(Abs()), waiting, script)
    {
      hide ParseRequest, Receive, HandleReadable;
      left := waiting;
      ghost var goal := HandleReadable(Abs(), waiting, script);
      ghost var rest := script;
      var k := 0;
      while true
        invariant Valid() && 0 <= k <= |script| && phase == Reading && rest == script[k..]
        invariant HandleReadable(Abs(), left, rest) == goal
        decreases |script| - k
      {
        ghost var c := Abs();
        ReadableUnfold(c, left, rest);
        var space := BUFFER_SIZE - readTotal;
        if space <= 0 {
          phase := Closing;
          return;
        }
        if k == |script| {
          return;
        }
        match script[k] {
          case WouldBlock =>
            return;
          case Broken =>
            phase := Closing;
            return;
          case Take(most) =>
            var n := Count(most, space, |left|);
            if n == 0 {
              return;
            }
            ReceiveFilled(c, left[..n]);
            Fill(left[..n]);
            Dispatch();
            left, rest := left[n..], rest[1..];
            k := k + 1;
            if phase == Writing {
              return;
            }
        }
      }
    }

    /**
     * handle_writable: as many bytes go out, in order, as the script offers before it
     * first refuses. Reading resumes when all are out, and the connection closes when
     * some are left and the refusal was an error.
     */
    method Writable(script: seq<SendReply>) returns (sent: bytes)
      requires Valid() && phase == Writing
      modifies this`phase, this`writeBuf, this`writePos
      ensures Valid()
      ensures var all, k := old(writeBuf[writePos..]), FirstStop(script);
              var n := Min(|all|, Offered(script, k));
              && sent == all[..n]
              && phase == (if n == |all| then Reading
                           else if k < |script| && script[k] == SendBroken then Closing else Writing)
              && (if n == |all| then writeBuf == [] && writePos == 0
                  else writeBuf == old(writeBuf) && writePos == old(writePos) + n)
    {
      sent := [];
      ghost var all, stop, start := writeBuf[writePos..], FirstStop(script), writePos;
      var k: nat := 0;
      while writePos < |writeBuf|
        invariant k <= stop && start <= writePos <= |writeBuf| && writeBuf == old(writeBuf) && phase == Writing
        invariant writePos - start == Min(|all|, Offered(script, k)) && sent == all[..writePos - start]
        decreases |writeBuf| - writePos
      {
        if k == |script| || script[k] == SendBlocks {
          break;
        }
        if script[k] == SendBroken {
          phase := Closing;
          return;
        }
        var n := SendCount(script[k].most, |writeBuf| - writePos);
        Further(writeBuf, start, writePos, n);
        sent := sent + writeBuf[writePos..writePos + n];
        writePos := writePos + n;
        k := k + 1;
      }
      OfferedGrows(script, k, stop);
      if writePos >= |writeBuf| {
        assert all[..|all|] == all;
        writeBuf := [];
        writePos := 0;
        phase := Reading;
      }
    }
  }

  /** One round of the read loop. */
  lemma {:induction false} ReadableUnfold(c: Link, waiting: bytes, script: seq<Reply>)
    requires c.phase == Reading
    ensures HandleReadable(c, waiting, script) ==
            if |c.buf| >= BUFFER_SIZE then (c.(phase := Closing), waiting)
            else if |script| == 0 || script[0] == WouldBlock then (c, waiting)
            else if script[0] == Broken then (c.(phase := Closing), waiting)
            else
              var n := Count(script[0].most, BUFFER_SIZE - |c.buf|, |waiting|);
              if n == 0 then (c, waiting)
              else if Receive(c, waiting[..n]).phase == Writing then (Receive(c, waiting[..n]), waiting[n..])
              else HandleReadable(Receive(c, waiting[..n]), waiting[n..], script[1..])
    ensures forall data :: Receive(c, data).phase == Reading || Receive(c, data).phase == Writing
  {
  }

  /** Receiving data is filling the buffer and then parsing it. */
  lemma {:induction false} ReceiveFilled(c: Link, data: bytes)
    ensures Receive(c.(buf := c.buf + data), []) == Receive(c, data)
  {
    assert c.buf + data + [] == c.buf + data;
  }
}
