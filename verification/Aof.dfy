/** src/core/storage/aof.c: the append-only file, its flushing policy, and its replay. */
module Aof {
  import opened Bytes
  import opened Bits
  import opened Table
  import opened Runs
  import opened Loops
  import opened LogCodec
  import opened HashTable
  import Hash

  datatype Policy = Always | EverySec | No

  /** What the table stores for a value of the server. */
  function EntryOf(value: bytes): Entry {
    Entry(Data(value), ToU16(|value|))
  }

  /** The call that one command makes into the table comes to an end. */
  ghost predicate Endable(s: State, op: LogOp)
    requires |s.t| > 0
  {
    match op
    case Set(key, value) => PutEnds(Hash.Fnv1a, s.t, key, EntryOf(value))
    case Del(key) => ProbeEnds(Hash.Fnv1a, s.t, key)
  }

  /** The replay of one command into a table, as aof_replay makes it. */
  ghost function ReplayStep(s: State, op: LogOp): (s': State)
    requires |s.t| > 0
    ensures |s'.t| == |s.t|
  {
    match op
    case Set(key, value) => Call(Hash.Fnv1a, s, Put(key, EntryOf(value)))
    case Del(key) =>
      if ProbeEnds(Hash.Fnv1a, s.t, key) && GetCall(Hash.Fnv1a, s.t, key) != Null
      then Call(Hash.Fnv1a, s, Op.Del(key)) else s
  }

  ghost function ReplayInto(s: State, ops: seq<LogOp>): (s': State)
    requires |s.t| > 0
    ensures |s'.t| == |s.t|
    decreases |ops|
  {
    if |ops| == 0 then s else ReplayStep(ReplayInto(s, ops[..|ops| - 1]), ops[|ops| - 1])
  }

  /** Every call that the replay makes into the table comes to an end. */
  ghost predicate Replayable(s: State, ops: seq<LogOp>)
    requires |s.t| > 0
    decreases |ops|
  {
    |ops| == 0 ||
    (var s' := ReplayInto(s, ops[..|ops| - 1]);
     && Replayable(s, ops[..|ops| - 1])
     && Endable(s', ops[|ops| - 1]))
  }

  /** The handle of the log file: its bytes, and how many of them an fsync has covered. */
  class AofFile {
    var file: bytes
    var durable: nat
    var lastSync: int
    var bytesWritten: nat
    const policy: Policy

    /** For the specification: where each record ends and when it was appended. */
    ghost var stamps: seq<(nat, int)>

    /** Which bytes can be unflushed: none, or only those of the second of the last fsync. */
    ghost predicate Valid()
      reads this
    {
      && durable <= |file|
      && (forall i | 0 <= i < |stamps| :: stamps[i].0 <= |file|)
      && match policy
         case Always => durable == |file|
         case EverySec => forall i | 0 <= i < |stamps| && stamps[i].0 > durable :: stamps[i].1 == lastSync
         case No => true
    }

    /** aof_open on an existing log. */
    constructor (contents: bytes, p: Policy, now: int)
      ensures Valid() && file == contents && policy == p && lastSync == now && stamps == []
      ensures durable == |contents|
    {
      file, durable, lastSync, bytesWritten, policy, stamps := contents, |contents|, now, 0, p, [];
    }

    /** aof_sync at time `now`. */
    method Sync(now: int)
      requires durable <= |file|
      modifies this`durable, this`lastSync
      ensures match policy
              case Always => durable == |file| && lastSync == old(lastSync)
              case EverySec =>
                if now - old(lastSync) >= 1 then durable == |file| && lastSync == now
                else durable == old(durable) && lastSync == old(lastSync)
              case No => durable == old(durable) && lastSync == old(lastSync)
    {
      match policy {
        case Always =>
          durable := |file|;
        case EverySec =>
          if now - lastSync >= 1 {
            durable := |file|;
            lastSync := now;
          }
        case No =>
      }
    }

    /** The write, accounting and sync that both appends end with. */
    method Append(record: bytes, now: int)
      requires Valid() && now >= lastSync
      modifies this
      ensures Valid() && file == old(file) + record && lastSync <= now && durable >= old(durable)
      ensures bytesWritten == (old(bytesWritten) + |record|) % U64
      ensures stamps == old(stamps) + [(|file|, now)]
    {
      file := file + record;
      bytesWritten := (bytesWritten + |record|) % U64;
      stamps := stamps + [(|file|, now)];
      Sync(now);
    }

    /** aof_append_set; the clock does not go backwards. */
    method AppendSet(key: bytes, value: Value, now: int) returns (rc: int)
      requires Valid() && now >= lastSync
      modifies this
      ensures Valid() && durable >= old(durable)
      ensures rc == if value == Null then -1 else 0
      ensures file == old(file) + (if value == Null then [] else Record(Set(CString(key), value.data)))
      ensures stamps == old(stamps) + (if value == Null then [] else [(|file|, now)])
    {
      if value == Null {
        return -1;
      }
      Append(Record(Set(CString(key), value.data)), now);
      return 0;
    }

    /** aof_append_del. */
    method AppendDel(key: bytes, now: int) returns (rc: int)
      requires Valid() && now >= lastSync
      modifies this
      ensures Valid() && rc == 0 && durable >= old(durable)
      ensures file == old(file) + Record(LogCodec.Del(CString(key))) && stamps == old(stamps) + [(|file|, now)]
    {
      Append(Record(LogCodec.Del(CString(key))), now);
      return 0;
    }

    /** The part of aof_replay's loop body that calls the table. */
    static method ReplayCommand(hm: HashMap, op: LogOp)
      requires hm.Valid() && Endable(hm.Abs(), op)
      modifies hm, hm.buckets
      ensures hm.Abs() == ReplayStep(old(hm.Abs()), op)
    {
      match op {
        case Set(key, value) =>
          var _ := hm.Insert(key, Data(value), |value|);
        case Del(key) =>
          var oldVal := hm.Get(key);
          if oldVal != Null {
            var _ := hm.Delete(key);
          }
      }
    }

    /**
     * aof_replay: the commands of the file, line by line, into the table. The line buffer
     * lies on the stack and holds `stack` at first; `died` says that a line made the
     * process read from a null pointer or past the buffer.
     */
    method Replay(hm: HashMap, stack: bytes) returns (died: bool)
      requires hm.Valid() && |stack| == LINE_SIZE
      requires Replayable(hm.Abs(), LogCodec.Replay(stack, file).ops)
      modifies hm, hm.buckets
      ensures LogCodec.Replay(stack, file) == Outcome(LogCodec.Replay(stack, file).ops, died)
      ensures hm.Abs() == ReplayInto(old(hm.Abs()), LogCodec.Replay(stack, file).ops)
    {
      hide LogCodec.Replay, Replayable, ReplayInto, ReplayStep, Endable, ReplayLine, Line, Filled;
      ghost var s0, all := hm.Abs(), LogCodec.Replay(stack, file);
      var buf, pos := stack, 0;
      ghost var done, rest: seq<LogOp> := [], all.ops;
      assert file[0..] == file;
      ReplayNone(s0, all.ops);
      while pos < |file|
        invariant 0 <= pos <= |file| && |buf| == LINE_SIZE
        invariant LogCodec.Replay(buf, file[pos..]) == Outcome(rest, all.died)
        invariant done + rest == all.ops && hm.Abs() == ReplayInto(s0, done)
        decreases |file| - pos
      {
        var line := Line(file[pos..]);
        ReplayLineFirst(buf, file, pos);
        buf := Filled(buf, line);
        match ReplayLine(buf) {
          case Skip =>
          case Command(op) =>
            assert rest == [op] + rest[1..];
            ReplayableNext(s0, all.ops, done, op, rest[1..]);
            ReplayCommand(hm, op);
            done, rest := done + [op], rest[1..];
          case AtNull =>
            assert done + rest == done;
            return true;
          case Past =>
            assert done + rest == done;
            return true;
        }
        pos := pos + |line|;
      }
      ReplayEnd(buf, file[pos..]);
      assert done + rest == done;
      died := false;
    }
  }

  lemma {:induction false} ReplayLineFirst(buf: bytes, file: bytes, pos: nat)
    requires pos < |file| && |buf| == LINE_SIZE
    ensures var line := Line(file[pos..]);
            var b, o := Filled(buf, line), LogCodec.Replay(buf, file[pos..]);
            && 0 < |line| <= |file| - pos
            && match ReplayLine(b)
               case Skip => LogCodec.Replay(b, file[pos + |line|..]) == o
               case Command(op) =>
                 o.ops != [] && o.ops[0] == op && LogCodec.Replay(b, file[pos + |line|..]) == o.(ops := o.ops[1..])
               case AtNull => o == Outcome([], true)
               case Past => o == Outcome([], true)
  {
    hide Line, ReplayLine, Filled;
    var line := Line(file[pos..]);
    assert file[pos..][|line|..] == file[pos + |line|..];
  }

  lemma {:induction false} ReplayEnd(buf: bytes, file: bytes)
    requires file == [] && |buf| == LINE_SIZE
    ensures LogCodec.Replay(buf, file) == Outcome([], false)
  {
  }

  lemma {:induction false} ReplayNone(s: State, all: seq<LogOp>)
    requires |s.t| > 0
    ensures ReplayInto(s, []) == s && [] + all == all
  {
  }

  lemma {:induction false} ReplayableNext(s: State, all: seq<LogOp>, done: seq<LogOp>, op: LogOp, rest: seq<LogOp>)
    requires |s.t| > 0 && Replayable(s, all) && done + ([op] + rest) == all
    ensures Endable(ReplayInto(s, done), op)
    ensures ReplayInto(s, done + [op]) == ReplayStep(ReplayInto(s, done), op)
    ensures (done + [op]) + rest == all
  {
    hide Endable, ReplayStep;
    var next := done + [op];
    assert next + rest == all;
    assert all[..|next|] == next && next[..|done|] == done;
    ReplayablePrefix(s, all, |next|);
  }

  lemma {:induction false} ReplayablePrefix(s: State, ops: seq<LogOp>, n: nat)
    requires |s.t| > 0 && n <= |ops| && Replayable(s, ops)
    ensures Replayable(s, ops[..n])
    decreases |ops|
  {
    hide Endable, ReplayInto;
    if n < |ops| {
      ReplayablePrefix(s, ops[..|ops| - 1], n);
      assert ops[..|ops| - 1][..n] == ops[..n];
    } else {
      assert ops[..n] == ops;
    }
  }
}
