/**
 * The durability protocol of src/misc/server.c and src/misc/handler/server.handler.c as
 * a state machine: handlers change memory and then append to the log, the snapshot
 * worker saves and then compacts the log, a crash cuts the log back to some flushed
 * length, and a restart replays the log over the snapshot.
 */
module Recovery {
  import opened Bytes
  import opened LogCodec

  type DB = map<bytes, bytes>

  // ---- what a log means ----

  function Apply(m: DB, op: LogOp): DB {
    match op
    case Set(key, value) => m[key := value]
    case Del(key) => m - {key}
  }

  /** Replaying a log over a map, oldest record first. */
  function ReplayOver(m: DB, l: seq<LogOp>): DB
    decreases |l|
  {
    if |l| == 0 then m else Apply(ReplayOver(m, l[..|l| - 1]), l[|l| - 1])
  }

  /** The keys that some record of the log sets or deletes. */
  function Touched(l: seq<LogOp>): set<bytes> {
    set i | 0 <= i < |l| :: l[i].key
  }

  function At(m: DB, k: bytes): Option<bytes> {
    if k in m then Some(m[k]) else None
  }

  /** What the last record about k leaves. */
  function Last(l: seq<LogOp>, k: bytes): Option<bytes>
    decreases |l|
  {
    if |l| == 0 then None
    else
      var op := l[|l| - 1];
      if op.key != k then Last(l[..|l| - 1], k)
      else match op { case Set(_, v) => Some(v) case Del(_) => None }
  }

  /** Replay in closed form: the last record about a key wins, and other keys stay. */
  lemma {:induction false} ReplayAt(m: DB, l: seq<LogOp>, k: bytes)
    ensures At(ReplayOver(m, l), k) == if k in Touched(l) then Last(l, k) else At(m, k)
    decreases |l|
  {
    if |l| > 0 {
      var l', op := l[..|l| - 1], l[|l| - 1];
      ReplayAt(m, l', k);
      TouchedLast(l);
    }
  }

  lemma {:induction false} TouchedLast(l: seq<LogOp>)
    requires |l| > 0
    ensures Touched(l) == Touched(l[..|l| - 1]) + {l[|l| - 1].key}
  {
    var l' := l[..|l| - 1];
    forall k ensures k in Touched(l) <==> k in Touched(l') || k == l[|l| - 1].key {
      if k in Touched(l) {
        var i :| 0 <= i < |l| && l[i].key == k;
        if i < |l| - 1 { assert l'[i].key == k; }
      }
      if k in Touched(l') {
        var i :| 0 <= i < |l'| && l'[i].key == k;
        assert l[i].key == k;
      }
    }
  }

  lemma {:induction false} SameAt(a: DB, b: DB)
    requires forall k :: At(a, k) == At(b, k)
    ensures a == b
  {
    forall k ensures k in a <==> k in b { assert At(a, k) == At(b, k); }
    forall k | k in a ensures a[k] == b[k] { assert At(a, k) == At(b, k); }
  }

  lemma {:induction false} ReplaySum(m: DB, a: seq<LogOp>, b: seq<LogOp>)
    ensures ReplayOver(m, a + b) == ReplayOver(ReplayOver(m, a), b)
    decreases |b|
  {
    if |b| == 0 {
      assert a + b == a;
    } else {
      assert (a + b)[..|a + b| - 1] == a + b[..|b| - 1];
      ReplaySum(m, a, b[..|b| - 1]);
    }
  }

  lemma {:induction false} LastSum(a: seq<LogOp>, b: seq<LogOp>, k: bytes)
    ensures Last(a + b, k) == if k in Touched(b) then Last(b, k) else Last(a, k)
    decreases |b|
  {
    if |b| == 0 {
      assert a + b == a;
    } else {
      assert (a + b)[..|a + b| - 1] == a + b[..|b| - 1];
      LastSum(a, b[..|b| - 1], k);
      TouchedLast(b);
    }
  }

  lemma {:induction false} TouchedSum(a: seq<LogOp>, b: seq<LogOp>)
    ensures Touched(a + b) == Touched(a) + Touched(b)
  {
    var c := a + b;
    forall k ensures k in Touched(c) <==> k in Touched(a) || k in Touched(b) {
      if k in Touched(c) {
        var i :| 0 <= i < |c| && c[i].key == k;
        if i < |a| { assert a[i].key == k; } else { assert b[i - |a|].key == k; }
      }
      if k in Touched(a) { var i :| 0 <= i < |a| && a[i].key == k; assert c[i].key == k; }
      if k in Touched(b) { var i :| 0 <= i < |b| && b[i].key == k; assert c[|a| + i].key == k; }
    }
  }

  /** Replaying a log a second time changes nothing: why a snapshot may come before it. */
  lemma {:induction false} ReplayIdempotent(m: DB, l: seq<LogOp>)
    ensures ReplayOver(ReplayOver(m, l), l) == ReplayOver(m, l)
  {
    forall k ensures At(ReplayOver(ReplayOver(m, l), l), k) == At(ReplayOver(m, l), k) {
      ReplayAt(m, l, k);
      ReplayAt(ReplayOver(m, l), l, k);
    }
    SameAt(ReplayOver(ReplayOver(m, l), l), ReplayOver(m, l));
  }

  // ---- compaction ----

  /** aof_rewrite writes one SET for every entry, in the order of the slots. */
  ghost predicate Compacts(l: seq<LogOp>, m: DB) {
    && (forall i | 0 <= i < |l| :: l[i].Set? && l[i].key in m && m[l[i].key] == l[i].value)
    && Touched(l) == m.Keys
  }

  lemma {:induction false} CompactsLast(l: seq<LogOp>, m: DB, k: bytes)
    requires forall i | 0 <= i < |l| :: l[i].Set? && l[i].key in m && m[l[i].key] == l[i].value
    requires k in Touched(l)
    ensures Last(l, k) == At(m, k)
    decreases |l|
  {
    TouchedLast(l);
    if l[|l| - 1].key != k {
      CompactsLast(l[..|l| - 1], m, k);
    }
  }

  /**
   * Recovery in one condition. The log is a compaction of m followed by the records h;
   * whatever the snapshot holds, replaying the log over it gives the state after h
   * exactly when the log mentions every key of the snapshot.
   */
  lemma {:induction false} RecoverExactly(snap: DB, c: seq<LogOp>, m: DB, h: seq<LogOp>)
    requires Compacts(c, m)
    ensures ReplayOver(snap, c + h) == ReplayOver(m, h) <==> snap.Keys <= Touched(c + h)
  {
    var l := c + h;
    TouchedSum(c, h);
    forall k
      ensures At(ReplayOver(m, h), k) == if k in Touched(l) then At(ReplayOver(snap, l), k) else None
      ensures k !in Touched(l) ==> At(ReplayOver(snap, l), k) == At(snap, k)
    {
      ReplayAt(snap, l, k);
      ReplayAt(m, h, k);
      LastSum(c, h, k);
      if k in Touched(c) { CompactsLast(c, m, k); }
    }
    if snap.Keys <= Touched(l) {
      SameAt(ReplayOver(snap, l), ReplayOver(m, h));
    } else {
      var k :| k in snap && k !in Touched(l);
      assert At(ReplayOver(snap, l), k) != At(ReplayOver(m, h), k);
    }
  }

  // ---- the protocol ----

  datatype Phase =
    | Idle
    | Logging(op: LogOp)   // a handler has changed memory and not yet appended
    | Saved(ok: bool)      // the worker has run db_save and not yet aof_rewrite
    | Down

  /**
   * Memory, the snapshot file, the log and how many of its records are flushed to disk;
   * and, for the specification, the accepted operations `hist`, of which the log holds
   * a compaction `comp` of the first `base` and then the rest.
   */
  datatype State = State(
    mem: DB, snap: DB, log: seq<LogOp>, synced: nat, phase: Phase,
    hist: seq<LogOp>, comp: seq<LogOp>, base: nat)

  const INIT := State(map[], map[], [], 0, Idle, [], [], 0)

  datatype Event =
    | Begin(op: LogOp)              // hm_insert or hm_delete under the lock
    | Append(flush: bool)           // aof_append_*, whose aof_sync may fsync
    | SaveOk | SaveFail             // db_save: rename of the new snapshot, or not
    | RewriteOk(log: seq<LogOp>)    // aof_rewrite: fsync and rename of the new log
    | RewriteFail
    | Crash(kept: nat)              // at any moment, keeping at least what was flushed
    | Restart                       // db_load, then aof_replay

  ghost predicate Enabled(s: State, e: Event) {
    match e
    case Begin(_) => s.phase == Idle
    case Append(_) => s.phase.Logging?
    case SaveOk => s.phase == Idle
    case SaveFail => s.phase == Idle
    case RewriteOk(l) => s.phase.Saved? && Compacts(l, s.mem)
    case RewriteFail => s.phase.Saved?
    case Crash(kept) => s.phase != Down && s.synced <= kept <= |s.log|
    case Restart => s.phase == Down
  }

  /** How many operations survive a crash that keeps this much of the log. */
  function Survivors(s: State, kept: nat): nat {
    if |s.log| - kept <= |s.hist| then |s.hist| - (|s.log| - kept) else 0
  }

  function Next(s: State, e: Event): State {
    match e
    case Begin(op) => s.(mem := Apply(s.mem, op), phase := Logging(op))
    case Append(flush) =>
      if !s.phase.Logging? then s
      else
        var log := s.log + [s.phase.op];
        s.(log := log, synced := if flush then |log| else s.synced, phase := Idle, hist := s.hist + [s.phase.op])
    case SaveOk => s.(snap := s.mem, phase := Saved(true))
    case SaveFail => s.(phase := Saved(false))
    case RewriteOk(l) => s.(log := l, synced := |l|, phase := Idle, comp := l, base := |s.hist|)
    case RewriteFail => s.(phase := Idle)
    case Crash(kept) =>
      if kept > |s.log| || Survivors(s, kept) > |s.hist| then s
      else s.(log := s.log[..kept], synced := kept, phase := Down, hist := s.hist[..Survivors(s, kept)])
    case Restart => s.(mem := ReplayOver(s.snap, s.log), phase := Idle)
  }

  /** The map after the accepted operations. */
  function After(hist: seq<LogOp>): DB {
    ReplayOver(map[], hist)
  }

  /** How the log, the flushed part and memory stand to the accepted operations. */
  ghost predicate Shape(s: State) {
    && s.base <= |s.hist| && s.log == s.comp + s.hist[s.base..]
    && |s.comp| <= s.synced <= |s.log|
    && Compacts(s.comp, After(s.hist[..s.base]))
    && match s.phase
       case Idle => s.mem == After(s.hist)
       case Saved(ok) => s.mem == After(s.hist) && (ok ==> s.snap == s.mem)
       case Logging(op) => s.mem == Apply(After(s.hist), op)
       case Down => true
  }

  /** The log mentions every key of the snapshot. */
  predicate Covered(s: State) {
    s.snap.Keys <= Touched(s.log)
  }

  ghost predicate Inv(s: State) {
    Shape(s) && Covered(s)
  }

  /**
   * What a step needs: the rewrite, which the worker runs even after a failed save,
   * needs every key of the snapshot to be in memory still; and a crash must leave a log
   * that mentions every key of the snapshot.
   */
  predicate Safe(s: State, e: Event) {
    match e
    case RewriteOk(_) => s.snap.Keys <= s.mem.Keys
    case Crash(kept) => kept <= |s.log| && s.snap.Keys <= Touched(s.log[..kept])
    case _ => true
  }

  /** Under the invariant a restart would bring back exactly the accepted operations. */
  lemma {:induction false} Recoverable(s: State)
    requires Shape(s)
    ensures ReplayOver(s.snap, s.log) == After(s.hist) <==> Covered(s)
  {
    RecoverExactly(s.snap, s.comp, After(s.hist[..s.base]), s.hist[s.base..]);
    ReplaySum(map[], s.hist[..s.base], s.hist[s.base..]);
    assert s.hist[..s.base] + s.hist[s.base..] == s.hist;
  }

  lemma {:induction false} AfterSnoc(hist: seq<LogOp>, op: LogOp)
    ensures After(hist + [op]) == Apply(After(hist), op)
  {
    assert (hist + [op])[..|hist|] == hist;
  }

  /** A map only holds keys that its operations mention. */
  lemma {:induction false} AfterTouched(s: State)
    requires Shape(s)
    ensures After(s.hist).Keys <= Touched(s.log)
  {
    forall k | k in After(s.hist) ensures k in Touched(s.log) {
      var h, t := s.hist[..s.base], s.hist[s.base..];
      assert h + t == s.hist;
      ReplaySum(map[], h, t);
      ReplayAt(After(h), t, k);
      TouchedSum(s.comp, t);
    }
  }

  lemma {:induction false} CrashShape(s: State, kept: nat)
    requires Shape(s) && s.synced <= kept <= |s.log|
    ensures Shape(Next(s, Crash(kept)))
    ensures Next(s, Crash(kept)).hist <= s.hist
  {
    var n := Survivors(s, kept);
    assert s.base <= n <= |s.hist|;
    assert s.log[..kept] == s.comp + s.hist[s.base..n];
    assert s.hist[..n][s.base..] == s.hist[s.base..n];
    assert s.hist[..n][..s.base] == s.hist[..s.base];
  }

  lemma {:induction false} RewriteShape(s: State, l: seq<LogOp>)
    requires Shape(s) && s.phase.Saved? && Compacts(l, s.mem)
    ensures Shape(Next(s, RewriteOk(l)))
  {
    assert s.hist[..|s.hist|] == s.hist && s.hist[|s.hist|..] == [];
  }

  lemma {:induction false} AppendShape(s: State, flush: bool)
    requires Shape(s) && s.phase.Logging?
    ensures Shape(Next(s, Append(flush)))
    ensures Touched(s.log) <= Touched(Next(s, Append(flush)).log)
  {
    var s', op := Next(s, Append(flush)), s.phase.op;
    AfterSnoc(s.hist, op);
    assert s'.hist[s.base..] == s.hist[s.base..] + [op];
    assert s'.hist[..s.base] == s.hist[..s.base];
    assert s'.log == s.comp + s'.hist[s.base..];
    TouchedSum(s.log, [op]);
  }

  /**
   * One step of the protocol keeps the invariant exactly when it is safe; only a rewrite
   * and a crash can be unsafe.
   */
  lemma {:induction false} StepExactly(s: State, e: Event)
    requires Inv(s) && Enabled(s, e)
    ensures Inv(Next(s, e)) <==> Safe(s, e)
  {
    match e
    case Begin(op) =>
    case Append(flush) => AppendShape(s, flush);
    case SaveOk => AfterTouched(s);
    case SaveFail =>
    case RewriteOk(l) => RewriteShape(s, l);
    case RewriteFail =>
    case Crash(kept) => CrashShape(s, kept);
    case Restart => Recoverable(s);
  }

  // ---- whole runs ----

  function RunTo(s: State, es: seq<Event>): State
    decreases |es|
  {
    if |es| == 0 then s else RunTo(Next(s, es[0]), es[1..])
  }

  ghost predicate SafeRun(s: State, es: seq<Event>)
    decreases |es|
  {
    |es| == 0 || (Enabled(s, es[0]) && Safe(s, es[0]) && SafeRun(Next(s, es[0]), es[1..]))
  }

  ghost predicate EnabledRun(s: State, es: seq<Event>)
    decreases |es|
  {
    |es| == 0 || (Enabled(s, es[0]) && EnabledRun(Next(s, es[0]), es[1..]))
  }

  /**
   * Crash recovery: over every safe run, whenever the lock is free, and so after every
   * restart, memory is the map of the accepted operations, and the snapshot and the
   * log on disk would restore exactly it.
   */
  lemma {:induction false} RunRecovers(s: State, es: seq<Event>)
    requires Inv(s) && SafeRun(s, es)
    ensures var s' := RunTo(s, es);
            && Inv(s')
            && ReplayOver(s'.snap, s'.log) == After(s'.hist)
            && (s'.phase == Idle ==> s'.mem == After(s'.hist))
    decreases |es|
  {
    if |es| == 0 {
      Recoverable(s);
    } else {
      StepExactly(s, es[0]);
      RunRecovers(Next(s, es[0]), es[1..]);
    }
  }

  lemma {:induction false} InitInv()
    ensures Inv(INIT)
  {
  }

  /** A crash now, if any, followed by a restart would bring back the accepted operations. */
  predicate Recovers(s: State) {
    ReplayOver(s.snap, s.log) == After(s.hist)
  }

  /** A step is safe exactly when the files restore the accepted operations behind it. */
  lemma {:induction false} StepRecovers(s: State, e: Event)
    requires Inv(s) && Enabled(s, e)
    ensures Safe(s, e) <==> Recovers(Next(s, e))
  {
    StepExactly(s, e);
    if e.RewriteOk? { RewriteShape(s, e.log); }
    if e.Crash? { CrashShape(s, e.kept); }
    hide Compacts, ReplayOver, Touched;
    if e.RewriteOk? || e.Crash? || Safe(s, e) { Recoverable(Next(s, e)); }
  }

  /**
   * A run is safe exactly when at every moment of it the files on disk would restore the
   * accepted operations.
   */
  lemma {:induction false} SafeRunExactly(s: State, es: seq<Event>)
    requires Inv(s) && EnabledRun(s, es)
    ensures SafeRun(s, es) <==> forall k | 0 <= k <= |es| :: Recovers(RunTo(s, es[..k]))
    decreases |es|
  {
    Recoverable(s);
    hide Inv, Next, Safe, Enabled, Recovers;
    assert RunTo(s, es[..0]) == s;
    if |es| > 0 {
      var s', rest := Next(s, es[0]), es[1..];
      StepRecovers(s, es[0]);
      StepExactly(s, es[0]);
      forall k | 0 < k <= |es| ensures RunTo(s, es[..k]) == RunTo(s', rest[..k - 1]) {
        assert es[..k][1..] == rest[..k - 1];
      }
      if Safe(s, es[0]) {
        SafeRunExactly(s', rest);
        forall k | 0 <= k <= |rest| ensures RunTo(s', rest[..k]) == RunTo(s, es[..k + 1]) {}
      } else {
        assert RunTo(s', rest[..0]) == s';
        assert !Recovers(RunTo(s, es[..1]));
      }
    }
  }

  /**
   * The server from its first start, over every run the code allows: the files restore
   * the accepted operations at every moment exactly when no rewrite follows a failed
   * save of a snapshot that holds keys gone from memory and no crash cuts off the last
   * record about a key of the snapshot.
   */
  lemma {:induction false} ServerRecovers(es: seq<Event>)
    requires EnabledRun(INIT, es)
    ensures SafeRun(INIT, es) <==> forall k | 0 <= k <= |es| :: Recovers(RunTo(INIT, es[..k]))
    ensures RunTo(INIT, es).hist == TrailOf(es).ops
    ensures SafeRun(INIT, es) && RunTo(INIT, es).phase == Idle ==> RunTo(INIT, es).mem == After(TrailOf(es).ops)
  {
    InitInv();
    TrailIs(es);
    SafeRunExactly(INIT, es);
    if SafeRun(INIT, es) { RunRecovers(INIT, es); }
  }

  // ---- what the events alone say ----

  /** The operations whose Begin an Append follows: what the clients asked for and the log took. */
  function Requested(es: seq<Event>): seq<LogOp>
    decreases |es|
  {
    if |es| == 0 then [] else Requested(es[..|es| - 1]) + LastRequest(es)
  }

  /** The operation that the last event appends, if it is an Append behind a Begin. */
  function LastRequest(es: seq<Event>): seq<LogOp> {
    var n := |es|;
    if n >= 2 && es[n - 1].Append? && es[n - 2].Begin? then [es[n - 2].op] else []
  }

  /** The requested operations less those that crashes cut off, and the number of records in the log. */
  datatype Trail = Trail(ops: seq<LogOp>, len: nat)

  function TrailOf(es: seq<Event>): Trail
    decreases |es|
  {
    if |es| == 0 then Trail([], 0)
    else
      var t := TrailOf(es[..|es| - 1]);
      match es[|es| - 1]
      case Append(_) => Trail(t.ops + LastRequest(es), t.len + |LastRequest(es)|)
      case RewriteOk(l) => Trail(t.ops, |l|)
      case Crash(kept) =>
        var cut := if kept <= t.len then t.len - kept else 0;
        Trail(if cut <= |t.ops| then t.ops[..|t.ops| - cut] else [], kept)
      case _ => t
  }

  lemma {:induction false} RunSnoc(s: State, es: seq<Event>, e: Event)
    ensures RunTo(s, es + [e]) == Next(RunTo(s, es), e)
    ensures EnabledRun(s, es + [e]) <==> EnabledRun(s, es) && Enabled(RunTo(s, es), e)
    decreases |es|
  {
    hide Next, Enabled;
    if |es| == 0 {
      assert es + [e] == [e] && [e][1..] == [];
    } else {
      assert (es + [e])[1..] == es[1..] + [e];
      RunSnoc(Next(s, es[0]), es[1..], e);
    }
  }

  /** The state of the server as far as the events determine it. */
  ghost predicate Follows(s: State, es: seq<Event>) {
    && s.hist == TrailOf(es).ops && |s.log| == TrailOf(es).len
    && (s.phase.Logging? <==> |es| > 0 && es[|es| - 1].Begin?)
    && (s.phase.Logging? ==> s.phase.op == es[|es| - 1].op)
  }

  /** Over every run the operations that survive are those that were asked for, as they were asked for. */
  lemma {:induction false} TrailIs(es: seq<Event>)
    requires EnabledRun(INIT, es)
    ensures Follows(RunTo(INIT, es), es)
    decreases |es|
  {
    if |es| > 0 {
      var pre, e := es[..|es| - 1], es[|es| - 1];
      assert pre + [e] == es;
      RunSnoc(INIT, pre, e);
      TrailIs(pre);
      TrailStep(RunTo(INIT, pre), pre, e);
    }
  }

  lemma {:induction false} TrailStep(s: State, pre: seq<Event>, e: Event)
    requires Follows(s, pre) && Enabled(s, e)
    ensures Follows(Next(s, e), pre + [e])
  {
    hide ReplayOver, Apply, Compacts;
    var es := pre + [e];
    assert es[..|es| - 1] == pre && es[|es| - 1] == e;
    assert |pre| > 0 ==> es[|es| - 2] == pre[|pre| - 1];
  }

  /** With every append flushed no crash cuts anything off. */
  lemma {:induction false} DurableTrail(es: seq<Event>)
    requires EnabledRun(INIT, es) && forall i | 0 <= i < |es| :: es[i] != Append(false)
    ensures TrailOf(es).ops == Requested(es) && RunTo(INIT, es).synced == |RunTo(INIT, es).log|
    decreases |es|
  {
    if |es| > 0 {
      var pre, e := es[..|es| - 1], es[|es| - 1];
      assert pre + [e] == es;
      RunSnoc(INIT, pre, e);
      TrailIs(pre);
      DurableTrail(pre);
      hide ReplayOver, Apply, Compacts, RunTo;
      assert e != Append(false);
    }
  }

  /** The operations that a run appends to the log, in order. */
  function Accepted(s: State, es: seq<Event>): seq<LogOp>
    decreases |es|
  {
    if |es| == 0 then []
    else Accepts(s, es[0]) + Accepted(Next(s, es[0]), es[1..])
  }

  /** Steps the code allows; every append is flushed, and no save fails. */
  ghost predicate DurableRun(s: State, es: seq<Event>)
    decreases |es|
  {
    |es| == 0 ||
    (Enabled(s, es[0]) && es[0] != Append(false) && es[0] != SaveFail && DurableRun(Next(s, es[0]), es[1..]))
  }

  /**
   * With every append flushed and no failed save, no further condition is needed: all
   * crashes, at any point of any handler or of the snapshot worker, lose nothing that
   * was accepted.
   */
  lemma {:induction false} DurableRunLosesNothing(s: State, es: seq<Event>)
    requires Inv(s) && s.synced == |s.log| && s.phase != Saved(false) && DurableRun(s, es)
    ensures SafeRun(s, es)
    ensures RunTo(s, es).hist == s.hist + Accepted(s, es)
    decreases |es|
  {
    if |es| > 0 {
      var e, s' := es[0], Next(s, es[0]);
      if e.Crash? { assert s.log[..e.kept] == s.log && s.hist[..|s.hist|] == s.hist; }
      StepExactly(s, e);
      DurableRunLosesNothing(s', es[1..]);
      AcceptedStep(s, es);
    }
  }

  function Accepts(s: State, e: Event): seq<LogOp> {
    if e.Append? && s.phase.Logging? then [s.phase.op] else []
  }

  lemma {:induction false} HistStep(s: State, e: Event)
    requires Inv(s) && s.synced == |s.log| && Enabled(s, e)
    ensures Next(s, e).hist == s.hist + Accepts(s, e)
  {
    hide ReplayOver, Touched, Compacts, Covered;
    if e.Crash? { assert s.hist[..|s.hist|] == s.hist; }
  }

  lemma {:induction false} AcceptedStep(s: State, es: seq<Event>)
    requires Inv(s) && s.synced == |s.log| && |es| > 0 && Enabled(s, es[0])
    ensures Next(s, es[0]).hist + Accepted(Next(s, es[0]), es[1..]) == s.hist + Accepted(s, es)
  {
    hide *;
    HistStep(s, es[0]);
    AcceptedUnfold(s, es);
    var rest := Accepted(Next(s, es[0]), es[1..]);
    assert (s.hist + Accepts(s, es[0])) + rest == s.hist + (Accepts(s, es[0]) + rest);
  }

  lemma {:induction false} AcceptedUnfold(s: State, es: seq<Event>)
    requires |es| > 0
    ensures Accepted(s, es) == Accepts(s, es[0]) + Accepted(Next(s, es[0]), es[1..])
  {
    hide Next, Accepts;
  }

  /** No snapshot worker: server() does not start it. */
  predicate LogOnly(es: seq<Event>) {
    forall i | 0 <= i < |es| :: es[i].Begin? || es[i].Append? || es[i].Crash? || es[i].Restart?
  }

  /** Without snapshots every run is safe, whatever the crashes cut off the log. */
  lemma {:induction false} LogOnlyIsSafe(s: State, es: seq<Event>)
    requires Inv(s) && s.snap == map[] && LogOnly(es) && EnabledRun(s, es)
    ensures SafeRun(s, es) && RunTo(s, es).snap == map[]
    decreases |es|
  {
    if |es| > 0 {
      StepExactly(s, es[0]);
      LogOnlyIsSafe(Next(s, es[0]), es[1..]);
    }
  }

  /**
   * The shipped server, which keeps only the log: from its first start, whatever crashes
   * cut off the log, memory is the map of the operations that were asked for and whose
   * records survive, and they are all of them when every append is flushed.
   */
  lemma {:induction false} ShippedServerRecovers(es: seq<Event>)
    requires LogOnly(es) && EnabledRun(INIT, es)
    ensures var s := RunTo(INIT, es);
            && ReplayOver(s.snap, s.log) == After(TrailOf(es).ops)
            && (s.phase == Idle ==> s.mem == After(TrailOf(es).ops))
            && ((forall i | 0 <= i < |es| :: es[i] != Append(false)) ==> TrailOf(es).ops == Requested(es))
  {
    InitInv();
    LogOnlyIsSafe(INIT, es);
    RunRecovers(INIT, es);
    TrailIs(es);
    if forall i | 0 <= i < |es| :: es[i] != Append(false) { DurableTrail(es); }
  }

  /**
   * With the snapshot worker, from the first start: while every append is flushed and
   * no save fails, memory is the map of all the operations ever asked for and appended,
   * whatever crashes and restarts lie between.
   */
  lemma {:induction false} DurableServerKeepsAll(es: seq<Event>)
    requires DurableRun(INIT, es)
    ensures var s := RunTo(INIT, es);
            && ReplayOver(s.snap, s.log) == After(Requested(es))
            && (s.phase == Idle ==> s.mem == After(Requested(es)))
            && Accepted(INIT, es) == Requested(es)
  {
    InitInv();
    DurableRunLosesNothing(INIT, es);
    RunRecovers(INIT, es);
    DurableEnabled(INIT, es);
    TrailIs(es);
    DurableTrail(es);
    assert INIT.hist + Accepted(INIT, es) == Accepted(INIT, es);
  }

  lemma {:induction false} DurableEnabled(s: State, es: seq<Event>)
    requires DurableRun(s, es)
    ensures EnabledRun(s, es) && forall i | 0 <= i < |es| :: es[i] != Append(false)
    decreases |es|
  {
    hide Next, Enabled;
    if |es| > 0 {
      DurableEnabled(Next(s, es[0]), es[1..]);
      assert forall i | 0 < i < |es| :: es[i] == es[1..][i - 1];
    }
  }

  // ---- which runs there are ----

  /** Operations handed in one after the other, each appended with its flush or without. */
  function Handing(ops: seq<LogOp>, flushes: seq<bool>): seq<Event>
    requires |ops| == |flushes|
  {
    if |ops| == 0 then []
    else Handing(ops[..|ops| - 1], flushes[..|ops| - 1]) + [Begin(ops[|ops| - 1])] + [Append(flushes[|ops| - 1])]
  }

  /** A place of the log that the flushes leave open to a crash. */
  predicate Unflushed(flushes: seq<bool>, kept: nat) {
    kept <= |flushes| && forall i | kept <= i < |flushes| :: !flushes[i]
  }

  lemma {:induction false} Handed(ops: seq<LogOp>, flushes: seq<bool>)
    requires |ops| == |flushes|
    ensures var s := RunTo(INIT, Handing(ops, flushes));
            && EnabledRun(INIT, Handing(ops, flushes))
            && s == State(After(ops), map[], ops, s.synced, Idle, ops, [], 0) && s.synced <= |ops|
            && forall kept: nat | kept <= |ops| :: s.synced <= kept <==> Unflushed(flushes, kept)
  {
    if |ops| > 0 {
      var n := |ops| - 1;
      var es, s := Handing(ops[..n], flushes[..n]), RunTo(INIT, Handing(ops[..n], flushes[..n]));
      Handed(ops[..n], flushes[..n]);
      assert ops == ops[..n] + [ops[n]];
      AfterSnoc(ops[..n], ops[n]);
      forall kept: nat | kept <= |ops|
        ensures Unflushed(flushes, kept) <==> kept > n || (!flushes[n] && Unflushed(flushes[..n], kept))
      {
        assert forall i | 0 <= i < n :: flushes[i] == flushes[..n][i];
      }
      HandedStep(s, es, ops[n], flushes[n]);
    }
  }

  lemma {:induction false} HandedStep(s: State, es: seq<Event>, op: LogOp, flush: bool)
    requires EnabledRun(INIT, es) && s == RunTo(INIT, es) && s.phase == Idle
    ensures EnabledRun(INIT, es + [Begin(op)] + [Append(flush)])
    ensures RunTo(INIT, es + [Begin(op)] + [Append(flush)]) ==
            s.(mem := Apply(s.mem, op), log := s.log + [op], hist := s.hist + [op],
               synced := if flush then |s.log| + 1 else s.synced)
  {
    RunSnoc(INIT, es, Begin(op));
    RunSnoc(INIT, es + [Begin(op)], Append(flush));
    hide RunTo, EnabledRun, Apply, After;
  }

  /**
   * Without the snapshot worker, whatever the operations and the flushes: a crash can
   * cut the log back exactly to where no flush lies behind, and the restart then gives
   * the map of the operations that were kept, and of no other.
   */
  lemma {:induction false} CrashCutsExactly(ops: seq<LogOp>, flushes: seq<bool>, kept: nat)
    requires |ops| == |flushes|
    ensures var es := Handing(ops, flushes) + [Crash(kept)] + [Restart];
            && (EnabledRun(INIT, es) <==> Unflushed(flushes, kept))
            && (Unflushed(flushes, kept) ==> RunTo(INIT, es).mem == After(ops[..kept]))
  {
    var es, s := Handing(ops, flushes), RunTo(INIT, Handing(ops, flushes));
    Handed(ops, flushes);
    RunSnoc(INIT, es, Crash(kept));
    RunSnoc(INIT, es + [Crash(kept)], Restart);
    hide RunTo, EnabledRun, Handing;
  }

  /**
   * The snapshot worker, from any moment with the lock free: each of its two files may
   * or may not be written, memory stays as it is, and the files then restore it unless
   * the log was rewritten behind a failed save and the old snapshot holds a key that
   * memory has no longer.
   */
  lemma {:induction false} WorkerExactly(s: State, saved: bool, log: Option<seq<LogOp>>)
    requires Inv(s) && s.phase == Idle && (log.Some? ==> Compacts(log.value, s.mem))
    ensures var es := [if saved then SaveOk else SaveFail]
                      + [if log.Some? then RewriteOk(log.value) else RewriteFail];
            var t := RunTo(s, es);
            && EnabledRun(s, es) && t.mem == s.mem && t.hist == s.hist && t.phase == Idle
            && EnabledRun(s, es + [Crash(|t.log|)] + [Restart])
            && (RunTo(s, es + [Crash(|t.log|)] + [Restart]).mem == s.mem
                <==> saved || log == None || s.snap.Keys <= s.mem.Keys)
  {
    hide *;
    var e := if saved then SaveOk else SaveFail;
    var e' := if log.Some? then RewriteOk(log.value) else RewriteFail;
    var t := Worked(s, e, e');
    Four(s, e, e');
  }

  /** The worker's two steps. */
  lemma {:induction false} Worked(s: State, e: Event, e': Event) returns (t: State)
    requires Inv(s) && s.phase == Idle && (e.SaveOk? || e.SaveFail?)
    requires e'.RewriteFail? || (e'.RewriteOk? && Compacts(e'.log, s.mem))
    ensures t == Next(Next(s, e), e') && Enabled(s, e) && Enabled(Next(s, e), e')
    ensures t.mem == s.mem && t.hist == s.hist && t.phase == Idle && t.phase != Down && t.synced <= |t.log|
    ensures ReplayOver(t.snap, t.log) == s.mem <==> e.SaveOk? || e'.RewriteFail? || s.snap.Keys <= s.mem.Keys
  {
    var s1 := Next(s, e);
    t := Next(s1, e');
    StepExactly(s, e);
    StepExactly(s1, e');
    if e'.RewriteOk? { RewriteShape(s1, e'.log); }
    Recoverable(t);
    hide After, ReplayOver, Touched, Compacts;
  }

  /** The worker's two steps, a crash that keeps the whole log, and the restart. */
  lemma {:induction false} Four(s: State, e: Event, e': Event)
    ensures var t, es := Next(Next(s, e), e'), [e] + [e'];
            && RunTo(s, es) == t
            && (EnabledRun(s, es) <==> Enabled(s, e) && Enabled(Next(s, e), e'))
            && (EnabledRun(s, es + [Crash(|t.log|)] + [Restart])
                <==> EnabledRun(s, es) && t.phase != Down && t.synced <= |t.log|)
            && RunTo(s, es + [Crash(|t.log|)] + [Restart]).mem == ReplayOver(t.snap, t.log)
  {
    var t := Next(Next(s, e), e');
    RunSnoc(s, [], e);
    assert [] + [e] == [e];
    RunSnoc(s, [e], e');
    RunSnoc(s, [e] + [e'], Crash(|t.log|));
    RunSnoc(s, [e] + [e'] + [Crash(|t.log|)], Restart);
    Whole(t);
    hide Next, ReplayOver, Compacts;
  }

  lemma {:induction false} Whole(t: State)
    ensures Enabled(t, Crash(|t.log|)) <==> t.phase != Down && t.synced <= |t.log|
    ensures Enabled(Next(t, Crash(|t.log|)), Restart)
    ensures Next(Next(t, Crash(|t.log|)), Restart).mem == ReplayOver(t.snap, t.log)
  {
    hide ReplayOver;
    assert t.log[..|t.log|] == t.log;
  }

  /**
   * A crash may come in the middle of an operation and between the two files as well:
   * it can cut the log as at any other moment, and with the whole log kept memory
   * is back as it was, without the operation that had not reached the log.
   */
  lemma {:induction false} CrashBetween(s: State, e: Event, kept: nat)
    requires Inv(s) && s.phase == Idle && (e.Begin? || e.SaveOk? || e.SaveFail?)
    ensures var es := [e] + [Crash(kept)] + [Restart];
            && (EnabledRun(s, es) <==> s.synced <= kept <= |s.log|)
            && (kept == |s.log| ==> EnabledRun(s, es) && RunTo(s, es).mem == s.mem && RunTo(s, es).hist == s.hist)
  {
    var s1 := Next(s, e);
    RunSnoc(s, [], e);
    assert [] + [e] == [e];
    RunSnoc(s, [e], Crash(kept));
    RunSnoc(s, [e] + [Crash(kept)], Restart);
    StepExactly(s, e);
    Recoverable(s1);
    hide RunTo, EnabledRun, After, ReplayOver, Touched, Compacts;
    assert s1.log[..|s1.log|] == s1.log && s1.hist[..|s1.hist|] == s1.hist;
  }

  // ---- partial durability ----

  /**
   * A crash that loses unflushed records is safe when the snapshot reflects only
   * operations that survive: recovery then yields the state after the survivors.
   */
  lemma {:induction false} PartialDurability(s: State, kept: nat, i: nat)
    requires Inv(s) && s.phase != Down && s.synced <= kept <= |s.log|
    requires s.base <= i <= Survivors(s, kept) && s.snap == After(s.hist[..i])
    ensures var s' := Next(s, Crash(kept));
            && Safe(s, Crash(kept)) && s'.hist == s.hist[..Survivors(s, kept)]
            && ReplayOver(s'.snap, s'.log) == After(s'.hist)
  {
    hide *;
    var n := Survivors(s, kept);
    CrashCut(s, kept);
    var t := CutBack(s, i);
    assert s.hist[s.base..n] == s.hist[s.base..i] + s.hist[i..n];
    assert s.log[..kept] == t.log + s.hist[i..n] by {
      assert s.comp + (s.hist[s.base..i] + s.hist[i..n]) == s.comp + s.hist[s.base..i] + s.hist[i..n];
    }
    TouchedSum(t.log, s.hist[i..n]);
    CoveredBy(Next(s, Crash(kept)));
    Recoverable(Next(s, Crash(kept)));
  }

  /** The state that a crash leaves, in terms of the operations that survive. */
  lemma {:induction false} CrashCut(s: State, kept: nat)
    requires Inv(s) && s.phase != Down && s.synced <= kept <= |s.log|
    ensures var n, s' := Survivors(s, kept), Next(s, Crash(kept));
            && s.base <= n <= |s.hist| && s.log[..kept] == s.comp + s.hist[s.base..n]
            && Shape(s') && s'.hist == s.hist[..n] && s'.snap == s.snap && s'.log == s.log[..kept]
            && (Safe(s, Crash(kept)) <==> s.snap.Keys <= Touched(s.log[..kept]))
  {
    hide ReplayOver, Touched, Compacts;
    CrashShape(s, kept);
  }

  /** The same state as it was after the first i operations, with the log that goes with it. */
  lemma {:induction false} CutBack(s: State, i: nat) returns (t: State)
    requires Inv(s) && s.base <= i <= |s.hist|
    ensures t.log == s.comp + s.hist[s.base..i] && After(s.hist[..i]).Keys <= Touched(t.log)
  {
    hide ReplayOver, Touched, Compacts;
    t := s.(hist := s.hist[..i], log := s.comp + s.hist[s.base..i], synced := |s.comp|, phase := Down);
    assert t.hist[t.base..] == s.hist[s.base..i] && t.hist[..t.base] == s.hist[..s.base];
    AfterTouched(t);
  }

  lemma {:induction false} CoveredBy(s: State)
    ensures Covered(s) <==> s.snap.Keys <= Touched(s.log)
    ensures ReplayOver(map[], s.hist) == After(s.hist)
  {
  }

  /** The records of the log are read back from their lines. */
  predicate Legible(l: seq<LogOp>) {
    forall i | 0 <= i < |l| :: Sized(l[i]) && Fits(l[i], Line(Record(l[i])))
  }

  /**
   * A crash that tears the record behind the ones it keeps, anywhere, and the start on
   * what is left in the file: the process dies as Torn says, or has the state after the
   * surviving operations and those that are read of the torn record and of the bytes
   * behind the line in the buffer. When the torn bytes are one line it is at most one
   * operation, and the torn one itself when what is needed of it was written.
   */
  lemma {:induction false} TornCrash(s: State, kept: nat, buf: bytes, p: bytes)
    requires Inv(s) && s.phase != Down && s.synced <= kept < |s.log| && Safe(s, Crash(kept))
    requires |buf| == LINE_SIZE && Legible(s.log[..kept]) && Sized(s.log[kept]) && p <= Body(s.log[kept])
    ensures Survivors(s, kept) < |s.hist|
    ensures var op, n, file := s.log[kept], Survivors(s, kept), Encode(s.log[..kept]);
            var r, torn := Replay(buf, file + p), Torn(Left(buf, file), op, p);
            && r.died == torn.died && ReplayOver(s.snap, r.ops) == ReplayOver(After(s.hist[..n]), torn.ops)
            && ((p != [] ==> Line(p) == p) ==>
                  && |torn.ops| <= 1
                  && (|p| >= Needed(op) ==> !r.died && ReplayOver(s.snap, r.ops) == After(s.hist[..n + 1])))
  {
    hide *;
    var op, l, n := s.log[kept], s.log[..kept], Survivors(s, kept);
    var b := Left(buf, Encode(l));
    LegibleIs(l);
    TornExactly(buf, l, op, p);
    TornSurvivors(s, kept);
    var torn := Torn(b, op, p);
    ThenSum(l, torn);
    ReplaySum(s.snap, l, torn.ops);
    if p != [] ==> Line(p) == p {
      TornLine(b, op, p);
      PrefixOfBody(op, p);
      FilledHolds(b, op, p);
      if |p| >= Needed(op) { FitsReads(Filled(b, p), op, |p|); }
      AfterSnoc(s.hist[..n], op);
      ReplaySingle(After(s.hist[..n]), op);
    }
  }

  lemma {:induction false} LegibleIs(l: seq<LogOp>)
    ensures Legible(l) <==> forall i | 0 <= i < |l| :: Sized(l[i]) && Fits(l[i], Line(Record(l[i])))
  {
    hide Sized, Fits, Line, Record;
  }

  lemma {:induction false} ReplaySingle(m: DB, op: LogOp)
    ensures ReplayOver(m, [op]) == Apply(m, op)
  {
    assert [op][..0] == [];
  }

  lemma {:induction false} TornSurvivors(s: State, kept: nat)
    requires Inv(s) && s.phase != Down && s.synced <= kept < |s.log| && Safe(s, Crash(kept))
    ensures var n := Survivors(s, kept);
            && n < |s.hist| && s.hist[n] == s.log[kept] && s.hist[..n + 1] == s.hist[..n] + [s.log[kept]]
            && ReplayOver(s.snap, s.log[..kept]) == After(s.hist[..n])
  {
    hide Compacts, Touched, ReplayOver;
    CrashShape(s, kept);
    Recoverable(Next(s, Crash(kept)));
  }

  /**
   * What was accepted after such a start can be lost, flushed or not: the record that is
   * appended behind a SET torn in its value becomes a part of that value, and the next
   * start carries out no other operation than this one after the survivors.
   */
  lemma {:induction false} TornLosesNext(s: State, kept: nat, buf: bytes, p: bytes, next: LogOp, got: bytes)
    requires Inv(s) && s.phase != Down && s.synced <= kept < |s.log| && Safe(s, Crash(kept))
    requires |buf| == LINE_SIZE && Legible(s.log[..kept])
    requires var op := s.log[kept];
             && op.Set? && Sized(op) && p <= Body(op) && ValueStart(op.key, op.value) <= |p|
             && |Body(op)| - |p| <= |Record(next)| && Line(p + Record(next)) == p + Record(next)
             && got == p[ValueStart(op.key, op.value)..] + Record(next)[..|Body(op)| - |p|]
    ensures var op, n, r := s.log[kept], Survivors(s, kept), Replay(buf, Encode(s.log[..kept]) + (p + Record(next)));
            && n <= |s.hist| && !r.died
            && ReplayOver(s.snap, r.ops) == Apply(After(s.hist[..n]), Set(op.key, got))
            && (next.key != op.key ==> At(ReplayOver(s.snap, r.ops), next.key) == At(After(s.hist[..n]), next.key))
  {
    var op, l, n := s.log[kept], s.log[..kept], Survivors(s, kept);
    hide Sized, Fits, Line, Record, Body, Replay, Encode, Compacts, Touched, ReplayOver, ValueStart;
    TornSwallowsNext(buf, l, op, p, next, got);
    TornSurvivors(s, kept);
    ReplaySnoc(s.snap, l, Set(op.key, got));
  }

  lemma {:induction false} ReplaySnoc(m: DB, l: seq<LogOp>, op: LogOp)
    ensures ReplayOver(m, l + [op]) == Apply(ReplayOver(m, l), op)
  {
    assert (l + [op])[..|l|] == l;
  }

  lemma {:induction false} TwoSteps(s: State, e: Event, e': Event, s': State, es: seq<Event>)
    requires Twice(s, e, e', s')
    ensures RunTo(s, [e] + ([e'] + es)) == RunTo(s', es)
    ensures EnabledRun(s, [e] + ([e'] + es)) <==> EnabledRun(s', es)
  {
    assert ([e] + ([e'] + es))[1..] == [e'] + es;
    assert ([e'] + es)[1..] == es;
  }

  function FailedSaveRun(k: bytes, v: bytes): seq<Event> {
    [Begin(Set(k, v))] + ([Append(true)] + ([SaveOk] + ([RewriteOk([Set(k, v)])] +
    ([Begin(Del(k))] + ([Append(true)] + ([SaveFail] + ([RewriteOk([])] +
    ([Crash(0)] + ([Restart] + [])))))))))
  }

  /**
   * A rewrite after a failed save can bring a deleted key back: PUT k, save, DELETE k,
   * a failed save, the rewrite, a crash and a restart.
   */
  lemma {:induction false} FailedSaveResurrects(k: bytes, v: bytes)
    ensures EnabledRun(INIT, FailedSaveRun(k, v))
    ensures var s := RunTo(INIT, FailedSaveRun(k, v));
            s.phase == Idle && k in s.mem && k !in After(s.hist)
  {
    hide *;
    var put, del := Set(k, v), Del(k);
    var m: DB := map[k := v];
    FailedSaveStates(k, v);
    var s1 := State(m, map[], [put], 1, Idle, [put], [], 0);
    var s2 := State(m, m, [put], 1, Idle, [put], [put], 1);
    var s3 := State(map[], m, [put, del], 2, Idle, [put, del], [put], 1);
    var s4 := State(map[], m, [], 0, Idle, [put, del], [], 2);
    var s5 := State(m, m, [], 0, Idle, [put, del], [], 2);
    var t5 := [Crash(0)] + ([Restart] + []);
    var t4 := [SaveFail] + ([RewriteOk([])] + t5);
    var t3 := [Begin(del)] + ([Append(true)] + t4);
    var t2 := [SaveOk] + ([RewriteOk([put])] + t3);
    TwoSteps(INIT, Begin(put), Append(true), s1, t2);
    TwoSteps(s1, SaveOk, RewriteOk([put]), s2, t3);
    TwoSteps(s2, Begin(del), Append(true), s3, t4);
    TwoSteps(s3, SaveFail, RewriteOk([]), s4, t5);
    TwoSteps(s4, Crash(0), Restart, s5, []);
    FailedSaveEnds(k, v, s5, t2);
  }

  lemma {:induction false} FailedSaveEnds(k: bytes, v: bytes, s: State, t2: seq<Event>)
    requires t2 == [SaveOk] + ([RewriteOk([Set(k, v)])] + ([Begin(Del(k))] + ([Append(true)] + ([SaveFail] +
                   ([RewriteOk([])] + ([Crash(0)] + ([Restart] + [])))))))
    requires s == State(map[k := v], map[k := v], [], 0, Idle, [Set(k, v), Del(k)], [], 2)
    ensures FailedSaveRun(k, v) == [Begin(Set(k, v))] + ([Append(true)] + t2)
    ensures RunTo(s, []) == s && EnabledRun(s, [])
    ensures s.phase == Idle && k in s.mem && k !in After(s.hist)
  {
    AfterSnoc([Set(k, v)], Del(k));
    assert [Set(k, v)] + [Del(k)] == [Set(k, v), Del(k)];
  }

  ghost predicate Twice(s: State, e: Event, e': Event, s': State) {
    Enabled(s, e) && Enabled(Next(s, e), e') && Next(Next(s, e), e') == s'
  }

  lemma {:induction false} FailedSaveStates(k: bytes, v: bytes)
    ensures var put, del := Set(k, v), Del(k);
            var m: DB := map[k := v];
            var s1 := State(m, map[], [put], 1, Idle, [put], [], 0);
            var s2 := State(m, m, [put], 1, Idle, [put], [put], 1);
            var s3 := State(map[], m, [put, del], 2, Idle, [put, del], [put], 1);
            var s4 := State(map[], m, [], 0, Idle, [put, del], [], 2);
            var s5 := State(m, m, [], 0, Idle, [put, del], [], 2);
            && Twice(INIT, Begin(put), Append(true), s1)
            && Twice(s1, SaveOk, RewriteOk([put]), s2)
            && Twice(s2, Begin(del), Append(true), s3)
            && Twice(s3, SaveFail, RewriteOk([]), s4)
            && Twice(s4, Crash(0), Restart, s5)
  {
    var put, del := Set(k, v), Del(k);
    var m: DB := map[k := v];
    assert [put][0].key == k;
    assert Compacts([put], m);
    assert Compacts([], map[]);
    assert [put] + [del] == [put, del];
    assert m - {k} == map[];
  }
}
