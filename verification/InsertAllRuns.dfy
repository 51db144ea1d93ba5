/** Concurrent `insertAll` requests against one table: every handler as a sequence of steps, the
    table's lock taken from the registry, and all interleavings of the steps. */
module InsertAllRuns {
  import opened Common
  import opened RowStore
  import opened InsertAll
  import opened TableSchemas

  // --- the registry of locks ---

  class Mutex {
    constructor () {}
  }

  datatype TableKey = TableKey(project: string, dataset: string, table: string)

  /** `table_locks` and `table_lock`: one mutex for each table, made on first use. */
  class LockRegistry {
    var locks: map<TableKey, Mutex>

    /** Different tables have different mutexes. */
    ghost predicate Valid()
      reads this
    {
      forall k, l :: k in locks && l in locks && k != l ==> locks[k] != locks[l]
    }

    constructor ()
      ensures Valid() && locks == map[]
    {
      locks := map[];
    }

    /** Every call for one table returns the same mutex, and no other table's call does. */
    method TableLock(key: TableKey) returns (m: Mutex)
      requires Valid()
      modifies this
      ensures Valid()
      ensures key in locks && m == locks[key]
      ensures forall k :: k in old(locks) ==> k in locks && locks[k] == old(locks[k])
      ensures locks.Keys == old(locks.Keys) + {key}
      ensures key !in old(locks) ==> fresh(m)
    {
      if key !in locks {
        var made := new Mutex();
        locks := locks[key := made];
      }
      m := locks[key];
    }
  }

  // --- the state of one table and its handlers ---

  /** What is stored of a table: the schema and statistics of `table.json`. */
  datatype TableMeta = TableMeta(schema: seq<Field>, numRows: nat, numBytes: nat)

  /** How far a handler is. `table` is the metadata it read before it took the lock. */
  datatype Progress =
    | Started
    | TableRead(table: TableMeta)
    | Locked(table: TableMeta)
    | RowsRead(table: TableMeta, existing: seq<Row>)
    | Appending(table: TableMeta, existing: seq<Row>, accepted: seq<Row>, written: nat)
    | Releasing(existing: seq<Row>, response: Response)
    | Finished(response: Response)

  datatype Handler = Handler(env: Env, req: Request, progress: Progress)

  /** `log` is kept by the model only: the requests in the order in which they gave the lock back. */
  datatype State = State(meta: TableMeta, rows: seq<Row>, lock: Option<nat>, handlers: seq<Handler>, log: seq<nat>)

  predicate HoldsLock(p: Progress) {
    p.Locked? || p.RowsRead? || p.Appending? || p.Releasing?
  }

  function Move(s: State, h: nat, p: Progress): State
    requires h < |s.handlers|
  {
    s.(handlers := s.handlers[h := s.handlers[h].(progress := p)])
  }

  /** The next step of handler `h`, or `None` while it must wait or has nothing left to do. */
  function StepOf(s: State, h: nat): Option<State>
    requires h < |s.handlers|
  {
    var me := s.handlers[h];
    match me.progress
    case Started => Some(Move(s, h, TableRead(s.meta)))
    case TableRead(t) =>
      if s.lock.None? then Some(Move(s, h, Locked(t)).(lock := Some(h))) else None
    case Locked(t) => Some(Move(s, h, RowsRead(t, s.rows)))
    case RowsRead(t, existing) =>
      var accepted := Accepted(me.env, me.req, t.schema, existing);
      var errors := Invalid(me.env, me.req, t.schema, |me.req.rows|);
      if accepted == [] then Some(Move(s, h, Releasing(existing, Inserted(errors))))
      else if OverQuota(me.env, me.req, t.schema, existing) then Some(Move(s, h, Releasing(existing, QuotaExceeded)))
      else Some(Move(s, h, Appending(t, existing, accepted, 0)))
    case Appending(t, existing, accepted, written) =>
      if written < |accepted| then
        Some(Move(s, h, Appending(t, existing, accepted, written + 1)).(rows := s.rows + [OnDisk(accepted[written])]))
      else
        var errors := Invalid(me.env, me.req, t.schema, |me.req.rows|);
        var numBytes := TotalBytes(existing) + TotalBytes(AllCompact(accepted));
        Some(Move(s, h, Releasing(existing, Inserted(errors)))
               .(meta := t.(numRows := |existing| + |accepted|, numBytes := numBytes)))
    case Releasing(_, response) => Some(Move(s, h, Finished(response)).(lock := None, log := s.log + [h]))
    case Finished(_) => None
  }

  ghost predicate Step(s: State, t: State) {
    exists h: nat :: h < |s.handlers| && StepOf(s, h) == Some(t)
  }

  predicate Initial(s: State, maxRows: nat) {
    && s.lock.None? && s.log == []
    && s.meta.numRows == |s.rows| <= maxRows && s.meta.numBytes == TotalBytes(s.rows) && DistinctIds(s.rows)
    && forall h :: 0 <= h < |s.handlers| ==> s.handlers[h].progress == Started && s.handlers[h].env.maxRows == maxRows
  }

  ghost predicate IsRun(run: seq<State>, maxRows: nat) {
    && run != [] && Initial(run[0], maxRows)
    && forall i :: 0 <= i < |run| - 1 ==> Step(run[i], run[i + 1])
  }

  // --- what holds after every step ---

  /** The rows after the logged requests, one after the other, starting from `rows`. */
  function Serial(rows: seq<Row>, handlers: seq<Handler>, schema: seq<Field>, log: seq<nat>): seq<Row>
    requires forall i :: 0 <= i < |log| ==> log[i] < |handlers|
  {
    if log == [] then rows
    else
      var h := handlers[log[|log| - 1]];
      Apply(h.env, h.req, schema, Serial(rows, handlers, schema, log[..|log| - 1]))
  }

  predicate StatsMatch(s: State) {
    s.meta.numRows == |s.rows| && s.meta.numBytes == TotalBytes(s.rows)
  }

  /** What the progress of the lock's holder says about the table: what it has read is what is there,
      what it has written so far is a part of what its request alone would add. */
  predicate HolderFits(s: State, me: Handler) {
    var p := me.progress;
    && (p.Locked? || p.RowsRead? || p.Appending? ==> p.table.schema == s.meta.schema)
    && (p.RowsRead? ==> p.existing == s.rows)
    && (p.Appending? ==>
          && p.accepted == Accepted(me.env, me.req, s.meta.schema, p.existing)
          && !OverQuota(me.env, me.req, s.meta.schema, p.existing)
          && p.written <= |p.accepted| && s.rows == p.existing + AllOnDisk(p.accepted[..p.written]))
    && (p.Releasing? ==> s.rows == Apply(me.env, me.req, s.meta.schema, p.existing))
    && (!p.Appending? ==> StatsMatch(s))
  }

  /** The rows before the holder's own request. */
  function Before(s: State, me: Handler): seq<Row> {
    var p := me.progress;
    if p.RowsRead? || p.Appending? || p.Releasing? then p.existing else s.rows
  }

  ghost predicate LockFits(s: State) {
    && (s.lock.Some? ==> s.lock.value < |s.handlers|)
    && (forall h :: 0 <= h < |s.handlers| ==> (HoldsLock(s.handlers[h].progress) <==> s.lock == Some(h)))
    && (forall h :: 0 <= h < |s.handlers| && s.handlers[h].progress.TableRead? ==>
          s.handlers[h].progress.table.schema == s.meta.schema)
  }

  ghost predicate SameRequests(s: State, first: State) {
    && |s.handlers| == |first.handlers| && s.meta.schema == first.meta.schema
    && (forall h :: 0 <= h < |s.handlers| ==>
          s.handlers[h].env == first.handlers[h].env && s.handlers[h].req == first.handlers[h].req)
    && (forall i :: 0 <= i < |s.log| ==> s.log[i] < |first.handlers|)
  }

  ghost predicate RowsFit(s: State, first: State)
    requires SameRequests(s, first) && LockFits(s)
  {
    var serial := Serial(first.rows, first.handlers, first.meta.schema, s.log);
    if s.lock.None? then s.rows == serial && StatsMatch(s)
    else
      var me := s.handlers[s.lock.value];
      Before(s, me) == serial && HolderFits(s, me)
  }

  ghost predicate Invariant(s: State, first: State) {
    SameRequests(s, first) && LockFits(s) && RowsFit(s, first)
  }

  lemma OthersKeepTheInvariant(s: State, h: nat, first: State)
    requires Invariant(s, first) && h < |s.handlers| && StepOf(s, h).Some?
    requires s.handlers[h].progress.Started? || s.handlers[h].progress.TableRead?
    ensures Invariant(StepOf(s, h).value, first)
  {
    hide Accepted, OverQuota, Apply, TotalBytes, Serial;
  }

  lemma ReaderKeepsTheInvariant(s: State, h: nat, first: State)
    requires Invariant(s, first) && h < |s.handlers| && StepOf(s, h).Some?
    requires s.handlers[h].progress.Locked? || s.handlers[h].progress.RowsRead?
    ensures Invariant(StepOf(s, h).value, first)
  {
    hide Accepted, OverQuota, TotalBytes, Serial;
    var me := s.handlers[h];
    var p := me.progress;
    if p.RowsRead? {
      assert p.existing + AllOnDisk([]) == p.existing;
      assert Accepted(me.env, me.req, s.meta.schema, p.existing)[..0] == [];
    }
  }

  lemma AppenderKeepsTheInvariant(s: State, h: nat, first: State)
    requires Invariant(s, first) && h < |s.handlers| && StepOf(s, h).Some?
    requires s.handlers[h].progress.Appending?
    ensures Invariant(StepOf(s, h).value, first)
  {
    hide Accepted, OverQuota, TotalBytes, Serial;
    var p := s.handlers[h].progress;
    if p.written < |p.accepted| {
      assert AllOnDisk(p.accepted[..p.written + 1])
             == AllOnDisk(p.accepted[..p.written]) + [OnDisk(p.accepted[p.written])];
    } else {
      assert p.accepted[..p.written] == p.accepted;
      IncrementalBytesAreFullBytes(p.existing, p.accepted);
    }
  }

  lemma ReleaseKeepsTheInvariant(s: State, h: nat, first: State)
    requires Invariant(s, first) && h < |s.handlers| && StepOf(s, h).Some?
    requires s.handlers[h].progress.Releasing?
    ensures Invariant(StepOf(s, h).value, first)
  {
    hide Accepted, OverQuota, Apply, TotalBytes;
    var t := StepOf(s, h).value;
    assert t.log[..|t.log| - 1] == s.log;
  }

  lemma {:induction false} RunKeepsTheInvariant(run: seq<State>, maxRows: nat, i: nat)
    requires IsRun(run, maxRows) && i < |run|
    ensures Invariant(run[i], run[0])
  {
    hide RowsFit, StepOf;
    if i == 0 {
      InitialFits(run[0], maxRows);
    } else {
      RunKeepsTheInvariant(run, maxRows, i - 1);
      var s := run[i - 1];
      assert Step(s, run[i]);
      var h: nat :| h < |s.handlers| && StepOf(s, h) == Some(run[i]);
      StepKeepsTheInvariant(s, h, run[0]);
    }
  }

  lemma StepKeepsTheInvariant(s: State, h: nat, first: State)
    requires Invariant(s, first) && h < |s.handlers| && StepOf(s, h).Some?
    ensures Invariant(StepOf(s, h).value, first)
  {
    hide RowsFit, SameRequests;
    match s.handlers[h].progress
    case Started => OthersKeepTheInvariant(s, h, first);
    case TableRead(_) => OthersKeepTheInvariant(s, h, first);
    case Locked(_) => ReaderKeepsTheInvariant(s, h, first);
    case RowsRead(_, _) => ReaderKeepsTheInvariant(s, h, first);
    case Appending(_, _, _, _) => AppenderKeepsTheInvariant(s, h, first);
    case Releasing(_, _) => ReleaseKeepsTheInvariant(s, h, first);
    case Finished(_) =>
  }

  lemma InitialFits(s: State, maxRows: nat)
    requires Initial(s, maxRows)
    ensures Invariant(s, s)
  {
  }

  // --- main results ---

  lemma {:induction false} SerialKeeps(rows: seq<Row>, handlers: seq<Handler>, schema: seq<Field>, log: seq<nat>,
      maxRows: nat)
    requires forall i :: 0 <= i < |log| ==> log[i] < |handlers|
    requires forall h :: 0 <= h < |handlers| ==> handlers[h].env.maxRows == maxRows
    requires DistinctIds(rows) && |rows| <= maxRows
    ensures var r := Serial(rows, handlers, schema, log); rows <= r && DistinctIds(r) && |r| <= maxRows
  {
    hide Apply;
    if log != [] {
      var n := |log| - 1;
      SerialKeeps(rows, handlers, schema, log[..n], maxRows);
      ApplyKeeps(handlers[log[n]].env, handlers[log[n]].req, schema, Serial(rows, handlers, schema, log[..n]));
    }
  }

  /** While a request is at work the buffer is between the serial result before it and after it. */
  lemma RowsAreBetweenSerialResults(s: State, first: State) returns (next: seq<Row>)
    requires Invariant(s, first) && s.lock.Some?
    ensures var me := first.handlers[s.lock.value];
            var serial := Serial(first.rows, first.handlers, first.meta.schema, s.log);
            && next == Apply(me.env, me.req, s.meta.schema, serial)
            && serial <= s.rows && s.rows <= next
  {
    hide Accepted, Serial;
    var me := s.handlers[s.lock.value];
    var p := me.progress;
    next := Apply(me.env, me.req, s.meta.schema, Before(s, me));
    ApplyKeeps(me.env, me.req, s.meta.schema, Before(s, me));
    if p.Appending? {
      assert AllOnDisk(p.accepted)[..p.written] == AllOnDisk(p.accepted[..p.written]);
    }
  }

  lemma PrefixKeepsDistinct(a: seq<Row>, b: seq<Row>)
    requires a <= b && DistinctIds(b)
    ensures DistinctIds(a)
  {
    assert forall i :: 0 <= i < |a| ==> a[i] == b[i];
  }

  /** In every state of every run: the rows are within the limit, non-empty insert ids are distinct,
      and while nobody holds the lock the stored counts are those of the buffer. */
  lemma EveryStateIsSound(run: seq<State>, maxRows: nat, i: nat)
    requires IsRun(run, maxRows) && i < |run|
    ensures |run[i].rows| <= maxRows && DistinctIds(run[i].rows)
    ensures run[i].lock.None? ==> StatsMatch(run[i])
  {
    hide Apply, Serial;
    RunKeepsTheInvariant(run, maxRows, i);
    var (s, first) := (run[i], run[0]);
    var serial := Serial(first.rows, first.handlers, first.meta.schema, s.log);
    SerialKeeps(first.rows, first.handlers, first.meta.schema, s.log, maxRows);
    if s.lock.Some? {
      var next := RowsAreBetweenSerialResults(s, first);
      var me := first.handlers[s.lock.value];
      ApplyKeeps(me.env, me.req, s.meta.schema, serial);
      PrefixKeepsDistinct(s.rows, next);
    }
  }

  lemma StepOnlyAppends(s: State, h: nat)
    requires h < |s.handlers| && StepOf(s, h).Some?
    ensures s.rows <= StepOf(s, h).value.rows
  {
    hide Accepted, OverQuota, TotalBytes, Invalid;
  }

  /** Rows once in the buffer stay there, unchanged and in place. */
  lemma {:induction false} EarlierRowsNeverChange(run: seq<State>, maxRows: nat, i: nat, j: nat)
    requires IsRun(run, maxRows) && i <= j < |run|
    ensures run[i].rows <= run[j].rows
    decreases j
  {
    hide StepOf;
    if i < j {
      EarlierRowsNeverChange(run, maxRows, i, j - 1);
      assert Step(run[j - 1], run[j]);
      var h: nat :| h < |run[j - 1].handlers| && StepOf(run[j - 1], h) == Some(run[j]);
      StepOnlyAppends(run[j - 1], h);
    }
  }

  /** Every interleaving is serial: whenever the lock is free, the buffer holds what the finished
      requests would have left had they run one after the other, in the order of the log. */
  lemma RunsAreSerial(run: seq<State>, maxRows: nat, i: nat)
    requires IsRun(run, maxRows) && i < |run| && run[i].lock.None?
    ensures forall k :: 0 <= k < |run[i].log| ==> run[i].log[k] < |run[0].handlers|
    ensures run[i].rows == Serial(run[0].rows, run[0].handlers, run[0].meta.schema, run[i].log)
  {
    hide Serial;
    RunKeepsTheInvariant(run, maxRows, i);
  }

  lemma {:induction false} SerialGrows(rows: seq<Row>, handlers: seq<Handler>, schema: seq<Field>, log: seq<nat>,
      n: nat)
    requires n <= |log| && forall i :: 0 <= i < |log| ==> log[i] < |handlers|
    ensures Serial(rows, handlers, schema, log[..n]) <= Serial(rows, handlers, schema, log)
  {
    hide Apply;
    if n == |log| {
      assert log[..n] == log;
    } else {
      var m := |log| - 1;
      assert log[..m][..n] == log[..n];
      SerialGrows(rows, handlers, schema, log[..m], n);
      ApplyKeeps(handlers[log[m]].env, handlers[log[m]].req, schema, Serial(rows, handlers, schema, log[..m]));
    }
  }

  /** In any serial order, a request whose rows all carry insert ids, sent again after it was taken, adds
      nothing: the buffer after the second is the buffer before it, whatever came in between. */
  lemma ReplayInARunChangesNothing(rows: seq<Row>, handlers: seq<Handler>, schema: seq<Field>, log: seq<nat>, i: nat,
      j: nat)
    requires i < j < |log| && forall k :: 0 <= k < |log| ==> log[k] < |handlers|
    requires var (a, b) := (handlers[log[i]], handlers[log[j]]);
             && a.req == b.req && AllRowsHaveIds(a.req)
             && b.env == a.env.(insertedAt := b.env.insertedAt, maxRows := b.env.maxRows)
             && !OverQuota(a.env, a.req, schema, Serial(rows, handlers, schema, log[..i]))
    ensures Serial(rows, handlers, schema, log[..j + 1]) == Serial(rows, handlers, schema, log[..j])
  {
    hide Apply, OverQuota;
    var (a, b) := (handlers[log[i]], handlers[log[j]]);
    var existing := Serial(rows, handlers, schema, log[..i]);
    var later := Serial(rows, handlers, schema, log[..j]);
    assert log[..i + 1][..i] == log[..i] && log[..j + 1][..j] == log[..j];
    assert log[..j][..i + 1] == log[..i + 1];
    SerialGrows(rows, handlers, schema, log[..j], i + 1);
    ReplayChangesNothing(a.env, b.env, a.req, schema, existing, later);
  }
}
