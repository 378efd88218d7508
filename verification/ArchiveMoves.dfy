/** The mover loses nothing and shows nothing: proofs about `ArchiveModel`. */
module ArchiveMoves {
  import opened Prelude
  import opened TierFold
  import opened LadderModel
  import opened ArchiveModel

  // ---------- The abstract history ----------

  /** What a reader of both databases sees: the main row where there is one, else the archived row. */
  function View(d: Databases): Table {
    d.archive + d.main
  }

  /** Rows stored under their own start time. */
  ghost predicate KeyedRows(table: Table) {
    forall k :: k in table ==> table[k].bucketStartMs == k
  }

  ghost predicate Keyed(d: Databases) {
    KeyedRows(d.main) && KeyedRows(d.archive)
  }

  /** The comparison the delete uses is equality of whole rows; in particular it holds of a row without root values. */
  lemma RowMatchIsEquality(a: TierBucket, m: TierBucket)
    requires a.bucketStartMs == m.bucketStartMs
    ensures RowMatch(a, m) <==> a == m
  {
    if RowMatch(a, m) {
      assert RootAvg(a) == RootAvg(m);
      assert a == m;
    }
  }

  /** With `=` in place of `IS`, a row without root values would match nothing, not even its own copy. */
  lemma EqualsWouldStrandRows(a: TierBucket)
    ensures SqlEqual(RootAvg(a), RootAvg(a)) <==> a.rootUsed.Some?
    ensures RowMatch(a, a)
  {
    RowMatchIsEquality(a, a);
  }

  lemma CopyIsInvisible(d: Databases, b: Batch)
    ensures View(CopyRows(d, b)) == View(d)
  {
  }

  lemma DeleteIsInvisible(d: Databases, b: Batch)
    requires Keyed(d)
    ensures View(DeleteRows(d, b)) == View(d)
  {
    forall k | k in Deletable(d, b)
      ensures d.archive[k] == d.main[k]
    {
      RowMatchIsEquality(d.archive[k], d.main[k]);
    }
  }

  // ---------- Runs with crashes and a concurrent writer ----------

  /** The databases together with what the mover remembers. */
  datatype System = System(d: Databases, phase: Phase)

  datatype Step =
    | Copy(cutoff: int, rows: nat)  // the first transaction
    | Verify                        // the count between the two commits
    | Delete                        // the second transaction
    | Crash                         // or any error: the batch is forgotten
    | Upsert(row: TierBucket)       // the writer folds or re-folds an hour in the main database

  function Next(s: System, step: Step): System {
    match step
    case Copy(cutoff, rows) =>
      if s.phase != Idle then s
      else
        var b := Select(s.d.main, cutoff, rows);
        if b.None? then s else System(CopyRows(s.d, b.value), Copied(b.value))
    case Verify =>
      if !s.phase.Copied? then s
      else if ArchivedCount(s.d, s.phase.batch) != s.phase.batch.rowCount then s.(phase := Idle)
      else s.(phase := Verified(s.phase.batch))
    case Delete =>
      if s.phase.Verified? then System(DeleteRows(s.d, s.phase.batch), Idle) else s
    case Crash => s.(phase := Idle)
    case Upsert(row) => s.(d := s.d.(main := s.d.main[row.bucketStartMs := row]))
  }

  function Run(s: System, steps: seq<Step>): System {
    if steps == [] then s else Next(Run(s, steps[..|steps| - 1]), steps[|steps| - 1])
  }

  /** The writer's upserts alone, applied to one table. */
  function Upserts(table: Table, steps: seq<Step>): Table {
    if steps == [] then table
    else
      var before := Upserts(table, steps[..|steps| - 1]);
      match steps[|steps| - 1]
      case Upsert(row) => before[row.bucketStartMs := row]
      case _ => before
  }

  lemma StepKeyed(s: System, step: Step)
    requires Keyed(s.d)
    ensures Keyed(Next(s, step).d)
  {
  }

  lemma StepView(s: System, step: Step)
    requires Keyed(s.d)
    ensures View(Next(s, step).d) ==
            if step.Upsert? then View(s.d)[step.row.bucketStartMs := step.row] else View(s.d)
  {
    match step
    case Copy(cutoff, rows) =>
      var b := Select(s.d.main, cutoff, rows);
      if s.phase == Idle && b.Some? {
        CopyIsInvisible(s.d, b.value);
      }
    case Delete =>
      if s.phase.Verified? {
        DeleteIsInvisible(s.d, s.phase.batch);
      }
    case _ =>
  }

  /** Archive moves are invisible: through copies, verifications, deletes, crashes and retries in any order, with
    * the writer upserting in between, the history both databases show changes by those upserts alone. */
  lemma {:induction false} MovesAreInvisible(s: System, steps: seq<Step>)
    requires Keyed(s.d)
    ensures Keyed(Run(s, steps).d)
    ensures View(Run(s, steps).d) == Upserts(View(s.d), steps)
    decreases |steps|
  {
    hide View;
    if steps != [] {
      var before := Run(s, steps[..|steps| - 1]);
      MovesAreInvisible(s, steps[..|steps| - 1]);
      StepKeyed(before, steps[|steps| - 1]);
      StepView(before, steps[|steps| - 1]);
    }
  }

  /** A row leaves the main database only in a delete, and only when the archive holds its equal. */
  lemma DeletedOnlyWhenArchived(s: System, step: Step, k: int)
    requires Keyed(s.d)
    requires k in s.d.main && k !in Next(s, step).d.main
    ensures step.Delete?
    ensures k in s.d.archive && s.d.archive[k] == s.d.main[k] && Next(s, step).d.archive == s.d.archive
  {
    RowMatchIsEquality(s.d.archive[k], s.d.main[k]);
  }

  // ---------- One batch with nobody else writing ----------

  lemma {:induction false} OldestFacts(keys: set<int>, n: nat)
    ensures Oldest(keys, n) <= keys
    ensures |Oldest(keys, n)| == Min(n, |keys|)
    ensures forall a, b :: a in Oldest(keys, n) && b in keys && b !in Oldest(keys, n) ==> a < b
    decreases n
  {
    if n > 0 && keys != {} {
      var least := Least(keys);
      OldestFacts(keys - {least}, n - 1);
      assert least !in Oldest(keys - {least}, n - 1);
    }
  }

  /** The interval of a batch holds the selected rows and no others. */
  lemma IntervalIsSelection(main: Table, cutoff: int, n: nat)
    requires Select(main, cutoff, n).Some?
    ensures var b := Select(main, cutoff, n).value;
            && Between(main, b.minMs, b.maxMs).Keys == Oldest(Expired(main, cutoff), n)
            && b.rowCount == |Oldest(Expired(main, cutoff), n)|
  {
    var expired := Expired(main, cutoff);
    var keys := Oldest(expired, n);
    var b := Select(main, cutoff, n).value;
    OldestFacts(expired, n);
    hide Oldest;
    assert forall k :: k in main && k <= b.maxMs ==> k in expired;
    assert forall k :: k in Between(main, b.minMs, b.maxMs) <==> k in keys;
  }

  function Without(table: Table, keys: set<int>): Table {
    map k | k in table && k !in keys :: table[k]
  }

  function Only(table: Table, keys: set<int>): Table {
    map k | k in table && k in keys :: table[k]
  }

  /** What moving the rows `keys` means. */
  predicate Moved(d: Databases, r: Databases, keys: set<int>) {
    && r.main == Without(d.main, keys)
    && r.archive == d.archive + Only(d.main, keys)
  }

  /** Undisturbed, one call moves exactly the oldest rows its batch allows, reports their number, and sets the
    * watermark to the end of the newest of them. */
  lemma MoveIsExact(d: Databases, cutoff: int, rows: nat)
    requires Keyed(d)
    ensures var n := if rows == 0 then 0 else Min(rows, ARCHIVE_BATCH_ROWS);
            var keys := Oldest(Expired(d.main, cutoff), n);
            var (r, count) := Move(d, cutoff, rows);
            && count == Some(|keys|) && |keys| == Min(n, |Expired(d.main, cutoff)|)
            && Moved(d, r, keys)
            && Keyed(r)
            && (keys != {} ==> r.movedUntil == Some(SatAdd(Greatest(keys), L4_MS)))
            && (keys == {} ==> r == d)
  {
    hide Oldest, Expired, CopyRows, Deletable, DeleteRows, ArchivedCount;
    var n := if rows == 0 then 0 else Min(rows, ARCHIVE_BATCH_ROWS);
    var keys := Oldest(Expired(d.main, cutoff), n);
    OldestFacts(Expired(d.main, cutoff), n);
    if keys == {} {
      NothingMoved(d);
    } else {
      var b := Select(d.main, cutoff, n).value;
      IntervalIsSelection(d.main, cutoff, n);
      CopyIsComplete(d, b, keys);
      DeleteTakesAll(d, b, keys);
    }
  }

  lemma NothingMoved(d: Databases)
    ensures Moved(d, d, {})
  {
  }

  /** The committed copy holds every selected row. */
  lemma CopyIsComplete(d: Databases, b: Batch, keys: set<int>)
    requires Between(d.main, b.minMs, b.maxMs).Keys == keys
    ensures ArchivedCount(CopyRows(d, b), b) == |keys|
  {
    var copied := CopyRows(d, b);
    assert (set k | k in Between(copied.main, b.minMs, b.maxMs) && k in copied.archive) == keys;
  }

  /** Each copied row matches its original in full. */
  lemma CopyIsDeletable(d: Databases, b: Batch, keys: set<int>)
    requires Keyed(d) && Between(d.main, b.minMs, b.maxMs).Keys == keys
    ensures Deletable(CopyRows(d, b), b) == keys
  {
    var copied := CopyRows(d, b);
    forall k | k in keys
      ensures k in copied.archive && RowMatch(copied.archive[k], copied.main[k])
    {
      RowMatchIsEquality(copied.archive[k], copied.main[k]);
    }
    hide RowMatch;
    assert Deletable(copied, b) == keys;
  }

  /** So the delete takes the whole batch. */
  lemma DeleteTakesAll(d: Databases, b: Batch, keys: set<int>)
    requires Keyed(d) && Between(d.main, b.minMs, b.maxMs).Keys == keys && b.rowCount == |keys|
    ensures Deletable(CopyRows(d, b), b) == keys
    ensures var r := DeleteRows(CopyRows(d, b), b);
            Moved(d, r, keys) && Keyed(r) && r.movedUntil == Some(SatAdd(b.maxMs, L4_MS))
  {
    CopyIsDeletable(d, b, keys);
    assert Between(d.main, b.minMs, b.maxMs) == Only(d.main, keys);
    hide Deletable, Between, Keyed, Moved;
    assert DeleteRows(CopyRows(d, b), b) == AfterMove(d, keys, SatAdd(b.maxMs, L4_MS));
    AfterMoveFacts(d, keys, SatAdd(b.maxMs, L4_MS));
  }

  function AfterMove(d: Databases, keys: set<int>, until: int): Databases {
    Databases(Without(d.main, keys), d.archive + Only(d.main, keys), Some(until))
  }

  lemma AfterMoveFacts(d: Databases, keys: set<int>, until: int)
    requires Keyed(d)
    ensures Keyed(AfterMove(d, keys, until)) && Moved(d, AfterMove(d, keys, until), keys)
  {
  }

  lemma {:induction false} OldestInTwoParts(keys: set<int>, a: nat, b: nat)
    ensures Oldest(keys, a + b) == Oldest(keys, a) + Oldest(keys - Oldest(keys, a), b)
    decreases a
  {
    if keys == {} {
      assert keys - Oldest(keys, a) == {};
    } else if a > 0 {
      var least := Least(keys);
      var rest := keys - {least};
      OldestInTwoParts(rest, a - 1, b);
      assert keys - Oldest(keys, a) == rest - Oldest(rest, a - 1);
    } else {
      assert keys - {} == keys;
    }
  }

  /** Every row the mover takes had expired: what the ladder's tick lets it drop. */
  lemma MovedHadExpired(d: Databases, cutoff: int, rows: nat, k: int)
    requires Keyed(d)
    requires k in d.main && k !in Move(d, cutoff, rows).0.main
    ensures k + L4_MS <= cutoff
  {
    hide Oldest, Move;
    MoveIsExact(d, cutoff, rows);
    OldestFacts(Expired(d.main, cutoff), if rows == 0 then 0 else Min(rows, ARCHIVE_BATCH_ROWS));
  }

  // ---------- A tick's worth of batches ----------

  /** The two databases as the mover updates them. */
  class Mover {
    var main: Table
    var archive: Table
    var movedUntil: Option<int>

    function State(): Databases
      reads this
    {
      Databases(main, archive, movedUntil)
    }

    constructor (main: Table, archive: Table)
      ensures State() == Databases(main, archive, None)
    {
      this.main, this.archive, this.movedUntil := main, archive, None;
    }

    /** Copy and commit the oldest expired rows into the archive, then count the committed copy. */
    method CopyAttachedBatch(cutoff: int, rows: nat) returns (batch: Option<Batch>, ok: bool)
      modifies this`archive
      ensures var b := Select(old(main), cutoff, rows);
              if b.None? then batch == None && ok && State() == old(State())
              else
                && State() == CopyRows(old(State()), b.value)
                && ok == (ArchivedCount(State(), b.value) == b.value.rowCount)
                && batch == (if ok then b else None)
    {
      var b := Select(main, cutoff, rows);
      if b.None? {
        return None, true;
      }
      archive := archive + Between(main, b.value.minMs, b.value.maxMs);
      var archivedCount := ArchivedCount(State(), b.value);
      if archivedCount != b.value.rowCount {
        return None, false;
      }
      return b, true;
    }

    /** Delete and commit the rows of the batch that still match their copies in full. */
    method DeleteAttachedBatch(batch: Batch) returns (deleted: nat)
      modifies this`main, this`movedUntil
      ensures State() == DeleteRows(old(State()), batch)
      ensures deleted == |Deletable(old(State()), batch)|
    {
      var gone := Deletable(State(), batch);
      deleted := |gone|;
      main := map k | k in main && k !in gone :: main[k];
      if deleted == batch.rowCount {
        movedUntil := Some(SatAdd(batch.maxMs, L4_MS));
      }
    }

    method MoveExpiredL4(cutoff: int, rows: nat) returns (count: Option<nat>)
      modifies this
      ensures (State(), count) == Move(old(State()), cutoff, rows)
    {
      if rows == 0 {
        return Some(0);
      }
      var batch, ok := CopyAttachedBatch(cutoff, Min(rows, ARCHIVE_BATCH_ROWS));
      if !ok {
        return None;
      }
      if batch.None? {
        return Some(0);
      }
      var deleted := DeleteAttachedBatch(batch.value);
      return Some(deleted);
    }

    /** The archive part of a tick: batches until one moves nothing or the budget is spent. Undisturbed, it moves
      * exactly the oldest ten thousand expired rows, or all of them. */
    method ExpireTick(cutoff: int) returns (archived: nat)
      requires Keyed(State())
      modifies this
      ensures var budget := 10_000;
              var expired := Expired(old(main), cutoff);
              && Moved(old(State()), State(), Oldest(expired, budget))
              && archived == Min(budget, |expired|)
              && MarkAtEnd(old(movedUntil), Oldest(expired, budget), movedUntil)
    {
      hide Oldest, Expired, Move, Moved, MarkAtEnd;
      archived := 0;
      ghost var before := State();
      ghost var expired := Expired(main, cutoff);
      ghost var taken: nat := 0;
      var batches := 0;
      TakenNothing(before, expired);
      while batches < MAX_ARCHIVE_BATCHES_PER_TICK
        invariant 0 <= batches <= MAX_ARCHIVE_BATCHES_PER_TICK
        invariant taken == batches * ARCHIVE_BATCH_ROWS
        invariant Keyed(State())
        invariant Moved(before, State(), Oldest(expired, taken))
        invariant archived == |Oldest(expired, taken)|
        invariant MarkAtEnd(before.movedUntil, Oldest(expired, taken), movedUntil)
        decreases MAX_ARCHIVE_BATCHES_PER_TICK - batches
      {
        ghost var d := State();
        MoveIsExact(d, cutoff, ARCHIVE_BATCH_ROWS);
        var count := MoveExpiredL4(cutoff, ARCHIVE_BATCH_ROWS);
        OneMoreBatch(before, d, State(), cutoff, expired, taken, ARCHIVE_BATCH_ROWS);
        MarkAfterBatch(before, d, State(), cutoff, expired, taken, ARCHIVE_BATCH_ROWS);
        if count == Some(0) {
          AllMoved(expired, taken, MAX_ARCHIVE_BATCHES_PER_TICK * ARCHIVE_BATCH_ROWS);
          OldestFacts(expired, MAX_ARCHIVE_BATCHES_PER_TICK * ARCHIVE_BATCH_ROWS);
          return;
        }
        archived := archived + count.value;
        batches := batches + 1;
        taken := taken + ARCHIVE_BATCH_ROWS;
      }
      OldestFacts(expired, taken);
    }
  }

  /** The watermark after moving `keys`: at the end of the newest of them, or where it was. */
  ghost predicate MarkAtEnd(before: Option<int>, keys: set<int>, after: Option<int>) {
    && (keys == {} ==> after == before)
    && forall k :: k in keys && (forall j :: j in keys ==> j <= k) ==> after == Some(SatAdd(k, L4_MS))
  }

  lemma TakenNothing(d: Databases, expired: set<int>)
    ensures Oldest(expired, 0) == {} && Moved(d, d, {}) && MarkAtEnd(d.movedUntil, {}, d.movedUntil)
  {
  }

  lemma MarkAfterBatch(before: Databases, d: Databases, r: Databases, cutoff: int, expired: set<int>, taken: nat, rows: nat)
    requires Expired(d.main, cutoff) == expired - Oldest(expired, taken)
    requires MarkAtEnd(before.movedUntil, Oldest(expired, taken), d.movedUntil)
    requires var next := Oldest(Expired(d.main, cutoff), rows);
             if next == {} then r == d else r.movedUntil == Some(SatAdd(Greatest(next), L4_MS))
    ensures MarkAtEnd(before.movedUntil, Oldest(expired, taken + rows), r.movedUntil)
  {
    var next := Oldest(Expired(d.main, cutoff), rows);
    OldestInTwoParts(expired, taken, rows);
    OldestFacts(expired, taken);
    OldestFacts(Expired(d.main, cutoff), rows);
    hide Oldest, Expired;
    if next == {} {
      assert Oldest(expired, taken + rows) == Oldest(expired, taken);
    } else {
      var all := Oldest(expired, taken + rows);
      forall k | k in all && forall j :: j in all ==> j <= k
        ensures k == Greatest(next)
      {
        assert Greatest(next) <= k;
      }
    }
  }

  /** The rows left after the batches so far, the next batch of them, and both together. */
  lemma OneMoreBatch(before: Databases, d: Databases, r: Databases, cutoff: int, expired: set<int>, taken: nat, rows: nat)
    requires expired == Expired(before.main, cutoff)
    requires Moved(before, d, Oldest(expired, taken))
    requires Moved(d, r, Oldest(Expired(d.main, cutoff), rows))
    ensures Expired(d.main, cutoff) == expired - Oldest(expired, taken)
    ensures Moved(before, r, Oldest(expired, taken + rows))
    ensures |Oldest(expired, taken + rows)| == |Oldest(expired, taken)| + |Oldest(Expired(d.main, cutoff), rows)|
  {
    var first := Oldest(expired, taken);
    LeftExpired(before, d, cutoff, first);
    var next := Oldest(Expired(d.main, cutoff), rows);
    OldestInTwoParts(expired, taken, rows);
    OldestFacts(Expired(d.main, cutoff), rows);
    hide Oldest, Expired, Moved;
    MovedTwice(before, d, r, first, next);
    DisjointUnion(first, next);
  }

  lemma LeftExpired(before: Databases, d: Databases, cutoff: int, first: set<int>)
    requires Moved(before, d, first)
    ensures Expired(d.main, cutoff) == Expired(before.main, cutoff) - first
  {
  }

  lemma MovedTwice(before: Databases, d: Databases, r: Databases, first: set<int>, next: set<int>)
    requires Moved(before, d, first) && Moved(d, r, next)
    ensures Moved(before, r, first + next)
  {
    assert r.main == Without(before.main, first + next);
    assert r.archive == before.archive + Only(before.main, first + next);
  }

  lemma DisjointUnion(a: set<int>, b: set<int>)
    requires a * b == {}
    ensures |a + b| == |a| + |b|
  {
  }

  /** When the next batch is empty there was nothing left, whatever the remaining budget. */
  lemma AllMoved(expired: set<int>, taken: nat, budget: nat)
    requires taken <= budget
    requires |Oldest(expired - Oldest(expired, taken), ARCHIVE_BATCH_ROWS)| == 0
    ensures Oldest(expired, budget) == Oldest(expired, taken)
  {
    var left := expired - Oldest(expired, taken);
    OldestFacts(left, ARCHIVE_BATCH_ROWS);
    OldestInTwoParts(expired, taken, budget - taken);
    OldestFacts(left, budget - taken);
    hide Oldest;
  }
}
