/** Moving expired hours between two databases that commit separately (`archive.rs`): the statements on values. */
module ArchiveModel {
  import opened Prelude
  import opened TierFold
  import opened LadderModel

  const L4_MS: int := 3_600_000
  const ARCHIVE_BATCH_ROWS: nat := 1_000
  const MAX_ARCHIVE_BATCHES_PER_TICK: nat := 10

  datatype Batch = Batch(minMs: int, maxMs: int, rowCount: nat)

  /** How far the mover has come with a batch; what it knows is lost in a crash. */
  datatype Phase = Idle | Copied(batch: Batch) | Verified(batch: Batch)

  /** The hourly rows of the main database and of the archive, and the mover's watermark. */
  datatype Databases = Databases(main: Table, archive: Table, movedUntil: Option<int>)

  function Expired(main: Table, cutoff: int): set<int> {
    set k | k in main && k + L4_MS <= cutoff
  }

  /** `ORDER BY bucket_start_ms LIMIT n`. */
  function Oldest(keys: set<int>, n: nat): set<int>
    decreases n
  {
    if n == 0 || keys == {} then {} else {Least(keys)} + Oldest(keys - {Least(keys)}, n - 1)
  }

  lemma {:induction false} GreatestExists(s: set<int>)
    requires s != {}
    ensures exists x :: x in s && forall y :: y in s ==> y <= x
  {
    var x := Pick(s);
    if s == {x} {
      assert x in s && forall y :: y in s ==> y <= x;
    } else {
      GreatestExists(s - {x});
      var z :| z in s - {x} && forall y :: y in s - {x} ==> y <= z;
      var greatest := Max(x, z);
      assert forall y :: y in s ==> y == x || y in s - {x};
      assert greatest in s && forall y :: y in s ==> y <= greatest;
    }
  }

  function Greatest(s: set<int>): (greatest: int)
    requires s != {}
    ensures greatest in s && forall y :: y in s ==> y <= greatest
  {
    GreatestExists(s);
    var x :| x in s && forall y :: y in s ==> y <= x;
    x
  }

  /** `MIN`, `MAX` and `COUNT` of the rows one batch selects. */
  function Select(main: Table, cutoff: int, rows: nat): Option<Batch> {
    var keys := Oldest(Expired(main, cutoff), rows);
    if keys == {} then None else Some(Batch(Least(keys), Greatest(keys), |keys|))
  }

  function Between(table: Table, lo: int, hi: int): Table {
    map k | k in table && lo <= k <= hi :: table[k]
  }

  /** `INSERT OR REPLACE INTO archive ... BETWEEN min AND max`: committed in the archive alone. */
  function CopyRows(d: Databases, b: Batch): Databases {
    d.(archive := d.archive + Between(d.main, b.minMs, b.maxMs))
  }

  /** The main rows of the batch interval whose key the archive holds. */
  function ArchivedCount(d: Databases, b: Batch): nat {
    |set k | k in Between(d.main, b.minMs, b.maxMs) && k in d.archive|
  }

  // ---------- Full-row equality ----------

  /** SQL `=` on columns that may be NULL: never true of a NULL. */
  predicate SqlEqual(a: Option<real>, b: Option<real>) {
    a.Some? && b.Some? && a.value == b.value
  }

  /** SQL `IS`: true of two NULLs. */
  predicate SqlIs(a: Option<real>, b: Option<real>) {
    SqlEqual(a, b) || (a.None? && b.None?)
  }

  // The three nullable columns of a row.

  function RootAvg(r: TierBucket): Option<real> {
    if r.rootUsed.Some? then Some(r.rootUsed.value.avg) else None
  }

  function RootMin(r: TierBucket): Option<real> {
    if r.rootUsed.Some? then Some(r.rootUsed.value.min) else None
  }

  function RootMax(r: TierBucket): Option<real> {
    if r.rootUsed.Some? then Some(r.rootUsed.value.max) else None
  }

  predicate StatMatch(a: Stat, b: Stat) {
    a.avg == b.avg && a.min == b.min && a.max == b.max
  }

  /** The row comparison of the delete: every column but the key, the nullable ones by `IS`. */
  predicate RowMatch(a: TierBucket, m: TierBucket) {
    && a.firstCapturedAtMs == m.firstCapturedAtMs
    && a.newestCapturedAtMs == m.newestCapturedAtMs
    && a.sampleCount == m.sampleCount
    && StatMatch(a.cpu, m.cpu) && StatMatch(a.memory, m.memory) && StatMatch(a.swap, m.swap) && StatMatch(a.load, m.load)
    && SqlIs(RootAvg(a), RootAvg(m))
    && SqlIs(RootMin(a), RootMin(m))
    && SqlIs(RootMax(a), RootMax(m))
  }

  /** The rows the delete takes: in the interval, and matched in full by the archive. */
  function Deletable(d: Databases, b: Batch): set<int> {
    set k | k in Between(d.main, b.minMs, b.maxMs) && k in d.archive && RowMatch(d.archive[k], d.main[k])
  }

  /** The delete and, if it took the whole batch, the watermark: committed together in the main database. */
  function DeleteRows(d: Databases, b: Batch): Databases {
    var gone := Deletable(d, b);
    var main := map k | k in d.main && k !in gone :: d.main[k];
    if |gone| == b.rowCount then d.(main := main, movedUntil := Some(SatAdd(b.maxMs, L4_MS)))
    else d.(main := main)
  }

  /** One call of the mover with nothing in between: the databases after it and the rows it moved; `None` is an error. */
  function Move(d: Databases, cutoff: int, rows: nat): (Databases, Option<nat>) {
    if rows == 0 then (d, Some(0))
    else
      var b := Select(d.main, cutoff, Min(rows, ARCHIVE_BATCH_ROWS));
      if b.None? then (d, Some(0))
      else
        var copied := CopyRows(d, b.value);
        if ArchivedCount(copied, b.value) != b.value.rowCount then (copied, None)
        else (DeleteRows(copied, b.value), Some(|Deletable(copied, b.value)|))
  }
}
