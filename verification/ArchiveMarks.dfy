/** What each step of the mover does to rows and watermark, in figures, along every run: proofs about `ArchiveModel`. */
module ArchiveMarks {
  import opened Prelude
  import opened TierFold
  import opened LadderModel
  import opened ArchiveModel
  import opened ArchiveMoves

  /** The main rows of the hours that ended by the cutoff. */
  predicate EndedBy(main: Table, cutoff: int, k: int) { k in main && k + 3_600_000 <= cutoff }

  /** `keys` are the oldest ended hours, at most `n` of them, and fewer only if there are no more. */
  ghost predicate OldestEnded(main: Table, cutoff: int, n: nat, keys: set<int>) {
    && |keys| <= n
    && (forall k :: k in keys ==> EndedBy(main, cutoff, k))
    && (forall k, j :: k in keys && EndedBy(main, cutoff, j) && j !in keys ==> k < j)
    && (|keys| < n ==> forall j :: EndedBy(main, cutoff, j) ==> j in keys)
  }

  /** The end of an hour, held within 64 bits. */
  function HourEnd(start: int): int {
    if start <= I64_MAX - 3_600_000 then (if start >= I64_MIN - 3_600_000 then start + 3_600_000 else I64_MIN) else I64_MAX
  }

  lemma HourEndIs(start: int)
    ensures HourEnd(start) == SatAdd(start, L4_MS)
  {
  }

  /** The main rows from `lo` to `hi`. */
  function Inside(main: Table, lo: int, hi: int): set<int> {
    set k | k in main && lo <= k <= hi
  }

  lemma {:induction false} SubsetSize(a: set<int>, b: set<int>)
    requires a <= b
    ensures |a| <= |b| && (|a| == |b| <==> a == b)
    decreases |b|
  {
    if a != {} {
      var x := Pick(a);
      SubsetSize(a - {x}, b - {x});
      assert a == (a - {x}) + {x} && b == (b - {x}) + {x};
    } else if b != {} {
      assert |b| > 0;
    }
  }

  lemma OldestAreEnded(main: Table, cutoff: int, n: nat)
    ensures OldestEnded(main, cutoff, n, Oldest(Expired(main, cutoff), n))
  {
    var expired := Expired(main, cutoff);
    OldestFacts(expired, n);
    SubsetSize(Oldest(expired, n), expired);
    hide Oldest;
  }

  /** A batch that was selected from this table: the first and last of the oldest ended hours, and their number. */
  ghost predicate SelectedFrom(main: Table, cutoff: int, n: nat, b: Batch, keys: set<int>) {
    && OldestEnded(main, cutoff, n, keys)
    && b.minMs in keys && b.maxMs in keys && b.rowCount == |keys|
    && forall k :: k in keys ==> b.minMs <= k <= b.maxMs
  }

  lemma SelectIs(main: Table, cutoff: int, n: nat)
    ensures var b := Select(main, cutoff, n);
            && (b.None? <==> n == 0 || forall k :: !EndedBy(main, cutoff, k))
            && (b.Some? ==> var keys := Inside(main, b.value.minMs, b.value.maxMs);
                            SelectedFrom(main, cutoff, n, b.value, keys))
  {
    var expired := Expired(main, cutoff);
    var keys := Oldest(expired, n);
    OldestAreEnded(main, cutoff, n);
    assert forall k :: EndedBy(main, cutoff, k) <==> k in expired;
    if keys == {} {
      assert n == 0 || forall k :: !EndedBy(main, cutoff, k);
    } else {
      NonemptyOldest(expired, n);
      IntervalIsSelection(main, cutoff, n);
      var b := Select(main, cutoff, n).value;
      assert Inside(main, b.minMs, b.maxMs) == Between(main, b.minMs, b.maxMs).Keys;
    }
  }

  lemma NonemptyOldest(keys: set<int>, n: nat)
    requires Oldest(keys, n) != {}
    ensures n > 0 && keys != {}
  {
  }

  // ---------- Every step ----------

  /** A copy, when the mover is idle and an hour has ended: the rows of the batch are in the archive as they are in the
    * main database, every other archived row stays, and the main database and the watermark are as before. */
  lemma CopyStep(s: System, cutoff: int, rows: nat)
    ensures var r := Next(s, Copy(cutoff, rows));
            && r.d.main == s.d.main && r.d.movedUntil == s.d.movedUntil
            && if s.phase != Idle || rows == 0 || (forall k :: !EndedBy(s.d.main, cutoff, k)) then r == s
               else
                 && r.phase.Copied?
                 && var b := r.phase.batch;
                 && var keys := Inside(s.d.main, b.minMs, b.maxMs);
                 && SelectedFrom(s.d.main, cutoff, rows, b, keys)
                 && r.d.archive.Keys == s.d.archive.Keys + keys
                 && forall k :: k in r.d.archive ==> r.d.archive[k] == if k in keys then s.d.main[k] else s.d.archive[k]
  {
    SelectIs(s.d.main, cutoff, rows);
    hide Select, SelectedFrom, EndedBy;
  }

  /** The count between the two commits passes exactly when as many main rows of the interval have an archived row as
    * the batch selected. It changes no row. */
  lemma VerifyStep(s: System)
    ensures var r := Next(s, Verify);
            && r.d == s.d
            && if !s.phase.Copied? then r == s
               else
                 var b := s.phase.batch;
                 r.phase == if |Inside(s.d.main, b.minMs, b.maxMs) * s.d.archive.Keys| == b.rowCount then Verified(b) else Idle
  {
    if s.phase.Copied? {
      var b := s.phase.batch;
      assert Inside(s.d.main, b.minMs, b.maxMs) * s.d.archive.Keys
          == (set k | k in Between(s.d.main, b.minMs, b.maxMs) && k in s.d.archive);
    }
  }

  /** A delete takes exactly the rows of the interval whose archived row is the same, keeps the others as they are, and
    * moves the watermark, to the end of the batch, exactly when it took as many rows as the batch selected. A row then
    * stays in the interval exactly when more rows stood there before. */
  lemma DeleteStep(s: System)
    requires Keyed(s.d)
    ensures var r := Next(s, Delete);
            && r.d.archive == s.d.archive && r.d.main.Keys <= s.d.main.Keys
            && (forall k :: k in r.d.main ==> r.d.main[k] == s.d.main[k])
            && if !s.phase.Verified? then r == s
               else
                 && r.phase == Idle
                 && var b := s.phase.batch;
                 && var inside := Inside(s.d.main, b.minMs, b.maxMs);
                 && var gone := s.d.main.Keys - r.d.main.Keys;
                 && (forall k :: k in gone <==> k in inside && k in s.d.archive && s.d.archive[k] == s.d.main[k])
                 && r.d.movedUntil == (if |gone| == b.rowCount then Some(HourEnd(b.maxMs)) else s.d.movedUntil)
                 && (|gone| == b.rowCount ==> (Inside(r.d.main, b.minMs, b.maxMs) == {} <==> |inside| == b.rowCount))
  {
    if s.phase.Verified? {
      var b := s.phase.batch;
      var gone := Deletable(s.d, b);
      var r := Next(s, Delete);
      HourEndIs(b.maxMs);
      TakenAre(s.d, b);
      LeftAfterDelete(s.d, b);
      var inside := Inside(s.d.main, b.minMs, b.maxMs);
      SubsetSize(gone, inside);
      assert Inside(r.d.main, b.minMs, b.maxMs) == inside - gone;
      assert inside - gone == {} <==> gone == inside;
    }
  }

  lemma LeftAfterDelete(d: Databases, b: Batch)
    ensures var r := DeleteRows(d, b);
            && r.main.Keys == d.main.Keys - Deletable(d, b)
            && d.main.Keys - r.main.Keys == Deletable(d, b)
            && r.archive == d.archive
            && forall k :: k in r.main ==> r.main[k] == d.main[k]
  {
    hide Deletable, Without;
    DeletableInMain(d, b);
    DeleteRowsMain(d, b);
    WithoutKeys(d.main, Deletable(d, b));
  }

  lemma DeletableInMain(d: Databases, b: Batch)
    ensures Deletable(d, b) <= d.main.Keys
  {
    hide RowMatch, Between;
    forall k | k in Deletable(d, b)
      ensures k in d.main
    {
      assert k in Between(d.main, b.minMs, b.maxMs);
      BetweenInMain(d.main, b.minMs, b.maxMs);
    }
  }

  lemma BetweenInMain(main: Table, lo: int, hi: int)
    ensures Between(main, lo, hi).Keys <= main.Keys
  {
  }

  lemma DeleteRowsMain(d: Databases, b: Batch)
    ensures DeleteRows(d, b).main == Without(d.main, Deletable(d, b))
  {
    hide Deletable;
  }

  lemma WithoutKeys(main: Table, gone: set<int>)
    requires gone <= main.Keys
    ensures var r := Without(main, gone);
            && r.Keys == main.Keys - gone && main.Keys - r.Keys == gone
            && forall k :: k in r ==> r[k] == main[k]
  {
  }

  lemma TakenAre(d: Databases, b: Batch)
    requires Keyed(d)
    ensures forall k :: k in Deletable(d, b) <==>
                        k in Inside(d.main, b.minMs, b.maxMs) && k in d.archive && d.archive[k] == d.main[k]
  {
    hide RowMatch;
    forall k | k in d.main && k in d.archive
      ensures RowMatch(d.archive[k], d.main[k]) <==> d.archive[k] == d.main[k]
    {
      RowMatchIsEquality(d.archive[k], d.main[k]);
    }
  }

  /** The writer's upsert stores the row under its start, moves no watermark and leaves the mover where it was. */
  lemma UpsertStep(s: System, row: TierBucket)
    ensures Next(s, Upsert(row)) == System(Databases(s.d.main[row.bucketStartMs := row], s.d.archive, s.d.movedUntil), s.phase)
  {
  }

  /** A crash or an error forgets the batch and touches neither database. */
  lemma CrashStep(s: System)
    ensures Next(s, Crash) == System(s.d, Idle)
  {
  }

  // ---------- Along a run ----------

  /** The copy at step `j` selected the batch the mover works on. */
  ghost predicate SelectedAt(s: System, steps: seq<Step>, j: nat, b: Batch) {
    && j < |steps| && steps[j].Copy?
    && var main := Run(s, steps[..j]).d.main;
    SelectedFrom(main, steps[j].cutoff, steps[j].rows, b, Inside(main, b.minMs, b.maxMs))
  }

  lemma {:induction false} BatchWasSelected(s: System, steps: seq<Step>)
    requires s.phase == Idle
    ensures Run(s, steps).phase != Idle ==> exists j: nat :: SelectedAt(s, steps, j, Run(s, steps).phase.batch)
    decreases |steps|
  {
    hide SelectedFrom, Select;
    if steps != [] && Run(s, steps).phase != Idle {
      var n := |steps| - 1;
      var init := steps[..n];
      var before := Run(s, init);
      var b := Run(s, steps).phase.batch;
      BatchWasSelected(s, init);
      if before.phase != Idle && before.phase.batch == b {
        var j: nat :| SelectedAt(s, init, j, b);
        assert steps[..j] == init[..j];
        assert SelectedAt(s, steps, j, b);
      } else {
        CopyStep(before, steps[n].cutoff, steps[n].rows);
        assert SelectedAt(s, steps, n, b);
      }
    }
  }

  /** The watermark of the mover along every run, with crashes and a writer in between. A step moves it exactly if it is
    * the delete of a verified batch and as many rows leave the main database in it as the copy of that batch selected;
    * it then stands at the end of the last hour selected. No other step touches it. */
  lemma MarkMovesExactly(s: System, steps: seq<Step>, i: nat)
    requires s.phase == Idle && Keyed(s.d)
    requires i < |steps|
    ensures var a, z := Run(s, steps[..i]), Run(s, steps[..i + 1]);
            if !(steps[i].Delete? && a.phase.Verified?) then z.d.movedUntil == a.d.movedUntil
            else
              && (exists j: nat :: j < i && SelectedAt(s, steps, j, a.phase.batch))
              && z.d.movedUntil == if |a.d.main.Keys - z.d.main.Keys| == a.phase.batch.rowCount
                                   then Some(HourEnd(a.phase.batch.maxMs)) else a.d.movedUntil
  {
    var a := Run(s, steps[..i]);
    assert steps[..i + 1][..i] == steps[..i];
    assert Run(s, steps[..i + 1]) == Next(a, steps[i]);
    MovesAreInvisible(s, steps[..i]);
    BatchWasSelected(s, steps[..i]);
    hide SelectedFrom, Run, Keyed, Select, SelectedAt;
    match steps[i]
    case Copy(cutoff, rows) => CopyStep(a, cutoff, rows);
    case Verify => VerifyStep(a);
    case Delete =>
      DeleteStep(a);
      if a.phase.Verified? {
        var j: nat :| SelectedAt(s, steps[..i], j, a.phase.batch);
        SelectedEarlier(s, steps, i, j, a.phase.batch);
      }
    case _ =>
  }

  lemma SelectedEarlier(s: System, steps: seq<Step>, i: nat, j: nat, b: Batch)
    requires i < |steps| && SelectedAt(s, steps[..i], j, b)
    ensures j < i && SelectedAt(s, steps, j, b)
  {
    assert steps[..i][..j] == steps[..j];
  }

  /** An hour that the writer adds inside the interval between copy and delete is left behind the watermark. */
  lemma LateHourBehindMark(first: TierBucket, last: TierBucket, late: TierBucket)
    requires first.bucketStartMs == 0 && late.bucketStartMs == 3_600_000 && last.bucketStartMs == 7_200_000
    ensures var s := System(Databases(map[0 := first, 7_200_000 := last], map[], None), Idle);
            var r := Run(s, [Copy(36_000_000, 1_000), Verify, Upsert(late), Delete]);
            r.d.main == map[3_600_000 := late] && r.d.movedUntil == Some(10_800_000)
  {
    hide *;
    var s := System(Databases(map[0 := first, 7_200_000 := last], map[], None), Idle);
    var steps := [Copy(36_000_000, 1_000), Verify, Upsert(late), Delete];
    StepsOf(s, steps);
    TwoCopied(s, first, last);
    var s1 := Run(s, steps[..1]);
    TwoVerified(s1);
    var s2 := Run(s, steps[..2]);
    var s3 := Run(s, steps[..3]);
    UpsertStep(s2, late);
    TwoKeyed(s, s3, first, last, late);
    TwoDeleted(s3, late);
  }

  lemma TwoKeyed(s: System, s3: System, first: TierBucket, last: TierBucket, late: TierBucket)
    requires s.d.main == map[0 := first, 7_200_000 := last]
    requires s3.d.archive == s.d.main && s3.d.main == s.d.main[3_600_000 := late]
    requires first.bucketStartMs == 0 && late.bucketStartMs == 3_600_000 && last.bucketStartMs == 7_200_000
    ensures Keyed(s3.d)
  {
  }

  lemma TwoCopied(s: System, first: TierBucket, last: TierBucket)
    requires s == System(Databases(map[0 := first, 7_200_000 := last], map[], None), Idle)
    requires first.bucketStartMs == 0 && last.bucketStartMs == 7_200_000
    ensures var r := Next(s, Copy(36_000_000, 1_000));
            && r.d.main == s.d.main && r.d.archive == s.d.main && r.d.movedUntil == None
            && r.phase == Copied(Batch(0, 7_200_000, 2))
  {
    hide *;
    var r := Next(s, Copy(36_000_000, 1_000));
    CopyStep(s, 36_000_000, 1_000);
    TwoEnded(s.d.main);
    var b := r.phase.batch;
    var keys := Inside(s.d.main, b.minMs, b.maxMs);
    InsideMain(s.d.main, b.minMs, b.maxMs);
    BothInside(s.d.main, keys, b);
    SameRows(r.d.archive, s.d.main);
  }

  lemma TwoEnded(main: Table)
    requires main.Keys == {0, 7_200_000}
    ensures EndedBy(main, 36_000_000, 0)
  {
  }

  lemma InsideMain(main: Table, lo: int, hi: int)
    ensures Inside(main, lo, hi) <= main.Keys
  {
  }

  lemma SameRows(a: Table, b: Table)
    requires a.Keys == b.Keys && forall k :: k in a ==> a[k] == b[k]
    ensures a == b
  {
    forall k | k in a.Keys
      ensures k in b && a[k] == b[k]
    {
    }
  }

  lemma BothInside(main: Table, keys: set<int>, b: Batch)
    requires main.Keys == {0, 7_200_000} && keys <= main.Keys && SelectedFrom(main, 36_000_000, 1_000, b, keys)
    ensures keys == {0, 7_200_000} && b == Batch(0, 7_200_000, 2)
  {
    SubsetSize(keys, {0, 7_200_000});
    assert EndedBy(main, 36_000_000, 0) && EndedBy(main, 36_000_000, 7_200_000);
    assert keys == {0, 7_200_000};
  }

  lemma TwoVerified(s: System)
    requires s.phase == Copied(Batch(0, 7_200_000, 2))
    requires s.d.main.Keys == {0, 7_200_000} && s.d.archive == s.d.main
    ensures Next(s, Verify) == System(s.d, Verified(Batch(0, 7_200_000, 2)))
  {
    VerifyStep(s);
    hide Next;
    assert Inside(s.d.main, 0, 7_200_000) * s.d.archive.Keys == {0, 7_200_000};
  }

  lemma TwoDeleted(s: System, late: TierBucket)
    requires s.phase == Verified(Batch(0, 7_200_000, 2)) && Keyed(s.d)
    requires s.d.main == s.d.archive[3_600_000 := late] && s.d.archive.Keys == {0, 7_200_000}
    ensures Next(s, Delete).d.main == map[3_600_000 := late]
    ensures Next(s, Delete).d.movedUntil == Some(10_800_000)
  {
    hide *;
    DeleteStep(s);
    LateLeft(s.d.main, s.d.archive, Next(s, Delete).d.main, late);
    EndOfLast();
  }

  lemma EndOfLast()
    ensures HourEnd(7_200_000) == 10_800_000 && |{0, 7_200_000}| == 2
  {
  }

  lemma LateLeft(main: Table, archive: Table, after: Table, late: TierBucket)
    requires archive.Keys == {0, 7_200_000} && main == archive[3_600_000 := late] && after.Keys <= main.Keys
    requires forall k :: k in after ==> after[k] == main[k]
    requires forall k :: k in main.Keys - after.Keys <==>
                         k in Inside(main, 0, 7_200_000) && k in archive && archive[k] == main[k]
    ensures main.Keys - after.Keys == {0, 7_200_000} && after == map[3_600_000 := late]
  {
    assert main.Keys == {0, 3_600_000, 7_200_000};
    assert main.Keys - after.Keys == {0, 7_200_000};
    assert after.Keys == {3_600_000};
  }

  lemma StepsOf(s: System, steps: seq<Step>)
    requires |steps| == 4
    ensures Run(s, steps[..1]) == Next(s, steps[0])
    ensures Run(s, steps[..2]) == Next(Run(s, steps[..1]), steps[1])
    ensures Run(s, steps[..3]) == Next(Run(s, steps[..2]), steps[2])
    ensures Run(s, steps) == Next(Run(s, steps[..3]), steps[3])
  {
    assert steps[..1][..0] == [] && steps[..2][..1] == steps[..1] && steps[..3][..2] == steps[..2];
    assert Run(s, steps[..1]) == Next(Run(s, []), steps[0]);
  }

  // ---------- Undisturbed, in figures ----------

  /** The hours that ended by the cutoff and start before `k`. */
  function EndedBefore(main: Table, cutoff: int, k: int): set<int> {
    set j | j in main && j + 3_600_000 <= cutoff && j < k
  }

  lemma OldestByCount(main: Table, cutoff: int, n: nat, k: int)
    ensures k in Oldest(Expired(main, cutoff), n) <==>
            EndedBy(main, cutoff, k) && |EndedBefore(main, cutoff, k)| < n
  {
    var expired := Expired(main, cutoff);
    var keys := Oldest(expired, n);
    OldestFacts(expired, n);
    hide Oldest;
    var earlier := EndedBefore(main, cutoff, k);
    assert earlier <= expired;
    if k in keys {
      assert earlier + {k} <= keys;
      SubsetSize(earlier + {k}, keys);
    } else if k in expired {
      assert keys <= earlier;
      SubsetSize(keys, earlier);
      SubsetSize(keys, expired);
    }
  }

  /** Undisturbed, a row leaves the main database exactly when its hour ended by the cutoff and fewer rows than the
    * batch allows ended and are older; it is then in the archive as it was. The others stay. */
  lemma MoveTakesOldest(d: Databases, cutoff: int, rows: nat, k: int)
    requires Keyed(d) && k in d.main
    ensures var r := Move(d, cutoff, rows).0;
            if k + 3_600_000 <= cutoff && |EndedBefore(d.main, cutoff, k)| < rows && |EndedBefore(d.main, cutoff, k)| < 1_000
            then k !in r.main && k in r.archive && r.archive[k] == d.main[k]
            else k in r.main && r.main[k] == d.main[k]
  {
    MoveIsExact(d, cutoff, rows);
    OldestByCount(d.main, cutoff, if rows == 0 then 0 else Min(rows, 1_000), k);
    hide Oldest, Move, Keyed, Expired, EndedBefore;
  }
}
