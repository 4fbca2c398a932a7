/**
 * BookImportJob.Execute without its I/O: the existing-title snapshot, the
 * fuzzy filter pass over the fetched books and the chunked commit loop.
 * The source client, the store and the logger are parameters or left out.
 */
module BookImport {
  import opened Text
  import opened Levenshtein

  /** BookImportSettings.FuzzyThreshold when configuration does not set it. */
  const DefaultThreshold: int := 2

  /** The job's batchSize. */
  const BatchSize: nat := 2000

  /** A fetched book as the filter sees it: its title and its price. */
  datatype ImportRecord = ImportRecord(title: string, price: real)

  // ---------------------------------------------------------------------
  // The existing-title snapshot
  // ---------------------------------------------------------------------

  /** imported.Select(b => b.Title?.Trim()).Where(t => !IsNullOrWhiteSpace(t)) */
  function TrimmedTitles(rs: seq<ImportRecord>): seq<string>
  {
    if rs == [] then []
    else
      var t := Trim(rs[|rs| - 1].title);
      TrimmedTitles(rs[..|rs| - 1]) + if IsBlank(t) then [] else [t]
  }

  /** incomingTitles: the trimmed titles, made distinct ignoring case. */
  function IncomingTitles(rs: seq<ImportRecord>): seq<string>
  {
    DistinctIgnoreCase(TrimmedTitles(rs))
  }

  /**
   * existingTitles: the stored titles that incomingTitles contains, in
   * store order; the store compares exactly.
   */
  function ExistingTitles(store: seq<string>, incoming: seq<string>): seq<string>
  {
    if store == [] then []
    else
      var t := store[|store| - 1];
      ExistingTitles(store[..|store| - 1], incoming) + if t in incoming then [t] else []
  }

  lemma {:induction false} TrimmedTitlesSpec(rs: seq<ImportRecord>)
    ensures forall t :: t in TrimmedTitles(rs) ==> IsTrimmedNonBlank(t)
    ensures forall t :: t in TrimmedTitles(rs) ==> exists r :: r in rs && t == Trim(r.title)
    ensures forall r :: r in rs && !IsBlank(Trim(r.title)) ==> Trim(r.title) in TrimmedTitles(rs)
  {
    if rs != [] {
      var p := rs[..|rs| - 1];
      TrimmedTitlesSpec(p);
      if !IsBlank(Trim(rs[|rs| - 1].title)) {
        NonBlankTrim(rs[|rs| - 1].title);
      }
      assert forall r :: r in rs ==> r in p || r == rs[|rs| - 1];
      forall t | t in TrimmedTitles(rs) ensures exists r :: r in rs && t == Trim(r.title) {
        if t in TrimmedTitles(p) {
          var r :| r in p && t == Trim(r.title);
          assert r in rs;
        } else {
          assert rs[|rs| - 1] in rs;
        }
      }
    }
  }

  /**
   * incomingTitles holds only trimmed, non-blank titles of fetched
   * records, no two equal ignoring case, and every non-blank fetched title
   * has a match in it.
   */
  lemma IncomingTitlesSpec(rs: seq<ImportRecord>)
    ensures forall t :: t in IncomingTitles(rs) ==> IsTrimmedNonBlank(t)
    ensures forall t :: t in IncomingTitles(rs) ==> exists r :: r in rs && t == Trim(r.title)
    ensures DistinctIgnoringCase(IncomingTitles(rs))
    ensures forall r :: r in rs && !IsBlank(Trim(r.title)) ==> ContainsIgnoreCase(IncomingTitles(rs), Trim(r.title))
  {
    TrimmedTitlesSpec(rs);
    DistinctIgnoreCaseSpec(TrimmedTitles(rs));
    var d := IncomingTitles(rs);
    forall t | t in d ensures IsTrimmedNonBlank(t) && exists r :: r in rs && t == Trim(r.title) {
      var k :| 0 <= k < |d| && d[k] == t;
      assert t in TrimmedTitles(rs);
    }
  }

  /** existingTitles holds exactly the stored titles that are also incoming titles. */
  lemma {:induction false} ExistingTitlesSpec(store: seq<string>, incoming: seq<string>)
    ensures forall t :: t in ExistingTitles(store, incoming) <==> t in store && t in incoming
    ensures |ExistingTitles(store, incoming)| <= |store|
  {
    if store != [] {
      var p := store[..|store| - 1];
      ExistingTitlesSpec(p, incoming);
      assert forall t :: t in store <==> t in p || t == store[|store| - 1];
    }
  }

  // ---------------------------------------------------------------------
  // The filter pass
  // ---------------------------------------------------------------------

  /** existingTitles.Any(et => ComputeLevenshtein(et, title) <= threshold) */
  predicate IsFuzzyDuplicate(existing: seq<string>, title: string, threshold: int)
  {
    exists k :: 0 <= k < |existing| && Distance(existing[k], title) <= threshold
  }

  /** The filter adds a record: its trimmed title is not blank and no existing title is near it. */
  predicate Keeps(existing: seq<string>, threshold: int, r: ImportRecord)
  {
    !IsBlank(Trim(r.title)) && !IsFuzzyDuplicate(existing, Trim(r.title), threshold)
  }

  /** The filter counts a record in skipFuzzy: its trimmed title is not blank and is near an existing one. */
  predicate Skips(existing: seq<string>, threshold: int, r: ImportRecord)
  {
    !IsBlank(Trim(r.title)) && IsFuzzyDuplicate(existing, Trim(r.title), threshold)
  }

  /** toAdd after the pass over rs. */
  function Accepted(existing: seq<string>, threshold: int, rs: seq<ImportRecord>): seq<ImportRecord>
  {
    if rs == [] then []
    else
      var r := rs[|rs| - 1];
      Accepted(existing, threshold, rs[..|rs| - 1]) + if Keeps(existing, threshold, r) then [r] else []
  }

  /** skipFuzzy after the pass over rs. */
  function SkippedCount(existing: seq<string>, threshold: int, rs: seq<ImportRecord>): nat
  {
    if rs == [] then 0
    else
      SkippedCount(existing, threshold, rs[..|rs| - 1]) + if Skips(existing, threshold, rs[|rs| - 1]) then 1 else 0
  }

  /** The number of records whose trimmed title is not blank. */
  function NonBlankCount(rs: seq<ImportRecord>): nat
  {
    if rs == [] then 0
    else NonBlankCount(rs[..|rs| - 1]) + if IsBlank(Trim(rs[|rs| - 1].title)) then 0 else 1
  }

  /** The Any call of the filter: stops at the first existing title within the threshold. */
  method AnyWithinThreshold(existing: seq<string>, title: string, threshold: int) returns (found: bool)
    ensures found <==> IsFuzzyDuplicate(existing, title, threshold)
  {
    for k := 0 to |existing|
      invariant forall m :: 0 <= m < k ==> Distance(existing[m], title) > threshold
    {
      var d := ComputeLevenshtein(existing[k], title);
      if d <= threshold {
        return true;
      }
    }
    return false;
  }

  /** The foreach over the fetched books, building toAdd and skipFuzzy. */
  method FilterImported(existing: seq<string>, threshold: int, imported: seq<ImportRecord>)
    returns (toAdd: seq<ImportRecord>, skipFuzzy: nat)
    ensures toAdd == Accepted(existing, threshold, imported)
    ensures skipFuzzy == SkippedCount(existing, threshold, imported)
  {
    toAdd, skipFuzzy := [], 0;
    for n := 0 to |imported|
      invariant toAdd == Accepted(existing, threshold, imported[..n])
      invariant skipFuzzy == SkippedCount(existing, threshold, imported[..n])
    {
      assert imported[..n + 1][..n] == imported[..n];
      var book := imported[n];
      var title := Trim(book.title);
      if IsBlank(title) {
        continue;
      }
      var isDuplicate := AnyWithinThreshold(existing, title, threshold);
      if isDuplicate {
        skipFuzzy := skipFuzzy + 1;
      } else {
        toAdd := toAdd + [book];
      }
    }
    assert imported[..|imported|] == imported;
  }

  /** Every non-blank record is either skipped or added: skipFuzzy + |toAdd| counts them. */
  lemma {:induction false} PartitionCount(existing: seq<string>, threshold: int, rs: seq<ImportRecord>)
    ensures SkippedCount(existing, threshold, rs) + |Accepted(existing, threshold, rs)| == NonBlankCount(rs)
  {
    if rs != [] {
      PartitionCount(existing, threshold, rs[..|rs| - 1]);
    }
  }

  /** A record is added exactly when it is one of the fetched records and the filter keeps it. */
  lemma {:induction false} AcceptedMembers(existing: seq<string>, threshold: int, rs: seq<ImportRecord>)
    ensures forall r :: r in Accepted(existing, threshold, rs) <==> r in rs && Keeps(existing, threshold, r)
  {
    if rs != [] {
      var p := rs[..|rs| - 1];
      AcceptedMembers(existing, threshold, p);
      assert forall r :: r in rs <==> r in p || r == rs[|rs| - 1];
    }
  }

  /**
   * idx lists, in increasing order, the positions of rs whose records the
   * filter keeps, and no other position.
   */
  predicate KeptPositions(existing: seq<string>, threshold: int, rs: seq<ImportRecord>, idx: seq<int>)
  {
    (forall k :: 0 <= k < |idx| ==> 0 <= idx[k] < |rs| && Keeps(existing, threshold, rs[idx[k]]))
    && (forall k, l :: 0 <= k < l < |idx| ==> idx[k] < idx[l])
    && (forall i :: 0 <= i < |rs| && Keeps(existing, threshold, rs[i]) ==> i in idx)
  }

  /** out is the sequence of the records of rs at the positions idx. */
  predicate Selects(out: seq<ImportRecord>, rs: seq<ImportRecord>, idx: seq<int>)
  {
    |idx| == |out| && forall k :: 0 <= k < |idx| ==> 0 <= idx[k] < |rs| && out[k] == rs[idx[k]]
  }

  /** toAdd is the subsequence of the fetched records at the kept positions, in their order. */
  lemma {:induction false} AcceptedInOrder(existing: seq<string>, threshold: int, rs: seq<ImportRecord>)
    ensures exists idx :: KeptPositions(existing, threshold, rs, idx) && Selects(Accepted(existing, threshold, rs), rs, idx)
  {
    if rs == [] {
      assert KeptPositions(existing, threshold, rs, []) && Selects([], rs, []);
    } else {
      var p := rs[..|rs| - 1];
      var r := rs[|rs| - 1];
      var a := Accepted(existing, threshold, p);
      AcceptedInOrder(existing, threshold, p);
      var idx :| KeptPositions(existing, threshold, p, idx) && Selects(a, p, idx);
      assert rs == p + [r];
      AcceptedSnoc(existing, threshold, p, r);
      if Keeps(existing, threshold, r) {
        KeptPositionsExtend(existing, threshold, p, r, a, idx);
        var idx' := idx + [|p|];
        assert KeptPositions(existing, threshold, rs, idx') && Selects(Accepted(existing, threshold, rs), rs, idx');
      } else {
        KeptPositionsSkip(existing, threshold, p, r, a, idx);
        assert KeptPositions(existing, threshold, rs, idx) && Selects(Accepted(existing, threshold, rs), rs, idx);
      }
    }
  }

  /** A kept record appended to rs extends the positions by its own. */
  lemma KeptPositionsExtend(existing: seq<string>, threshold: int, p: seq<ImportRecord>, r: ImportRecord,
                            a: seq<ImportRecord>, idx: seq<int>)
    requires KeptPositions(existing, threshold, p, idx) && Selects(a, p, idx) && Keeps(existing, threshold, r)
    ensures KeptPositions(existing, threshold, p + [r], idx + [|p|]) && Selects(a + [r], p + [r], idx + [|p|])
  {
    ExtendedPositionsKept(existing, threshold, p, r, idx);
    ExtendedPositionsComplete(existing, threshold, p, r, idx);
    ExtendedSelects(p, r, a, idx);
  }

  /** The first part of KeptPositionsExtend: every listed position is kept. */
  lemma ExtendedPositionsKept(existing: seq<string>, threshold: int, p: seq<ImportRecord>, r: ImportRecord, idx: seq<int>)
    requires forall k :: 0 <= k < |idx| ==> 0 <= idx[k] < |p| && Keeps(existing, threshold, p[idx[k]])
    requires Keeps(existing, threshold, r)
    ensures forall k :: 0 <= k < |idx| + 1 ==>
      0 <= (idx + [|p|])[k] < |p| + 1 && Keeps(existing, threshold, (p + [r])[(idx + [|p|])[k]])
  {
    var rs, idx' := p + [r], idx + [|p|];
    forall k | 0 <= k < |idx'| ensures 0 <= idx'[k] < |rs| && Keeps(existing, threshold, rs[idx'[k]]) {
      if k < |idx| {
        assert idx'[k] == idx[k] && rs[idx[k]] == p[idx[k]];
      }
    }
  }

  /** The second part of KeptPositionsExtend: every kept position is listed. */
  lemma ExtendedPositionsComplete(existing: seq<string>, threshold: int, p: seq<ImportRecord>, r: ImportRecord, idx: seq<int>)
    requires forall i :: 0 <= i < |p| && Keeps(existing, threshold, p[i]) ==> i in idx
    ensures forall i :: 0 <= i < |p| + 1 && Keeps(existing, threshold, (p + [r])[i]) ==> i in idx + [|p|]
  {
    var rs, idx' := p + [r], idx + [|p|];
    forall i | 0 <= i < |rs| && Keeps(existing, threshold, rs[i]) ensures i in idx' {
      if i < |p| {
        assert rs[i] == p[i];
        assert i in idx;
      } else {
        assert idx'[|idx|] == i;
      }
    }
  }

  /** The third part of KeptPositionsExtend: the records at the positions are a + [r]. */
  lemma ExtendedSelects(p: seq<ImportRecord>, r: ImportRecord, a: seq<ImportRecord>, idx: seq<int>)
    requires Selects(a, p, idx)
    ensures Selects(a + [r], p + [r], idx + [|p|])
  {
    var rs, idx' := p + [r], idx + [|p|];
    forall k | 0 <= k < |idx'| ensures 0 <= idx'[k] < |rs| && (a + [r])[k] == rs[idx'[k]] {
      if k < |idx| {
        assert idx'[k] == idx[k] && rs[idx[k]] == p[idx[k]];
      }
    }
  }

  /** A record the filter drops leaves the positions as they were. */
  lemma KeptPositionsSkip(existing: seq<string>, threshold: int, p: seq<ImportRecord>, r: ImportRecord,
                          a: seq<ImportRecord>, idx: seq<int>)
    requires KeptPositions(existing, threshold, p, idx) && Selects(a, p, idx) && !Keeps(existing, threshold, r)
    ensures KeptPositions(existing, threshold, p + [r], idx) && Selects(a, p + [r], idx)
  {
    var rs := p + [r];
    forall k | 0 <= k < |idx| ensures rs[idx[k]] == p[idx[k]] {
    }
    forall i | 0 <= i < |rs| && Keeps(existing, threshold, rs[i]) ensures i in idx {
      if i < |p| {
        assert rs[i] == p[i];
      }
    }
  }

  /** Records are decided one at a time: filtering a concatenation concatenates the results. */
  lemma {:induction false} AcceptedConcat(existing: seq<string>, threshold: int, xs: seq<ImportRecord>, ys: seq<ImportRecord>)
    ensures Accepted(existing, threshold, xs + ys) == Accepted(existing, threshold, xs) + Accepted(existing, threshold, ys)
  {
    if ys != [] {
      var q := ys[..|ys| - 1];
      assert (xs + ys)[..|xs + ys| - 1] == xs + q;
      AcceptedConcat(existing, threshold, xs, q);
    } else {
      assert xs + ys == xs;
    }
  }

  /** Filtering toAdd again against the same snapshot changes nothing. */
  lemma {:induction false} FilterIdempotent(existing: seq<string>, threshold: int, rs: seq<ImportRecord>)
    ensures Accepted(existing, threshold, Accepted(existing, threshold, rs)) == Accepted(existing, threshold, rs)
  {
    if rs != [] {
      var p := rs[..|rs| - 1];
      var r := rs[|rs| - 1];
      var a := Accepted(existing, threshold, p);
      FilterIdempotent(existing, threshold, p);
      if Keeps(existing, threshold, r) {
        assert Accepted(existing, threshold, rs) == a + [r];
        AcceptedConcat(existing, threshold, a, [r]);
        assert Accepted(existing, threshold, [r]) == [r] by {
          assert [r][..0] == [];
        }
      } else {
        assert Accepted(existing, threshold, rs) == a;
      }
    }
  }

  // ---------------------------------------------------------------------
  // The chunked commit loop
  // ---------------------------------------------------------------------

  /** totalBatches = (int)Math.Ceiling(count / (double)batchSize) */
  function TotalBatches(count: nat): nat
  {
    (count + BatchSize - 1) / BatchSize
  }

  /** toAdd.Skip(i).Take(batchSize) for i = from, from + 2000, ... while i < |s|. */
  function BatchesFrom(s: seq<ImportRecord>, from: nat): seq<seq<ImportRecord>>
    decreases |s| - from
  {
    if from >= |s| then []
    else [s[from..if from + BatchSize <= |s| then from + BatchSize else |s|]] + BatchesFrom(s, from + BatchSize)
  }

  /** The slices the loop commits. */
  function Batches(s: seq<ImportRecord>): seq<seq<ImportRecord>>
  {
    BatchesFrom(s, 0)
  }

  function Flatten(bs: seq<seq<ImportRecord>>): seq<ImportRecord>
  {
    if bs == [] then [] else bs[0] + Flatten(bs[1..])
  }

  /**
   * The loop over toAdd: each pass commits the next slice (AddRange and
   * SaveChanges); the result lists the slices in commit order.
   */
  method CommitInBatches(toAdd: seq<ImportRecord>) returns (committed: seq<seq<ImportRecord>>)
    ensures committed == Batches(toAdd)
  {
    committed := [];
    var i := 0;
    while i < |toAdd|
      invariant committed + BatchesFrom(toAdd, i) == Batches(toAdd)
      decreases |toAdd| - i
    {
      var batch := toAdd[i..if i + BatchSize <= |toAdd| then i + BatchSize else |toAdd|];
      assert BatchesFrom(toAdd, i) == [batch] + BatchesFrom(toAdd, i + BatchSize);
      committed := committed + [batch];
      i := i + BatchSize;
    }
  }

  /**
   * The slices concatenate back to what remains from `from`, none is
   * empty, every one but the last has exactly 2000 records, the last at
   * most 2000, and there are ceil(remaining / 2000) of them.
   */
  lemma {:induction false} BatchesFromSpec(s: seq<ImportRecord>, from: nat)
    requires from <= |s|
    ensures Flatten(BatchesFrom(s, from)) == s[from..]
    ensures forall k :: 0 <= k < |BatchesFrom(s, from)| ==> 0 < |BatchesFrom(s, from)[k]| <= BatchSize
    ensures forall k :: 0 <= k < |BatchesFrom(s, from)| - 1 ==> |BatchesFrom(s, from)[k]| == BatchSize
    ensures |BatchesFrom(s, from)| == TotalBatches(|s| - from)
    decreases |s| - from
  {
    if from < |s| {
      if from + BatchSize <= |s| {
        BatchesFromSpec(s, from + BatchSize);
        assert s[from..] == s[from..from + BatchSize] + s[from + BatchSize..];
      } else {
        assert BatchesFrom(s, from + BatchSize) == [];
      }
    }
  }

  /** The slices committed for toAdd: the batch-loop guarantees from position 0. */
  lemma BatchesSpec(s: seq<ImportRecord>)
    ensures Flatten(Batches(s)) == s
    ensures forall k :: 0 <= k < |Batches(s)| ==> 0 < |Batches(s)[k]| <= BatchSize
    ensures forall k :: 0 <= k < |Batches(s)| - 1 ==> |Batches(s)[k]| == BatchSize
    ensures |Batches(s)| == TotalBatches(|s|)
    ensures Batches(s) == [] <==> s == []
  {
    BatchesFromSpec(s, 0);
    assert s[0..] == s;
  }

  /** 4500 accepted records are committed as slices of 2000, 2000 and 500, in that order. */
  lemma FourThousandFiveHundred(s: seq<ImportRecord>)
    requires |s| == 4500
    ensures |Batches(s)| == 3
    ensures |Batches(s)[0]| == 2000 && |Batches(s)[1]| == 2000 && |Batches(s)[2]| == 500
    ensures Batches(s)[0] == s[..2000] && Batches(s)[1] == s[2000..4000] && Batches(s)[2] == s[4000..]
  {
    assert BatchesFrom(s, 4000) == [s[4000..4500]] + BatchesFrom(s, 6000);
    assert BatchesFrom(s, 2000) == [s[2000..4000]] + BatchesFrom(s, 4000);
    assert BatchesFrom(s, 0) == [s[0..2000]] + BatchesFrom(s, 2000);
  }

  // ---------------------------------------------------------------------
  // The whole run
  // ---------------------------------------------------------------------

  /**
   * Execute with the fetched books and the store's titles as inputs:
   * snapshot, filter, then commit in batches.
   */
  method RunImport(fetched: seq<ImportRecord>, storeTitles: seq<string>, threshold: int)
    returns (toAdd: seq<ImportRecord>, skipFuzzy: nat, committed: seq<seq<ImportRecord>>)
    ensures var existing := ExistingTitles(storeTitles, IncomingTitles(fetched));
      toAdd == Accepted(existing, threshold, fetched) && skipFuzzy == SkippedCount(existing, threshold, fetched)
    ensures skipFuzzy + |toAdd| == NonBlankCount(fetched)
    ensures committed == Batches(toAdd) && Flatten(committed) == toAdd
  {
    var incomingTitles := IncomingTitles(fetched);
    var existingTitles := ExistingTitles(storeTitles, incomingTitles);
    toAdd, skipFuzzy := FilterImported(existingTitles, threshold, fetched);
    PartitionCount(existingTitles, threshold, fetched);
    committed := CommitInBatches(toAdd);
    BatchesSpec(toAdd);
  }

  /**
   * The snapshot holds only stored titles that are also incoming titles,
   * so a record is skipped only when some stored title, spelled exactly
   * as one of the fetched titles (trimmed), is within the threshold of it.
   */
  lemma SkipNeedsIncomingStoreTitle(fetched: seq<ImportRecord>, storeTitles: seq<string>, threshold: int, r: ImportRecord)
    requires Skips(ExistingTitles(storeTitles, IncomingTitles(fetched)), threshold, r)
    ensures exists t :: t in storeTitles && t in IncomingTitles(fetched) && Distance(t, Trim(r.title)) <= threshold
    ensures exists t, f :: t in storeTitles && f in fetched && t == Trim(f.title) && Distance(t, Trim(r.title)) <= threshold
  {
    var existing := ExistingTitles(storeTitles, IncomingTitles(fetched));
    ExistingTitlesSpec(storeTitles, IncomingTitles(fetched));
    IncomingTitlesSpec(fetched);
    var k :| 0 <= k < |existing| && Distance(existing[k], Trim(r.title)) <= threshold;
    var t := existing[k];
    assert t in existing;
    var f :| f in fetched && t == Trim(f.title);
  }

  // ---------------------------------------------------------------------
  // The unit test's classifier
  // ---------------------------------------------------------------------

  datatype Verdict = Exact | Fuzzy | Novel

  /**
   * The two-step check of the unit test: a case-insensitive exact match
   * first, then the fuzzy check; the job itself has only the fuzzy check.
   */
  function Classify(existing: seq<string>, title: string, threshold: int): Verdict
  {
    if ContainsIgnoreCase(existing, title) then Exact
    else if IsFuzzyDuplicate(existing, title, threshold) then Fuzzy
    else Novel
  }

  /**
   * For a non-blank title and a threshold of at least 0: whatever the
   * classifier keeps, the job keeps; an exact (ordinal) match is skipped by
   * both; and a title the job keeps but the classifier rejects differs
   * from its matching existing title in letter case only.
   */
  lemma ClassifierAgreesWithJob(existing: seq<string>, threshold: int, r: ImportRecord)
    requires threshold >= 0 && !IsBlank(Trim(r.title))
    ensures Classify(existing, Trim(r.title), threshold) == Novel ==> Keeps(existing, threshold, r)
    ensures Trim(r.title) in existing ==>
      Classify(existing, Trim(r.title), threshold) == Exact && Skips(existing, threshold, r)
    ensures Keeps(existing, threshold, r) && Classify(existing, Trim(r.title), threshold) != Novel ==>
      exists k :: 0 <= k < |existing| && EqualsIgnoreCase(existing[k], Trim(r.title)) && existing[k] != Trim(r.title)
  {
    var t := Trim(r.title);
    DistanceZeroIff(t, t);
    if t in existing {
      var k :| 0 <= k < |existing| && existing[k] == t;
      assert Distance(existing[k], t) <= threshold;
    }
    if Keeps(existing, threshold, r) && Classify(existing, t, threshold) != Novel {
      var k :| 0 <= k < |existing| && Upper(existing[k]) == Upper(t);
      assert existing[k] != t;
    }
  }

  /**
   * The unit test's scenario: against the existing title "Crime and
   * punishment" with the default threshold 2, the exact copy and the typo are skipped
   * and only "A Completely New Book" is added; the test's classifier says
   * Exact, Fuzzy and Novel for the three.
   */
  lemma TestScenario(existing: seq<string>, imported: seq<ImportRecord>)
    requires existing == ["Crime and punishment"]
    requires imported == [ImportRecord("Crime and punishment", 10.0),
                          ImportRecord("Criem and punishment", 10.0),
                          ImportRecord("A Completely New Book", 15.5)]
    ensures Accepted(existing, DefaultThreshold, imported) == [imported[2]]
    ensures SkippedCount(existing, DefaultThreshold, imported) == 2
    ensures Classify(existing, Trim(imported[0].title), DefaultThreshold) == Exact
    ensures Classify(existing, Trim(imported[1].title), DefaultThreshold) == Fuzzy
    ensures Classify(existing, Trim(imported[2].title), DefaultThreshold) == Novel
  {
    var r0, r1, r2 := imported[0], imported[1], imported[2];
    ScenarioTitles(r0.title, r1.title, r2.title);
    ScenarioVerdicts(existing, r0, r1, r2);
    FilterOfThree(existing, DefaultThreshold, r0, r1, r2);
    SkippedOfThree(existing, DefaultThreshold, r0, r1, r2);
    assert imported == [r0, r1, r2];
  }

  /** The filter on a list of three records decides each one in turn. */
  lemma FilterOfThree(existing: seq<string>, threshold: int, r0: ImportRecord, r1: ImportRecord, r2: ImportRecord)
    ensures Accepted(existing, threshold, [r0, r1, r2]) ==
      (if Keeps(existing, threshold, r0) then [r0] else [])
      + (if Keeps(existing, threshold, r1) then [r1] else [])
      + (if Keeps(existing, threshold, r2) then [r2] else [])
  {
    var k0 := if Keeps(existing, threshold, r0) then [r0] else [];
    var k1 := if Keeps(existing, threshold, r1) then [r1] else [];
    var k2 := if Keeps(existing, threshold, r2) then [r2] else [];
    AcceptedSnoc(existing, threshold, [], r0);
    assert [] + [r0] == [r0];
    assert Accepted(existing, threshold, [r0]) == k0;
    AcceptedSnoc(existing, threshold, [r0], r1);
    assert [r0] + [r1] == [r0, r1];
    assert Accepted(existing, threshold, [r0, r1]) == k0 + k1;
    AcceptedSnoc(existing, threshold, [r0, r1], r2);
    assert [r0, r1] + [r2] == [r0, r1, r2];
  }

  /** The skip count on a list of three records adds up the three decisions. */
  lemma SkippedOfThree(existing: seq<string>, threshold: int, r0: ImportRecord, r1: ImportRecord, r2: ImportRecord)
    ensures SkippedCount(existing, threshold, [r0, r1, r2]) ==
      (if Skips(existing, threshold, r0) then 1 else 0)
      + (if Skips(existing, threshold, r1) then 1 else 0)
      + (if Skips(existing, threshold, r2) then 1 else 0)
  {
    SkippedSnoc(existing, threshold, [], r0);
    assert [] + [r0] == [r0];
    SkippedSnoc(existing, threshold, [r0], r1);
    assert [r0] + [r1] == [r0, r1];
    SkippedSnoc(existing, threshold, [r0, r1], r2);
    assert [r0, r1] + [r2] == [r0, r1, r2];
  }

  /** One more record: toAdd grows by it exactly when the filter keeps it. */
  lemma AcceptedSnoc(existing: seq<string>, threshold: int, rs: seq<ImportRecord>, r: ImportRecord)
    ensures Accepted(existing, threshold, rs + [r]) ==
      Accepted(existing, threshold, rs) + if Keeps(existing, threshold, r) then [r] else []
  {
    assert (rs + [r])[..|rs|] == rs;
  }

  /** One more record: skipFuzzy grows by one exactly when the filter skips it. */
  lemma SkippedSnoc(existing: seq<string>, threshold: int, rs: seq<ImportRecord>, r: ImportRecord)
    ensures SkippedCount(existing, threshold, rs + [r]) ==
      SkippedCount(existing, threshold, rs) + if Skips(existing, threshold, r) then 1 else 0
  {
    assert (rs + [r])[..|rs|] == rs;
  }

  /**
   * The verdicts of the filter and of the classifier on three records
   * whose titles are as in the unit test: the first is the existing
   * title, the second within 2 edits of it but not equal ignoring case,
   * the third further away.
   */
  lemma ScenarioVerdicts(existing: seq<string>, r0: ImportRecord, r1: ImportRecord, r2: ImportRecord)
    requires existing == [r0.title]
    requires Trim(r0.title) == r0.title && Trim(r1.title) == r1.title && Trim(r2.title) == r2.title
    requires !IsBlank(r0.title) && !IsBlank(r1.title) && !IsBlank(r2.title)
    requires Distance(r0.title, r0.title) == 0 && Distance(r0.title, r1.title) == 2 && Distance(r0.title, r2.title) > 2
    requires !ContainsIgnoreCase(existing, r1.title) && !ContainsIgnoreCase(existing, r2.title)
    ensures Skips(existing, 2, r0) && Skips(existing, 2, r1) && Keeps(existing, 2, r2)
    ensures Classify(existing, Trim(r0.title), 2) == Exact
    ensures Classify(existing, Trim(r1.title), 2) == Fuzzy
    ensures Classify(existing, Trim(r2.title), 2) == Novel
  {
    assert existing[0] == r0.title;
    assert ContainsIgnoreCase(existing, r0.title) by {
      assert Upper(existing[0]) == Upper(r0.title);
    }
  }

  /** The facts about the three titles of the unit test that its verdicts rest on. */
  lemma ScenarioTitles(e: string, t1: string, t2: string)
    requires e == "Crime and punishment" && t1 == "Criem and punishment" && t2 == "A Completely New Book"
    ensures Trim(e) == e && Trim(t1) == t1 && Trim(t2) == t2
    ensures !IsBlank(e) && !IsBlank(t1) && !IsBlank(t2)
    ensures Distance(e, e) == 0 && Distance(e, t1) == 2 && Distance(e, t2) > 2
    ensures !ContainsIgnoreCase([e], t1) && !ContainsIgnoreCase([e], t2)
  {
    TrimOfTrimmed(e);
    TrimOfTrimmed(t1);
    TrimOfTrimmed(t2);
    assert !IsBlank(e) && !IsBlank(t1) && !IsBlank(t2) by {
      assert !IsWhiteSpace(e[0]) && !IsWhiteSpace(t1[0]) && !IsWhiteSpace(t2[0]);
    }
    assert Distance(e, e) == 0 by { DistanceZeroIff(e, e); }
    assert Distance(e, t1) == 2 by { CrimeAndPunishmentTypo(); }
    assert Distance(e, t2) > 2 by { NewBookIsFar(); }
    assert !ContainsIgnoreCase([e], t1) by {
      assert Upper(e)[3] != Upper(t1)[3];
    }
    assert !ContainsIgnoreCase([e], t2) by {
      assert |Upper(e)| != |Upper(t2)|;
    }
  }

  /** The test's new title is more than 2 edits from "Crime and punishment". */
  lemma NewBookIsFar()
    ensures Distance("Crime and punishment", "A Completely New Book") > 2
  {
    var a, b := "Crime and punishment", "A Completely New Book";
    // "and punishment" has three n's, "A Completely New Book" none
    var cs := {'n'};
    DistCountBound(cs, a, b, |a|, |b|);
    assert a[..|a|] == a && b[..|b|] == b;
    CountInAtLeast(cs, a, {7, 12, 18});
    CountInNone(cs, b);
  }
}
