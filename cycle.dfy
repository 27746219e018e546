/**
 The bootstrap switch (`checkChanges`) and one detection cycle
 (`checkForChanges`): both channel roots are diffed against the same loaded
 baseline, the PMH changes are deep-merged into the RS changes, and the merged
 map is what gets saved and returned. Loading and saving are an input and an
 output of the cycle.
 */
module DetectionCycle {
  import opened Records
  import opened ChangeDetection
  import opened SnapshotMerge
  import opened SnapshotBuilder

  /**
   The changes of one channel: with no saved baseline, or an empty one, the
   fresh snapshot itself; otherwise its diff against the baseline.
   */
  function ChangesFor(saved: Option<Snapshot>, latest: Snapshot): Outcome<Snapshot>
  {
    if saved.Some? && saved.value != map[] then Detect(saved.value, latest) else Ok(latest)
  }

  method CheckChanges(root: Option<FsNode>, saved: Option<Snapshot>) returns (r: Outcome<Snapshot>)
    ensures r == ChangesFor(saved, BuildSnapshot(root))
  {
    if saved.Some? && saved.value != map[] {
      var latest := InitiateFileStatus(root);
      r := DetectChanges(saved.value, latest);
    } else {
      var latest := InitiateFileStatus(root);
      r := Ok(latest);
    }
  }

  /** The cycle's result: the PMH changes merged into the RS changes, or the first null dereference. */
  function CycleResult(saved: Option<Snapshot>, rsLatest: Snapshot, pmhLatest: Snapshot): Outcome<Snapshot>
  {
    match (ChangesFor(saved, rsLatest), ChangesFor(saved, pmhLatest))
    case (Ok(rs), Ok(pmh)) => Ok(Lower(Merge(Lift(rs), Lift(pmh))))
    case _ => NullPointer
  }

  /**
   One cycle. `saved` is what the persistence layer loads; `persisted` is what
   the cycle hands back to it to save, nothing when the cycle dies first.
   */
  method CheckForChanges(saved: Option<Snapshot>, rsRoot: Option<FsNode>, pmhRoot: Option<FsNode>)
    returns (r: Outcome<Snapshot>, persisted: Option<Snapshot>)
    ensures r == CycleResult(saved, BuildSnapshot(rsRoot), BuildSnapshot(pmhRoot))
    ensures r.Ok? ==> persisted == Some(r.value)
    ensures r.NullPointer? ==> persisted.None?
  {
    var rsChanges := CheckChanges(rsRoot, saved);
    if rsChanges.NullPointer? {
      return NullPointer, None;
    }
    var pmhChanges := CheckChanges(pmhRoot, saved);
    if pmhChanges.NullPointer? {
      return NullPointer, None;
    }
    var merged := DeepMerge(Lift(rsChanges.value), Lift(pmhChanges.value));
    MergeOfSnapshots(rsChanges.value, pmhChanges.value);
    var changes := Lower(merged);
    persisted := Some(changes);
    r := Ok(changes);
  }

  /** With no baseline, or an empty one, a channel's changes are its fresh snapshot unchanged. */
  lemma Bootstrap(saved: Option<Snapshot>, latest: Snapshot)
    requires saved.None? || saved.value == map[]
    ensures ChangesFor(saved, latest) == Ok(latest)
  {
  }

  /**
   With a non-empty baseline, a channel dies exactly when one of its fresh
   providers has no baseline list, and otherwise reports on exactly its fresh
   providers.
   */
  lemma ChangesForKeys(saved: Snapshot, latest: Snapshot)
    requires saved != map[]
    ensures ChangesFor(Some(saved), latest).NullPointer? <==> exists p :: p in latest && p !in saved
    ensures ChangesFor(Some(saved), latest).Ok? ==> ChangesFor(Some(saved), latest).value.Keys == latest.Keys
  {
    DetectKeysAndEntries(saved, latest);
  }

  /**
   The cycle result is the RS changes overridden by the PMH changes: for a
   provider the PMH channel reports on, its list even when empty; for any other
   provider, the RS list.
   */
  lemma CyclePmhOverridesRs(saved: Option<Snapshot>, rsLatest: Snapshot, pmhLatest: Snapshot)
    requires CycleResult(saved, rsLatest, pmhLatest).Ok?
    ensures var rs, pmh, r :=
        ChangesFor(saved, rsLatest).value, ChangesFor(saved, pmhLatest).value,
        CycleResult(saved, rsLatest, pmhLatest).value;
      && r.Keys == rs.Keys + pmh.Keys
      && (forall p :: p in pmh ==> r[p] == pmh[p])
      && (forall p :: p in rs && p !in pmh ==> r[p] == rs[p])
  {
    MergeOfSnapshots(ChangesFor(saved, rsLatest).value, ChangesFor(saved, pmhLatest).value);
  }

  /**
   A successful cycle covers exactly the providers of the two fresh snapshots:
   a provider known only to the baseline is dropped from what is saved.
   */
  lemma CycleKeys(saved: Option<Snapshot>, rsLatest: Snapshot, pmhLatest: Snapshot)
    requires CycleResult(saved, rsLatest, pmhLatest).Ok?
    ensures CycleResult(saved, rsLatest, pmhLatest).value.Keys == rsLatest.Keys + pmhLatest.Keys
  {
    CyclePmhOverridesRs(saved, rsLatest, pmhLatest);
    if saved.Some? && saved.value != map[] {
      ChangesForKeys(saved.value, rsLatest);
      ChangesForKeys(saved.value, pmhLatest);
    }
  }

  /**
   Two channels, no baseline, provider `acme` with one new file in each: the
   cycle reports only the PMH file, since the PMH list replaces the RS list.
   */
  lemma EndToEndAsWritten()
    ensures var a := FileRecord("a.xml", "/rs/acme/a.xml", 1, 10);
      var b := FileRecord("b.xml", "/pmh/acme/b.xml", 2, 20);
      CycleResult(None, map["acme" := [a]], map["acme" := [b]]) == Ok(map["acme" := [b]])
  {
    var a := FileRecord("a.xml", "/rs/acme/a.xml", 1, 10);
    var b := FileRecord("b.xml", "/pmh/acme/b.xml", 2, 20);
    MergeOfSnapshots(map["acme" := [a]], map["acme" := [b]]);
    assert map["acme" := [a]] + map["acme" := [b]] == map["acme" := [b]];
  }

  /** One provider known to the baseline: its channel's changes are the comparison of its two lists. */
  lemma SingleProviderChanges(p: string, baseline: seq<FileRecord>, latest: seq<FileRecord>)
    ensures ChangesFor(Some(map[p := baseline]), map[p := latest])
      == Ok(map[p := ListCompare.Compare(baseline, latest)])
  {
    var saved, current := map[p := baseline], map[p := latest];
    assert saved != map[] by { assert p in saved; }
    assert ChangeMap(saved, current) == map[p := ListCompare.Compare(baseline, latest)];
  }

  /** A record whose name the baseline list lacks is reported as it is. */
  lemma NewNameReported(a: FileRecord, b: FileRecord)
    requires a.fileName != b.fileName
    ensures ListCompare.Compare([b], [a]) == [a]
  {
    assert FindByName([a], b.fileName) == 1;
    assert [b][1..] == [];
    assert ListCompare.Consume(b, [a]) == [a] && ListCompare.Reported(b, [a]) == [];
    assert ListCompare.Anomalies([b], [a]) == [] + ListCompare.Anomalies([], [a]);
    assert ListCompare.Leftovers([b], [a]) == ListCompare.Leftovers([], [a]);
  }

  /**
   A file added on the RS channel for a provider that the PMH channel also
   serves is neither reported nor saved: the PMH channel's empty change list
   replaces it.
   */
  lemma RsAdditionLost()
    ensures var a := FileRecord("a.xml", "/rs/acme/a.xml", 5, 10);
      var b := FileRecord("b.xml", "/pmh/acme/b.xml", 3, 20);
      CycleResult(Some(map["acme" := [b]]), map["acme" := [a]], map["acme" := [b]]) == Ok(map["acme" := []])
  {
    var a := FileRecord("a.xml", "/rs/acme/a.xml", 5, 10);
    var b := FileRecord("b.xml", "/pmh/acme/b.xml", 3, 20);
    var saved := Some(map["acme" := [b]]);
    assert ChangesFor(saved, map["acme" := [a]]) == Ok(map["acme" := [a]]) by {
      NewNameReported(a, b);
      SingleProviderChanges("acme", [b], [a]);
    }
    assert ChangesFor(saved, map["acme" := [b]]) == Ok(map["acme" := []]) by {
      ListCompare.SelfCompareIsEmpty([b]);
      SingleProviderChanges("acme", [b], [b]);
    }
    assert map["acme" := [a]] + map["acme" := []] == map["acme" := []];
    MergeOfSnapshots(map["acme" := [a]], map["acme" := []]);
  }

  /** Both channels' changes for each provider, RS first, instead of one replacing the other. */
  function JoinChanges(rs: Snapshot, pmh: Snapshot): Snapshot
  {
    map p | p in rs.Keys + pmh.Keys ::
      (if p in rs then rs[p] else []) + (if p in pmh then pmh[p] else [])
  }

  /** The cycle with the two change maps joined rather than overridden. */
  function CycleResultJoined(saved: Option<Snapshot>, rsLatest: Snapshot, pmhLatest: Snapshot): Outcome<Snapshot>
  {
    match (ChangesFor(saved, rsLatest), ChangesFor(saved, pmhLatest))
    case (Ok(rs), Ok(pmh)) => Ok(JoinChanges(rs, pmh))
    case _ => NullPointer
  }

  /**
   The joined cycle loses no change: every record either channel reports for a
   provider is in the saved result for that provider, and nothing else is.
   */
  lemma JoinedKeepsEveryChange(saved: Option<Snapshot>, rsLatest: Snapshot, pmhLatest: Snapshot)
    requires CycleResultJoined(saved, rsLatest, pmhLatest).Ok?
    ensures var rs, pmh, r :=
        ChangesFor(saved, rsLatest).value, ChangesFor(saved, pmhLatest).value,
        CycleResultJoined(saved, rsLatest, pmhLatest).value;
      && r.Keys == rs.Keys + pmh.Keys
      && forall p :: p in r ==>
        multiset(r[p]) == (if p in rs then multiset(rs[p]) else multiset{})
                        + (if p in pmh then multiset(pmh[p]) else multiset{})
  {
  }

  /** In the two-channel bootstrap scenario the joined cycle reports both new files. */
  lemma EndToEndJoined()
    ensures var a := FileRecord("a.xml", "/rs/acme/a.xml", 1, 10);
      var b := FileRecord("b.xml", "/pmh/acme/b.xml", 2, 20);
      CycleResultJoined(None, map["acme" := [a]], map["acme" := [b]]) == Ok(map["acme" := [a, b]])
  {
    var a := FileRecord("a.xml", "/rs/acme/a.xml", 1, 10);
    var b := FileRecord("b.xml", "/pmh/acme/b.xml", 2, 20);
    var j := JoinChanges(map["acme" := [a]], map["acme" := [b]]);
    assert j.Keys == {"acme"};
    assert j["acme"] == [a] + [b] == [a, b];
    assert j == map["acme" := [a, b]];
  }
}
