/**
 Snapshot diff (`detectChanges`): the change map is keyed by the fresh
 snapshot's providers, each compared against its baseline list.
 */
module ChangeDetection {
  import opened Records
  import opened ListCompare

  /** The change map, defined when every fresh provider has a baseline list. */
  function ChangeMap(baseline: Snapshot, latest: Snapshot): (r: Snapshot)
    requires latest.Keys <= baseline.Keys
  {
    map p | p in latest :: Compare(baseline[p], latest[p])
  }

  /** What `detectChanges` yields: the change map, or a null dereference for a provider with no baseline list. */
  function Detect(baseline: Snapshot, latest: Snapshot): Outcome<Snapshot>
  {
    if latest.Keys <= baseline.Keys then Ok(ChangeMap(baseline, latest)) else NullPointer
  }

  /**
   The source's loop over the fresh providers. Providers are taken in an
   unspecified order, as a hash map yields them; the outcome does not depend
   on it.
   */
  method DetectChanges(baseline: Snapshot, latest: Snapshot) returns (r: Outcome<Snapshot>)
    ensures r == Detect(baseline, latest)
  {
    var changeMap: Snapshot := map[];
    var todo := latest.Keys;
    while todo != {}
      invariant todo <= latest.Keys
      invariant changeMap.Keys == latest.Keys - todo
      invariant forall p :: p in changeMap ==> p in baseline && changeMap[p] == Compare(baseline[p], latest[p])
      decreases todo
    {
      var provider :| provider in todo;
      if provider !in baseline {
        assert provider in latest.Keys - baseline.Keys;
        return NullPointer;
      }
      var changes, _ := CompareMetaDataLists(baseline[provider], latest[provider]);
      changeMap := changeMap[provider := changes];
      todo := todo - {provider};
    }
    assert latest.Keys <= baseline.Keys;
    assert changeMap == ChangeMap(baseline, latest);
    r := Ok(changeMap);
  }

  /**
   The diff fails exactly when a fresh provider has no baseline list; otherwise
   its providers are exactly the fresh snapshot's, so baseline-only providers
   never appear, and each entry draws its records from the fresh list.
   */
  lemma DetectKeysAndEntries(baseline: Snapshot, latest: Snapshot)
    ensures Detect(baseline, latest).NullPointer? <==> exists p :: p in latest && p !in baseline
    ensures Detect(baseline, latest).Ok? ==> Detect(baseline, latest).value.Keys == latest.Keys
    ensures Detect(baseline, latest).Ok? ==>
      forall p :: p in latest ==>
        multiset(Detect(baseline, latest).value[p]) <= multiset(latest[p])
  {
    if latest.Keys <= baseline.Keys {
      var m := ChangeMap(baseline, latest);
      forall p | p in latest ensures multiset(m[p]) <= multiset(latest[p]) {
        CompareIsSubMultiset(baseline[p], latest[p]);
      }
    }
  }

  /** Diffing a snapshot against itself reports no change for any provider. */
  lemma DetectSelfIsEmpty(s: Snapshot)
    ensures Detect(s, s) == Ok(map p | p in s :: [])
  {
    forall p | p in s ensures Compare(s[p], s[p]) == [] {
      SelfCompareIsEmpty(s[p]);
    }
    assert ChangeMap(s, s) == map p | p in s :: [];
  }
}
