/**
 Per-provider list comparison (`compareMetaDataLists`): every baseline record
 consumes the first fresh record with the same file name; the consumed record
 is reported only when the baseline timestamp is strictly greater; every fresh
 record left unconsumed is reported as an addition.
 */
module ListCompare {
  import opened Records

  /** The fresh list after baseline record `b` has consumed its first namesake, if any. */
  function Consume(b: FileRecord, latest: seq<FileRecord>): seq<FileRecord>
  {
    var k := FindByName(latest, b.fileName);
    if k == |latest| then latest else RemoveAt(latest, k)
  }

  /** The fresh record `b` consumes, as a list of zero or one element. */
  function Matched(b: FileRecord, latest: seq<FileRecord>): seq<FileRecord>
  {
    var k := FindByName(latest, b.fileName);
    if k == |latest| then [] else [latest[k]]
  }

  /** The consumed record when the baseline timestamp is strictly greater than the fresh one. */
  function Reported(b: FileRecord, latest: seq<FileRecord>): seq<FileRecord>
  {
    var k := FindByName(latest, b.fileName);
    if k < |latest| && b.lastModified > latest[k].lastModified then [latest[k]] else []
  }

  /** The timestamp-anomaly reports, in baseline order. */
  function Anomalies(base: seq<FileRecord>, latest: seq<FileRecord>): seq<FileRecord>
    decreases |base|
  {
    if base == [] then []
    else Reported(base[0], latest) + Anomalies(base[1..], Consume(base[0], latest))
  }

  /** Every fresh record consumed by some baseline record, in baseline order. */
  function ConsumedRecords(base: seq<FileRecord>, latest: seq<FileRecord>): seq<FileRecord>
    decreases |base|
  {
    if base == [] then []
    else Matched(base[0], latest) + ConsumedRecords(base[1..], Consume(base[0], latest))
  }

  /** What is left of the fresh list once every baseline record has consumed its match. */
  function Leftovers(base: seq<FileRecord>, latest: seq<FileRecord>): seq<FileRecord>
    decreases |base|
  {
    if base == [] then latest
    else Leftovers(base[1..], Consume(base[0], latest))
  }

  /** The change list of one provider: anomalies first, then every unconsumed fresh record. */
  function Compare(base: seq<FileRecord>, latest: seq<FileRecord>): seq<FileRecord>
  {
    Anomalies(base, latest) + Leftovers(base, latest)
  }

  /**
   The source's nested loop. `remaining` is what the fresh list holds once the
   comparison has removed the consumed records from it.
   */
  method CompareMetaDataLists(base: seq<FileRecord>, latest: seq<FileRecord>)
    returns (changes: seq<FileRecord>, remaining: seq<FileRecord>)
    ensures changes == Compare(base, latest)
    ensures remaining == Leftovers(base, latest)
  {
    changes := [];
    remaining := latest;
    LoopEntry(base, latest);
    for i := 0 to |base|
      invariant changes + Anomalies(base[i..], remaining) == Anomalies(base, latest)
      invariant Leftovers(base[i..], remaining) == Leftovers(base, latest)
    {
      var rest, reported := ConsumeFirstMatch(base[i], remaining);
      OuterStep(base, i, remaining, changes, latest);
      changes, remaining := changes + reported, rest;
    }
    LoopExit(base, latest, changes, remaining);
    changes := changes + remaining;
  }

  /** The outer loop's invariant holds on entry. */
  lemma LoopEntry(base: seq<FileRecord>, latest: seq<FileRecord>)
    ensures [] + Anomalies(base[0..], latest) == Anomalies(base, latest)
    ensures Leftovers(base[0..], latest) == Leftovers(base, latest)
  {
    assert base[0..] == base;
  }

  /** On exit, the outer loop's invariant gives the specification. */
  lemma LoopExit(base: seq<FileRecord>, latest: seq<FileRecord>, changes: seq<FileRecord>, remaining: seq<FileRecord>)
    requires changes + Anomalies(base[|base|..], remaining) == Anomalies(base, latest)
    requires Leftovers(base[|base|..], remaining) == Leftovers(base, latest)
    ensures changes + remaining == Compare(base, latest) && remaining == Leftovers(base, latest)
  {
    var empty := base[|base|..];
    assert empty == [];
    assert Anomalies(empty, remaining) == [] && Leftovers(empty, remaining) == remaining;
    assert changes + [] == changes;
  }

  /**
   The inner loop of the comparison: the first fresh record named like `model`
   is removed from the list, and reported when `model`'s timestamp is strictly
   greater; with no such record the list is returned as it is.
   */
  method ConsumeFirstMatch(model: FileRecord, latest: seq<FileRecord>)
    returns (remaining: seq<FileRecord>, reported: seq<FileRecord>)
    ensures remaining == Consume(model, latest)
    ensures reported == Reported(model, latest)
  {
    remaining, reported := latest, [];
    var j := 0;
    while j < |remaining|
      invariant j <= |remaining| && remaining == latest && reported == []
      invariant forall m :: 0 <= m < j ==> remaining[m].fileName != model.fileName
    {
      if model.fileName == remaining[j].fileName {
        if model.lastModified > remaining[j].lastModified {
          reported := reported + [remaining[j]];
        }
        remaining := RemoveAt(remaining, j);
        break;
      }
      j := j + 1;
    }
    FindByNameIs(latest, model.fileName, j);
  }

  /** One step of the outer loop: baseline record `i` acts on what remains. */
  lemma OuterStep(base: seq<FileRecord>, i: nat, remaining: seq<FileRecord>, changes: seq<FileRecord>,
                  latest: seq<FileRecord>)
    requires i < |base|
    requires changes + Anomalies(base[i..], remaining) == Anomalies(base, latest)
    requires Leftovers(base[i..], remaining) == Leftovers(base, latest)
    ensures (changes + Reported(base[i], remaining)) + Anomalies(base[i + 1..], Consume(base[i], remaining))
      == Anomalies(base, latest)
    ensures Leftovers(base[i + 1..], Consume(base[i], remaining)) == Leftovers(base, latest)
  {
    var rest, next := base[i..], Consume(base[i], remaining);
    assert rest[0] == base[i] && rest[1..] == base[i + 1..];
    var r, a := Reported(base[i], remaining), Anomalies(base[i + 1..], next);
    assert Anomalies(rest, remaining) == r + a;
    AppendAssoc(changes, r, a);
  }

  /** The first index named `name` is `j` when `j` holds it and no earlier index does. */
  lemma {:induction false} FindByNameIs(s: seq<FileRecord>, name: string, j: nat)
    requires j <= |s| && (j < |s| ==> s[j].fileName == name)
    requires forall m :: 0 <= m < j ==> s[m].fileName != name
    ensures FindByName(s, name) == j
    decreases j
  {
    if j > 0 {
      FindByNameIs(s[1..], name, j - 1);
    }
  }

  /** The consumed records and the leftovers together are exactly the fresh list, as a multiset. */
  lemma {:induction false} ConsumedAndLeftoversPartitionFresh(base: seq<FileRecord>, latest: seq<FileRecord>)
    ensures multiset(ConsumedRecords(base, latest)) + multiset(Leftovers(base, latest)) == multiset(latest)
    ensures multiset(Anomalies(base, latest)) <= multiset(ConsumedRecords(base, latest))
    decreases |base|
  {
    if base != [] {
      var k := FindByName(latest, base[0].fileName);
      if k < |latest| {
        RemoveAtMultiset(latest, k);
      }
      ConsumedAndLeftoversPartitionFresh(base[1..], Consume(base[0], latest));
    }
  }

  /** The change list draws each of its records from the fresh list and is never longer than it. */
  lemma CompareIsSubMultiset(base: seq<FileRecord>, latest: seq<FileRecord>)
    ensures multiset(Compare(base, latest)) <= multiset(latest)
    ensures |Compare(base, latest)| <= |latest|
  {
    ConsumedAndLeftoversPartitionFresh(base, latest);
    var c := Compare(base, latest);
    assert multiset(c) <= multiset(latest);
    assert |multiset(c)| <= |multiset(latest)| by {
      var d := multiset(latest) - multiset(c);
      assert multiset(latest) == multiset(c) + d;
    }
  }

  /** Unconsumed records are reported in the order the fresh list had them. */
  lemma {:induction false} LeftoversKeepFreshOrder(base: seq<FileRecord>, latest: seq<FileRecord>)
    ensures IsSubsequence(Leftovers(base, latest), latest)
    decreases |base|
  {
    if base == [] {
      SubsequenceRefl(latest);
    } else {
      var rest := Consume(base[0], latest);
      LeftoversKeepFreshOrder(base[1..], rest);
      if FindByName(latest, base[0].fileName) < |latest| {
        RemoveAtSubsequence(latest, FindByName(latest, base[0].fileName));
        SubsequenceTrans(Leftovers(base[1..], rest), rest, latest);
      }
    }
  }

  /** Each anomaly report has a baseline namesake with a strictly greater timestamp. */
  lemma {:induction false} AnomalyHasNewerBaseline(base: seq<FileRecord>, latest: seq<FileRecord>, r: FileRecord)
    requires r in Anomalies(base, latest)
    ensures exists b :: b in base && b.fileName == r.fileName && b.lastModified > r.lastModified
    decreases |base|
  {
    if r in Reported(base[0], latest) {
      assert base[0] in base;
    } else {
      AnomalyHasNewerBaseline(base[1..], Consume(base[0], latest), r);
      var b :| b in base[1..] && b.fileName == r.fileName && b.lastModified > r.lastModified;
      assert b in base;
    }
  }

  /** A fresh record whose name no baseline record carries is reported, every copy of it. */
  lemma {:induction false} UnmatchedNameIsReported(base: seq<FileRecord>, latest: seq<FileRecord>, r: FileRecord)
    requires forall b :: b in base ==> b.fileName != r.fileName
    ensures multiset(Leftovers(base, latest))[r] == multiset(latest)[r]
    ensures multiset(Compare(base, latest))[r] >= multiset(latest)[r]
    decreases |base|
  {
    if base != [] {
      assert base[0] in base;
      var k := FindByName(latest, base[0].fileName);
      if k < |latest| {
        assert latest[k] != r;
        RemoveAtMultiset(latest, k);
      }
      forall b | b in base[1..] ensures b.fileName != r.fileName {
        assert b in base;
      }
      UnmatchedNameIsReported(base[1..], Consume(base[0], latest), r);
    }
  }

  /** A fresh record consumed by the head of the baseline is reported exactly on a strictly greater baseline timestamp. */
  lemma ConsumedByHead(base: seq<FileRecord>, latest: seq<FileRecord>, f: FileRecord)
    requires DistinctNames(latest) && f in latest
    requires base != [] && base[0].fileName == f.fileName
    ensures f in Compare(base, latest) <==> base[0].lastModified > f.lastModified
  {
    var b := base[0];
    var k := FindByName(latest, b.fileName);
    var rest := Consume(b, latest);
    var i :| 0 <= i < |latest| && latest[i] == f;
    CompareStep(base, latest);
    assert i == k;
    RemoveAtKeepsDistinct(latest, k);
    assert f !in rest;
    CompareIsSubMultiset(base[1..], rest);
    assert multiset(rest)[f] == 0;
    assert f !in Compare(base[1..], rest) by {
      assert multiset(Compare(base[1..], rest))[f] == 0;
    }
  }

  /** The comparison after its first baseline record: that record's report, then the rest on what it left. */
  lemma CompareStep(base: seq<FileRecord>, latest: seq<FileRecord>)
    requires base != []
    ensures Compare(base, latest)
      == Reported(base[0], latest) + Compare(base[1..], Consume(base[0], latest))
  {
    var r, rest := Reported(base[0], latest), Consume(base[0], latest);
    AppendAssoc(r, Anomalies(base[1..], rest), Leftovers(base[1..], rest));
  }

  /** Consuming a record of another name keeps `f` and keeps the names distinct. */
  lemma ConsumeKeepsOthers(b: FileRecord, latest: seq<FileRecord>, f: FileRecord)
    requires DistinctNames(latest) && f in latest && b.fileName != f.fileName
    ensures DistinctNames(Consume(b, latest)) && f in Consume(b, latest)
  {
    var k := FindByName(latest, b.fileName);
    if k < |latest| {
      var i :| 0 <= i < |latest| && latest[i] == f;
      RemoveAtKeepsDistinct(latest, k);
      var i' := if i < k then i else i - 1;
      assert Consume(b, latest)[i'] == f;
    }
  }

  /** A fresh record whose name differs from the head of the baseline survives its step unreported. */
  lemma PassesHead(base: seq<FileRecord>, latest: seq<FileRecord>, f: FileRecord)
    requires DistinctNames(latest) && f in latest
    requires base != [] && base[0].fileName != f.fileName
    ensures var rest := Consume(base[0], latest);
      && DistinctNames(rest) && f in rest
      && (f in Compare(base, latest) <==> f in Compare(base[1..], rest))
  {
    ConsumeKeepsOthers(base[0], latest, f);
    CompareStep(base, latest);
    assert f !in Reported(base[0], latest);
  }

  /**
   The timestamp rule, when the fresh list has distinct names: a fresh record
   is reported exactly when no baseline record carries its name, or the first
   baseline record that does has a strictly greater timestamp.
   */
  lemma {:induction false} ReportedIff(base: seq<FileRecord>, latest: seq<FileRecord>, f: FileRecord)
    requires DistinctNames(latest) && f in latest
    ensures var i := FindByName(base, f.fileName);
      f in Compare(base, latest) <==> i == |base| || base[i].lastModified > f.lastModified
    decreases |base|
  {
    if base != [] {
      if base[0].fileName == f.fileName {
        ConsumedByHead(base, latest, f);
      } else {
        PassesHead(base, latest, f);
        ReportedIff(base[1..], Consume(base[0], latest), f);
        assert FindByName(base, f.fileName) == 1 + FindByName(base[1..], f.fileName);
      }
    }
  }

  /** The records of `s` named `n`, in their order in `s`. */
  function Named(s: seq<FileRecord>, n: string): seq<FileRecord>
    decreases |s|
  {
    if s == [] then []
    else (if s[0].fileName == n then [s[0]] else []) + Named(s[1..], n)
  }

  lemma {:induction false} NamedAppend(a: seq<FileRecord>, b: seq<FileRecord>, n: string)
    ensures Named(a + b, n) == Named(a, n) + Named(b, n)
    decreases |a|
  {
    if a != [] {
      assert (a + b)[0] == a[0] && (a + b)[1..] == a[1..] + b;
      NamedAppend(a[1..], b, n);
      AppendAssoc(if a[0].fileName == n then [a[0]] else [], Named(a[1..], n), Named(b, n));
    } else {
      assert a + b == b;
    }
  }

  lemma {:induction false} NamedNone(s: seq<FileRecord>, n: string)
    requires forall j :: 0 <= j < |s| ==> s[j].fileName != n
    ensures Named(s, n) == []
    decreases |s|
  {
    if s != [] {
      NamedNone(s[1..], n);
    }
  }

  /** The records named `n` around index `k`, with and without the record at `k`. */
  lemma NamedAround(s: seq<FileRecord>, k: nat, n: string)
    requires k < |s|
    ensures Named(RemoveAt(s, k), n) == Named(s[..k], n) + Named(s[k + 1..], n)
    ensures Named(s, n) == Named(s[..k], n) + (Named([s[k]], n) + Named(s[k + 1..], n))
    ensures Named([s[k]], n) == if s[k].fileName == n then [s[k]] else []
  {
    assert RemoveAt(s, k) == s[..k] + s[k + 1..];
    NamedAppend(s[..k], s[k + 1..], n);
    assert s == s[..k] + ([s[k]] + s[k + 1..]);
    NamedAppend(s[..k], [s[k]] + s[k + 1..], n);
    NamedAppend([s[k]], s[k + 1..], n);
    assert [s[k]][1..] == [];
  }

  /**
   The positional pairing of the baseline records `bs` and the fresh records
   `fs` of one name: the `k`-th fresh record is paired with the `k`-th
   baseline record and reported when that record's timestamp is strictly
   greater, or when the baseline has no `k`-th record at all.
   */
  function Positional(bs: seq<FileRecord>, fs: seq<FileRecord>): seq<FileRecord>
    decreases |fs|
  {
    if fs == [] then []
    else if bs == [] then fs
    else (if bs[0].lastModified > fs[0].lastModified then [fs[0]] else []) + Positional(bs[1..], fs[1..])
  }

  /** What the `k`-th fresh record contributes to the positional pairing. */
  function PairedReport(bs: seq<FileRecord>, fs: seq<FileRecord>, k: nat): seq<FileRecord>
    requires k < |fs|
  {
    if k >= |bs| || bs[k].lastModified > fs[k].lastModified then [fs[k]] else []
  }

  /** The baseline records after the first `j`, none when there are fewer. */
  function DropFirst(bs: seq<FileRecord>, j: nat): seq<FileRecord>
  {
    if j <= |bs| then bs[j..] else []
  }

  /**
   The pairing position by position: the `k`-th fresh record appears, right
   after what the earlier ones contribute, exactly when the baseline has no
   `k`-th record or that record's timestamp is strictly greater.
   */
  lemma {:induction false} PositionalAt(bs: seq<FileRecord>, fs: seq<FileRecord>, k: nat)
    requires k < |fs|
    ensures Positional(bs, fs)
      == Positional(bs, fs[..k]) + (PairedReport(bs, fs, k) + Positional(DropFirst(bs, k + 1), fs[k + 1..]))
    decreases k
  {
    if bs == [] {
      assert fs == fs[..k] + ([fs[k]] + fs[k + 1..]);
      assert Positional(bs, fs[..k]) == fs[..k];
    } else if k == 0 {
      assert fs[..0] == [] && fs[1..] == fs[k + 1..];
    } else {
      var t := fs[1..];
      PositionalAt(bs[1..], t, k - 1);
      assert fs[..k][0] == fs[0] && fs[..k][1..] == t[..k - 1];
      assert t[k - 1 + 1..] == fs[k + 1..];
      assert DropFirst(bs[1..], k) == DropFirst(bs, k + 1);
      assert PairedReport(bs[1..], t, k - 1) == PairedReport(bs, fs, k);
      var h := if bs[0].lastModified > fs[0].lastModified then [fs[0]] else [];
      AppendAssoc(h, Positional(bs[1..], t[..k - 1]),
                  PairedReport(bs, fs, k) + Positional(DropFirst(bs, k + 1), fs[k + 1..]));
    }
  }

  /** A baseline record of another name reports nothing named `n` and leaves the records named `n` alone. */
  lemma NamedStepOther(b: FileRecord, latest: seq<FileRecord>, n: string)
    requires b.fileName != n
    ensures Named(Reported(b, latest), n) == []
    ensures Named(Consume(b, latest), n) == Named(latest, n)
  {
    var k := FindByName(latest, b.fileName);
    if k < |latest| {
      NamedAround(latest, k, n);
      assert Named([latest[k]], n) == [];
      assert Reported(b, latest) == [] || Reported(b, latest) == [latest[k]];
      assert [latest[k]][1..] == [];
    }
  }

  /**
   A baseline record named `n` consumes the first fresh record named `n`,
   reporting it when older, and leaves the later ones.
   */
  lemma NamedStepSame(b: FileRecord, latest: seq<FileRecord>, n: string)
    requires b.fileName == n && Named(latest, n) != []
    ensures var fs := Named(latest, n);
      && Named(Consume(b, latest), n) == fs[1..]
      && Named(Reported(b, latest), n) == if b.lastModified > fs[0].lastModified then [fs[0]] else []
  {
    var k := FindByName(latest, n);
    if k == |latest| {
      NamedNone(latest, n);
    }
    NamedAround(latest, k, n);
    NamedNone(latest[..k], n);
    assert Named(latest, n) == [latest[k]] + Named(latest[k + 1..], n);
    assert Reported(b, latest) == [] || Reported(b, latest) == [latest[k]];
    assert [latest[k]][1..] == [];
  }

  /** With no fresh record named `n`, a baseline record named `n` consumes and reports nothing. */
  lemma NamedStepAbsent(b: FileRecord, latest: seq<FileRecord>, n: string)
    requires b.fileName == n && Named(latest, n) == []
    ensures Consume(b, latest) == latest && Reported(b, latest) == []
  {
    var k := FindByName(latest, n);
    if k < |latest| {
      NamedAround(latest, k, n);
    }
  }

  /** The records named `n` in the comparison after its first baseline record. */
  lemma NamedCompareStep(base: seq<FileRecord>, latest: seq<FileRecord>, n: string)
    requires base != []
    ensures Named(Compare(base, latest), n)
      == Named(Reported(base[0], latest), n) + Named(Compare(base[1..], Consume(base[0], latest)), n)
    ensures Named(base, n) == (if base[0].fileName == n then [base[0]] else []) + Named(base[1..], n)
  {
    CompareStep(base, latest);
    NamedAppend(Reported(base[0], latest), Compare(base[1..], Consume(base[0], latest)), n);
  }

  /**
   The comparison per file name, with no assumption on repeated names: of the
   records named `n`, the change list holds exactly the positional pairing of
   the baseline's against the fresh list's, in fresh-list order.
   */
  lemma {:induction false} PositionalRule(base: seq<FileRecord>, latest: seq<FileRecord>, n: string)
    ensures Named(Compare(base, latest), n) == Positional(Named(base, n), Named(latest, n))
    decreases |base|
  {
    if base == [] {
      assert Compare(base, latest) == latest;
      if Named(latest, n) != [] {
        assert Positional([], Named(latest, n)) == Named(latest, n);
      }
    } else {
      var b, rest := base[0], Consume(base[0], latest);
      var bs, fs := Named(base, n), Named(latest, n);
      NamedCompareStep(base, latest, n);
      PositionalRule(base[1..], rest, n);
      if b.fileName != n {
        NamedStepOther(b, latest, n);
        assert bs == Named(base[1..], n);
        assert Named(Compare(base, latest), n) == [] + Named(Compare(base[1..], rest), n);
      } else if fs == [] {
        NamedStepAbsent(b, latest, n);
        assert Named(Compare(base, latest), n) == [] + Named(Compare(base[1..], rest), n);
      } else {
        NamedStepSame(b, latest, n);
        assert bs == [b] + Named(base[1..], n);
        assert bs[0] == b && bs[1..] == Named(base[1..], n);
      }
    }
  }

  /**
   Two files of one name in different sub-directories: the single baseline
   record is paired with the first and reports it for its older timestamp,
   and the second is reported as unpaired.
   */
  lemma DuplicateNamesPaired()
    ensures var b := FileRecord("x.xml", "/p/a/x.xml", 5, 0);
      var x1, x9 := FileRecord("x.xml", "/p/a/x.xml", 1, 0), FileRecord("x.xml", "/p/b/x.xml", 9, 0);
      Compare([b], [x1, x9]) == [x1, x9]
  {
    var b := FileRecord("x.xml", "/p/a/x.xml", 5, 0);
    var x1, x9 := FileRecord("x.xml", "/p/a/x.xml", 1, 0), FileRecord("x.xml", "/p/b/x.xml", 9, 0);
    assert FindByName([x1, x9], b.fileName) == 0;
    assert [b][1..] == [];
    assert Consume(b, [x1, x9]) == [x9];
    assert Reported(b, [x1, x9]) == [x1];
    assert Anomalies([b], [x1, x9]) == [x1] + Anomalies([], [x9]);
    assert Leftovers([b], [x1, x9]) == Leftovers([], [x9]);
  }

  /**
   Comparing a list with itself reports nothing: each record consumes itself,
   since it is the first of its name in what remains, and equal timestamps are
   not reported.
   */
  lemma {:induction false} SelfCompareIsEmpty(s: seq<FileRecord>)
    ensures Compare(s, s) == []
    decreases |s|
  {
    if s != [] {
      assert FindByName(s, s[0].fileName) == 0;
      assert Consume(s[0], s) == s[1..];
      SelfCompareIsEmpty(s[1..]);
    }
  }

  /**
   The timestamp rule on one file: a baseline record and a fresh record of the
   same name yield the fresh record exactly when the baseline timestamp is
   strictly greater; an equal or newer fresh timestamp is no change.
   */
  lemma TimestampRule(baseline: FileRecord, current: FileRecord)
    requires baseline.fileName == current.fileName
    ensures Compare([baseline], [current]) == if baseline.lastModified > current.lastModified then [current] else []
  {
    assert FindByName([current], baseline.fileName) == 0;
    assert [baseline][1..] == [];
    assert Consume(baseline, [current]) == [];
    assert Anomalies([baseline], [current]) == Reported(baseline, [current]) + Anomalies([], []);
    assert Leftovers([baseline], [current]) == Leftovers([], []);
  }

  /** A file present in the fresh list only is reported as added; the unchanged one is not. */
  lemma AdditionDetected(f1: FileRecord, f2: FileRecord)
    requires f1.fileName != f2.fileName
    ensures Compare([f1], [f1, f2]) == [f2]
  {
    assert FindByName([f1, f2], f1.fileName) == 0;
    assert [f1][1..] == [];
    assert Consume(f1, [f1, f2]) == [f2];
    assert Reported(f1, [f1, f2]) == [];
    assert Anomalies([f1], [f1, f2]) == [] + Anomalies([], [f2]);
    assert Leftovers([f1], [f1, f2]) == Leftovers([], [f2]);
  }
}
