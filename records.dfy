/**
 The values the change-detection engine works on: one observed file
 (`FileMetaModel` in the source), a per-provider snapshot, and the outcome
 of a computation that may dereference a missing baseline list.
 */
module Records {

  /** One observed file. `filePath` and `fileSize` are carried along but never compared. */
  datatype FileRecord = FileRecord(fileName: string, filePath: string, lastModified: int, fileSize: int)

  /** Provider name to the ordered list of that provider's file records. */
  type Snapshot = map<string, seq<FileRecord>>

  datatype Option<T> = None | Some(value: T)

  /**
   A computation that either yields a value or dies on a null dereference:
   the source throws a `NullPointerException` when a provider of the fresh
   snapshot has no baseline list.
   */
  datatype Outcome<T> = Ok(value: T) | NullPointer

  /** No two records of the list share a file name: an assumption, since the recursive listing can repeat a name. */
  ghost predicate DistinctNames(s: seq<FileRecord>)
  {
    forall i, j :: 0 <= i < j < |s| ==> s[i].fileName != s[j].fileName
  }

  /** Index of the first record named `name`, or `|s|` when there is none. */
  function FindByName(s: seq<FileRecord>, name: string): (k: nat)
    ensures k <= |s|
    ensures k < |s| ==> s[k].fileName == name
    ensures forall j :: 0 <= j < k ==> s[j].fileName != name
  {
    if s == [] then 0
    else if s[0].fileName == name then 0
    else 1 + FindByName(s[1..], name)
  }

  /** The list with its `k`-th element taken out, as `List.remove` leaves it. */
  function RemoveAt<T>(s: seq<T>, k: nat): (r: seq<T>)
    requires k < |s|
    ensures |r| == |s| - 1
    ensures forall j :: 0 <= j < k ==> r[j] == s[j]
    ensures forall j :: k <= j < |r| ==> r[j] == s[j + 1]
  {
    s[..k] + s[k + 1..]
  }

  /** Removal takes out exactly the one element at `k`, as a multiset. */
  lemma RemoveAtMultiset<T>(s: seq<T>, k: nat)
    requires k < |s|
    ensures multiset(RemoveAt(s, k)) + multiset{s[k]} == multiset(s)
  {
    assert s == s[..k] + [s[k]] + s[k + 1..];
  }

  lemma AppendAssoc<T>(x: seq<T>, y: seq<T>, z: seq<T>)
    ensures (x + y) + z == x + (y + z)
  {
  }

  lemma RemoveAtKeepsDistinct(s: seq<FileRecord>, k: nat)
    requires k < |s| && DistinctNames(s)
    ensures DistinctNames(RemoveAt(s, k))
    ensures forall r :: r in RemoveAt(s, k) ==> r.fileName != s[k].fileName
  {
    var t := RemoveAt(s, k);
    forall i, j | 0 <= i < j < |t| ensures t[i].fileName != t[j].fileName {
      var i' := if i < k then i else i + 1;
      var j' := if j < k then j else j + 1;
      assert t[i] == s[i'] && t[j] == s[j'];
    }
    forall r | r in t ensures r.fileName != s[k].fileName {
      var i :| 0 <= i < |t| && t[i] == r;
      var i' := if i < k then i else i + 1;
      assert t[i] == s[i'] && i' != k;
    }
  }

  /** `a` is `b` with some elements left out, the others in their original order. */
  predicate IsSubsequence<T(==)>(a: seq<T>, b: seq<T>)
    decreases |b|
  {
    if a == [] then true
    else if b == [] then false
    else if a[0] == b[0] then IsSubsequence(a[1..], b[1..])
    else IsSubsequence(a, b[1..])
  }

  lemma {:induction false} SubsequenceRefl<T>(a: seq<T>)
    ensures IsSubsequence(a, a)
    decreases |a|
  {
    if a != [] { SubsequenceRefl(a[1..]); }
  }

  /** One more element in front of the longer list keeps the relation. */
  lemma {:induction false} SubsequenceExtend<T>(a: seq<T>, b: seq<T>)
    requires b != [] && IsSubsequence(a, b[1..])
    ensures IsSubsequence(a, b)
    decreases |b|, 0
  {
    if a != [] && a[0] == b[0] {
      SubsequenceDropHead(a, b[1..]);
    }
  }

  /** Dropping the head of the shorter list keeps the relation. */
  lemma {:induction false} SubsequenceDropHead<T>(a: seq<T>, b: seq<T>)
    requires a != [] && IsSubsequence(a, b)
    ensures IsSubsequence(a[1..], b)
    decreases |b|, 1
  {
    if a[0] == b[0] {
      SubsequenceExtend(a[1..], b);
    } else {
      SubsequenceDropHead(a, b[1..]);
      SubsequenceExtend(a[1..], b);
    }
  }

  lemma {:induction false} SubsequenceTrans<T>(a: seq<T>, b: seq<T>, c: seq<T>)
    requires IsSubsequence(a, b) && IsSubsequence(b, c)
    ensures IsSubsequence(a, c)
    decreases |c|
  {
    if a == [] {
    } else if b[0] == c[0] {
      if a[0] == b[0] {
        SubsequenceTrans(a[1..], b[1..], c[1..]);
      } else {
        SubsequenceTrans(a, b[1..], c[1..]);
        SubsequenceExtend(a, c);
      }
    } else {
      SubsequenceTrans(a, b, c[1..]);
      SubsequenceExtend(a, c);
    }
  }

  /** Whatever `List.remove` at one index leaves is a subsequence of the list. */
  lemma {:induction false} RemoveAtSubsequence<T>(s: seq<T>, k: nat)
    requires k < |s|
    ensures IsSubsequence(RemoveAt(s, k), s)
    decreases k
  {
    if k == 0 {
      assert RemoveAt(s, 0) == s[1..];
      SubsequenceRefl(s[1..]);
      SubsequenceExtend(s[1..], s);
    } else {
      var r, t := RemoveAt(s, k), RemoveAt(s[1..], k - 1);
      RemoveAtSubsequence(s[1..], k - 1);
      assert r[0] == s[0] && r[1..] == t;
    }
  }

  /** Appending one element to the longer list, and optionally to the shorter, keeps the relation. */
  lemma {:induction false} SubsequenceAppend<T>(a: seq<T>, b: seq<T>, x: T, both: bool)
    requires IsSubsequence(a, b)
    ensures IsSubsequence(if both then a + [x] else a, b + [x])
    decreases |b|
  {
    if a == [] {
      if both {
        assert a + [x] == [x];
        SubsequenceIntoSuffix([x], b);
      }
    } else if a[0] == b[0] {
      SubsequenceAppend(a[1..], b[1..], x, both);
      assert (b + [x])[1..] == b[1..] + [x];
      assert (if both then a + [x] else a)[1..] == if both then a[1..] + [x] else a[1..];
    } else {
      SubsequenceAppend(a, b[1..], x, both);
      assert (b + [x])[1..] == b[1..] + [x];
    }
  }

  /** A list is a subsequence of itself behind any prefix. */
  lemma {:induction false} SubsequenceIntoSuffix<T>(a: seq<T>, b: seq<T>)
    ensures IsSubsequence(a, b + a)
    decreases |b|
  {
    if b == [] {
      assert b + a == a;
      SubsequenceRefl(a);
    } else {
      SubsequenceIntoSuffix(a, b[1..]);
      assert (b + a)[1..] == b[1..] + a;
      SubsequenceExtend(a, b + a);
    }
  }
}
