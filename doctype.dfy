/**
 The line filter of `removeDocTypeFromFile`: an empty file is deleted;
 otherwise every line mentioning a DOCTYPE declaration or the EAD DTD is
 dropped and the rest is written back in order.
 */
module DocType {
  import opened Records
  import opened Text

  /** What becomes of the file. */
  datatype FixOutcome = DeleteFile | Rewrite(lines: seq<string>)

  predicate HasDocTypeMarker(line: string)
  {
    Contains(line, "<!DOCTYPE") || Contains(line, "ead.dtd")
  }

  /** The lines without a marker, in their original order. */
  function Stripped(lines: seq<string>): seq<string>
    decreases |lines|
  {
    if lines == [] then []
    else
      var init := lines[..|lines| - 1];
      var last := lines[|lines| - 1];
      if HasDocTypeMarker(last) then Stripped(init) else Stripped(init) + [last]
  }

  /** The outcome for a file read as `lines`. */
  function Fix(lines: seq<string>): FixOutcome
  {
    if |lines| == 0 then DeleteFile else Rewrite(Stripped(lines))
  }

  /** The source's loop accumulating the kept lines. */
  method RemoveDocType(lines: seq<string>) returns (outcome: FixOutcome)
    ensures outcome == Fix(lines)
  {
    if |lines| == 0 {
      return DeleteFile;
    }
    var fixedFile: seq<string> := [];
    for i := 0 to |lines|
      invariant fixedFile == Stripped(lines[..i])
    {
      assert lines[..i + 1][..i] == lines[..i];
      if HasDocTypeMarker(lines[i]) {
        continue;
      } else {
        fixedFile := fixedFile + [lines[i]];
      }
    }
    assert lines[..|lines|] == lines;
    outcome := Rewrite(fixedFile);
  }

  /**
   Exactly the marked lines are removed: every line occurs in the output as
   often as in the input when it has no marker and never when it has one, and
   the output keeps the input's order.
   */
  lemma {:induction false} StrippedRemovesExactlyMarked(lines: seq<string>)
    ensures forall l :: multiset(Stripped(lines))[l] == if HasDocTypeMarker(l) then 0 else multiset(lines)[l]
    ensures IsSubsequence(Stripped(lines), lines)
    decreases |lines|
  {
    if lines == [] {
    } else {
      var init, last := lines[..|lines| - 1], lines[|lines| - 1];
      assert lines == init + [last];
      StrippedRemovesExactlyMarked(init);
      SubsequenceAppend(Stripped(init), init, last, !HasDocTypeMarker(last));
    }
  }

  /** No output line carries a marker. */
  lemma {:induction false} StrippedHasNoMarker(lines: seq<string>)
    ensures forall l :: l in Stripped(lines) ==> !HasDocTypeMarker(l)
    decreases |lines|
  {
    if lines != [] {
      StrippedHasNoMarker(lines[..|lines| - 1]);
    }
  }

  /** Lines without markers pass through untouched, so filtering twice is filtering once. */
  lemma {:induction false} StrippedIdempotent(lines: seq<string>)
    ensures Stripped(Stripped(lines)) == Stripped(lines)
  {
    StrippedHasNoMarker(lines);
    StrippedKeepsClean(Stripped(lines));
  }

  lemma {:induction false} StrippedKeepsClean(lines: seq<string>)
    requires forall l :: l in lines ==> !HasDocTypeMarker(l)
    ensures Stripped(lines) == lines
    decreases |lines|
  {
    if lines != [] {
      var init := lines[..|lines| - 1];
      StrippedKeepsClean(init);
      assert lines == init + [lines[|lines| - 1]];
    }
  }

  /**
   A second pass over a rewritten file leaves it as it is, except that a file
   whose every line was a marker has become empty, and is then deleted.
   */
  lemma SecondPass(lines: seq<string>)
    requires Fix(lines).Rewrite?
    ensures Fix(Fix(lines).lines) == if Stripped(lines) == [] then DeleteFile else Fix(lines)
  {
    StrippedIdempotent(lines);
  }
}
