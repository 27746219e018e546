/** String tests the engine relies on: `String.contains` and a case-insensitive variant. */
module Text {

  /** `part` occurs in `s` at some position; the empty string occurs everywhere. */
  predicate Contains(s: string, part: string)
    decreases |s|
  {
    part <= s || (s != [] && Contains(s[1..], part))
  }

  /** `part` occurs in `s` starting at index `i`. */
  predicate OccursAt(s: string, part: string, i: int)
  {
    0 <= i && i + |part| <= |s| && s[i..i + |part|] == part
  }

  /** `Contains` finds exactly the occurrences at some index. */
  lemma {:induction false} ContainsIffOccurs(s: string, part: string)
    ensures Contains(s, part) <==> exists i :: OccursAt(s, part, i)
    decreases |s|
  {
    if part <= s {
      assert OccursAt(s, part, 0);
    } else if s != [] {
      ContainsIffOccurs(s[1..], part);
      assert !OccursAt(s, part, 0);
      forall i | OccursAt(s, part, i) && i > 0 ensures OccursAt(s[1..], part, i - 1) {
        assert s[1..][i - 1..i - 1 + |part|] == s[i..i + |part|];
      }
      forall i | OccursAt(s[1..], part, i) ensures OccursAt(s, part, i + 1) {
        assert s[i + 1..i + 1 + |part|] == s[1..][i..i + |part|];
      }
    } else {
      assert part != [];
    }
  }

  /** Upper case for the ASCII letters, every other character unchanged. */
  function UpperChar(c: char): char
  {
    if 'a' <= c <= 'z' then (c as int - 32) as char else c
  }

  function Upper(s: string): (r: string)
    ensures |r| == |s|
    ensures forall i :: 0 <= i < |s| ==> r[i] == UpperChar(s[i])
  {
    if s == [] then [] else [UpperChar(s[0])] + Upper(s[1..])
  }

  /** `StringUtils.containsIgnoreCase`: both sides upper-cased, then `contains`. */
  predicate ContainsIgnoreCase(text: string, fragment: string)
  {
    Contains(Upper(text), Upper(fragment))
  }

  /** An exact occurrence is also a case-insensitive one. */
  lemma {:induction false} ContainsIgnoresCase(s: string, part: string)
    requires Contains(s, part)
    ensures ContainsIgnoreCase(s, part)
    decreases |s|
  {
    if part <= s {
      assert Upper(s)[..|part|] == Upper(part);
    } else {
      ContainsIgnoresCase(s[1..], part);
      assert Upper(s)[1..] == Upper(s[1..]);
    }
  }
}
