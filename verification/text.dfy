/**
 Case-insensitive string helpers shared by search and highlighting.

 Swift's `lowercased()` performs full Unicode case mapping, which can change a
 string's length. This model lowers characters one at a time (ASCII letters
 only), so a lowered string always has the same length as the original and
 an index into the lowered text is also an index into the original.
 */
module Text {
  import opened Wrappers

  /** Lower-cases one character; characters outside `A`..`Z` are kept. */
  function Lower(c: char): char {
    if 'A' <= c <= 'Z' then (c as int + 32) as char else c
  }

  /** `s.lowercased()`, character by character. */
  function LowerStr(s: string): (r: string)
    ensures |r| == |s|
  {
    if |s| == 0 then [] else [Lower(s[0])] + LowerStr(s[1..])
  }

  /** Each character of the lowered string is the lowered character. */
  lemma {:induction false} LowerAt(s: string, i: nat)
    requires i < |s|
    ensures LowerStr(s)[i] == Lower(s[i])
  {
    if i > 0 {
      LowerAt(s[1..], i - 1);
    }
  }

  /** A string without upper-case letters is its own lowering. */
  lemma {:induction false} LowerUnchanged(s: string)
    requires forall i :: 0 <= i < |s| ==> !('A' <= s[i] <= 'Z')
    ensures LowerStr(s) == s
  {
    if |s| > 0 {
      LowerUnchanged(s[1..]);
      assert s == [s[0]] + s[1..];
    }
  }

  /** Lowering commutes with slicing. */
  lemma {:induction false} LowerSlice(s: string, i: nat, j: nat)
    requires i <= j <= |s|
    ensures LowerStr(s[i..j]) == LowerStr(s)[i..j]
  {
    forall k | 0 <= k < j - i
      ensures LowerStr(s[i..j])[k] == LowerStr(s)[i + k]
    {
      LowerAt(s[i..j], k);
      LowerAt(s, i + k);
    }
  }

  /** `needle` occurs in `hay` starting at position `p`. */
  predicate OccursAt(hay: string, needle: string, p: int) {
    0 <= p && p + |needle| <= |hay| && hay[p..p + |needle|] == needle
  }

  /** `hay.contains(needle)`: some occurrence exists. */
  predicate Contains(hay: string, needle: string) {
    exists p | 0 <= p <= |hay| - |needle| :: OccursAt(hay, needle, p)
  }

  /** `needle` matches `hay` character by character from position `p`. */
  predicate MatchesAt(hay: string, needle: string, p: nat)
    decreases |needle|
  {
    |needle| == 0 || (p < |hay| && hay[p] == needle[0] && MatchesAt(hay, needle[1..], p + 1))
  }

  /** The character-by-character comparison is the slice comparison. */
  lemma {:induction false} MatchesAtOccurs(hay: string, needle: string, p: nat)
    requires p + |needle| <= |hay|
    decreases |needle|
    ensures MatchesAt(hay, needle, p) <==> OccursAt(hay, needle, p)
  {
    if |needle| > 0 {
      MatchesAtOccurs(hay, needle[1..], p + 1);
      var s := hay[p..p + |needle|];
      assert s[1..] == hay[p + 1..p + |needle|];
      assert s == [s[0]] + s[1..];
      assert needle == [needle[0]] + needle[1..];
    }
  }

  /**
   `hay[from...].range(of: needle)`: the leftmost occurrence of `needle` at or
   after `from`. Foundation reports no range for an empty `needle`.
   `FindFromFinds` states what the search finds.
   */
  function FindFrom(hay: string, needle: string, from: nat): (r: Option<nat>)
    decreases |hay| - from
    ensures r.Some? ==> |needle| > 0 && from <= r.value && r.value + |needle| <= |hay|
  {
    if |needle| == 0 || from + |needle| > |hay| then None
    else if MatchesAt(hay, needle, from) then Some(from)
    else FindFrom(hay, needle, from + 1)
  }

  /**
   The search answers with an occurrence, and with the leftmost one at or after
   `from`; it answers nothing only for an empty needle or when none occurs there.
   */
  lemma {:induction false} FindFromFinds(hay: string, needle: string, from: nat)
    decreases |hay| - from
    ensures var r := FindFrom(hay, needle, from);
            && (r.Some? ==> OccursAt(hay, needle, r.value))
            && (r.Some? ==> forall q :: from <= q < r.value ==> !OccursAt(hay, needle, q))
            && (r.None? ==> |needle| == 0 || forall q :: from <= q ==> !OccursAt(hay, needle, q))
  {
    if |needle| == 0 || from + |needle| > |hay| {
    } else {
      MatchesAtOccurs(hay, needle, from);
      if !MatchesAt(hay, needle, from) {
        FindFromFinds(hay, needle, from + 1);
      }
    }
  }

  /** Searching from the start finds something exactly when the needle occurs. */
  lemma FindFromStartIffContains(hay: string, needle: string)
    requires |needle| > 0
    ensures FindFrom(hay, needle, 0).Some? <==> Contains(hay, needle)
  {
    FindFromFinds(hay, needle, 0);
    var r := FindFrom(hay, needle, 0);
    if r.Some? {
      assert OccursAt(hay, needle, r.value);
    }
  }
}
