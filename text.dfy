/** Text operations the reports rely on: ASCII lower-casing (the model of
    `str.lower`) and the substring test behind Python's `term in name`. */
module Text {

  /** An ASCII capital letter. */
  predicate IsUpper(c: char) {
    'A' <= c <= 'Z'
  }

  /** Lower-cases one character: ASCII capitals move to their small letter,
      every other character is left as it is. */
  function LowerChar(c: char): (r: char)
    ensures !IsUpper(r)
    ensures IsUpper(c) ==> 'a' <= r <= 'z' && r as int - c as int == 'a' as int - 'A' as int
    ensures !IsUpper(c) ==> r == c
  {
    if IsUpper(c) then (c as int - 'A' as int + 'a' as int) as char else c
  }

  /** Lower-cases a whole string, character by character. */
  function ToLower(s: string): (r: string)
    ensures |r| == |s|
    ensures forall i :: 0 <= i < |s| ==> r[i] == LowerChar(s[i])
  {
    seq(|s|, i requires 0 <= i < |s| => LowerChar(s[i]))
  }

  /** A lower-cased string has no capitals left. */
  lemma ToLowerHasNoUpper(s: string)
    ensures forall i :: 0 <= i < |ToLower(s)| ==> !IsUpper(ToLower(s)[i])
  {
  }

  /** Lower-casing twice is lower-casing once, so comparing lower-cased
      strings is an equivalence that a second `lower()` does not change. */
  lemma ToLowerIdempotent(s: string)
    ensures ToLower(ToLower(s)) == ToLower(s)
  {
  }

  /** `prefix` is an initial segment of `s`. */
  predicate StartsWith(s: string, prefix: string) {
    |prefix| <= |s| && s[..|prefix|] == prefix
  }

  /** `needle` occurs in `haystack` starting at position `i`. */
  predicate OccursAt(haystack: string, needle: string, i: int) {
    0 <= i && i + |needle| <= |haystack| && haystack[i..i + |needle|] == needle
  }

  /** Python's `needle in haystack` for strings: a scan that tries every
      starting position from the left. The empty needle is in every string. */
  predicate Contains(haystack: string, needle: string)
    ensures needle == "" ==> Contains(haystack, needle)
    ensures Contains(haystack, needle) ==> |needle| <= |haystack|
    decreases |haystack|
  {
    StartsWith(haystack, needle) || (|haystack| > 0 && Contains(haystack[1..], needle))
  }

  /** An occurrence at position `i` is found by the scan. */
  lemma {:induction false} OccursAtContains(haystack: string, needle: string, i: int)
    requires OccursAt(haystack, needle, i)
    ensures Contains(haystack, needle)
    decreases i
  {
    if i == 0 {
      assert StartsWith(haystack, needle);
    } else {
      var tail := haystack[1..];
      assert tail[i - 1..i - 1 + |needle|] == haystack[i..i + |needle|];
      OccursAtContains(tail, needle, i - 1);
    }
  }

  /** The scan finds the needle exactly when it occurs at some position. */
  lemma {:induction false} ContainsIff(haystack: string, needle: string)
    ensures Contains(haystack, needle) <==> exists i :: OccursAt(haystack, needle, i)
    decreases |haystack|
  {
    if StartsWith(haystack, needle) {
      assert OccursAt(haystack, needle, 0);
    } else if |haystack| > 0 && Contains(haystack[1..], needle) {
      var tail := haystack[1..];
      ContainsIff(tail, needle);
      var j :| OccursAt(tail, needle, j);
      assert haystack[j + 1..j + 1 + |needle|] == tail[j..j + |needle|];
      assert OccursAt(haystack, needle, j + 1);
    }
    forall i | OccursAt(haystack, needle, i) ensures Contains(haystack, needle) {
      OccursAtContains(haystack, needle, i);
    }
  }

  /** The empty string is in every string. */
  lemma ContainsEmpty(haystack: string)
    ensures Contains(haystack, "")
  {
    assert haystack[..0] == "";
  }

  /** A haystack shorter than the needle does not contain it. */
  lemma {:induction false} ContainsNeedsRoom(haystack: string, needle: string)
    requires |haystack| < |needle|
    ensures !Contains(haystack, needle)
    decreases |haystack|
  {
    if |haystack| > 0 {
      ContainsNeedsRoom(haystack[1..], needle);
    }
  }

  /** The needle is not in the haystack when its first character does not
      occur among the first `k` characters and fewer than `|needle|`
      characters follow them. */
  lemma {:induction false} NotContainsPast(haystack: string, needle: string, k: nat)
    requires k <= |haystack| && |haystack| - k < |needle|
    requires needle[0] !in haystack[..k]
    ensures !Contains(haystack, needle)
    decreases k
  {
    if k == 0 {
      ContainsNeedsRoom(haystack, needle);
    } else {
      assert haystack[0] == haystack[..k][0];
      assert haystack[1..][..k - 1] == haystack[1..k];
      assert forall j :: 0 <= j < k - 1 ==> haystack[1..k][j] == haystack[..k][j + 1];
      NotContainsPast(haystack[1..], needle, k - 1);
    }
  }
}
