/**
 * The two JavaScript built-ins the classifier is made of:
 * `String.prototype.includes` (substring search) and `Array.prototype.some`
 * applied with a `line.includes(needle)` callback over a page of lines.
 * Each is given as a left-to-right recursive scan, the way the engine
 * evaluates it, and is proved equal to an independent existential definition.
 */
module JsText {

  /** `needle` is a prefix of `s`. */
  predicate StartsWith(s: string, needle: string) {
    |needle| <= |s| && s[..|needle|] == needle
  }

  /** `needle` occurs in `s` starting at index `i`. */
  ghost predicate OccursAt(s: string, needle: string, i: int) {
    0 <= i && i + |needle| <= |s| && s[i..i + |needle|] == needle
  }

  /** Reference definition of substring containment. */
  ghost predicate Occurs(s: string, needle: string) {
    exists i :: OccursAt(s, needle, i)
  }

  /**
   * `s.includes(needle)`: try every start position from the left.
   * The empty needle is found in every string, the empty string included.
   */
  predicate Includes(s: string, needle: string)
    decreases |s|
  {
    StartsWith(s, needle) || (|s| > 0 && Includes(s[1..], needle))
  }

  /** `page.some(line => line.includes(needle))`: scans lines from the first, stopping at a hit. */
  predicate SomeLineIncludes(page: seq<string>, needle: string)
    decreases |page|
  {
    |page| > 0 && (Includes(page[0], needle) || SomeLineIncludes(page[1..], needle))
  }

  /** Shifting the string by one character shifts every occurrence by one. */
  lemma OccursAtTail(s: string, needle: string, i: int)
    requires |s| > 0 && 0 <= i
    ensures OccursAt(s[1..], needle, i) <==> OccursAt(s, needle, i + 1)
  {
    if 0 <= i && i + |needle| <= |s| - 1 {
      assert s[1..][i..i + |needle|] == s[i + 1..i + 1 + |needle|];
    }
  }

  /** The scan finds the needle exactly when it occurs somewhere in the string. */
  lemma {:induction false} IncludesIffOccurs(s: string, needle: string)
    ensures Includes(s, needle) <==> Occurs(s, needle)
    decreases |s|
  {
    if StartsWith(s, needle) {
      assert OccursAt(s, needle, 0);
    } else if |s| == 0 {
      assert |needle| > 0;
    } else {
      IncludesIffOccurs(s[1..], needle);
      if Includes(s[1..], needle) {
        var i :| OccursAt(s[1..], needle, i);
        OccursAtTail(s, needle, i);
      }
      if Occurs(s, needle) {
        var i :| OccursAt(s, needle, i);
        assert i != 0;
        OccursAtTail(s, needle, i - 1);
      }
    }
  }

  /** A needle longer than the string is never found. */
  lemma {:induction false} ShorterNeverIncludes(s: string, needle: string)
    requires |s| < |needle|
    ensures !Includes(s, needle)
    decreases |s|
  {
    if |s| > 0 {
      ShorterNeverIncludes(s[1..], needle);
    }
  }

  /** A non-empty needle whose first character is absent from the string is never found. */
  lemma {:induction false} MissingFirstCharNeverIncludes(s: string, needle: string)
    requires |needle| > 0
    requires forall k :: 0 <= k < |s| ==> s[k] != needle[0]
    ensures !Includes(s, needle)
    decreases |s|
  {
    if |s| > 0 {
      if |needle| <= |s| {
        assert s[..|needle|][0] == s[0];
      }
      MissingFirstCharNeverIncludes(s[1..], needle);
    }
  }

  /** The line scan succeeds exactly when some line of the page includes the needle. */
  lemma {:induction false} SomeLineIncludesIff(page: seq<string>, needle: string)
    ensures SomeLineIncludes(page, needle) <==> exists k :: 0 <= k < |page| && Includes(page[k], needle)
    decreases |page|
  {
    if |page| > 0 {
      SomeLineIncludesIff(page[1..], needle);
      if exists k :: 0 <= k < |page| && Includes(page[k], needle) {
        var k :| 0 <= k < |page| && Includes(page[k], needle);
        if k > 0 {
          assert page[1..][k - 1] == page[k];
        }
      }
      if SomeLineIncludes(page[1..], needle) {
        var k :| 0 <= k < |page| - 1 && Includes(page[1..][k], needle);
        assert page[k + 1] == page[1..][k];
      }
    }
  }
}
