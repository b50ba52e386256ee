/**
 * The specification shared by the three substring searchers: where a pattern
 * occurs in a text, and which occurrence comes first.
 */
module Occurrences {

  /** `pattern` occurs in `text` starting at index `k`. */
  predicate MatchesAt(text: seq<char>, pattern: seq<char>, k: int)
  {
    0 <= k && k + |pattern| <= |text| &&
    forall t :: 0 <= t < |pattern| ==> text[k + t] == pattern[t]
  }

  /** The occurrence test stated on slices, as a search routine compares windows. */
  lemma MatchesAtSlice(text: seq<char>, pattern: seq<char>, k: int)
    requires 0 <= k && k + |pattern| <= |text|
    ensures MatchesAt(text, pattern, k) <==> text[k..k + |pattern|] == pattern
  {
    if text[k..k + |pattern|] == pattern {
      forall t | 0 <= t < |pattern| ensures text[k + t] == pattern[t] {
        assert text[k..k + |pattern|][t] == text[k + t];
      }
    }
    if MatchesAt(text, pattern, k) {
      assert forall t :: 0 <= t < |pattern| ==> text[k..k + |pattern|][t] == pattern[t];
    }
  }

  /** The first occurrence at an index `k` or later, or -1 when there is none. */
  function FirstFrom(text: seq<char>, pattern: seq<char>, k: nat): (r: int)
    decreases |text| - k
    ensures r == -1 || (k <= r && MatchesAt(text, pattern, r))
    ensures forall j :: k <= j && (r == -1 || j < r) ==> !MatchesAt(text, pattern, j)
  {
    if k + |pattern| > |text| then -1
    else if MatchesAt(text, pattern, k) then k
    else FirstFrom(text, pattern, k + 1)
  }

  /**
   * The value every searcher must return: the smallest index at which
   * `pattern` occurs in `text`, or -1 when it occurs nowhere.
   */
  function FirstOccurrence(text: seq<char>, pattern: seq<char>): (r: int)
    ensures r == -1 <==> forall k :: !MatchesAt(text, pattern, k)
    ensures r != -1 ==> MatchesAt(text, pattern, r)
    ensures forall k :: 0 <= k < r ==> !MatchesAt(text, pattern, k)
  {
    FirstFrom(text, pattern, 0)
  }

  /** An occurrence with none before it is the first occurrence. */
  lemma FirstOccurrenceAt(text: seq<char>, pattern: seq<char>, i: int)
    requires MatchesAt(text, pattern, i)
    requires forall k :: 0 <= k < i ==> !MatchesAt(text, pattern, k)
    ensures FirstOccurrence(text, pattern) == i
  {
    var r := FirstOccurrence(text, pattern);
    assert r != -1;
    assert !(r < i);
    assert !(i < r);
  }

  /** When every start below `i` fails and no window fits from `i` on, there is no occurrence. */
  lemma NoOccurrence(text: seq<char>, pattern: seq<char>, i: int)
    requires |text| < i + |pattern|
    requires forall k :: 0 <= k < i ==> !MatchesAt(text, pattern, k)
    ensures FirstOccurrence(text, pattern) == -1
  {
    forall k ensures !MatchesAt(text, pattern, k) {
      if k >= i {
        assert k + |pattern| > |text|;
      }
    }
  }

  /** A pattern longer than the text never occurs in it. */
  lemma LongerPatternAbsent(text: seq<char>, pattern: seq<char>)
    requires |pattern| > |text|
    ensures FirstOccurrence(text, pattern) == -1
  {
    NoOccurrence(text, pattern, 0);
  }

  /** Searching a text for itself finds it at index 0. */
  lemma WholeTextAtZero(text: seq<char>)
    ensures FirstOccurrence(text, text) == 0
  {
    FirstOccurrenceAt(text, text, 0);
  }
}
