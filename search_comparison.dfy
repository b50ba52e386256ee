/**
 * The result check of the benchmark driver in task3.py: the three substring
 * searchers run on the same text and pattern, and their answers are compared.
 * Also the worked examples the searchers are expected to reproduce.
 */
module SearchComparison {
  import opened Occurrences
  import Kmp
  import BoyerMoore
  import RabinKarp

  /** Runs the three searchers on the same inputs; all three give the first occurrence. */
  method CompareResults(text: seq<char>, pattern: seq<char>) returns (rabinKarp: int, kmp: int, boyerMoore: int)
    requires |pattern| > 0
    ensures rabinKarp == kmp == boyerMoore
    ensures kmp == FirstOccurrence(text, pattern)
  {
    rabinKarp := RabinKarp.RabinKarpSearch(text, pattern);
    kmp := Kmp.KmpSearch(text, pattern);
    boyerMoore := BoyerMoore.BoyerMooreSearch(text, pattern);
  }

  /** The textbook KMP example: the pattern first occurs at index 10. */
  lemma KmpExample()
    ensures FirstOccurrence("ABABDABACDABABCABAB", "ABABCABAB") == 10
  {
    var text, pattern := "ABABDABACDABABCABAB", "ABABCABAB";
    // The mismatching position of each earlier start.
    var miss := [4, 0, 2, 0, 0, 3, 0, 1, 0, 0];
    forall k | 0 <= k < 10 ensures !MatchesAt(text, pattern, k) {
      assert text[k + miss[k]] != pattern[miss[k]];
    }
    assert MatchesAt(text, pattern, 10) by {
      MatchesAtSlice(text, pattern, 10);
      assert text[10..19] == pattern;
    }
    FirstOccurrenceAt(text, pattern, 10);
  }

  /** "GEEK" is found at the start of "GEEKS FOR GEEKS". */
  lemma GeeksExample()
    ensures FirstOccurrence("GEEKS FOR GEEKS", "GEEK") == 0
  {
    FirstOccurrenceAt("GEEKS FOR GEEKS", "GEEK", 0);
  }

  /** The shift table of "ABC" maps 'A' to 2, 'B' to 1 and 'C' (unique last character) to 3. */
  lemma ShiftTableExample()
    ensures BoyerMoore.Shift("ABC", 'A') == 2
    ensures BoyerMoore.Shift("ABC", 'B') == 1
    ensures BoyerMoore.Shift("ABC", 'C') == 3
  {
    assert "ABC"[..2] == "AB";
    assert "AB"[..1] == "A";
    assert "A"[..0] == "";
  }

  /**
   * A hash collision is not reported as a match: 'A' (65) and U+00A6 (166)
   * have the same hash modulo 101, yet "A" does not occur in "¦".
   */
  lemma CollisionIsNotAMatch()
    ensures RabinKarp.Hash("A", RabinKarp.Base, RabinKarp.Modulus)
            == RabinKarp.Hash("¦", RabinKarp.Base, RabinKarp.Modulus)
    ensures FirstOccurrence("¦", "A") == -1
  {
    assert !MatchesAt("¦", "A", 0) by { assert "¦"[0 + 0] != "A"[0]; }
    NoOccurrence("¦", "A", 1);
  }
}
