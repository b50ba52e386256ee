/**
 * Boyer–Moore substring search in its Horspool bad-character form
 * (`build_shift_table` and `boyer_moore_search` in task3.py): windows are
 * compared right to left, and a failed window moves forward by the shift of
 * the text character under the pattern's last position.
 */
module BoyerMoore {
  import opened Occurrences

  /** The last index of `c` in `s`, or -1 when `c` does not occur in `s`. */
  function LastIndex(s: seq<char>, c: char): (r: int)
    ensures -1 <= r < |s|
    ensures r >= 0 ==> s[r] == c
    ensures forall t :: r < t < |s| ==> s[t] != c
  {
    if |s| == 0 then -1
    else if s[|s| - 1] == c then |s| - 1
    else LastIndex(s[..|s| - 1], c)
  }

  /**
   * The bad-character shift of `c` for `pattern`: the distance from the last
   * occurrence of `c` in `pattern` without its final character to the end of
   * the pattern, or the whole pattern length when `c` does not occur there.
   */
  function Shift(pattern: seq<char>, c: char): int
    requires |pattern| > 0
  {
    var m := |pattern|;
    var last := LastIndex(pattern[..m - 1], c);
    if last < 0 then m else m - 1 - last
  }

  /**
   * Every shift is between 1 and the pattern length, and the positions it
   * jumps over hold characters other than `c`.
   */
  lemma ShiftBounds(pattern: seq<char>, c: char)
    requires |pattern| > 0
    ensures 1 <= Shift(pattern, c) <= |pattern|
    ensures forall t :: |pattern| - 1 - Shift(pattern, c) < t < |pattern| - 1 ==> pattern[t] != c
    ensures c in pattern[..|pattern| - 1] ==> Shift(pattern, c) < |pattern|
  {
    var m := |pattern|;
    var last := LastIndex(pattern[..m - 1], c);
    forall t | m - 1 - Shift(pattern, c) < t < m - 1 ensures pattern[t] != c {
      assert pattern[..m - 1][t] == pattern[t];
    }
    if c in pattern[..m - 1] {
      var t :| 0 <= t < m - 1 && pattern[..m - 1][t] == c;
      assert last >= t;
    }
  }

  /** The table after its first `n` entries are recorded, one per character of `p[..n]`. */
  function TableAfter(p: seq<char>, n: nat): map<char, int>
    requires n <= |p|
  {
    if n == 0 then map[] else TableAfter(p, n - 1)[p[n - 1] := |p| - n]
  }

  /**
   * Recording the characters of `p[..n]` in order leaves each one mapped to
   * its distance from the last occurrence in `p[..n]` to the end of `p`
   * (less one), and no other key.
   */
  lemma {:induction false} TableAfterEntries(p: seq<char>, n: nat)
    requires n <= |p|
    ensures forall c :: c in TableAfter(p, n) <==> c in p[..n]
    ensures forall c :: c in TableAfter(p, n) ==> TableAfter(p, n)[c] == |p| - 1 - LastIndex(p[..n], c)
  {
    if n > 0 {
      TableAfterEntries(p, n - 1);
      assert p[..n][..n - 1] == p[..n - 1];
      assert p[..n] == p[..n - 1] + [p[n - 1]];
    }
  }

  /**
   * The bad-character table: its keys are exactly the characters of
   * `pattern`, and each maps to its shift. A last character that also occurs
   * earlier keeps its earlier entry.
   */
  method BuildShiftTable(pattern: seq<char>) returns (table: map<char, int>)
    requires |pattern| > 0
    ensures forall c :: c in table <==> c in pattern
    ensures forall c :: c in table ==> table[c] == Shift(pattern, c)
  {
    var m := |pattern|;
    table := map[];
    for index := 0 to m - 1
      invariant table == TableAfter(pattern, index)
    {
      table := table[pattern[index] := m - index - 1];
    }
    TableAfterEntries(pattern, m - 1);
    var last := pattern[m - 1];
    assert pattern == pattern[..m - 1] + [last];
    if last !in table {
      table := table[last := m];
    }
  }

  /**
   * After a failed window at `i`, moving by the shift of the text character
   * under the pattern's last position skips no occurrence.
   */
  lemma ShiftSkipsNoOccurrence(text: seq<char>, pattern: seq<char>, i: int, d: int)
    requires |pattern| > 0 && 0 <= i && i + |pattern| <= |text|
    requires 1 <= d < Shift(pattern, text[i + |pattern| - 1])
    ensures !MatchesAt(text, pattern, i + d)
  {
    var m := |pattern|;
    ShiftBounds(pattern, text[i + m - 1]);
    assert pattern[m - 1 - d] != text[i + d + (m - 1 - d)];
  }

  /** The first index at which `pattern` occurs in `text`, or -1. */
  method BoyerMooreSearch(text: seq<char>, pattern: seq<char>) returns (r: int)
    requires |pattern| > 0
    ensures r == FirstOccurrence(text, pattern)
  {
    var m := |pattern|;
    var shiftTable := BuildShiftTable(pattern);
    var i := 0;
    while i <= |text| - m
      invariant 0 <= i
      invariant forall k :: 0 <= k < i ==> !MatchesAt(text, pattern, k)
      decreases |text| - i
    {
      var j := m - 1;
      while j >= 0 && text[i + j] == pattern[j]
        invariant -1 <= j < m
        invariant forall t :: j < t < m ==> text[i + t] == pattern[t]
      {
        j := j - 1;
      }

      if j < 0 {
        FirstOccurrenceAt(text, pattern, i);
        return i;
      }

      var c := text[i + m - 1];
      var shift := if c in shiftTable then shiftTable[c] else m;
      ShiftBounds(pattern, c);
      assert shift == Shift(pattern, c);
      forall k | i <= k < i + shift ensures !MatchesAt(text, pattern, k) {
        if k > i {
          ShiftSkipsNoOccurrence(text, pattern, i, k - i);
        }
      }
      i := i + shift;
    }
    NoOccurrence(text, pattern, i);
    return -1;
  }
}
