/**
 * Knuth–Morris–Pratt substring search (`compute_lps` and `kmp_search` in
 * task3.py): a table of longest prefix-suffix lengths, then one left-to-right
 * pass over the text that never moves its text cursor backwards.
 */
module Kmp {
  import opened Occurrences

  /**
   * `b` is a border of `p[..n]`: a proper prefix of `p[..n]` of length `b`
   * that is also a suffix of it.
   */
  ghost predicate IsBorder(p: seq<char>, n: nat, b: int)
    requires n <= |p|
  {
    0 <= b < n && p[..b] == p[n - b..n]
  }

  /** The border condition, position by position. */
  lemma BorderAt(p: seq<char>, n: nat, b: int)
    requires n <= |p| && 0 <= b < n
    ensures IsBorder(p, n, b) <==> forall t :: 0 <= t < b ==> p[t] == p[n - b + t]
  {
    if forall t :: 0 <= t < b ==> p[t] == p[n - b + t] {
      assert forall t :: 0 <= t < b ==> p[..b][t] == p[n - b..n][t];
    }
    if IsBorder(p, n, b) {
      forall t | 0 <= t < b ensures p[t] == p[n - b + t] {
        assert p[..b][t] == p[n - b..n][t];
      }
    }
  }

  /** `b` is the longest border of `p[..n]`: the LPS value at index `n - 1`. */
  ghost predicate IsLongestBorder(p: seq<char>, n: nat, b: int)
    requires n <= |p|
  {
    IsBorder(p, n, b) && forall b' {:trigger IsBorder(p, n, b')} :: IsBorder(p, n, b') ==> b' <= b
  }

  /**
   * No border of `p[..i]` longer than `length` can be extended by `p[i]`:
   * the state of the LPS fall-back chain while it looks for the next value.
   */
  ghost predicate NoLongerBorderExtends(p: seq<char>, i: nat, length: int)
    requires i < |p|
  {
    forall b {:trigger IsBorder(p, i, b)} :: IsBorder(p, i, b) && b > length ==> p[b] != p[i]
  }

  /** Dropping the last character of a non-empty border leaves a border one shorter. */
  lemma BorderShrink(p: seq<char>, n: nat, b: int)
    requires n < |p| && IsBorder(p, n + 1, b) && b > 0
    ensures IsBorder(p, n, b - 1) && p[b - 1] == p[n]
  {
    BorderAt(p, n + 1, b);
    BorderAt(p, n, b - 1);
    forall t | 0 <= t < b - 1 ensures p[t] == p[n - (b - 1) + t] {
      assert p[t] == p[n + 1 - b + t];
    }
    assert p[b - 1] == p[n + 1 - b + (b - 1)];
  }

  /** A border of `p[..n]` followed by the same character as `p[n]` extends to a border of `p[..n+1]`. */
  lemma BorderExtend(p: seq<char>, n: nat, b: int)
    requires n < |p| && IsBorder(p, n, b) && p[b] == p[n]
    ensures IsBorder(p, n + 1, b + 1)
  {
    BorderAt(p, n, b);
    BorderAt(p, n + 1, b + 1);
    forall t | 0 <= t < b + 1 ensures p[t] == p[n + 1 - (b + 1) + t] {
      if t < b {
        assert p[t] == p[n - b + t];
      }
    }
  }

  /** A border of a border of `p[..n]` is a border of `p[..n]`. */
  lemma BorderOfBorder(p: seq<char>, n: nat, u: int, v: int)
    requires n <= |p| && IsBorder(p, n, u) && IsBorder(p, u, v)
    ensures IsBorder(p, n, v)
  {
    BorderAt(p, n, u);
    BorderAt(p, u, v);
    BorderAt(p, n, v);
    forall t | 0 <= t < v ensures p[t] == p[n - v + t] {
      assert p[t] == p[u - v + t];
      assert p[u - v + t] == p[n - u + (u - v + t)];
    }
  }

  /** A shorter border of `p[..n]` is a border of any longer one. */
  lemma ShorterBorderIsBorderOfBorder(p: seq<char>, n: nat, u: int, v: int)
    requires n <= |p| && IsBorder(p, n, u) && IsBorder(p, n, v) && v < u
    ensures IsBorder(p, u, v)
  {
    BorderAt(p, n, u);
    BorderAt(p, n, v);
    BorderAt(p, u, v);
    forall t | 0 <= t < v ensures p[t] == p[u - v + t] {
      assert p[t] == p[n - v + t];
      assert p[u - v + t] == p[n - u + (u - v + t)];
    }
  }

  /** Matching branch of the LPS loop: the running border extends to the longest border of `p[..i+1]`. */
  lemma LpsExtendStep(p: seq<char>, i: nat, length: int)
    requires i < |p| && IsBorder(p, i, length) && p[i] == p[length]
    requires NoLongerBorderExtends(p, i, length)
    ensures IsLongestBorder(p, i + 1, length + 1)
  {
    BorderExtend(p, i, length);
    var n := i + 1;
    forall b | IsBorder(p, n, b) ensures b <= length + 1 {
      if b > 0 {
        BorderShrink(p, i, b);
      }
    }
  }

  /**
   * Fall-back branch of the LPS loop: after a mismatch, `lps[length - 1]` is
   * still a border of `p[..i]` and no border between it and `length` extends.
   */
  lemma LpsFallbackStep(p: seq<char>, i: nat, length: int, fallback: int)
    requires i < |p| && IsBorder(p, i, length) && length > 0 && p[i] != p[length]
    requires NoLongerBorderExtends(p, i, length)
    requires IsLongestBorder(p, length, fallback)
    ensures IsBorder(p, i, fallback) && fallback < length
    ensures NoLongerBorderExtends(p, i, fallback)
  {
    BorderOfBorder(p, i, length, fallback);
    forall b | IsBorder(p, i, b) && b > fallback ensures p[b] != p[i] {
      if b < length {
        ShorterBorderIsBorderOfBorder(p, i, length, b);
      }
    }
  }

  /** Zero branch of the LPS loop: when not even the empty border extends, the LPS value is 0. */
  lemma LpsZeroStep(p: seq<char>, i: nat)
    requires 0 < i < |p| && p[i] != p[0]
    requires NoLongerBorderExtends(p, i, 0)
    ensures IsLongestBorder(p, i + 1, 0)
  {
    var n := i + 1;
    forall b | IsBorder(p, n, b) ensures b <= 0 {
      if b > 0 {
        BorderShrink(p, i, b);
      }
    }
  }

  /**
   * The LPS table of `pattern`: entry `k` is the length of the longest proper
   * prefix of `pattern[..k+1]` that is also a suffix of it.
   */
  method ComputeLps(pattern: seq<char>) returns (lps: seq<int>)
    ensures |lps| == |pattern|
    ensures |pattern| > 0 ==> lps[0] == 0
    ensures forall k :: 0 <= k < |pattern| ==> 0 <= lps[k] <= k
    ensures forall k :: 0 <= k < |pattern| ==> IsLongestBorder(pattern, k + 1, lps[k])
  {
    var m := |pattern|;
    var table := new int[m](_ => 0);
    var length := 0;
    var i := 1;
    while i < m
      invariant table.Length == m
      invariant 1 <= i && (m == 0 || i <= m)
      invariant 0 <= length < i
      invariant m > 0 ==> IsBorder(pattern, i, length)
      invariant i < m ==> NoLongerBorderExtends(pattern, i, length)
      invariant forall k :: 0 <= k < i && k < m ==> IsLongestBorder(pattern, k + 1, table[k])
      decreases m - i, length
    {
      if pattern[i] == pattern[length] {
        LpsExtendStep(pattern, i, length);
        length := length + 1;
        table[i] := length;
        i := i + 1;
      } else if length != 0 {
        LpsFallbackStep(pattern, i, length, table[length - 1]);
        length := table[length - 1];
      } else {
        LpsZeroStep(pattern, i);
        table[i] := 0;
        i := i + 1;
      }
    }
    lps := table[..];
  }

  /**
   * On a mismatch after `j` matched characters, falling back to the longest
   * border `j'` of `pattern[..j]` skips no occurrence: every start between
   * `i - j` and `i - j'` fails.
   */
  lemma FallbackSkipsNoOccurrence(text: seq<char>, pattern: seq<char>, i: int, j: int, j': int, k: int)
    requires 0 < j < |pattern| && j <= i < |text|
    requires forall t :: 0 <= t < j ==> text[i - j + t] == pattern[t]
    requires text[i] != pattern[j]
    requires IsLongestBorder(pattern, j, j')
    requires i - j <= k < i - j'
    ensures !MatchesAt(text, pattern, k)
  {
    if MatchesAt(text, pattern, k) {
      if k != i - j {
        var b := i - k;
        assert j' < b < j;
        forall t | 0 <= t < b ensures pattern[t] == pattern[j - b + t] {
          assert text[k + t] == pattern[t];
          assert text[i - j + (j - b + t)] == pattern[j - b + t];
        }
        BorderAt(pattern, j, b);
      }
    }
  }

  /** The first index at which `pattern` occurs in `text`, or -1. */
  method KmpSearch(text: seq<char>, pattern: seq<char>) returns (r: int)
    requires |pattern| > 0
    ensures r == FirstOccurrence(text, pattern)
  {
    var m := |pattern|;
    var n := |text|;
    var lps := ComputeLps(pattern);
    var i, j := 0, 0;
    while i < n
      invariant 0 <= j < m && j <= i <= n
      invariant forall t :: 0 <= t < j ==> text[i - j + t] == pattern[t]
      invariant forall k :: 0 <= k < i - j ==> !MatchesAt(text, pattern, k)
      decreases n - i, j
    {
      if pattern[j] == text[i] {
        i := i + 1;
        j := j + 1;
      } else if j != 0 {
        var j' := lps[j - 1];
        forall k | i - j <= k < i - j' ensures !MatchesAt(text, pattern, k) {
          FallbackSkipsNoOccurrence(text, pattern, i, j, j', k);
        }
        forall t | 0 <= t < j' ensures text[i - j' + t] == pattern[t] {
          assert pattern[t] == pattern[j - j' + t];
          assert text[i - j + (j - j' + t)] == pattern[j - j' + t];
        }
        j := j';
      } else {
        assert !MatchesAt(text, pattern, i) by {
          if i + m <= n {
            assert text[i + 0] != pattern[0];
          }
        }
        i := i + 1;
      }

      if j == m {
        FirstOccurrenceAt(text, pattern, i - j);
        return i - j;
      }
    }
    NoOccurrence(text, pattern, i - j);
    return -1;
  }
}
