/**
 * Rabin–Karp substring search (`polynomial_hash` and `rabin_karp_search` in
 * task3.py): a polynomial hash with base 256 and modulus 101 over a window
 * that slides one character at a time, each hash hit confirmed by a full
 * comparison of the window with the pattern.
 */
module RabinKarp {
  import opened Occurrences
  import opened Modular

  const Base: int := 256
  const Modulus: int := 101

  /** The code point of a character, as Python's `ord` gives it. */
  function Code(c: char): int
  {
    c as int
  }

  /** `b` raised to the power `e`, as Python's integer `pow`. */
  function Pow(b: int, e: nat): int
  {
    if e == 0 then 1 else b * Pow(b, e - 1)
  }

  /**
   * The first `i` terms of the hash polynomial of `s`:
   * the sum over `k < i` of `ord(s[k]) * base^(|s| - 1 - k)`.
   */
  function Weighted(s: seq<char>, base: int, i: nat): int
    requires i <= |s|
  {
    if i == 0 then 0
    else Weighted(s, base, i - 1) + Code(s[i - 1]) * Pow(base, |s| - i)
  }

  /** The hash polynomial of `s` evaluated at `base`, before reduction. */
  function Value(s: seq<char>, base: int): int
  {
    Weighted(s, base, |s|)
  }

  /** The polynomial hash of `s`: its polynomial value reduced modulo `modulus`. */
  function Hash(s: seq<char>, base: int, modulus: int): int
    requires modulus > 0
  {
    Value(s, base) % modulus
  }

  /** Dropping the last character divides every earlier term by one power of the base. */
  lemma {:induction false} WeightedDropLast(s: seq<char>, base: int, i: nat)
    requires i < |s|
    ensures Weighted(s, base, i) == Weighted(s[..|s| - 1], base, i) * base
  {
    if i > 0 {
      WeightedDropLast(s, base, i - 1);
      var n := |s|;
      assert s[..n - 1][i - 1] == s[i - 1];
      assert Pow(base, n - i) == base * Pow(base, n - 1 - i);
      calc {
        Weighted(s, base, i);
        Weighted(s[..n - 1], base, i - 1) * base + Code(s[i - 1]) * (base * Pow(base, n - 1 - i));
        (Weighted(s[..n - 1], base, i - 1) + Code(s[i - 1]) * Pow(base, n - 1 - i)) * base;
      }
    }
  }

  /** Horner's rule: the value of `s` is the value of `s` without its last character, times the base, plus that character. */
  lemma ValueSnoc(s: seq<char>, base: int)
    requires |s| > 0
    ensures Value(s, base) == Value(s[..|s| - 1], base) * base + Code(s[|s| - 1])
  {
    WeightedDropLast(s, base, |s| - 1);
  }

  /** Dropping the first character removes its term and leaves the others unchanged. */
  lemma {:induction false} WeightedDropFirst(s: seq<char>, base: int, i: nat)
    requires 1 <= i <= |s|
    ensures Weighted(s, base, i) == Code(s[0]) * Pow(base, |s| - 1) + Weighted(s[1..], base, i - 1)
  {
    if i > 1 {
      WeightedDropFirst(s, base, i - 1);
      assert s[1..][i - 2] == s[i - 1];
    }
  }

  /** The value of `s` is its leading term plus the value of the rest. */
  lemma ValueCons(s: seq<char>, base: int)
    requires |s| > 0
    ensures Value(s, base) == Code(s[0]) * Pow(base, |s| - 1) + Value(s[1..], base)
  {
    WeightedDropFirst(s, base, |s|);
  }

  /** One step of the hashing loop keeps the running hash equal to the reduced partial sum. */
  lemma HashStep(w: int, c: int, p: int, h: int, modulus: int)
    requires modulus > 0 && h == w % modulus
    ensures (h + c * (p % modulus)) % modulus == (w + c * p) % modulus
  {
    ModCongruent(w, modulus);
    CongruentLinear(h, w, 1, c * (p % modulus), modulus);
    ModCongruent(p, modulus);
    CongruentLinear(p % modulus, p, c, w, modulus);
  }

  /** The polynomial hash of `s`, accumulated term by term and reduced after every step. */
  method PolynomialHash(s: seq<char>, base: int, modulus: int) returns (hashValue: int)
    requires modulus > 0
    ensures 0 <= hashValue < modulus
    ensures hashValue == Hash(s, base, modulus)
  {
    var n := |s|;
    hashValue := 0;
    for i := 0 to n
      invariant hashValue == Weighted(s, base, i) % modulus
    {
      var powerOfBase := Pow(base, n - i - 1) % modulus;
      HashStep(Weighted(s, base, i), Code(s[i]), Pow(base, n - i - 1), hashValue, modulus);
      hashValue := (hashValue + Code(s[i]) * powerOfBase) % modulus;
    }
  }

  /**
   * Sliding a window one place: the next window's value is the current one
   * without the outgoing character's term, shifted by the base, plus the
   * incoming character.
   */
  lemma RollingValue(text: seq<char>, i: nat, m: nat, base: int)
    requires m > 0 && i + m < |text|
    ensures Value(text[i + 1..i + 1 + m], base)
            == (Value(text[i..i + m], base) - Code(text[i]) * Pow(base, m - 1)) * base + Code(text[i + m])
  {
    var w, w' := text[i..i + m], text[i + 1..i + 1 + m];
    ValueCons(w, base);
    ValueSnoc(w', base);
    assert w[1..] == w'[..m - 1];
  }

  /** The reduced update arithmetic agrees, modulo `modulus`, with the exact one. */
  lemma RollingCongruence(v: int, p: int, c: int, d: int, h: int, hm: int, base: int, modulus: int)
    requires modulus > 0 && h == v % modulus && hm == p % modulus
    ensures ((h - c * hm) % modulus * base + d) % modulus == ((v - c * p) * base + d) % modulus
  {
    ModCongruent(v, modulus);
    ModCongruent(p, modulus);
    CongruentRemoveTerm(h, v, hm, p, c, modulus);
    var e := h - c * hm;
    ModCongruent(e, modulus);
    var h1 := e % modulus;
    assert Congruent(h1, v - c * p, modulus);
    CongruentLinear(h1, v - c * p, base, d, modulus);
  }

  /**
   * The rolling update of the search loop: from the hash of the window at
   * `i` it computes the hash of the window at `i + 1`.
   */
  lemma RollingUpdate(text: seq<char>, i: nat, m: nat, h: int, hm: int, base: int, modulus: int)
    requires modulus > 0 && m > 0 && i + m < |text|
    requires h == Hash(text[i..i + m], base, modulus)
    requires hm == Pow(base, m - 1) % modulus
    ensures ((h - Code(text[i]) * hm) % modulus * base + Code(text[i + m])) % modulus
            == Hash(text[i + 1..i + 1 + m], base, modulus)
  {
    RollingValue(text, i, m, base);
    RollingCongruence(Value(text[i..i + m], base), Pow(base, m - 1), Code(text[i]), Code(text[i + m]),
                      h, hm, base, modulus);
  }

  /** The first index at which `pattern` occurs in `text`, or -1. */
  method RabinKarpSearch(text: seq<char>, pattern: seq<char>) returns (r: int)
    requires |pattern| > 0
    ensures r == FirstOccurrence(text, pattern)
  {
    var m := |pattern|;
    var n := |text|;
    var patternHash := PolynomialHash(pattern, Base, Modulus);
    var sliceHash := PolynomialHash(text[..if m <= n then m else n], Base, Modulus);
    var hMultiplier := Pow(Base, m - 1) % Modulus;

    var i := 0;
    while i < n - m + 1
      invariant 0 <= i && (i <= n - m + 1 || i == 0)
      invariant i + m <= n ==> sliceHash == Hash(text[i..i + m], Base, Modulus)
      invariant forall k :: 0 <= k < i ==> !MatchesAt(text, pattern, k)
      decreases n - m + 1 - i
    {
      MatchesAtSlice(text, pattern, i);
      if patternHash == sliceHash {
        if text[i..i + m] == pattern {
          FirstOccurrenceAt(text, pattern, i);
          return i;
        }
      }

      if i < n - m {
        RollingUpdate(text, i, m, sliceHash, hMultiplier, Base, Modulus);
        sliceHash := (sliceHash - Code(text[i]) * hMultiplier) % Modulus;
        sliceHash := (sliceHash * Base + Code(text[i + m])) % Modulus;
        if sliceHash < 0 {
          // A remainder by a positive modulus is never negative.
          assert false;
          sliceHash := sliceHash + Modulus;
        }
      }
      i := i + 1;
    }
    NoOccurrence(text, pattern, i);
    return -1;
  }
}
