/**
 * Knuth-Morris-Pratt exact substring search (KMP.java).
 *
 * The failure function and the match list are each specified by a brute-force
 * reference definition (LongestBorder, Occurrences); the two imperative
 * algorithms ComputeLps and Search are proved equal to them.
 */
module Kmp {
  import opened Wrappers

  // ---------------------------------------------------------------------------
  // Borders: the reference definition of the failure function
  // ---------------------------------------------------------------------------

  /** b is the length of a proper border of p[..n]: a prefix of p[..n], shorter
      than p[..n], that is also a suffix of it. */
  predicate IsBorder(p: string, n: nat, b: nat)
  {
    b < n <= |p| && forall k :: 0 <= k < b ==> p[k] == p[n - b + k]
  }

  /** p[..n] has no proper border longer than lo. */
  predicate NoBorderAbove(p: string, n: nat, lo: nat)
  {
    forall c: nat :: lo < c < n ==> !IsBorder(p, n, c)
  }

  /** The pointwise border predicate is exactly "the length-b prefix of p[..n]
      equals its length-b suffix". */
  lemma BorderAsSlices(p: string, n: nat, b: nat)
    requires n <= |p|
    ensures IsBorder(p, n, b) <==> b < n && p[..b] == p[n - b..n]
  {
    if b < n && p[..b] == p[n - b..n] {
      forall k | 0 <= k < b ensures p[k] == p[n - b + k] {
        assert p[..b][k] == p[n - b..n][k];
      }
    }
    if IsBorder(p, n, b) {
      assert forall k :: 0 <= k < b ==> p[..b][k] == p[n - b..n][k];
    }
  }

  /** Largest border of p[..n] not longer than b, searching downward. */
  function LongestBorderFrom(p: string, n: nat, b: nat): (r: nat)
    requires b < n <= |p|
    requires NoBorderAbove(p, n, b)
    ensures r <= b
    decreases b
  {
    if b == 0 || IsBorder(p, n, b) then b else LongestBorderFrom(p, n, b - 1)
  }

  /** The downward search stops at a border, and skips none. */
  lemma {:induction false} LongestBorderFromSpec(p: string, n: nat, b: nat)
    requires b < n <= |p|
    requires NoBorderAbove(p, n, b)
    ensures IsBorder(p, n, LongestBorderFrom(p, n, b))
    ensures NoBorderAbove(p, n, LongestBorderFrom(p, n, b))
    decreases b
  {
    if b != 0 && !IsBorder(p, n, b) {
      LongestBorderFromSpec(p, n, b - 1);
    }
  }

  /** The length of the longest proper border of the non-empty prefix p[..n]:
      what lps[n - 1] holds. */
  function LongestBorder(p: string, n: nat): (r: nat)
    requires 0 < n <= |p|
    ensures r < n
  {
    LongestBorderFrom(p, n, n - 1)
  }

  /** LongestBorder(p, n) is a border of p[..n], and no border is longer. */
  lemma LongestBorderSpec(p: string, n: nat)
    requires 0 < n <= |p|
    ensures IsBorder(p, n, LongestBorder(p, n))
    ensures forall c: nat :: IsBorder(p, n, c) ==> c <= LongestBorder(p, n)
  {
    LongestBorderFromSpec(p, n, n - 1);
  }

  /** A border of p[..n+1] of positive length comes from a border of p[..n]
      one shorter, followed by the same character. */
  lemma BorderShrinks(p: string, n: nat, b: nat)
    requires IsBorder(p, n + 1, b + 1)
    ensures IsBorder(p, n, b) && p[b] == p[n]
  {
    assert p[b] == p[n + 1 - (b + 1) + b];
  }

  /** Inside a border of length k of p[..n], the shorter borders of p[..n] are
      exactly the borders of p[..k]. */
  lemma BorderOfBorder(p: string, n: nat, k: nat, c: nat)
    requires IsBorder(p, n, k) && c < k
    ensures IsBorder(p, n, c) <==> IsBorder(p, k, c)
  {
    if IsBorder(p, n, c) {
      forall t | 0 <= t < c ensures p[t] == p[k - c + t] {
        assert p[t] == p[n - c + t];
        assert p[k - c + t] == p[n - k + (k - c + t)];
      }
    }
    if IsBorder(p, k, c) {
      forall t | 0 <= t < c ensures p[t] == p[n - c + t] {
        assert p[t] == p[k - c + t];
        assert p[k - c + t] == p[n - k + (k - c + t)];
      }
    }
  }

  /** The lps value of the first character is 0, and every value is bounded by
      its index: the properties KMP.java states for its array. */
  lemma {:induction false} LongestBorderBounds(p: string, i: nat)
    requires i < |p|
    ensures LongestBorder(p, i + 1) <= i
    ensures i == 0 ==> LongestBorder(p, 1) == 0
    ensures p[..LongestBorder(p, i + 1)] == p[i + 1 - LongestBorder(p, i + 1)..i + 1]
    ensures forall c :: LongestBorder(p, i + 1) < c <= i ==> p[..c] != p[i + 1 - c..i + 1]
  {
    LongestBorderSpec(p, i + 1);
    LongestAsSlices(p, i + 1, LongestBorder(p, i + 1));
  }

  /** A border that no other border exceeds, stated on slices. */
  lemma LongestAsSlices(p: string, n: nat, r: nat)
    requires n <= |p| && IsBorder(p, n, r)
    requires forall c: nat :: IsBorder(p, n, c) ==> c <= r
    ensures p[..r] == p[n - r..n]
    ensures forall c :: r < c < n ==> p[..c] != p[n - c..n]
  {
    BorderAsSlices(p, n, r);
    forall c | r < c < n ensures p[..c] != p[n - c..n] {
      BorderAsSlices(p, n, c);
    }
  }

  // ---------------------------------------------------------------------------
  // computeLPS
  // ---------------------------------------------------------------------------

  /** Builds the failure function of the pattern (KMP.java, computeLPS).
      `steps` counts loop iterations: at most 2m, the linear bound. */
  method ComputeLps(pattern: string) returns (lps: array<int>, ghost steps: nat)
    ensures lps.Length == |pattern|
    ensures forall i :: 0 <= i < |pattern| ==> lps[i] == LongestBorder(pattern, i + 1)
    ensures steps <= 2 * |pattern|
  {
    var m := |pattern|;
    lps := new int[m];
    steps := 0;
    if m == 0 {
      return;
    }
    lps[0] := 0;
    assert IsLpsPrefix(pattern, lps[..], 1);
    var len := 0;
    var i := 1;
    while i < m
      invariant 1 <= i <= m && 0 <= len < i
      invariant IsBorder(pattern, i, len)
      invariant NoBorderAbove(pattern, i + 1, len + 1)
      invariant IsLpsPrefix(pattern, lps[..], i)
      invariant steps <= 2 * i - len
      decreases 2 * (m - i) + len
    {
      steps := steps + 1;
      ghost var before := lps[..];
      if pattern[i] == pattern[len] {
        LpsExtend(pattern, i, len);
        len := len + 1;
        lps[i] := len;
        LpsPrefixGrows(pattern, before, i, len);
        i := i + 1;
      } else if len != 0 {
        LpsFallBack(pattern, i, len);
        LpsPrefixAt(pattern, before, i, len - 1);
        len := lps[len - 1];
      } else {
        LpsRestart(pattern, i);
        lps[i] := 0;
        LpsPrefixGrows(pattern, before, i, 0);
        i := i + 1;
      }
    }
    LpsPrefixAll(pattern, lps[..]);
  }

  /** The first i entries of a are the longest borders of the prefixes of p
      that they stand for. */
  predicate IsLpsPrefix(p: string, a: seq<int>, i: nat)
  {
    && i <= |a| && i <= |p|
    && forall k :: 0 <= k < i ==> a[k] == LongestBorder(p, k + 1)
  }

  lemma LpsPrefixAt(p: string, a: seq<int>, i: nat, k: nat)
    requires IsLpsPrefix(p, a, i) && k < i
    ensures a[k] == LongestBorder(p, k + 1)
  {
  }

  lemma LpsPrefixGrows(p: string, a: seq<int>, i: nat, v: int)
    requires IsLpsPrefix(p, a, i) && i < |a| && i < |p| && v == LongestBorder(p, i + 1)
    ensures IsLpsPrefix(p, a[i := v], i + 1)
  {
  }

  lemma LpsPrefixAll(p: string, a: seq<int>)
    requires IsLpsPrefix(p, a, |p|)
    ensures forall i :: 0 <= i < |p| ==> a[i] == LongestBorder(p, i + 1)
  {
  }

  /** computeLPS, matching step: the candidate border grows by one and is the
      longest; the invariant then holds for the next index. */
  lemma LpsExtend(p: string, i: nat, len: nat)
    requires 0 <= len < i < |p| && p[i] == p[len]
    requires IsBorder(p, i, len)
    requires NoBorderAbove(p, i + 1, len + 1)
    ensures LongestBorder(p, i + 1) == len + 1
    ensures NoBorderAbove(p, i + 2, len + 2)
  {
    BorderGrows(p, i, len);
    LongestBorderSpec(p, i + 1);
    if i + 1 < |p| {
      NoBorderAboveGrows(p, i + 1, len + 1);
    }
  }

  /** A border followed by the character after it is a border one longer. */
  lemma BorderGrows(p: string, n: nat, b: nat)
    requires IsBorder(p, n, b) && n < |p| && p[n] == p[b]
    ensures IsBorder(p, n + 1, b + 1)
  {
  }

  /** A bound on the borders of p[..n] bounds those of p[..n+1], one higher. */
  lemma NoBorderAboveGrows(p: string, n: nat, lo: nat)
    requires n < |p| && NoBorderAbove(p, n, lo)
    ensures NoBorderAbove(p, n + 1, lo + 1)
  {
    var next := n + 1;
    forall b: nat | lo + 1 < b < next ensures !IsBorder(p, next, b) {
      if IsBorder(p, next, b) {
        BorderShrinks(p, n, b - 1);
      }
    }
  }

  /** computeLPS, fallback step: replacing len by lps[len - 1] keeps len a
      border of p[..i] and skips no border of p[..i+1]. */
  lemma LpsFallBack(p: string, i: nat, len: nat)
    requires 0 < len < i < |p| && p[i] != p[len]
    requires IsBorder(p, i, len)
    requires NoBorderAbove(p, i + 1, len + 1)
    ensures IsBorder(p, i, LongestBorder(p, len))
    ensures NoBorderAbove(p, i + 1, LongestBorder(p, len) + 1)
  {
    var r := LongestBorder(p, len);
    LongestBorderSpec(p, len);
    BorderOfBorder(p, i, len, r);
    var next := i + 1;
    forall b: nat | r + 1 < b < next ensures !IsBorder(p, next, b) {
      if b <= len + 1 && IsBorder(p, next, b) {
        BorderShrinks(p, i, b - 1);
        if b - 1 < len {
          BorderOfBorder(p, i, len, b - 1);
        }
      }
    }
  }

  /** computeLPS, mismatch with len == 0: the prefix p[..i+1] has no positive
      border, and the invariant holds for the next index with len == 0. */
  lemma LpsRestart(p: string, i: nat)
    requires 0 < i < |p| && p[i] != p[0]
    requires NoBorderAbove(p, i + 1, 1)
    ensures LongestBorder(p, i + 1) == 0
    ensures NoBorderAbove(p, i + 2, 1)
  {
    LongestBorderSpec(p, i + 1);
    var next := i + 2;
    forall b: nat | 1 < b < next ensures !IsBorder(p, next, b) {
      if IsBorder(p, next, b) {
        BorderShrinks(p, i + 1, b - 1);
      }
    }
  }

  // ---------------------------------------------------------------------------
  // Occurrences: the brute-force reference definition of search
  // ---------------------------------------------------------------------------

  /** The pattern occurs in the text at offset k. */
  predicate MatchAt(text: string, pattern: string, k: nat)
  {
    k + |pattern| <= |text| && forall t :: 0 <= t < |pattern| ==> text[k + t] == pattern[t]
  }

  predicate StrictlyIncreasing(s: seq<nat>)
  {
    forall a, b :: 0 <= a < b < |s| ==> s[a] < s[b]
  }

  /** The offsets below k where the pattern occurs, scanned left to right. */
  function MatchesBelow(text: string, pattern: string, k: nat): seq<nat>
    decreases k
  {
    if k == 0 then []
    else MatchesBelow(text, pattern, k - 1) + (if MatchAt(text, pattern, k - 1) then [k - 1] else [])
  }

  /** MatchesBelow lists exactly the matches below k, in strictly increasing order. */
  lemma {:induction false} MatchesBelowSpec(text: string, pattern: string, k: nat)
    ensures forall x: nat :: x in MatchesBelow(text, pattern, k) <==> x < k && MatchAt(text, pattern, x)
    ensures StrictlyIncreasing(MatchesBelow(text, pattern, k))
    decreases k
  {
    if k > 0 {
      MatchesBelowSpec(text, pattern, k - 1);
      var below := MatchesBelow(text, pattern, k - 1);
      assert forall a :: 0 <= a < |below| ==> below[a] in below;
    }
  }

  /** Every offset of the text, the one just past its end included, where the
      pattern occurs. */
  function Occurrences(text: string, pattern: string): (r: seq<nat>)
    ensures forall x: nat :: x in r <==> MatchAt(text, pattern, x)
    ensures StrictlyIncreasing(r)
  {
    MatchesBelowSpec(text, pattern, |text| + 1);
    MatchesBelow(text, pattern, |text| + 1)
  }

  /** MatchAt is the slice comparison text[k..k+m] == pattern. */
  lemma MatchAtAsSlice(text: string, pattern: string, k: nat)
    ensures MatchAt(text, pattern, k) <==>
              k + |pattern| <= |text| && text[k..k + |pattern|] == pattern
  {
    if k + |pattern| <= |text| && text[k..k + |pattern|] == pattern {
      forall t | 0 <= t < |pattern| ensures text[k + t] == pattern[t] {
        assert text[k..k + |pattern|][t] == text[k + t];
      }
    }
    if MatchAt(text, pattern, k) {
      assert text[k..k + |pattern|] == pattern;
    }
  }

  /** Soundness and completeness of the reference definition, in the terms of
      an offset and a slice. */
  lemma OccurrencesBySlice(text: string, pattern: string, k: nat)
    ensures k in Occurrences(text, pattern) <==>
              k + |pattern| <= |text| && text[k..k + |pattern|] == pattern
  {
    MatchAtAsSlice(text, pattern, k);
  }

  /** The empty pattern occurs at every offset 0..n. */
  lemma {:induction false} EmptyPatternMatchesBelow(text: string, k: nat)
    requires k <= |text| + 1
    ensures MatchesBelow(text, [], k) == seq(k, x => x)
  {
    if k > 0 {
      EmptyPatternMatchesBelow(text, k - 1);
      assert MatchAt(text, [], k - 1);
    }
  }

  lemma EmptyPatternOccurrences(text: string)
    ensures Occurrences(text, []) == seq(|text| + 1, x => x)
    ensures |Occurrences(text, [])| == |text| + 1
  {
    EmptyPatternMatchesBelow(text, |text| + 1);
  }

  /** A non-empty pattern does not occur in the empty text. */
  lemma EmptyTextOccurrences(pattern: string)
    requires pattern != []
    ensures Occurrences([], pattern) == []
  {
    NoMatchesBetween([], pattern, 0, 1);
  }

  /** Offsets in [a, b) that are not matches contribute nothing. */
  lemma {:induction false} NoMatchesBetween(text: string, pattern: string, a: nat, b: nat)
    requires a <= b
    requires forall s :: a <= s < b ==> !MatchAt(text, pattern, s)
    ensures MatchesBelow(text, pattern, b) == MatchesBelow(text, pattern, a)
    decreases b
  {
    if a < b {
      NoMatchesBetween(text, pattern, a, b - 1);
    }
  }

  /** After matching pattern[..j] against text[i-j..i], falling back to the
      longest border b of pattern[..j] skips no occurrence: no offset strictly
      between i - j and i - b is a match. */
  lemma SkipIsSafe(text: string, pattern: string, i: nat, j: nat)
    requires 0 < j <= |pattern| && j <= i <= |text|
    requires forall t :: 0 <= t < j ==> text[i - j + t] == pattern[t]
    ensures forall s :: i - j < s < i - LongestBorder(pattern, j) ==> !MatchAt(text, pattern, s)
    ensures forall t :: 0 <= t < LongestBorder(pattern, j) ==>
              text[i - LongestBorder(pattern, j) + t] == pattern[t]
  {
    var b := LongestBorder(pattern, j);
    LongestBorderSpec(pattern, j);
    forall s | i - j < s < i - b ensures !MatchAt(text, pattern, s) {
      if MatchAt(text, pattern, s) {
        var c := i - s;
        forall t | 0 <= t < c ensures pattern[t] == pattern[j - c + t] {
          assert text[s + t] == pattern[t];
          assert text[i - j + (j - c + t)] == pattern[j - c + t];
        }
        assert IsBorder(pattern, j, c);
      }
    }
    forall t | 0 <= t < b ensures text[i - b + t] == pattern[t] {
      assert text[i - j + (j - b + t)] == pattern[j - b + t];
    }
  }

  // ---------------------------------------------------------------------------
  // search
  // ---------------------------------------------------------------------------

  /** All start offsets of the pattern in the text (KMP.java, search). A null
      text or pattern (None) gives no matches; the empty pattern matches at
      0..n; otherwise the two-pointer scan runs. `steps` counts the scan's
      iterations: at most 2n. */
  method Search(text: Option<string>, pattern: Option<string>)
    returns (matches: seq<nat>, ghost steps: nat)
    ensures text.None? || pattern.None? ==> matches == []
    ensures text.Some? && pattern.Some? ==> matches == Occurrences(text.value, pattern.value)
    ensures text.Some? ==> steps <= 2 * |text.value|
  {
    matches := [];
    steps := 0;
    if pattern.None? || text.None? {
      return;
    }
    var t, p := text.value, pattern.value;
    var n, m := |t|, |p|;
    if m == 0 {
      for i := 0 to n + 1
        invariant matches == seq(i, x => x)
      {
        matches := matches + [i];
      }
      EmptyPatternOccurrences(t);
      return;
    }
    var lps, _ := ComputeLps(p);
    assert IsLpsPrefix(p, lps[..], m);

    var i: nat, j: nat := 0, 0;
    while i < n
      invariant IsLpsPrefix(p, lps[..], m)
      invariant ScanInvariant(t, p, i, j, matches)
      invariant steps <= 2 * i - j
      decreases 2 * (n - i) + j
    {
      steps := steps + 1;
      if t[i] == p[j] {
        if j + 1 == m {
          ScanRecord(t, p, i, j, matches);
          matches := matches + [i - j];
        } else {
          ScanAdvanceBoth(t, p, i, j, matches);
        }
        i, j := i + 1, j + 1;
        if j == m {
          LpsPrefixAt(p, lps[..], m, j - 1);
          j := lps[j - 1];
        }
      } else if j != 0 {
        ScanFallBack(t, p, i, j, matches);
        LpsPrefixAt(p, lps[..], m, j - 1);
        j := lps[j - 1];
      } else {
        ScanAdvanceText(t, p, i, matches);
        i := i + 1;
      }
    }
    ScanDone(t, p, j, matches);
  }

  /** The invariant of the two-pointer scan: text[i-j..i] == pattern[..j] with
      j < m, and the matches recorded so far are exactly the occurrences that
      start before i - j. */
  predicate ScanInvariant(t: string, p: string, i: nat, j: nat, matches: seq<nat>)
  {
    && j < |p| && j <= i <= |t|
    && (forall k :: 0 <= k < j ==> t[i - j + k] == p[k])
    && matches == MatchesBelow(t, p, i - j)
  }

  /** Scan step: a matching character that does not complete the pattern. */
  lemma ScanAdvanceBoth(t: string, p: string, i: nat, j: nat, matches: seq<nat>)
    requires ScanInvariant(t, p, i, j, matches) && i < |t| && t[i] == p[j] && j + 1 < |p|
    ensures ScanInvariant(t, p, i + 1, j + 1, matches)
  {
  }

  /** Scan step: a matching character that completes the pattern records the
      offset and falls back to the longest border of the whole pattern. */
  lemma ScanRecord(t: string, p: string, i: nat, j: nat, matches: seq<nat>)
    requires ScanInvariant(t, p, i, j, matches) && i < |t| && t[i] == p[j] && j + 1 == |p|
    ensures ScanInvariant(t, p, i + 1, LongestBorder(p, |p|), matches + [i - j])
  {
    var b := LongestBorder(p, |p|);
    assert MatchAt(t, p, i - j) by {
      assert forall k :: 0 <= k < |p| ==> t[i - j + k] == p[k];
    }
    SkipIsSafe(t, p, i + 1, |p|);
    RecordStep(t, p, i - j, i + 1 - b, matches);
  }

  /** A match at s followed by no match before e: the matches below e are
      those below s, then s. */
  lemma RecordStep(t: string, p: string, s: nat, e: nat, matches: seq<nat>)
    requires s < e && MatchAt(t, p, s) && matches == MatchesBelow(t, p, s)
    requires forall x :: s < x < e ==> !MatchAt(t, p, x)
    ensures MatchesBelow(t, p, e) == matches + [s]
  {
    assert MatchesBelow(t, p, s + 1) == matches + [s];
    NoMatchesBetween(t, p, s + 1, e);
  }

  /** Scan step: a mismatch with j > 0 falls back to the longest border of
      pattern[..j] without moving in the text. */
  lemma ScanFallBack(t: string, p: string, i: nat, j: nat, matches: seq<nat>)
    requires ScanInvariant(t, p, i, j, matches) && i < |t| && t[i] != p[j] && j > 0
    ensures ScanInvariant(t, p, i, LongestBorder(p, j), matches)
  {
    assert !MatchAt(t, p, i - j) by {
      assert t[i - j + j] != p[j];
    }
    NoMatchesBetween(t, p, i - j, i - j + 1);
    SkipIsSafe(t, p, i, j);
    NoMatchesBetween(t, p, i - j + 1, i - LongestBorder(p, j));
  }

  /** Scan step: a mismatch with j == 0 moves on in the text. */
  lemma ScanAdvanceText(t: string, p: string, i: nat, matches: seq<nat>)
    requires ScanInvariant(t, p, i, 0, matches) && i < |t| && t[i] != p[0]
    ensures ScanInvariant(t, p, i + 1, 0, matches)
  {
    assert !MatchAt(t, p, i) by {
      assert t[i + 0] != p[0];
    }
    NoMatchesBetween(t, p, i, i + 1);
  }

  /** At the end of the text the recorded matches are all occurrences: no
      occurrence can start in the last j < m positions. */
  lemma ScanDone(t: string, p: string, j: nat, matches: seq<nat>)
    requires ScanInvariant(t, p, |t|, j, matches)
    ensures matches == Occurrences(t, p)
  {
    NoMatchesBetween(t, p, |t| - j, |t| + 1);
  }

  // ---------------------------------------------------------------------------
  // Worked examples
  // ---------------------------------------------------------------------------

  /** Overlapping occurrences are all reported. */
  lemma OverlappingExample()
    ensures Occurrences("aaaa", "aa") == [0, 1, 2]
  {
    var t, p := "aaaa", "aa";
    assert MatchAt(t, p, 0) && MatchAt(t, p, 1) && MatchAt(t, p, 2);
    assert !MatchAt(t, p, 3) && !MatchAt(t, p, 4);
    assert MatchesBelow(t, p, 1) == [0];
    assert MatchesBelow(t, p, 2) == [0, 1];
    assert MatchesBelow(t, p, 3) == [0, 1, 2];
    NoMatchesBetween(t, p, 3, 5);
  }

  lemma NoMatchExample()
    ensures Occurrences("abcdef", "xyz") == []
  {
    var t, p := "abcdef", "xyz";
    forall k: nat ensures !MatchAt(t, p, k) {
      assert k + |p| <= |t| ==> t[k + 0] != p[0];
    }
    NoMatchesBetween(t, p, 0, |t| + 1);
  }

  lemma WholeTextExample()
    ensures Occurrences("abc", "abc") == [0]
  {
    var t, p := "abc", "abc";
    assert MatchAt(t, p, 0);
    assert !MatchAt(t, p, 1) && !MatchAt(t, p, 2) && !MatchAt(t, p, 3);
    assert MatchesBelow(t, p, 1) == [0];
    NoMatchesBetween(t, p, 1, 4);
  }
}
