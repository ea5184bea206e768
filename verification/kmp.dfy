/** Knuth-Morris-Pratt search as written in alg_kmp.cpp and KMP.cpp (class
    KMPCounter: every occurrence plus a comparison counter) and in KMP.c++
    (class KMP: stop at the first occurrence). All three fill the same
    failure table ("LPS") in place. */
module Kmp {
  import opened TextSearch

  // ---------------------------------------------------------------------
  // Borders and the LPS table
  // ---------------------------------------------------------------------

  /** `b` is a proper border of `p[..n]`: its prefix of length `b` is also
      its suffix, and `b < n`. */
  predicate IsBorder(p: string, n: int, b: int)
  {
    0 <= b < n <= |p| && p[..b] == p[n - b..n]
  }

  /** `b` is the longest proper border of `p[..n]`. */
  ghost predicate LongestBorder(p: string, n: int, b: int)
  {
    IsBorder(p, n, b) && forall c :: b < c < n ==> !IsBorder(p, n, c)
  }

  /** `lps[i]` is the length of the longest proper prefix of `p[..i+1]`
      that is also a suffix of it. */
  ghost predicate IsLpsTable(p: string, lps: seq<int>)
  {
    |lps| == |p| && forall i :: 0 <= i < |p| ==> LongestBorder(p, i + 1, lps[i])
  }

  lemma LpsBounds(p: string, lps: seq<int>)
    requires IsLpsTable(p, lps)
    ensures |p| > 0 ==> lps[0] == 0
    ensures forall i :: 0 <= i < |p| ==> 0 <= lps[i] <= i
  {
    forall i | 0 <= i < |p| ensures 0 <= lps[i] <= i {
      assert LongestBorder(p, i + 1, lps[i]);
    }
  }

  /** Extending a border by one character. */
  lemma BorderExtend(p: string, n: int, b: int)
    requires 0 <= b < n < |p|
    ensures IsBorder(p, n + 1, b + 1) <==> IsBorder(p, n, b) && p[b] == p[n]
  {
    assert p[..b + 1] == p[..b] + [p[b]];
    assert p[n - b..n + 1] == p[n - b..n] + [p[n]];
    if IsBorder(p, n + 1, b + 1) {
      assert p[..b] == p[..b + 1][..b];
      assert p[n - b..n] == p[n - b..n + 1][..b];
    }
  }

  /** A border of a border: below a border `k` of `p[..n]`, the borders of
      `p[..n]` are exactly the borders of `p[..k]`. */
  lemma BorderOfBorder(p: string, n: int, k: int, c: int)
    requires IsBorder(p, n, k) && 0 <= c < k
    ensures IsBorder(p, n, c) <==> IsBorder(p, k, c)
  {
    assert p[k - c..k] == p[..k][k - c..k];
    assert p[n - c..n] == p[n - k..n][k - c..k];
  }

  /** The state of the filling loop: `len` is a border of `p[..i]`, no
      border of `p[..i]` longer than `len` extends by `p[i]`, and the table
      is right below `i`. */
  ghost predicate Filling(p: string, i: int, len: int, t: seq<int>)
  {
    && 1 <= i <= |p| && |t| == |p|
    && IsBorder(p, i, len)
    && (forall b :: len < b < i && IsBorder(p, i, b) && i < |p| ==> p[b] != p[i])
    && (forall q :: 0 <= q < i ==> LongestBorder(p, q + 1, t[q]))
  }

  /** `p[i] == p[len]`: the border grows by one and is the longest. */
  lemma FillMatch(p: string, i: int, len: int, t: seq<int>)
    requires Filling(p, i, len, t) && i < |p| && p[i] == p[len]
    ensures Filling(p, i + 1, len + 1, t[i := len + 1])
  {
    var n := i + 1;
    BorderExtend(p, i, len);
    forall c | len + 1 < c < n ensures !IsBorder(p, n, c) {
      BorderExtend(p, i, c - 1);
    }
    var t' := t[i := len + 1];
    forall q | 0 <= q < i + 1 ensures LongestBorder(p, q + 1, t'[q]) {
      if q < i {
        assert t'[q] == t[q];
      }
    }
  }

  /** A mismatch with `len > 0`: fall back to the longest border of the
      border, skipping no border that could still extend. */
  lemma FillFallback(p: string, i: int, len: int, t: seq<int>)
    requires Filling(p, i, len, t) && i < |p| && p[i] != p[len] && len != 0
    ensures 0 <= t[len - 1] < len && Filling(p, i, t[len - 1], t)
  {
    var shorter := t[len - 1];
    assert LongestBorder(p, len, shorter);
    BorderOfBorder(p, i, len, shorter);
    forall b | shorter < b < i && IsBorder(p, i, b) && i < |p| ensures p[b] != p[i] {
      if b < len {
        BorderOfBorder(p, i, len, b);
      }
    }
  }

  /** A mismatch with `len == 0`: `p[..i+1]` has no non-empty border. */
  lemma FillSkip(p: string, i: int, t: seq<int>)
    requires Filling(p, i, 0, t) && i < |p| && p[i] != p[0]
    ensures Filling(p, i + 1, 0, t[i := 0])
  {
    var n := i + 1;
    forall c | 0 < c < n ensures !IsBorder(p, n, c) {
      BorderExtend(p, i, c - 1);
    }
    assert IsBorder(p, n, 0);
    var t' := t[i := 0];
    forall q | 0 <= q < i + 1 ensures LongestBorder(p, q + 1, t'[q]) {
      if q < i {
        assert t'[q] == t[q];
      }
    }
  }

  /** Fills `lps` (already sized to the pattern) exactly as
      `construirLPS` does: `i` walks the pattern, `len` is the current
      candidate border and falls back through the table on a mismatch. */
  method FillLps(p: string, lps: array<int>)
    requires lps.Length == |p|
    modifies lps
    ensures IsLpsTable(p, lps[..])
  {
    var m := |p|;
    // lps.assign(m, 0)
    var k := 0;
    while k < m
      invariant 0 <= k <= m
      invariant forall q :: 0 <= q < k ==> lps[q] == 0
    {
      lps[k] := 0;
      k := k + 1;
    }
    if m == 0 {
      return;
    }
    assert LongestBorder(p, 1, 0);
    var len := 0;
    var i := 1;
    while i < m
      invariant Filling(p, i, len, lps[..])
      decreases m - i, len
    {
      if p[i] == p[len] {
        FillMatch(p, i, len, lps[..]);
        len := len + 1;
        lps[i] := len;
        i := i + 1;
      } else if len != 0 {
        FillFallback(p, i, len, lps[..]);
        len := lps[len - 1];
      } else {
        FillSkip(p, i, lps[..]);
        lps[i] := 0;
        i := i + 1;
      }
    }
  }

  // ---------------------------------------------------------------------
  // Search invariants shared by both searchers
  // ---------------------------------------------------------------------

  /** The alignment of `p` that starts at `s` has matched the whole text
      read so far (`t[s..i]`) and is not complete yet. */
  predicate Alive(t: string, p: string, s: int, i: int)
  {
    0 <= s <= i <= |t| && i < s + |p| && t[s..i] == p[..i - s]
  }

  /** No alignment starting before `lo` is still alive at `i`. */
  ghost predicate NoAliveBefore(t: string, p: string, lo: int, i: int)
  {
    forall s :: 0 <= s < lo && Alive(t, p, s, i) ==> false
  }

  /** `j` characters of the pattern are matched against the text ending at
      `i`, and every longer live alignment has already been ruled out by
      the next text character. */
  ghost predicate SearchState(t: string, p: string, i: int, j: int)
  {
    && 0 <= j < |p| && j <= i <= |t|
    && t[i - j..i] == p[..j]
    && forall s :: 0 <= s < i - j && Alive(t, p, s, i) && i < |t| ==> p[i - s] != t[i]
  }

  lemma AliveShrinks(t: string, p: string, s: int, i: int)
    requires 0 <= s <= i < |t| && i + 1 < s + |p|
    ensures Alive(t, p, s, i + 1) <==> Alive(t, p, s, i) && p[i - s] == t[i]
  {
    assert t[s..i + 1] == t[s..i] + [t[i]];
    assert p[..i + 1 - s] == p[..i - s] + [p[i - s]];
    if Alive(t, p, s, i + 1) {
      assert t[s..i] == t[s..i + 1][..i - s];
      assert p[..i - s] == p[..i + 1 - s][..i - s];
    }
  }

  /** A live alignment inside the current match of length `j` is a border
      of `p[..j]`. */
  lemma AliveIsBorder(t: string, p: string, i: int, j: int, s: int)
    requires 0 <= j <= |p| && j <= i <= |t| && t[i - j..i] == p[..j]
    requires i - j < s <= i && Alive(t, p, s, i)
    ensures IsBorder(p, j, i - s)
  {
    assert t[s..i] == t[i - j..i][s - (i - j)..];
    assert p[j - (i - s)..j] == p[..j][s - (i - j)..];
  }

  /** The occurrence that ends at `i + 1` is one the searcher cannot miss:
      if it exists, the alignment it starts is the current one. */
  lemma OccurrenceEndingNextIsCurrent(t: string, p: string, i: int, j: int)
    requires SearchState(t, p, i, j) && i < |t|
    requires IsOccurrence(t, p, i + 1 - |p|)
    ensures j == |p| - 1 && t[i] == p[j]
  {
    var m := |p|;
    var s := i + 1 - m;
    assert t[s..i + 1] == p;
    assert t[i] == p[m - 1] by { assert t[s..i + 1][m - 1] == t[i]; }
    if s < i - j {
      assert t[s..i] == t[s..i + 1][..m - 1];
      assert Alive(t, p, s, i);
    }
  }

  /** After a character match no live alignment is left behind the
      current one. */
  lemma MatchStep(t: string, p: string, i: int, j: int)
    requires SearchState(t, p, i, j) && i < |t| && t[i] == p[j]
    ensures t[i + 1 - (j + 1)..i + 1] == p[..j + 1]
    ensures NoAliveBefore(t, p, i - j, i + 1)
  {
    assert t[i - j..i + 1] == t[i - j..i] + [t[i]];
    assert p[..j + 1] == p[..j] + [p[j]];
    var next := i + 1;
    forall s | 0 <= s < i - j && Alive(t, p, s, next) ensures false {
      AliveShrinks(t, p, s, i);
    }
  }

  /** On a mismatch with `j > 0` the match falls back to `lps[j - 1]`
      without losing any alignment. */
  lemma FallbackStep(t: string, p: string, lps: seq<int>, i: int, j: int)
    requires IsLpsTable(p, lps)
    requires SearchState(t, p, i, j) && i < |t| && 0 < j && t[i] != p[j]
    ensures SearchState(t, p, i, lps[j - 1])
  {
    var k := lps[j - 1];
    assert LongestBorder(p, j, k);
    assert t[i - k..i] == t[i - j..i][j - k..];
    assert p[..k] == p[..j][j - k..];
    forall s | 0 <= s < i - k && Alive(t, p, s, i) && i < |t| ensures p[i - s] != t[i] {
      if i - j < s {
        AliveIsBorder(t, p, i, j, s);
      }
    }
  }

  /** On a mismatch with `j == 0` the text index moves on; nothing is
      missed and no occurrence ends at the new index. */
  lemma AdvanceStep(t: string, p: string, i: int)
    requires SearchState(t, p, i, 0) && i < |t| && t[i] != p[0]
    ensures SearchState(t, p, i + 1, 0)
    ensures !IsOccurrence(t, p, i + 1 - |p|)
  {
    var next := i + 1;
    forall s | 0 <= s < next && Alive(t, p, s, next) ensures false {
      if s < i {
        AliveShrinks(t, p, s, i);
      }
    }
    if IsOccurrence(t, p, i + 1 - |p|) {
      OccurrenceEndingNextIsCurrent(t, p, i, 0);
    }
  }

  /** Right after a complete match, resuming at `lps[m - 1]` is a valid
      search state. */
  lemma ResumeAfterMatch(t: string, p: string, lps: seq<int>, i: int)
    requires IsLpsTable(p, lps) && 0 < |p| <= i <= |t|
    requires t[i - |p|..i] == p
    ensures SearchState(t, p, i, lps[|p| - 1])
  {
    var m := |p|;
    var k := lps[m - 1];
    assert LongestBorder(p, m, k);
    assert t[i - k..i] == t[i - m..i][m - k..];
    assert p[..k] == p[..m][m - k..];
    forall s | 0 <= s < i - k && Alive(t, p, s, i) ensures false {
      AliveIsBorder(t, p, i, m, s);
    }
  }

  /** After a character match that does not complete the pattern, the new
      state is a search state and no occurrence ends at the new index. */
  lemma PartialMatchStep(t: string, p: string, i: int, j: int)
    requires SearchState(t, p, i, j) && i < |t| && t[i] == p[j] && j + 1 < |p|
    ensures SearchState(t, p, i + 1, j + 1)
    ensures !IsOccurrence(t, p, i + 1 - |p|)
  {
    MatchStep(t, p, i, j);
    if IsOccurrence(t, p, i + 1 - |p|) {
      OccurrenceEndingNextIsCurrent(t, p, i, j);
    }
  }

  /** A complete match is the occurrence that ends at the new index. */
  lemma FullMatchStep(t: string, p: string, i: int, j: int)
    requires SearchState(t, p, i, j) && i < |t| && t[i] == p[j] && j + 1 == |p|
    ensures IsOccurrence(t, p, i + 1 - |p|)
  {
    MatchStep(t, p, i, j);
  }

  function Positions(results: seq<(nat, nat)>): (ps: seq<int>)
    ensures |ps| == |results|
    ensures forall k :: 0 <= k < |results| ==> ps[k] == results[k].0
  {
    seq(|results|, k requires 0 <= k < |results| => results[k].0 as int)
  }

  function Counts(results: seq<(nat, nat)>): (cs: seq<int>)
    ensures |cs| == |results|
    ensures forall k :: 0 <= k < |results| ==> cs[k] == results[k].1
  {
    seq(|results|, k requires 0 <= k < |results| => results[k].1 as int)
  }

  /** `results` records, in ascending order, exactly the occurrences that
      end at or before text index `i`. */
  ghost predicate ResultsUpTo(results: seq<(nat, nat)>, t: string, p: string, i: int)
  {
    && StrictlyIncreasing(Positions(results))
    && (forall k :: 0 <= k < |results| ==> IsOccurrence(t, p, results[k].0) && results[k].0 + |p| <= i)
    && (forall s :: IsOccurrence(t, p, s) && s + |p| <= i ==> s in Positions(results))
  }

  /** The recorded comparison counts are positive, strictly increasing and
      bounded by the running total. */
  ghost predicate CountsUpTo(results: seq<(nat, nat)>, total: int)
  {
    && (forall k :: 0 <= k < |results| ==> 0 < results[k].1 <= total)
    && StrictlyIncreasing(Counts(results))
  }

  lemma ResultsSkip(results: seq<(nat, nat)>, t: string, p: string, i: int)
    requires ResultsUpTo(results, t, p, i) && !IsOccurrence(t, p, i + 1 - |p|)
    ensures ResultsUpTo(results, t, p, i + 1)
  {
  }

  lemma ResultsRecord(results: seq<(nat, nat)>, t: string, p: string, i: int, count: nat)
    requires 0 < |p| && ResultsUpTo(results, t, p, i) && IsOccurrence(t, p, i + 1 - |p|)
    ensures ResultsUpTo(results + [((i + 1 - |p|) as nat, count)], t, p, i + 1)
  {
    var r := results + [((i + 1 - |p|) as nat, count)];
    assert Positions(r) == Positions(results) + [i + 1 - |p|];
  }

  lemma CountsRecord(results: seq<(nat, nat)>, total: int, position: nat, count: nat)
    requires CountsUpTo(results, total) && 0 <= total < count
    ensures CountsUpTo(results + [(position, count)], count)
  {
    var cs := Counts(results + [(position, count)]);
    assert cs == Counts(results) + [count];
    forall a, b | 0 <= a < b < |cs| ensures cs[a] < cs[b] {
      if b < |results| {
        assert cs[a] == Counts(results)[a] && cs[b] == Counts(results)[b];
      } else {
        assert cs[a] == results[a].1;
      }
    }
  }

  /** Everything the counting search knows between two iterations: the
      search state, the occurrences recorded so far and the comparison
      counts, of which there are at least one per consumed character and
      at most two per consumed character minus the current match. */
  ghost predicate CounterInv(t: string, p: string, lps: seq<int>, results: seq<(nat, nat)>,
                             total: int, i: int, j: int)
  {
    && IsLpsTable(p, lps)
    && SearchState(t, p, i, j)
    && ResultsUpTo(results, t, p, i)
    && CountsUpTo(results, total)
    && i <= total <= 2 * i - j
  }

  lemma CounterPartialMatch(t: string, p: string, lps: seq<int>, results: seq<(nat, nat)>,
                            total: int, i: int, j: int)
    requires CounterInv(t, p, lps, results, total, i, j)
    requires i < |t| && t[i] == p[j] && j + 1 < |p|
    ensures CounterInv(t, p, lps, results, total + 1, i + 1, j + 1)
  {
    PartialMatchStep(t, p, i, j);
    ResultsSkip(results, t, p, i);
  }

  /** A complete match has just been counted: `i` and `total` already
      include the last comparison. */
  lemma CounterFullMatch(t: string, p: string, lps: seq<int>, results: seq<(nat, nat)>,
                         total: nat, i: int, j: int)
    requires j == |p| && CounterInv(t, p, lps, results, total - 1, i - 1, j - 1)
    requires i - 1 < |t| && t[i - 1] == p[j - 1]
    ensures 0 <= lps[j - 1] < j
    ensures CounterInv(t, p, lps, results + [((i - j) as nat, total)], total, i, lps[j - 1])
  {
    LpsBounds(p, lps);
    FullMatchStep(t, p, i - 1, j - 1);
    ResultsRecord(results, t, p, i - 1, total);
    CountsRecord(results, total - 1, (i - j) as nat, total);
    ResumeAfterMatch(t, p, lps, i);
  }

  lemma CounterFallback(t: string, p: string, lps: seq<int>, results: seq<(nat, nat)>,
                        total: int, i: int, j: int)
    requires CounterInv(t, p, lps, results, total, i, j)
    requires i < |t| && t[i] != p[j] && j != 0
    ensures 0 <= lps[j - 1] < j
    ensures CounterInv(t, p, lps, results, total + 1, i, lps[j - 1])
  {
    LpsBounds(p, lps);
    FallbackStep(t, p, lps, i, j);
  }

  lemma CounterAdvance(t: string, p: string, lps: seq<int>, results: seq<(nat, nat)>,
                       total: int, i: int)
    requires CounterInv(t, p, lps, results, total, i, 0)
    requires i < |t| && t[i] != p[0]
    ensures CounterInv(t, p, lps, results, total + 1, i + 1, 0)
  {
    AdvanceStep(t, p, i);
    ResultsSkip(results, t, p, i);
  }

  /** The counting search's variables between two iterations. */
  datatype Counter = Counter(results: seq<(nat, nat)>, total: nat, i: int, j: int)

  /** One iteration of the counting search's loop: compare, move `i` and
      `j`, count, and record a complete match. */
  function CounterNext(t: string, p: string, lps: seq<int>, c: Counter): Counter
    requires 0 <= c.j <= c.i < |t| && c.j < |p| == |lps|
    requires forall q :: 0 <= q < |lps| ==> 0 <= lps[q] <= q
  {
    if t[c.i] == p[c.j] then
      if c.j + 1 == |p| then
        Counter(c.results + [((c.i + 1 - |p|) as nat, c.total + 1)], c.total + 1, c.i + 1, lps[|p| - 1])
      else
        Counter(c.results, c.total + 1, c.i + 1, c.j + 1)
    else if c.j != 0 then Counter(c.results, c.total + 1, c.i, lps[c.j - 1])
    else Counter(c.results, c.total + 1, c.i + 1, c.j)
  }

  /** The loop's step keeps CounterInv and decreases 2n - 2i + j. */
  lemma CounterStep(t: string, p: string, lps: seq<int>, c: Counter)
    requires CounterInv(t, p, lps, c.results, c.total, c.i, c.j) && c.i < |t|
    requires forall q :: 0 <= q < |lps| ==> 0 <= lps[q] <= q
    ensures CounterInv(t, p, lps, CounterNext(t, p, lps, c).results, CounterNext(t, p, lps, c).total,
                       CounterNext(t, p, lps, c).i, CounterNext(t, p, lps, c).j) == true
    ensures 2 * CounterNext(t, p, lps, c).i - CounterNext(t, p, lps, c).j > 2 * c.i - c.j
  {
    var Counter(results, total, i, j) := c;
    var d := CounterNext(t, p, lps, c);
    if t[i] == p[j] {
      if j + 1 < |p| {
        assert d == Counter(results, total + 1, i + 1, j + 1);
        CounterPartialMatch(t, p, lps, results, total, i, j);
      } else {
        assert d == Counter(results + [((i + 1 - j - 1) as nat, total + 1)], total + 1, i + 1, lps[j]);
        CounterFullMatch(t, p, lps, results, total + 1, i + 1, j + 1);
      }
    } else if j != 0 {
      assert d == Counter(results, total + 1, i, lps[j - 1]);
      CounterFallback(t, p, lps, results, total, i, j);
    } else {
      assert d == Counter(results, total + 1, i + 1, 0);
      CounterAdvance(t, p, lps, results, total, i);
    }
  }

  // ---------------------------------------------------------------------
  // KMPCounter (alg_kmp.cpp, KMP.cpp)
  // ---------------------------------------------------------------------

  class KmpCounter {
    const patron: string
    var lps: array<int>

    ghost predicate Valid()
      reads this, lps
    {
      lps.Length == |patron| && IsLpsTable(patron, lps[..])
    }

    /** The constructor stores the pattern and builds its LPS table. */
    constructor (p: string)
      ensures patron == p && Valid() && fresh(lps)
    {
      patron := p;
      var table := new int[|p|];
      FillLps(p, table);
      lps := table;
    }

    /** `buscarEnTextoConContador`: every (overlapping) occurrence, each with
        the number of comparisons made when it was found, and the total
        number of comparisons. */
    method SearchWithCounter(texto: string) returns (results: seq<(nat, nat)>, total: nat)
      requires Valid()
      ensures |patron| == 0 || |texto| == 0 || |patron| > |texto| ==> results == [] && total == 0
      ensures |patron| > 0 ==> ListsOccurrences(Positions(results), texto, patron)
      ensures 0 < |patron| <= |texto| ==> |texto| <= total <= 2 * |texto|
      ensures CountsUpTo(results, total)
    {
      results := [];
      total := 0;
      var n := |texto|;
      var m := |patron|;
      if m == 0 || n == 0 || m > n {
        return;
      }
      ghost var table := lps[..];
      LpsBounds(patron, table);
      var i := 0;
      var j := 0;
      while i < n
        invariant CounterInv(texto, patron, table, results, total, i, j)
        decreases 2 * n - 2 * i + j
      {
        ghost var before := Counter(results, total, i, j);
        if texto[i] == patron[j] {
          i := i + 1;
          j := j + 1;
        } else if j != 0 {
          j := lps[j - 1];
        } else {
          i := i + 1;
        }
        total := total + 1;
        if j == m {
          results := results + [((i - j) as nat, total)];
          j := lps[j - 1];
        }
        assert Counter(results, total, i, j) == CounterNext(texto, patron, table, before);
        CounterStep(texto, patron, table, before);
      }
    }
  }

  // ---------------------------------------------------------------------
  // KMP (KMP.c++): first match only
  // ---------------------------------------------------------------------

  /** `patron[j]` as std::string reads it: the position just past the end
      holds the terminating NUL. */
  function CharAt(s: string, j: nat): char
  {
    if j < |s| then s[j] else '\0'
  }

  /** No occurrence of `p` ends at or before text index `i`. */
  ghost predicate NoOccurrenceBy(t: string, p: string, i: int)
  {
    forall s :: IsOccurrence(t, p, s) ==> i < s + |p|
  }

  /** Everything the first-match search knows between two iterations. An
      empty pattern never gets past the first iteration. */
  ghost predicate FirstInv(t: string, p: string, lps: seq<int>, i: int, j: int)
  {
    && IsLpsTable(p, lps)
    && (|p| == 0 ==> i == 0 && j == 0)
    && (|p| > 0 ==> SearchState(t, p, i, j) && NoOccurrenceBy(t, p, i))
  }

  lemma FirstMatchChar(t: string, p: string, lps: seq<int>, i: int, j: int)
    requires |p| > 0 && FirstInv(t, p, lps, i, j) && i < |t| && t[i] == p[j]
    ensures j + 1 < |p| ==> FirstInv(t, p, lps, i + 1, j + 1)
    ensures j + 1 == |p| ==> IsOccurrence(t, p, i + 1 - |p|)
  {
    if j + 1 < |p| {
      PartialMatchStep(t, p, i, j);
    } else {
      FullMatchStep(t, p, i, j);
    }
  }

  lemma FirstFallback(t: string, p: string, lps: seq<int>, i: int, j: int)
    requires |p| > 0 && FirstInv(t, p, lps, i, j) && i < |t| && t[i] != p[j] && j != 0
    ensures 0 <= lps[j - 1] < j
    ensures FirstInv(t, p, lps, i, lps[j - 1])
  {
    LpsBounds(p, lps);
    FallbackStep(t, p, lps, i, j);
  }

  lemma FirstAdvance(t: string, p: string, lps: seq<int>, i: int)
    requires |p| > 0 && FirstInv(t, p, lps, i, 0) && i < |t| && t[i] != p[0]
    ensures FirstInv(t, p, lps, i + 1, 0)
  {
    AdvanceStep(t, p, i);
  }

  class KmpFirstMatch {
    const texto: string
    const patron: string
    var lps: array<int>

    ghost predicate Valid()
      reads this, lps
    {
      lps.Length == |patron| && IsLpsTable(patron, lps[..])
    }

    constructor (t: string, p: string)
      ensures texto == t && patron == p && Valid() && fresh(lps)
    {
      texto := t;
      patron := p;
      var table := new int[|p|];
      FillLps(p, table);
      lps := table;
    }

    /** `buscar`: whether the pattern occurs in the text. An empty pattern
        is read through its terminating NUL, so a text that starts with NUL
        would make the loop read past the pattern; that is excluded. */
    method Search() returns (encontrado: bool)
      requires Valid()
      requires |patron| > 0 || |texto| == 0 || texto[0] != '\0'
      ensures encontrado <==> |texto| > 0 && Occurs(texto, patron)
    {
      encontrado := false;
      var n := |texto|;
      var m := |patron|;
      ghost var table := lps[..];
      var i := 0;
      var j := 0;
      while i < n
        invariant FirstInv(texto, patron, table, i, j)
        decreases 2 * n - 2 * i + j
      {
        if texto[i] == CharAt(patron, j) {
          FirstMatchChar(texto, patron, table, i, j);
          i := i + 1;
          j := j + 1;
        }
        if j == m {
          encontrado := true;
          assert IsOccurrence(texto, patron, i - m);
          break;
        } else if i < n && texto[i] != patron[j] {
          if j != 0 {
            FirstFallback(texto, patron, table, i, j);
            j := lps[j - 1];
          } else {
            FirstAdvance(texto, patron, table, i);
            i := i + 1;
          }
        }
      }
    }
  }

  /** The program's own example: "ABABACA" occurs in "PALRANABABACA". */
  lemma BuiltInExampleIsFound()
    ensures Occurs("PALRANABABACA", "ABABACA")
  {
    assert "PALRANABABACA"[6..13] == "ABABACA";
    assert IsOccurrence("PALRANABABACA", "ABABACA", 6);
  }
}
