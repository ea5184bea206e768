/** The brute-force programs alg_fbruta.cpp, fuerza_bruta.cpp and
    fuerza_bruta.c++: class `f_b` enumerates every string over an alphabet,
    in alphabet order, until it meets the target, counting the full-length
    candidates it compares; `objetivoValidoParaBrute` decides whether a
    target is worth searching; the loop of `buscarCadenaEnArchivo` lists
    where a string occurs in a file's content (the content is a parameter
    here). */
module BruteForce {
  import opened TextSearch

  /** `MAX_BRUTE_LEN`. */
  const MaxBruteLen: nat := 6
  /** `ALFABETO`. */
  const Lowercase: string := "abcdefghijklmnopqrstuvwxyz"

  function Pow(b: nat, e: nat): nat
  {
    if e == 0 then 1 else b * Pow(b, e - 1)
  }

  /** The position of the first `c` in `a` (|a| when there is none): the
      loop over the alphabet tries it before any later copy. */
  function FirstIndex(a: string, c: char): (i: nat)
    ensures i <= |a| && (i < |a| <==> c in a)
    ensures i < |a| ==> a[i] == c
    ensures forall j :: 0 <= j < i ==> a[j] != c
  {
    if a == [] then 0 else if a[0] == c then 0 else 1 + FirstIndex(a[1..], c)
  }

  /** The number of candidates of length |rest| that the enumeration
      compares before `rest`: `rest` read as a number whose digits are
      alphabet positions. */
  function Rank(a: string, rest: string): nat
  {
    if rest == [] then 0 else FirstIndex(a, rest[0]) * Pow(|a|, |rest| - 1) + Rank(a, rest[1..])
  }

  /** `actual` is a prefix of the target and the rest of the target is
      spelt in the alphabet, so extending `actual` reaches the target. */
  predicate Reachable(target: string, a: string, actual: string)
  {
    && |actual| <= |target|
    && (forall i :: 0 <= i < |actual| ==> actual[i] == target[i])
    && forall i :: |actual| <= i < |target| ==> target[i] in a
  }

  /** The full-length candidates compared from `actual`: up to and
      including the target when it is reachable, all of them otherwise. */
  function Attempts(target: string, a: string, actual: string): nat
    requires |actual| <= |target|
  {
    if Reachable(target, a, actual) then 1 + Rank(a, target[|actual|..])
    else Pow(|a|, |target| - |actual|)
  }

  /** Extending `actual` by one character keeps the target reachable
      exactly when the character is the target's next one. */
  lemma ReachableStep(target: string, a: string, actual: string, c: char)
    requires |actual| < |target| && c in a
    ensures Reachable(target, a, actual + [c]) <==> Reachable(target, a, actual) && c == target[|actual|]
  {
    var n := |actual|;
    if Reachable(target, a, actual + [c]) {
      assert forall i :: 0 <= i < n ==> (actual + [c])[i] == actual[i];
    }
  }

  /** If no one-character extension reaches the target, `actual` does not. */
  lemma NoChildReaches(target: string, a: string, actual: string)
    requires |actual| < |target|
    requires forall j :: 0 <= j < |a| ==> !Reachable(target, a, actual + [a[j]])
    ensures !Reachable(target, a, actual)
  {
    if Reachable(target, a, actual) {
      var j := FirstIndex(a, target[|actual|]);
      ReachableStep(target, a, actual, a[j]);
    }
  }

  /** The first extension that reaches the target is the target's next
      character at its first alphabet position. */
  lemma FoundAt(target: string, a: string, actual: string, i: nat)
    requires |actual| < |target| && i < |a|
    requires Reachable(target, a, actual + [a[i]])
    requires forall j :: 0 <= j < i ==> !Reachable(target, a, actual + [a[j]])
    ensures Reachable(target, a, actual)
    ensures a[i] == target[|actual|] && forall j :: 0 <= j < i ==> a[j] != target[|actual|]
  {
    ReachableStep(target, a, actual, a[i]);
    EarlierMiss(target, a, actual, i);
  }

  lemma EarlierMiss(target: string, a: string, actual: string, i: nat)
    requires |actual| < |target| && i <= |a|
    requires Reachable(target, a, actual)
    requires forall j :: 0 <= j < i ==> !Reachable(target, a, actual + [a[j]])
    ensures forall j :: 0 <= j < i ==> a[j] != target[|actual|]
  {
    forall j | 0 <= j < i ensures a[j] != target[|actual|] {
      ReachableStep(target, a, actual, a[j]);
    }
  }

  lemma RankOfSuffix(target: string, a: string, n: nat, i: nat)
    requires n < |target| && i < |a|
    requires a[i] == target[n] && forall j :: 0 <= j < i ==> a[j] != target[n]
    ensures Rank(a, target[n..]) == i * Pow(|a|, |target| - n - 1) + Rank(a, target[n + 1..])
  {
    var rest := target[n..];
    assert rest[0] == target[n] && rest[1..] == target[n + 1..];
    RankUnfold(a, rest, i, Pow(|a|, |rest| - 1));
  }

  lemma RankUnfold(a: string, rest: string, d: nat, p: nat)
    requires rest != []
    requires FirstIndex(a, rest[0]) == d && Pow(|a|, |rest| - 1) == p
    ensures Rank(a, rest) == d * p + Rank(a, rest[1..])
  {
  }

  /** Whether `generar` runs at all: alg_fbruta.cpp and fuerza_bruta.cpp
      return false at once for an empty target. */
  predicate Searches(target: string, guardsEmpty: bool)
  {
    !(guardsEmpty && target == [])
  }

  /** Class `f_b`. */
  class BruteForcer {
    const target: string
    const alphabet: string
    /** Whether `generar` starts with the empty-target guard (it does in
        alg_fbruta.cpp and fuerza_bruta.cpp, not in fuerza_bruta.c++). */
    const guardsEmpty: bool
    /** `intentos` (`intento2` in fuerza_bruta.c++). */
    var attempts: nat

    constructor(target: string, alphabet: string, guardsEmpty: bool)
      ensures this.target == target && this.alphabet == alphabet && this.guardsEmpty == guardsEmpty
      ensures attempts == 0
    {
      this.target := target;
      this.alphabet := alphabet;
      this.guardsEmpty := guardsEmpty;
      attempts := 0;
    }

    /** `generar(actual)`: true when some extension of `actual` is the
        target, after counting every full-length candidate compared. */
    method Generate(actual: string) returns (found: bool)
      requires |actual| <= |target|
      modifies this
      ensures found == (Searches(target, guardsEmpty) && Reachable(target, alphabet, actual))
      ensures attempts == old(attempts) + (if Searches(target, guardsEmpty) then Attempts(target, alphabet, actual) else 0)
      decreases |target| - |actual|
    {
      if guardsEmpty && target == [] {
        return false;
      }
      if |actual| == |target| {
        attempts := attempts + 1;
        assert target[..|actual|] == target;
        return actual == target;
      }
      ghost var start := attempts;
      ghost var p := Pow(|alphabet|, |target| - |actual| - 1);
      for i := 0 to |alphabet|
        invariant attempts == start + i * p
        invariant forall j :: 0 <= j < i ==> !Reachable(target, alphabet, actual + [alphabet[j]])
      {
        var f := Generate(actual + [alphabet[i]]);
        if f {
          FoundAt(target, alphabet, actual, i);
          RankOfSuffix(target, alphabet, |actual|, i);
          return true;
        }
        assert (i + 1) * p == i * p + p;
      }
      NoChildReaches(target, alphabet, actual);
      found := false;
    }
  }

  lemma MulStep(d: nat, e: nat, p: nat)
    requires d < e
    ensures d * p + p <= e * p
  {
    var k := e - d - 1;
    assert e * p == d * p + p + k * p;
  }

  /** The rank of a reachable target is below the number of candidates, so
      a successful search never counts more than |alphabet|^|target|. */
  lemma {:induction false} RankBelow(a: string, rest: string)
    requires forall i :: 0 <= i < |rest| ==> rest[i] in a
    ensures Rank(a, rest) < Pow(|a|, |rest|)
  {
    if rest != [] {
      RankBelow(a, rest[1..]);
      var p := Pow(|a|, |rest| - 1);
      MulStep(FirstIndex(a, rest[0]), |a|, p);
    }
  }

  /** From the empty string, the search succeeds exactly when every target
      character is in the alphabet (and the guard lets it run), after
      1 + rank attempts, and otherwise counts every candidate. */
  lemma SearchFromEmpty(target: string, a: string, guardsEmpty: bool)
    requires Searches(target, guardsEmpty)
    ensures Reachable(target, a, []) <==> forall i :: 0 <= i < |target| ==> target[i] in a
    ensures Reachable(target, a, []) ==> 1 <= Attempts(target, a, []) <= Pow(|a|, |target|)
    ensures !Reachable(target, a, []) ==> Attempts(target, a, []) == Pow(|a|, |target|)
  {
    assert target[..0] == [];
    assert target[0..] == target;
    if Reachable(target, a, []) {
      RankBelow(a, target);
    }
  }

  // ---------------------------------------------------------------------
  // objetivoValidoParaBrute
  // ---------------------------------------------------------------------

  /** `tolower` on an unsigned char in the C locale. */
  function ToLower(c: char): char
  {
    if 'A' <= c <= 'Z' then (c as int + 32) as char else c
  }

  /** Non-empty, at most MaxBruteLen characters, each one in the alphabet
      once lower-cased. */
  predicate ValidTarget(target: string, a: string)
  {
    target != [] && |target| <= MaxBruteLen && forall i :: 0 <= i < |target| ==> ToLower(target[i]) in a
  }

  /** `objetivoValidoParaBrute`. */
  method IsValidTarget(target: string, a: string) returns (ok: bool)
    ensures ok == ValidTarget(target, a)
  {
    if target == [] {
      return false;
    }
    if |target| > MaxBruteLen {
      return false;
    }
    for k := 0 to |target|
      invariant forall i :: 0 <= i < k ==> ToLower(target[i]) in a
    {
      if ToLower(target[k]) !in a {
        return false;
      }
    }
    return true;
  }

  /** The validator lower-cases, the search does not: a target with an
      upper-case letter passes over a lower-case alphabet and is never
      found. */
  lemma UppercaseIsNeverFound(target: string, a: string, k: nat)
    requires k < |target| && 'A' <= target[k] <= 'Z'
    requires forall i :: 0 <= i < |a| ==> !('A' <= a[i] <= 'Z')
    ensures !Reachable(target, a, [])
  {
    assert target[k] !in a;
  }

  lemma UppercaseExample()
    ensures ValidTarget("Hola", Lowercase)
    ensures !Reachable("Hola", Lowercase, [])
  {
    assert ToLower('H') == 'h' && 'h' == Lowercase[7];
    assert 'o' == Lowercase[14] && 'l' == Lowercase[11] && 'a' == Lowercase[0];
    UppercaseIsNeverFound("Hola", Lowercase, 0);
  }

  /** The validator without lower-casing, as the search compares. */
  predicate ValidTargetExact(target: string, a: string)
  {
    target != [] && |target| <= MaxBruteLen && forall i :: 0 <= i < |target| ==> target[i] in a
  }

  /** A target that passes the exact validator is always found, within
      |alphabet|^|target| attempts. */
  lemma ExactlyValidIsFound(target: string, a: string)
    requires ValidTargetExact(target, a)
    ensures Reachable(target, a, [])
    ensures 1 <= Attempts(target, a, []) <= Pow(|a|, |target|)
  {
    SearchFromEmpty(target, a, true);
  }

  /** The first half of `main` in alg_fbruta.cpp and fuerza_bruta.cpp:
      validate the target, then search for it from the empty string. The
      search succeeds exactly for validated targets without upper-case
      letters, within 26^|target| attempts; a validated target that is not
      found costs exactly 26^|target| attempts, a rejected one none. */
  method ValidateAndSearch(target: string) returns (found: bool, attempts: nat)
    ensures found <==> ValidTarget(target, Lowercase) && Reachable(target, Lowercase, [])
    ensures found ==> 1 <= attempts <= Pow(26, |target|)
    ensures !found && ValidTarget(target, Lowercase) ==> attempts == Pow(26, |target|)
    ensures !ValidTarget(target, Lowercase) ==> attempts == 0
  {
    var ok := IsValidTarget(target, Lowercase);
    if !ok {
      return false, 0;
    }
    var brute := new BruteForcer(target, Lowercase, true);
    found := brute.Generate([]);
    attempts := brute.attempts;
    SearchFromEmpty(target, Lowercase, true);
  }

  // ---------------------------------------------------------------------
  // The occurrence loop of buscarCadenaEnArchivo
  // ---------------------------------------------------------------------

  /** `t.find(p, from)`: the first occurrence at or after `from`. */
  function FindFrom(t: string, p: string, from: nat): (r: Option<nat>)
    ensures r.Some? ==> from <= r.value && IsOccurrence(t, p, r.value)
    ensures forall s :: from <= s && IsOccurrence(t, p, s) && (r.Some? ==> s < r.value) ==> false
    decreases |t| + 1 - from
  {
    if from + |p| > |t| then None
    else if t[from..from + |p|] == p then Some(from)
    else FindFrom(t, p, from + 1)
  }

  /** The loop: find, record, find again from the next position. */
  method FindAll(t: string, p: string) returns (positions: seq<int>)
    ensures ListsOccurrences(positions, t, p)
  {
    positions := [];
    var pos := FindFrom(t, p, 0);
    while pos.Some?
      invariant StrictlyIncreasing(positions)
      invariant forall k :: 0 <= k < |positions| ==> IsOccurrence(t, p, positions[k])
      invariant pos.Some? ==> IsOccurrence(t, p, pos.value) && forall k :: 0 <= k < |positions| ==> positions[k] < pos.value
      invariant forall s :: IsOccurrence(t, p, s) && (pos.Some? ==> s < pos.value) ==> s in positions
      decreases if pos.Some? then |t| + 1 - pos.value else 0
    {
      var found := pos.value;
      positions := positions + [found];
      pos := FindFrom(t, p, found + 1);
    }
  }
}
