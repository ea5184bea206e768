/** Occurrences of a pattern inside a text, shared by the KMP searchers and
    by the occurrence loop of the brute-force program. */
module TextSearch {

  datatype Option<T> = None | Some(value: T)

  /** The pattern `p` starts at index `s` of the text `t`. */
  predicate IsOccurrence(t: string, p: string, s: int)
  {
    0 <= s && s + |p| <= |t| && t[s..s + |p|] == p
  }

  /** `p` occurs somewhere in `t`. */
  predicate Occurs(t: string, p: string)
  {
    exists s :: 0 <= s <= |t| - |p| && IsOccurrence(t, p, s)
  }

  predicate StrictlyIncreasing(ps: seq<int>)
  {
    forall i, j :: 0 <= i < j < |ps| ==> ps[i] < ps[j]
  }

  /** `ps` lists every start index of `p` in `t`, overlapping ones
      included, each once and in ascending order. */
  ghost predicate ListsOccurrences(ps: seq<int>, t: string, p: string)
  {
    && StrictlyIncreasing(ps)
    && (forall i :: 0 <= i < |ps| ==> IsOccurrence(t, p, ps[i]))
    && (forall s :: IsOccurrence(t, p, s) ==> s in ps)
  }

  /** The head of an ascending list is its least element, and its tail
      holds exactly the elements above the head. */
  lemma HeadIsLeast(a: seq<int>)
    requires StrictlyIncreasing(a) && a != []
    ensures forall x :: x in a ==> a[0] <= x
    ensures forall x :: x in a[1..] <==> x in a && a[0] < x
  {
    forall x | x in a ensures a[0] <= x {
      var k :| 0 <= k < |a| && a[k] == x;
      assert k == 0 || a[0] < a[k];
    }
    forall x | x in a && a[0] < x ensures x in a[1..] {
      var k :| 0 <= k < |a| && a[k] == x;
      assert a[1..][k - 1] == x;
    }
  }

  /** Two ascending lists with the same elements are the same list. */
  lemma {:induction false} IncreasingListsWithSameElementsAreEqual(a: seq<int>, b: seq<int>)
    requires StrictlyIncreasing(a) && StrictlyIncreasing(b)
    requires forall x :: x in a <==> x in b
    ensures a == b
  {
    if a != [] {
      assert a[0] in a;
    }
    if b != [] {
      assert b[0] in b;
    }
    if a != [] && b != [] {
      HeadIsLeast(a);
      HeadIsLeast(b);
      assert a[0] in b && b[0] in a;
      assert a[0] == b[0];
      IncreasingListsWithSameElementsAreEqual(a[1..], b[1..]);
      assert a == [a[0]] + a[1..];
      assert b == [b[0]] + b[1..];
    }
  }

  /** The occurrence list is unique: whatever produces a list satisfying
      ListsOccurrences produces the same list. */
  lemma OccurrenceListIsUnique(ps: seq<int>, qs: seq<int>, t: string, p: string)
    requires ListsOccurrences(ps, t, p) && ListsOccurrences(qs, t, p)
    ensures ps == qs
  {
    forall x ensures x in ps <==> x in qs {
      if x in ps {
        var i :| 0 <= i < |ps| && ps[i] == x;
        assert IsOccurrence(t, p, ps[i]);
      }
      if x in qs {
        var i :| 0 <= i < |qs| && qs[i] == x;
        assert IsOccurrence(t, p, qs[i]);
      }
    }
    IncreasingListsWithSameElementsAreEqual(ps, qs);
  }
}
