/** The Huffman coder shared by alg_huffman.cpp, prueba_alg_huffman.cpp and
    prueba_alg_huffman.c++ (the three differ only in printing and in how
    the message is read): count the characters, build the tree by merging
    the two lightest trees until one is left, label the paths to the leaves
    '0' (left) and '1' (right), encode by concatenating labels and decode by
    walking the tree.

    The pointer tree becomes a datatype; the priority queue becomes a
    sequence from which a lightest tree is taken (ties are left to the heap
    in the source and are not modelled). Counting, tree building, encoding
    and decoding are methods with loops proved equal to functions; the
    label map is a function, as the recursion that fills it only computes
    it. */
module Huffman {

  // ---------------------------------------------------------------------
  // Counting
  // ---------------------------------------------------------------------

  /** The frequency map `freq` after `freq[c]++` for every character. */
  function Count(msg: string): map<char, int>
  {
    if msg == [] then map[]
    else
      var m := Count(msg[..|msg| - 1]);
      var c := msg[|msg| - 1];
      m[c := (if c in m then m[c] else 0) + 1]
  }

  /** The counting loop of `main`. */
  method CountFrequencies(msg: string) returns (freq: map<char, int>)
    ensures freq == Count(msg)
  {
    freq := map[];
    for k := 0 to |msg|
      invariant freq == Count(msg[..k])
    {
      assert msg[..k + 1][..k] == msg[..k];
      var c := msg[k];
      var old_count := if c in freq then freq[c] else 0;
      freq := freq[c := old_count + 1];
    }
    assert msg[..|msg|] == msg;
  }

  /** The keys are the characters of the message, each counted as often as
      it occurs. */
  lemma {:induction false} CountIsMultiplicity(msg: string)
    ensures forall c :: c in Count(msg) <==> c in msg
    ensures forall c :: c in Count(msg) ==> Count(msg)[c] == multiset(msg)[c]
  {
    if msg != [] {
      var p := msg[..|msg| - 1];
      CountIsMultiplicity(p);
      assert msg == p + [msg[|msg| - 1]];
      assert multiset(msg) == multiset(p) + multiset{msg[|msg| - 1]};
    }
  }

  /** The sum of the values of `f` over `keys`. */
  ghost function SumOver(f: map<char, int>, keys: set<char>): int
    requires keys <= f.Keys
    decreases keys
  {
    if keys == {} then 0
    else
      var c :| c in keys;
      f[c] + SumOver(f, keys - {c})
  }

  /** The sum does not depend on which key is taken first. */
  lemma {:induction false} SumRemove(f: map<char, int>, keys: set<char>, x: char)
    requires keys <= f.Keys && x in keys
    ensures SumOver(f, keys) == f[x] + SumOver(f, keys - {x})
    decreases keys
  {
    var y :| y in keys && SumOver(f, keys) == f[y] + SumOver(f, keys - {y});
    if y != x {
      SumRemove(f, keys - {y}, x);
      SumRemove(f, keys - {x}, y);
      assert keys - {y} - {x} == keys - {x} - {y};
    }
  }

  /** Maps that agree on `keys` have the same sum over them. */
  lemma {:induction false} SumAgree(f: map<char, int>, g: map<char, int>, keys: set<char>)
    requires keys <= f.Keys && keys <= g.Keys
    requires forall c :: c in keys ==> f[c] == g[c]
    ensures SumOver(f, keys) == SumOver(g, keys)
    decreases keys
  {
    if keys != {} {
      var x :| x in keys;
      SumRemove(f, keys, x);
      SumRemove(g, keys, x);
      SumAgree(f, g, keys - {x});
    }
  }

  /** Updating one key changes the sum by the difference. */
  lemma SumUpdate(f: map<char, int>, c: char, v: int)
    ensures c in f ==> SumOver(f[c := v], f.Keys) == SumOver(f, f.Keys) - f[c] + v
    ensures c !in f ==> SumOver(f[c := v], f.Keys + {c}) == SumOver(f, f.Keys) + v
  {
    var g := f[c := v];
    if c in f {
      SumRemove(g, f.Keys, c);
      SumRemove(f, f.Keys, c);
      SumAgree(g, f, f.Keys - {c});
    } else {
      SumRemove(g, f.Keys + {c}, c);
      assert f.Keys + {c} - {c} == f.Keys;
      SumAgree(g, f, f.Keys);
    }
  }

  /** The counts add up to the length of the message. */
  lemma {:induction false} CountTotal(msg: string)
    ensures SumOver(Count(msg), Count(msg).Keys) == |msg|
  {
    if msg != [] {
      var p := msg[..|msg| - 1];
      var c := msg[|msg| - 1];
      CountTotal(p);
      var m := Count(p);
      SumUpdate(m, c, (if c in m then m[c] else 0) + 1);
      if c !in m {
        assert Count(msg).Keys == m.Keys + {c};
      } else {
        assert Count(msg).Keys == m.Keys;
      }
    }
  }

  // ---------------------------------------------------------------------
  // The tree
  // ---------------------------------------------------------------------

  /** `struct Nodo`: a leaf holds a character, an internal node two
      children; both carry a frequency. */
  datatype Tree = Leaf(symbol: char, weight: int) | Node(weight: int, left: Tree, right: Tree)

  /** The characters at the leaves, with repetitions. */
  function LeafBag(t: Tree): multiset<char>
  {
    match t
    case Leaf(c, _) => multiset{c}
    case Node(_, l, r) => LeafBag(l) + LeafBag(r)
  }

  /** Every leaf carries its character's count, every internal node the sum
      of its children's weights, and the left child is no heavier than the
      right one (it was taken from the queue first). */
  predicate WellFormed(t: Tree, freq: map<char, int>)
  {
    match t
    case Leaf(c, w) => c in freq && w == freq[c]
    case Node(w, l, r) => w == l.weight + r.weight && l.weight <= r.weight && WellFormed(l, freq) && WellFormed(r, freq)
  }

  /** No character labels two leaves. */
  predicate DistinctLeaves(t: Tree)
  {
    forall c :: LeafBag(t)[c] <= 1
  }

  function QueueBag(q: seq<Tree>): multiset<char>
  {
    if q == [] then multiset{} else LeafBag(q[0]) + QueueBag(q[1..])
  }

  function SumWeights(q: seq<Tree>): int
  {
    if q == [] then 0 else q[0].weight + SumWeights(q[1..])
  }

  lemma {:induction false} QueueSplit(a: seq<Tree>, b: seq<Tree>)
    ensures QueueBag(a + b) == QueueBag(a) + QueueBag(b)
    ensures SumWeights(a + b) == SumWeights(a) + SumWeights(b)
  {
    if a == [] {
      assert a + b == b;
    } else {
      assert (a + b)[1..] == a[1..] + b;
      QueueSplit(a[1..], b);
    }
  }

  function Remove(q: seq<Tree>, i: nat): (r: seq<Tree>)
    requires i < |q|
    ensures |r| == |q| - 1
  {
    q[..i] + q[i + 1..]
  }

  lemma {:induction false} RemoveBag(q: seq<Tree>, i: nat)
    requires i < |q|
    ensures QueueBag(q) == LeafBag(q[i]) + QueueBag(Remove(q, i))
  {
    if i == 0 {
      assert Remove(q, i) == q[1..];
    } else {
      RemoveBag(q[1..], i - 1);
      var r := Remove(q, i);
      assert r[0] == q[0];
      assert r[1..] == Remove(q[1..], i - 1);
    }
  }

  lemma {:induction false} RemoveSum(q: seq<Tree>, i: nat)
    requires i < |q|
    ensures SumWeights(q) == q[i].weight + SumWeights(Remove(q, i))
  {
    if i == 0 {
      assert Remove(q, i) == q[1..];
    } else {
      RemoveSum(q[1..], i - 1);
      var r := Remove(q, i);
      assert r[0] == q[0];
      assert r[1..] == Remove(q[1..], i - 1);
    }
  }

  /** Taking a tree out of the queue takes its leaves and weight out. */
  lemma RemoveFromQueue(q: seq<Tree>, i: nat)
    requires i < |q|
    ensures QueueBag(q) == LeafBag(q[i]) + QueueBag(Remove(q, i))
    ensures SumWeights(q) == q[i].weight + SumWeights(Remove(q, i))
  {
    RemoveBag(q, i);
    RemoveSum(q, i);
  }

  /** The index of a lightest tree: what `pq.top()` returns. */
  function MinIndex(q: seq<Tree>): (i: nat)
    requires |q| > 0
    ensures i < |q| && forall k :: 0 <= k < |q| ==> q[i].weight <= q[k].weight
  {
    if |q| == 1 then 0
    else
      var j := MinIndex(q[..|q| - 1]);
      if q[|q| - 1].weight < q[j].weight then |q| - 1 else j
  }

  /** What the queue holds while leaves are pushed: one leaf per key of
      `done`, weighing together the counts of those keys. */
  ghost predicate LeavesPushed(queue: seq<Tree>, freq: map<char, int>, remaining: set<char>, done: set<char>)
  {
    && remaining <= freq.Keys && done == freq.Keys - remaining
    && |queue| == |done|
    && (forall k :: 0 <= k < |queue| ==> WellFormed(queue[k], freq))
    && QueueBag(queue) == multiset(done)
    && SumWeights(queue) + SumOver(freq, remaining) == SumOver(freq, freq.Keys)
  }

  lemma PushLeaf(queue: seq<Tree>, freq: map<char, int>, remaining: set<char>, done: set<char>, c: char)
    requires LeavesPushed(queue, freq, remaining, done) && c in remaining
    ensures LeavesPushed(queue + [Leaf(c, freq[c])], freq, remaining - {c}, done + {c})
  {
    var leaf := Leaf(c, freq[c]);
    QueueSplit(queue, [leaf]);
    assert [leaf][1..] == [];
    assert QueueBag([leaf]) == multiset{c} && SumWeights([leaf]) == freq[c];
    SumRemove(freq, remaining, c);
    assert multiset(done + {c}) == multiset(done) + multiset{c};
  }

  /** What the queue holds while trees are merged: well-formed trees whose
      leaves are the keys, weighing together all counts. */
  ghost predicate Merging(queue: seq<Tree>, freq: map<char, int>)
  {
    && (forall k :: 0 <= k < |queue| ==> WellFormed(queue[k], freq))
    && QueueBag(queue) == multiset(freq.Keys)
    && SumWeights(queue) == SumOver(freq, freq.Keys)
  }

  /** Every tree left after a removal was in the queue before it. */
  lemma RemoveKeepsWellFormed(queue: seq<Tree>, freq: map<char, int>, i: nat)
    requires i < |queue| && forall k :: 0 <= k < |queue| ==> WellFormed(queue[k], freq)
    ensures forall k :: 0 <= k < |queue| - 1 ==> WellFormed(Remove(queue, i)[k], freq)
  {
    var r := Remove(queue, i);
    forall k | 0 <= k < |r| ensures WellFormed(r[k], freq) {
      if k < i {
        assert r[k] == queue[k];
      } else {
        assert r[k] == queue[k + 1];
      }
    }
  }

  /** One iteration of the merge loop: pop the lightest tree, pop the
      next lightest, push their parent. */
  function Merge(queue: seq<Tree>): (r: seq<Tree>)
    requires |queue| > 1
    ensures |r| == |queue| - 1
  {
    var i := MinIndex(queue);
    var left := queue[i];
    var rest := Remove(queue, i);
    var j := MinIndex(rest);
    var right := rest[j];
    Remove(rest, j) + [Node(left.weight + right.weight, left, right)]
  }

  /** The tree the merge loop ends with when it starts from the queue
      `q`: merge until one tree is left. */
  function HuffmanOf(q: seq<Tree>): Tree
    requires |q| >= 1
    decreases |q|
  {
    if |q| == 1 then q[0] else HuffmanOf(Merge(q))
  }

  /** A queue holding one leaf per key, weighted by its count, in some
      order: what the first loop of `construirHuffman` pushes. */
  ghost predicate LeafQueue(q: seq<Tree>, freq: map<char, int>)
  {
    && (forall k :: 0 <= k < |q| ==> q[k].Leaf? && WellFormed(q[k], freq))
    && QueueBag(q) == multiset(freq.Keys)
  }

  lemma RemoveSplits(q: seq<Tree>, i: nat)
    requires i < |q|
    ensures multiset(q) == multiset(Remove(q, i)) + multiset{q[i]}
    ensures forall t :: t in Remove(q, i) ==> t in q
  {
    assert q == q[..i] + [q[i]] + q[i + 1..];
  }

  /** Each merge is the Huffman step: the new parent's children are two
      trees taken from the queue, the other trees stay, and each of them
      is at least as heavy as both children; the lighter child is on the
      left. */
  lemma MergeJoinsLightest(q: seq<Tree>)
    requires |q| > 1
    ensures Merge(q)[|q| - 2].Node?
    ensures var p := Merge(q)[|q| - 2];
      && p.weight == p.left.weight + p.right.weight
      && multiset(q) == multiset(Merge(q)[..|q| - 2]) + multiset{p.left, p.right}
      && p.left.weight <= p.right.weight
      && forall t :: t in Merge(q)[..|q| - 2] ==> p.right.weight <= t.weight
  {
    var i := MinIndex(q);
    var left := q[i];
    var rest := Remove(q, i);
    var j := MinIndex(rest);
    var right := rest[j];
    var others := Remove(rest, j);
    var p := Node(left.weight + right.weight, left, right);
    assert Merge(q) == others + [p];
    assert Merge(q)[..|q| - 2] == others;
    RemoveSplits(q, i);
    RemoveSplits(rest, j);
    assert right in q;
    forall t | t in others ensures right.weight <= t.weight {
      var k :| 0 <= k < |rest| && rest[k] == t;
    }
  }

  lemma PushParent(q: seq<Tree>, freq: map<char, int>, left: Tree, right: Tree)
    requires forall k :: 0 <= k < |q| ==> WellFormed(q[k], freq)
    requires WellFormed(left, freq) && WellFormed(right, freq) && left.weight <= right.weight
    requires QueueBag(q) + (LeafBag(left) + LeafBag(right)) == multiset(freq.Keys)
    requires SumWeights(q) + (left.weight + right.weight) == SumOver(freq, freq.Keys)
    ensures Merging(q + [Node(left.weight + right.weight, left, right)], freq)
  {
    var parent := Node(left.weight + right.weight, left, right);
    var r := q + [parent];
    QueueSplit(q, [parent]);
    assert QueueBag([parent]) == LeafBag(parent) && SumWeights([parent]) == parent.weight by {
      assert [parent][1..] == [];
    }
    forall k | 0 <= k < |r| ensures WellFormed(r[k], freq) {
      if k < |q| {
        assert r[k] == q[k];
      }
    }
  }

  lemma RemoveTwo(queue: seq<Tree>, i: nat, j: nat)
    requires i < |queue| && j < |queue| - 1
    ensures QueueBag(Remove(Remove(queue, i), j)) + (LeafBag(queue[i]) + LeafBag(Remove(queue, i)[j])) == QueueBag(queue)
    ensures SumWeights(Remove(Remove(queue, i), j)) + (queue[i].weight + Remove(queue, i)[j].weight) == SumWeights(queue)
  {
    var rest := Remove(queue, i);
    RemoveFromQueue(queue, i);
    RemoveFromQueue(rest, j);
    var a := LeafBag(queue[i]);
    var b := LeafBag(rest[j]);
    var c := QueueBag(Remove(rest, j));
    assert QueueBag(queue) == a + (b + c);
    assert a + (b + c) == c + (a + b);
  }

  /** Merging the two lightest trees keeps the queue's leaves and weight. */
  lemma MergeKeeps(queue: seq<Tree>, freq: map<char, int>)
    requires Merging(queue, freq) && |queue| > 1
    ensures Merging(Merge(queue), freq)
  {
    var i := MinIndex(queue);
    var left := queue[i];
    var rest := Remove(queue, i);
    var j := MinIndex(rest);
    var right := rest[j];
    var q := Remove(rest, j);
    var merged := q + [Node(left.weight + right.weight, left, right)];
    assert Merge(queue) == merged;
    assert left.weight <= right.weight by {
      assert right == queue[if j < i then j else j + 1];
    }
    assert WellFormed(left, freq) && WellFormed(right, freq) && forall k :: 0 <= k < |q| ==> WellFormed(q[k], freq) by {
      RemoveKeepsWellFormed(queue, freq, i);
      RemoveKeepsWellFormed(rest, freq, j);
    }
    RemoveTwo(queue, i, j);
    PushParent(q, freq, left, right);
  }

  /** The first loop of `construirHuffman`: one leaf per key of `freq`,
      pushed in the map's iteration order (any order here). */
  method PushLeaves(freq: map<char, int>) returns (queue: seq<Tree>)
    ensures LeafQueue(queue, freq) && |queue| == |freq|
    ensures SumWeights(queue) == SumOver(freq, freq.Keys)
  {
    queue := [];
    var remaining := freq.Keys;
    ghost var done: set<char> := {};
    while remaining != {}
      invariant LeavesPushed(queue, freq, remaining, done)
      invariant forall k :: 0 <= k < |queue| ==> queue[k].Leaf?
      decreases remaining
    {
      var c :| c in remaining;
      PushLeaf(queue, freq, remaining, done, c);
      queue := queue + [Leaf(c, freq[c])];
      remaining := remaining - {c};
      done := done + {c};
    }
    assert done == freq.Keys;
    assert |done| == |freq.Keys| == |freq|;
  }

  /** The second loop of `construirHuffman`: merge the two lightest trees
      until one is left, and return it. */
  method MergeAll(start: seq<Tree>) returns (root: Tree)
    requires |start| >= 1
    ensures root == HuffmanOf(start)
  {
    var queue := start;
    while |queue| > 1
      invariant |queue| >= 1 && HuffmanOf(queue) == HuffmanOf(start)
      decreases |queue|
    {
      ghost var before := queue;
      var i := MinIndex(queue);
      var left := queue[i];
      queue := Remove(queue, i);
      var j := MinIndex(queue);
      var right := queue[j];
      queue := Remove(queue, j);
      var parent := Node(left.weight + right.weight, left, right);
      queue := queue + [parent];
      assert queue == Merge(before);
    }
    root := queue[0];
  }

  /** Merging until one tree is left keeps the queue's leaves and weight
      in that tree, and every merge keeps the trees well-formed. */
  lemma {:induction false} HuffmanOfKeeps(q: seq<Tree>, freq: map<char, int>)
    requires |q| >= 1 && Merging(q, freq)
    ensures WellFormed(HuffmanOf(q), freq)
    ensures LeafBag(HuffmanOf(q)) == multiset(freq.Keys)
    ensures HuffmanOf(q).weight == SumOver(freq, freq.Keys)
    decreases |q|
  {
    if |q| == 1 {
      assert q[1..] == [];
      assert QueueBag(q) == LeafBag(q[0]) && SumWeights(q) == q[0].weight;
    } else {
      MergeKeeps(q, freq);
      HuffmanOfKeeps(Merge(q), freq);
    }
  }

  /** `construirHuffman`. The source reads `pq.top()` of an empty queue for
      an empty map, so the map must not be empty. The result is the tree
      that merging the two lightest trees until one is left makes from a
      queue of one leaf per key. */
  method BuildTree(freq: map<char, int>) returns (root: Tree)
    requires |freq| > 0
    ensures exists leaves :: LeafQueue(leaves, freq) && |leaves| == |freq| && root == HuffmanOf(leaves)
    ensures WellFormed(root, freq)
    ensures LeafBag(root) == multiset(freq.Keys)
    ensures root.weight == SumOver(freq, freq.Keys)
  {
    var queue := PushLeaves(freq);
    root := MergeAll(queue);
    assert Merging(queue, freq);
    HuffmanOfKeeps(queue, freq);
  }

  /** Built from the counts of a message, the root weighs the message's
      length and has one leaf per distinct character. */
  lemma RootOfCounts(msg: string, root: Tree)
    requires WellFormed(root, Count(msg)) && LeafBag(root) == multiset(Count(msg).Keys)
    requires root.weight == SumOver(Count(msg), Count(msg).Keys)
    ensures root.weight == |msg|
    ensures forall c :: c in LeafBag(root) <==> c in msg
    ensures DistinctLeaves(root)
  {
    CountTotal(msg);
    CountIsMultiplicity(msg);
  }

  // ---------------------------------------------------------------------
  // Codes
  // ---------------------------------------------------------------------

  /** `generarCodigos(t, prefix, codigos)`: each leaf's character is mapped
      to the labels of its path, '0' left and '1' right; a later leaf with
      the same character overwrites an earlier one. */
  function Codes(t: Tree, prefix: string): (codes: map<char, string>)
    ensures forall c :: c in codes <==> c in LeafBag(t)
  {
    match t
    case Leaf(c, _) => map[c := prefix]
    case Node(_, l, r) => Codes(l, prefix + "0") + Codes(r, prefix + "1")
  }

  /** The code of a character under a prefix is the prefix followed by its
      code from the subtree's own root. */
  lemma {:induction false} CodesExtend(t: Tree, prefix: string, c: char)
    requires c in LeafBag(t)
    ensures Codes(t, prefix)[c] == prefix + Codes(t, "")[c]
  {
    match t
    case Leaf(_, _) =>
      assert prefix + "" == prefix;
    case Node(_, l, r) =>
      var bit: string := if c in LeafBag(r) then "1" else "0";
      var child := if c in LeafBag(r) then r else l;
      assert c in LeafBag(child);
      assert Codes(t, prefix)[c] == Codes(child, prefix + bit)[c];
      assert "" + bit == bit;
      assert Codes(t, "")[c] == Codes(child, bit)[c];
      CodesExtend(child, prefix + bit, c);
      CodesExtend(child, bit, c);
      var rest := Codes(child, "")[c];
      Associative(prefix, bit, rest);
  }

  lemma Associative(a: string, b: string, c: string)
    ensures a + b + c == a + (b + c)
  {
  }

  predicate IsPrefix(u: string, v: string)
  {
    |u| <= |v| && v[..|u|] == u
  }

  /** No code is a prefix of another character's code. */
  predicate PrefixFree(codes: map<char, string>)
  {
    forall a, b :: a in codes && b in codes && a != b ==> !IsPrefix(codes[a], codes[b])
  }

  lemma DistinctChildren(t: Tree)
    requires t.Node? && DistinctLeaves(t)
    ensures DistinctLeaves(t.left) && DistinctLeaves(t.right)
    ensures forall c :: c in LeafBag(t.left) ==> c !in LeafBag(t.right)
  {
    forall c ensures LeafBag(t.left)[c] <= 1 && LeafBag(t.right)[c] <= 1 {
      assert LeafBag(t)[c] == LeafBag(t.left)[c] + LeafBag(t.right)[c];
    }
    forall c | c in LeafBag(t.left) ensures c !in LeafBag(t.right) {
      assert LeafBag(t)[c] == LeafBag(t.left)[c] + LeafBag(t.right)[c];
    }
  }

  /** Codes of characters on the two sides of a node part at the node's
      bit. */
  lemma SidesDiffer(t: Tree, prefix: string, a: char, b: char)
    requires t.Node? && DistinctLeaves(t) && a in LeafBag(t.left) && b in LeafBag(t.right)
    ensures !IsPrefix(Codes(t, prefix)[a], Codes(t, prefix)[b]) && !IsPrefix(Codes(t, prefix)[b], Codes(t, prefix)[a])
  {
    DistinctChildren(t);
    CodesExtend(t.left, prefix + "0", a);
    CodesExtend(t.right, prefix + "1", b);
    var u := Codes(t, prefix)[a];
    var v := Codes(t, prefix)[b];
    assert u == prefix + "0" + Codes(t.left, "")[a];
    assert v == prefix + "1" + Codes(t.right, "")[b];
    assert u[|prefix|] == '0' && v[|prefix|] == '1';
  }

  /** The codebook of a tree whose characters are distinct is prefix-free. */
  lemma {:induction false} CodesArePrefixFree(t: Tree, prefix: string)
    requires DistinctLeaves(t)
    ensures PrefixFree(Codes(t, prefix))
  {
    match t
    case Leaf(_, _) =>
    case Node(_, l, r) =>
      DistinctChildren(t);
      CodesArePrefixFree(l, prefix + "0");
      CodesArePrefixFree(r, prefix + "1");
      var codes := Codes(t, prefix);
      forall a, b | a in codes && b in codes && a != b ensures !IsPrefix(codes[a], codes[b]) {
        if a in LeafBag(l) && b in LeafBag(r) {
          SidesDiffer(t, prefix, a, b);
        } else if a in LeafBag(r) && b in LeafBag(l) {
          SidesDiffer(t, prefix, b, a);
        } else if a in LeafBag(l) {
          assert codes[a] == Codes(l, prefix + "0")[a] && codes[b] == Codes(l, prefix + "0")[b];
        } else {
          assert codes[a] == Codes(r, prefix + "1")[a] && codes[b] == Codes(r, prefix + "1")[b];
        }
      }
  }

  // ---------------------------------------------------------------------
  // Encoding
  // ---------------------------------------------------------------------

  /** `codigos[c]`: a character without a code contributes nothing. */
  function CodeOf(codes: map<char, string>, c: char): string
  {
    if c in codes then codes[c] else ""
  }

  function Encoding(msg: string, codes: map<char, string>): string
  {
    if msg == [] then "" else Encoding(msg[..|msg| - 1], codes) + CodeOf(codes, msg[|msg| - 1])
  }

  /** `codificar`. */
  method Encode(msg: string, codes: map<char, string>) returns (result: string)
    ensures result == Encoding(msg, codes)
  {
    result := "";
    for k := 0 to |msg|
      invariant result == Encoding(msg[..k], codes)
    {
      assert msg[..k + 1][..k] == msg[..k];
      result := result + CodeOf(codes, msg[k]);
    }
    assert msg[..|msg|] == msg;
  }

  /** Each character's code length times its count. */
  function Scaled(freq: map<char, int>, codes: map<char, string>): (s: map<char, int>)
    ensures s.Keys == freq.Keys
  {
    map c | c in freq :: freq[c] * |CodeOf(codes, c)|
  }

  /** Counting one more occurrence of `c` scales by one more code length. */
  lemma ScaledStep(m: map<char, int>, codes: map<char, string>, c: char)
    ensures var n := if c in m then m[c] else 0;
      Scaled(m[c := n + 1], codes) == Scaled(m, codes)[c := n * |CodeOf(codes, c)| + |CodeOf(codes, c)|]
  {
    var n := if c in m then m[c] else 0;
    var len := |CodeOf(codes, c)|;
    assert (n + 1) * len == n * len + len;
  }

  /** The encoding is as long as the counts weighted by code length. */
  lemma {:induction false} EncodedLength(msg: string, codes: map<char, string>)
    ensures |Encoding(msg, codes)| == SumOver(Scaled(Count(msg), codes), Count(msg).Keys)
  {
    if msg != [] {
      var p := msg[..|msg| - 1];
      var c := msg[|msg| - 1];
      EncodedLength(p, codes);
      var m := Count(p);
      var s := Scaled(m, codes);
      var len := |CodeOf(codes, c)|;
      var n := if c in m then m[c] else 0;
      ScaledStep(m, codes, c);
      SumUpdate(s, c, n * len + len);
      if c !in m {
        assert Count(msg).Keys == m.Keys + {c};
      } else {
        assert Count(msg).Keys == m.Keys;
      }
    }
  }

  // ---------------------------------------------------------------------
  // Decoding
  // ---------------------------------------------------------------------

  /** The decoder's cursor `temp` and message, or the null child it would
      follow from a leaf (only possible when the root is a leaf). */
  datatype Walk = Walking(cursor: Tree, msg: string) | NullChild

  /** One bit: '0' goes left and anything else right; reaching a leaf
      emits its character and returns to the root. */
  function Step(root: Tree, s: Walk, bit: char): Walk
  {
    match s
    case NullChild => NullChild
    case Walking(cursor, msg) =>
      if cursor.Leaf? then NullChild
      else
        var next := if bit == '0' then cursor.left else cursor.right;
        if next.Leaf? then Walking(root, msg + [next.symbol]) else Walking(next, msg)
  }

  function Run(root: Tree, s: Walk, bits: string): Walk
    decreases |bits|
  {
    if bits == [] then s else Run(root, Step(root, s, bits[0]), bits[1..])
  }

  /** What the decoder returns: the message (bits that end inside a path
      are dropped), or a null dereference. */
  datatype Decoded = Message(text: string) | NullDereference

  function Decoding(root: Tree, bits: string): Decoded
  {
    match Run(root, Walking(root, ""), bits)
    case Walking(_, msg) => Message(msg)
    case NullChild => NullDereference
  }

  lemma {:induction false} NullChildStays(root: Tree, bits: string)
    ensures Run(root, NullChild, bits) == NullChild
    decreases |bits|
  {
    if bits != [] {
      NullChildStays(root, bits[1..]);
    }
  }

  /** `decodificar` (and `decodificarConPrefijos` without its printing). */
  method Decode(bits: string, root: Tree) returns (d: Decoded)
    ensures d == Decoding(root, bits)
  {
    var msg := "";
    var temp := root;
    for k := 0 to |bits|
      invariant Run(root, Walking(temp, msg), bits[k..]) == Run(root, Walking(root, ""), bits)
    {
      assert bits[k..][1..] == bits[k + 1..];
      if temp.Leaf? {
        NullChildStays(root, bits[k + 1..]);
        return NullDereference;
      }
      if bits[k] == '0' {
        temp := temp.left;
      } else {
        temp := temp.right;
      }
      if temp.Leaf? {
        msg := msg + [temp.symbol];
        temp := root;
      }
    }
    d := Message(msg);
  }

  lemma {:induction false} RunAppend(root: Tree, s: Walk, a: string, b: string)
    ensures Run(root, s, a + b) == Run(root, Run(root, s, a), b)
    decreases |a|
  {
    if a == [] {
      assert a + b == b;
    } else {
      assert (a + b)[1..] == a[1..] + b;
      RunAppend(root, Step(root, s, a[0]), a[1..], b);
    }
  }

  /** A character's code from an internal node starts with the bit of the
      child holding it, followed by its code from that child. */
  lemma CodeThroughChild(sub: Tree, c: char)
    requires sub.Node? && DistinctLeaves(sub) && c in LeafBag(sub)
    ensures c in LeafBag(sub.right) ==> Codes(sub, "")[c] == "1" + Codes(sub.right, "")[c]
    ensures c !in LeafBag(sub.right) ==> c in LeafBag(sub.left) && Codes(sub, "")[c] == "0" + Codes(sub.left, "")[c]
  {
    DistinctChildren(sub);
    assert "" + "0" == "0" && "" + "1" == "1";
    if c in LeafBag(sub.right) {
      CodesExtend(sub.right, "1", c);
    } else {
      CodesExtend(sub.left, "0", c);
    }
  }

  /** Running over a bit and then the rest. */
  lemma RunCons(root: Tree, s: Walk, bit: char, rest: string)
    ensures Run(root, s, [bit] + rest) == Run(root, Step(root, s, bit), rest)
  {
    assert ([bit] + rest)[1..] == rest;
  }

  /** Walking a character's code from an internal node of its subtree
      emits the character and returns to the root. */
  lemma {:induction false} WalkCode(root: Tree, sub: Tree, msg: string, c: char)
    requires sub.Node? && DistinctLeaves(sub) && c in LeafBag(sub)
    ensures Run(root, Walking(sub, msg), Codes(sub, "")[c]) == Walking(root, msg + [c])
    decreases sub
  {
    var toRight := c in LeafBag(sub.right);
    var child := if toRight then sub.right else sub.left;
    var bit := if toRight then '1' else '0';
    var rest := Codes(child, "")[c];
    CodeThroughChild(sub, c);
    RunCons(root, Walking(sub, msg), bit, rest);
    if child.Leaf? {
      assert rest == "";
    } else {
      DistinctChildren(sub);
      WalkCode(root, child, msg, c);
    }
  }

  /** Running the decoder over an encoding emits the message. */
  lemma {:induction false} RunEncoding(t: Tree, msg: string)
    requires t.Node? && DistinctLeaves(t)
    requires forall k :: 0 <= k < |msg| ==> msg[k] in LeafBag(t)
    ensures Run(t, Walking(t, ""), Encoding(msg, Codes(t, ""))) == Walking(t, msg)
  {
    if msg != [] {
      var codes := Codes(t, "");
      var p := msg[..|msg| - 1];
      var c := msg[|msg| - 1];
      assert forall k :: 0 <= k < |p| ==> p[k] in LeafBag(t) by {
        forall k | 0 <= k < |p| ensures p[k] in LeafBag(t) {
          assert p[k] == msg[k];
        }
      }
      RunEncoding(t, p);
      var e := Encoding(p, codes);
      assert Encoding(msg, codes) == e + codes[c];
      RunAppend(t, Walking(t, ""), e, codes[c]);
      WalkCode(t, t, p, c);
      assert p + [c] == msg;
    }
  }

  /** Decoding inverts encoding for a tree with at least two leaves and
      distinct characters, for any message over its characters. */
  lemma RoundTrip(t: Tree, msg: string)
    requires t.Node? && DistinctLeaves(t)
    requires forall k :: 0 <= k < |msg| ==> msg[k] in LeafBag(t)
    ensures Run(t, Walking(t, ""), Encoding(msg, Codes(t, ""))) == Walking(t, msg)
    ensures Decoding(t, Encoding(msg, Codes(t, ""))) == Message(msg)
  {
    RunEncoding(t, msg);
  }

  /** A message with two different characters. */
  predicate TwoSymbols(msg: string)
  {
    exists k :: 0 < k < |msg| && msg[k] != msg[0]
  }

  /** The whole coder: for a message with at least two distinct characters,
      any tree `construirHuffman` can build from its counts decodes the
      encoding back to the message. */
  lemma CoderRoundTrip(msg: string, root: Tree)
    requires TwoSymbols(msg)
    requires WellFormed(root, Count(msg)) && LeafBag(root) == multiset(Count(msg).Keys)
    requires root.weight == SumOver(Count(msg), Count(msg).Keys)
    ensures Decoding(root, Encoding(msg, Codes(root, ""))) == Message(msg)
  {
    RootOfCounts(msg, root);
    var k :| 0 < k < |msg| && msg[k] != msg[0];
    assert msg[k] in LeafBag(root) && msg[0] in LeafBag(root);
    assert root.Node?;
    forall i | 0 <= i < |msg| ensures msg[i] in LeafBag(root) {
      assert msg[i] in msg;
    }
    RoundTrip(root, msg);
  }

  /** Walking part of a character's code from an internal node of its
      subtree emits nothing and stops on an internal node. */
  lemma {:induction false} WalkPartCode(root: Tree, sub: Tree, msg: string, c: char, n: nat)
    requires sub.Node? && DistinctLeaves(sub) && c in LeafBag(sub) && n < |Codes(sub, "")[c]|
    ensures Run(root, Walking(sub, msg), Codes(sub, "")[c][..n]).Walking?
    ensures Run(root, Walking(sub, msg), Codes(sub, "")[c][..n]).msg == msg
    decreases sub
  {
    var code := Codes(sub, "")[c];
    if n == 0 {
      assert code[..0] == [];
    } else {
      var toRight := c in LeafBag(sub.right);
      var child := if toRight then sub.right else sub.left;
      var bit := if toRight then '1' else '0';
      var rest := Codes(child, "")[c];
      assert code == [bit] + rest by {
        CodeThroughChild(sub, c);
      }
      assert code[..n] == [bit] + rest[..n - 1] by {
        SliceCons(bit, rest, n);
      }
      RunCons(root, Walking(sub, msg), bit, rest[..n - 1]);
      assert child.Node?;
      assert Step(root, Walking(sub, msg), bit) == Walking(child, msg);
      DistinctChildren(sub);
      WalkPartCode(root, child, msg, c, n - 1);
    }
  }

  lemma SliceCons(bit: char, rest: string, n: nat)
    requires 1 <= n <= |rest| + 1
    ensures ([bit] + rest)[..n] == [bit] + rest[..n - 1]
  {
  }

  /** Bits that end inside a path are dropped: an encoding followed by a
      proper prefix of some character's code decodes to the message alone. */
  lemma PartialCodeIsDropped(t: Tree, msg: string, c: char, n: nat)
    requires t.Node? && DistinctLeaves(t)
    requires forall k :: 0 <= k < |msg| ==> msg[k] in LeafBag(t)
    requires c in LeafBag(t) && n < |Codes(t, "")[c]|
    ensures Decoding(t, Encoding(msg, Codes(t, "")) + Codes(t, "")[c][..n]) == Message(msg)
  {
    var e := Encoding(msg, Codes(t, ""));
    var part := Codes(t, "")[c][..n];
    RunEncoding(t, msg);
    RunAppend(t, Walking(t, ""), e, part);
    WalkPartCode(t, t, msg, c, n);
  }

  /** The walk only asks whether a bit is '0'. */
  lemma {:induction false} RunSameZeros(root: Tree, s: Walk, a: string, b: string)
    requires |a| == |b| && forall i :: 0 <= i < |a| ==> (a[i] == '0' <==> b[i] == '0')
    ensures Run(root, s, a) == Run(root, s, b)
    decreases |a|
  {
    if a != [] {
      assert Step(root, s, a[0]) == Step(root, s, b[0]);
      RunSameZeros(root, Step(root, s, a[0]), a[1..], b[1..]);
    }
  }

  /** A bit string with every character other than '0' read as '1'. */
  function Binary(bits: string): string
  {
    seq(|bits|, i requires 0 <= i < |bits| => if bits[i] == '0' then '0' else '1')
  }

  /** Any bit other than '0' goes right: a string decodes exactly as its
      reading in '0' and '1' does, whatever the tree. */
  lemma NonZeroBitGoesRight(root: Tree, bits: string)
    ensures Decoding(root, bits) == Decoding(root, Binary(bits))
  {
    RunSameZeros(root, Walking(root, ""), bits, Binary(bits));
  }

  /** The two quirks on small trees: "01" under a tree whose "0" is 'a'
      and "1" is a subtree decodes to "a", and 'x' goes right. */
  lemma DecoderQuirks()
    ensures Decoding(Node(3, Leaf('a', 1), Node(2, Leaf('b', 1), Leaf('c', 1))), "01") == Message("a")
    ensures Decoding(Node(2, Leaf('a', 1), Leaf('b', 1)), "x") == Message("b")
  {
    var t := Node(3, Leaf('a', 1), Node(2, Leaf('b', 1), Leaf('c', 1)));
    assert "01"[1..] == "1" && "1"[1..] == "";
    assert Step(t, Walking(t, ""), '0') == Walking(t, "a");
    assert Step(t, Walking(t, "a"), '1') == Walking(t.right, "a");
    var u := Node(2, Leaf('a', 1), Leaf('b', 1));
    assert "x"[1..] == "";
    assert Step(u, Walking(u, ""), 'x') == Walking(u, "b");
  }

  // ---------------------------------------------------------------------
  // A single distinct character
  // ---------------------------------------------------------------------

  /** With one distinct character the root is a leaf, its code is empty,
      and the whole message encodes to nothing and decodes to nothing. */
  lemma {:induction false} SingleSymbolIsLost(c: char, w: int, n: nat)
    ensures Codes(Leaf(c, w), "") == map[c := ""]
    ensures Encoding(seq(n, _ => c), Codes(Leaf(c, w), "")) == ""
    ensures Decoding(Leaf(c, w), Encoding(seq(n, _ => c), Codes(Leaf(c, w), ""))) == Message("")
  {
    if n > 0 {
      SingleSymbolIsLost(c, w, n - 1);
      assert seq(n, _ => c)[..n - 1] == seq(n - 1, _ => c);
    }
  }

  /** The corrected codebook: a lone leaf gets the code "0". */
  function FixedCodes(t: Tree): (codes: map<char, string>)
    ensures forall c :: c in codes <==> c in LeafBag(t)
  {
    if t.Leaf? then map[t.symbol := "0"] else Codes(t, "")
  }

  /** The corrected decoder: under a lone leaf every bit is its character. */
  function FixedDecoding(t: Tree, bits: string): Decoded
  {
    if t.Leaf? then Message(seq(|bits|, _ => t.symbol)) else Decoding(t, bits)
  }

  lemma {:induction false} LoneLeafEncoding(t: Tree, msg: string)
    requires t.Leaf? && forall k :: 0 <= k < |msg| ==> msg[k] == t.symbol
    ensures Encoding(msg, FixedCodes(t)) == seq(|msg|, _ => '0')
    ensures msg == seq(|msg|, _ => t.symbol)
  {
    if msg != [] {
      LoneLeafEncoding(t, msg[..|msg| - 1]);
    }
  }

  /** With the corrections every message over the tree's characters
      round-trips, including one with a single distinct character. */
  lemma FixedRoundTrip(t: Tree, msg: string)
    requires DistinctLeaves(t)
    requires forall k :: 0 <= k < |msg| ==> msg[k] in LeafBag(t)
    ensures FixedDecoding(t, Encoding(msg, FixedCodes(t))) == Message(msg)
  {
    if t.Leaf? {
      forall k | 0 <= k < |msg| ensures msg[k] == t.symbol {
        assert msg[k] in LeafBag(t);
      }
      LoneLeafEncoding(t, msg);
    } else {
      RoundTrip(t, msg);
    }
  }
}
