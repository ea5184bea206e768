/** The LZ78 codec of prueba_alg_LZiv.c++ (class Compression::LZ78):
    `compress` cuts the text into phrases, each one a phrase seen before
    (by its 1-based dictionary index, 0 for none) plus one more character;
    `decompress` rebuilds the phrases from the pairs. Both are methods with
    loops, proved equal to left folds (EncodeState, DecodeState).

    The source's `compress` drops a last phrase that is already in the
    dictionary when the text ends; EncodeFlushed is the corrected codec
    that emits it, and only it round-trips every text. */
module Lz78 {

  /** `struct Pair { int index; char nextChar; }`. */
  datatype Pair = Pair(index: int, next: char)

  /** Concatenation of a list of phrases. */
  function Concat(ws: seq<string>): string
  {
    if ws == [] then [] else Concat(ws[..|ws| - 1]) + ws[|ws| - 1]
  }

  // ---------------------------------------------------------------------
  // Compression
  // ---------------------------------------------------------------------

  /** The encoder's variables between two characters: the dictionary, the
      next index `dictIndex`, the phrase being grown and the output. */
  datatype EncState = EncState(dict: map<string, int>, nextIndex: int, current: string, out: seq<Pair>)

  /** The index the source looks up for the phrase without its last
      character: 0 for the empty phrase or one missing from the
      dictionary. */
  function PrefixIndex(dict: map<string, int>, prefix: string): int
  {
    if prefix != [] && prefix in dict then dict[prefix] else 0
  }

  /** One iteration of the loop over the text. */
  function EncStep(st: EncState, c: char): EncState
  {
    var grown := st.current + [c];
    if grown in st.dict then st.(current := grown)
    else EncState(st.dict[grown := st.nextIndex], st.nextIndex + 1, [], st.out + [Pair(PrefixIndex(st.dict, st.current), c)])
  }

  function EncodeState(input: string): EncState
  {
    if input == [] then EncState(map[], 1, [], [])
    else EncStep(EncodeState(input[..|input| - 1]), input[|input| - 1])
  }

  /** The pairs `compress` returns. */
  function Encode(input: string): seq<Pair>
  {
    EncodeState(input).out
  }

  /** The phrase still being grown when the text ends; the source drops it. */
  function Pending(input: string): string
  {
    EncodeState(input).current
  }

  /** The corrected ending: a pending phrase is emitted like any other, as
      the index of its prefix and its last character. */
  function Flush(st: EncState): seq<Pair>
  {
    if st.current == [] then st.out
    else
      var n := |st.current|;
      st.out + [Pair(PrefixIndex(st.dict, st.current[..n - 1]), st.current[n - 1])]
  }

  function EncodeFlushed(input: string): seq<Pair>
  {
    Flush(EncodeState(input))
  }

  /** The loop of `LZ78::compress`; it also hands back the dictionary and
      the pending phrase so that both endings can share it. */
  method Scan(input: string) returns (dictionary: map<string, int>, current: string, output: seq<Pair>)
    ensures EncodeState(input) == EncState(dictionary, EncodeState(input).nextIndex, current, output)
  {
    dictionary := map[];
    output := [];
    current := [];
    var dictIndex := 1;
    for k := 0 to |input|
      invariant EncState(dictionary, dictIndex, current, output) == EncodeState(input[..k])
    {
      assert input[..k + 1][..k] == input[..k];
      var c := input[k];
      var grown := current + [c];
      if grown !in dictionary {
        var prefix := grown[..|grown| - 1];
        assert prefix == current;
        var index := 0;
        if prefix != [] && prefix in dictionary {
          index := dictionary[prefix];
        }
        output := output + [Pair(index, c)];
        dictionary := dictionary[grown := dictIndex];
        dictIndex := dictIndex + 1;
        current := [];
      } else {
        current := grown;
      }
    }
    assert input[..|input|] == input;
  }

  /** `LZ78::compress`. */
  method Compress(input: string) returns (output: seq<Pair>)
    ensures output == Encode(input)
  {
    var dictionary, current;
    dictionary, current, output := Scan(input);
  }

  /** `LZ78::compress` with the pending phrase emitted at the end. */
  method CompressFlushed(input: string) returns (output: seq<Pair>)
    ensures output == EncodeFlushed(input)
  {
    var dictionary, current;
    dictionary, current, output := Scan(input);
    if current != [] {
      var prefix := current[..|current| - 1];
      var index := 0;
      if prefix != [] && prefix in dictionary {
        index := dictionary[prefix];
      }
      output := output + [Pair(index, current[|current| - 1])];
    }
  }

  // ---------------------------------------------------------------------
  // Decompression
  // ---------------------------------------------------------------------

  /** What `decompress` ends with: the text, or an index outside its
      dictionary (undefined behaviour in the source). */
  datatype Decoded = Restored(text: string) | BadIndex

  /** The decoder's dictionary (entry 0 is the empty phrase) and result, or
      a failure. */
  datatype DecStatus = Running(dict: seq<string>, result: string) | Failed

  function DecStep(s: DecStatus, p: Pair): DecStatus
  {
    match s
    case Failed => Failed
    case Running(dict, result) =>
      if p.index == 0 then Running(dict + [[p.next]], result + [p.next])
      else if 0 < p.index < |dict| then
        var entry := dict[p.index] + [p.next];
        Running(dict + [entry], result + entry)
      else Failed
  }

  function DecodeState(pairs: seq<Pair>): DecStatus
  {
    if pairs == [] then Running([[]], [])
    else DecStep(DecodeState(pairs[..|pairs| - 1]), pairs[|pairs| - 1])
  }

  function Decode(pairs: seq<Pair>): Decoded
  {
    match DecodeState(pairs)
    case Running(_, result) => Restored(result)
    case Failed => BadIndex
  }

  /** Once failed, the decoder stays failed. */
  lemma {:induction false} FailedStays(pairs: seq<Pair>, rest: seq<Pair>)
    requires DecodeState(pairs).Failed?
    ensures DecodeState(pairs + rest).Failed?
    decreases |rest|
  {
    if rest == [] {
      assert pairs + rest == pairs;
    } else {
      var n := |rest|;
      FailedStays(pairs, rest[..n - 1]);
      assert (pairs + rest)[..|pairs + rest| - 1] == pairs + rest[..n - 1];
      assert DecodeState(pairs + rest) == DecStep(DecodeState(pairs + rest[..n - 1]), rest[n - 1]);
    }
  }

  /** `LZ78::decompress`. */
  method Decompress(pairs: seq<Pair>) returns (d: Decoded)
    ensures d == Decode(pairs)
  {
    var dictionary: seq<string> := [[]];
    var result: string := [];
    for k := 0 to |pairs|
      invariant DecodeState(pairs[..k]) == Running(dictionary, result)
    {
      assert pairs[..k + 1][..k] == pairs[..k];
      var p := pairs[k];
      var entry: string;
      if p.index == 0 {
        entry := [p.next];
      } else if 0 < p.index < |dictionary| {
        entry := dictionary[p.index] + [p.next];
      } else {
        assert pairs[..k + 1] == pairs[..k] + [p];
        FailedStays(pairs[..k + 1], pairs[k + 1..]);
        assert pairs[..k + 1] + pairs[k + 1..] == pairs;
        return BadIndex;
      }
      result := result + entry;
      dictionary := dictionary + [entry];
    }
    assert pairs[..|pairs|] == pairs;
    d := Restored(result);
  }

  // ---------------------------------------------------------------------
  // What the encoder keeps: the phrases it has emitted
  // ---------------------------------------------------------------------

  /** The phrase a pair index names, given the phrases so far (index 0
      names the empty phrase). */
  function Entry(ws: seq<string>, index: int): string
    requires 0 <= index <= |ws|
  {
    if index == 0 then [] else ws[index - 1]
  }

  /** Pair `p`, in position k, refers to an earlier phrase and spells
      phrase k. */
  predicate Spells(ws: seq<string>, k: int, p: Pair)
    requires 0 <= k < |ws|
  {
    0 <= p.index <= k && ws[k] == Entry(ws, p.index) + [p.next]
  }

  ghost predicate Coded(out: seq<Pair>, ws: seq<string>)
  {
    |out| == |ws| && forall k :: 0 <= k < |out| ==> Spells(ws, k, out[k])
  }

  /** Whether a pair spells phrase k depends only on phrases 0..k. */
  lemma SpellsPrefix(ws: seq<string>, vs: seq<string>, k: int, p: Pair)
    requires 0 <= k < |ws| <= |vs| && ws == vs[..|ws|]
    ensures Spells(ws, k, p) <==> Spells(vs, k, p)
  {
    assert ws[k] == vs[k];
    if 0 < p.index <= k {
      assert ws[p.index - 1] == vs[p.index - 1];
    }
  }

  predicate Distinct(ws: seq<string>)
  {
    forall i, j :: 0 <= i < j < |ws| ==> ws[i] != ws[j]
  }

  /** The dictionary holds exactly the phrases, phrase k under index k+1. */
  ghost predicate TableInv(dict: map<string, int>, ws: seq<string>)
  {
    && (forall w :: w in dict ==> 1 <= dict[w] <= |ws| && ws[dict[w] - 1] == w)
    && (forall k :: 0 <= k < |ws| ==> ws[k] in dict)
  }

  /** The phrases the encoder has emitted after reading `input`. */
  ghost function Phrases(input: string): seq<string>
  {
    if input == [] then []
    else
      var st := EncodeState(input[..|input| - 1]);
      var grown := st.current + [input[|input| - 1]];
      var ws := Phrases(input[..|input| - 1]);
      if grown in st.dict then ws else ws + [grown]
  }

  ghost predicate EncInv(st: EncState, ws: seq<string>, input: string)
  {
    && TableInv(st.dict, ws)
    && Distinct(ws)
    && Coded(st.out, ws)
    && st.nextIndex == |ws| + 1
    && (st.current != [] ==> st.current in st.dict)
    && Concat(ws) + st.current == input
  }

  lemma ExtendStep(st: EncState, ws: seq<string>, input: string, c: char)
    requires EncInv(st, ws, input) && st.current + [c] in st.dict
    ensures EncInv(EncStep(st, c), ws, input + [c])
  {
  }

  lemma CodedAdd(out: seq<Pair>, ws: seq<string>, p: Pair, w: string)
    requires Coded(out, ws) && 0 <= p.index <= |ws| && w == Entry(ws, p.index) + [p.next]
    ensures Coded(out + [p], ws + [w])
  {
    var out' := out + [p];
    var ws' := ws + [w];
    assert ws'[..|ws|] == ws;
    forall k | 0 <= k < |out'| ensures Spells(ws', k, out'[k]) {
      if k < |out| {
        assert out'[k] == out[k];
        SpellsPrefix(ws, ws', k, out[k]);
      } else {
        assert Entry(ws', p.index) == Entry(ws, p.index);
      }
    }
  }

  /** Dropping the last pair and phrase keeps the rest coded. */
  lemma CodedInit(out: seq<Pair>, ws: seq<string>)
    requires Coded(out, ws) && out != []
    ensures Coded(out[..|out| - 1], ws[..|ws| - 1])
  {
    var n := |out|;
    var ws' := ws[..n - 1];
    assert ws == ws' + [ws[n - 1]];
    assert ws' == ws[..|ws'|];
    forall k | 0 <= k < n - 1 ensures Spells(ws', k, out[k]) {
      SpellsPrefix(ws', ws, k, out[k]);
    }
  }

  /** Adding a new phrase under the next index keeps the dictionary exact. */
  lemma EmitTable(dict: map<string, int>, ws: seq<string>, grown: string)
    requires TableInv(dict, ws) && grown !in dict
    ensures TableInv(dict[grown := |ws| + 1], ws + [grown])
  {
    var dict' := dict[grown := |ws| + 1];
    var ws' := ws + [grown];
    forall w | w in dict' ensures 1 <= dict'[w] <= |ws'| && ws'[dict'[w] - 1] == w {
      if w != grown {
        assert ws'[dict[w] - 1] == ws[dict[w] - 1];
      }
    }
    forall k | 0 <= k < |ws'| ensures ws'[k] in dict' {
      if k < |ws| {
        assert ws'[k] == ws[k];
      }
    }
  }

  /** A phrase missing from the dictionary differs from every earlier one. */
  lemma EmitDistinct(dict: map<string, int>, ws: seq<string>, grown: string)
    requires TableInv(dict, ws) && Distinct(ws) && grown !in dict
    ensures Distinct(ws + [grown])
  {
    var ws' := ws + [grown];
    forall i, j | 0 <= i < j < |ws'| ensures ws'[i] != ws'[j] {
      if j == |ws| {
        assert ws[i] in dict;
      }
    }
  }

  lemma EmitStep(st: EncState, ws: seq<string>, input: string, c: char)
    requires EncInv(st, ws, input) && st.current + [c] !in st.dict
    ensures EncInv(EncStep(st, c), ws + [st.current + [c]], input + [c])
  {
    var grown := st.current + [c];
    var index := PrefixIndex(st.dict, st.current);
    var next := EncState(st.dict[grown := |ws| + 1], |ws| + 2, [], st.out + [Pair(index, c)]);
    assert EncStep(st, c) == next;
    assert 0 <= index <= |ws| && Entry(ws, index) == st.current;
    CodedAdd(st.out, ws, Pair(index, c), grown);
    EmitTable(st.dict, ws, grown);
    EmitDistinct(st.dict, ws, grown);
    ConcatSnoc(ws, grown);
    assert Concat(ws + [grown]) == input + [c];
    assert EncInv(next, ws + [grown], input + [c]);
  }

  lemma {:induction false} EncoderInvariant(input: string)
    ensures EncInv(EncodeState(input), Phrases(input), input)
  {
    if input != [] {
      var prefix := input[..|input| - 1];
      var c := input[|input| - 1];
      EncoderInvariant(prefix);
      var st := EncodeState(prefix);
      assert input == prefix + [c];
      if st.current + [c] in st.dict {
        ExtendStep(st, Phrases(prefix), prefix, c);
      } else {
        EmitStep(st, Phrases(prefix), prefix, c);
      }
    }
  }

  /** Every pair names an earlier phrase, so the decoder never leaves its
      dictionary on the encoder's output. */
  lemma EncodeIndicesAreEarlier(input: string)
    ensures forall k :: 0 <= k < |Encode(input)| ==> 0 <= Encode(input)[k].index <= k
  {
    EncoderInvariant(input);
  }

  /** The phrases are pairwise different: each one is new when emitted. */
  lemma PhrasesAreDistinct(input: string)
    ensures |Phrases(input)| == |Encode(input)|
    ensures Distinct(Phrases(input))
  {
    EncoderInvariant(input);
  }

  // ---------------------------------------------------------------------
  // Decoding the encoder's output
  // ---------------------------------------------------------------------

  lemma ConcatSnoc(ws: seq<string>, w: string)
    ensures Concat(ws + [w]) == Concat(ws) + w
  {
    assert (ws + [w])[..|ws|] == ws;
  }

  /** The decoder, started on the dictionary of phrases `ws`, decodes a
      pair that spells `w` to `w`. */
  lemma DecodeSpelled(ws: seq<string>, w: string, p: Pair)
    requires 0 <= p.index <= |ws| && w == Entry(ws, p.index) + [p.next]
    ensures DecStep(Running([[]] + ws, Concat(ws)), p) == Running([[]] + (ws + [w]), Concat(ws + [w]))
  {
    var dict: seq<string> := [[]] + ws;
    var r := Concat(ws);
    var d := DecStep(Running(dict, r), p);
    if p.index == 0 {
      assert [p.next] == w;
      assert d == Running(dict + [[p.next]], r + [p.next]);
    } else {
      assert dict[p.index] + [p.next] == w;
      assert d == Running(dict + [dict[p.index] + [p.next]], r + (dict[p.index] + [p.next]));
    }
    assert dict + [w] == [[]] + (ws + [w]);
    ConcatSnoc(ws, w);
  }

  /** Pairs that spell phrases decode to the phrases' concatenation. */
  lemma {:induction false} DecodeCoded(out: seq<Pair>, ws: seq<string>)
    requires Coded(out, ws)
    ensures DecodeState(out) == Running([[]] + ws, Concat(ws))
  {
    if out != [] {
      var n := |out|;
      var init := ws[..n - 1];
      CodedInit(out, ws);
      DecodeCoded(out[..n - 1], init);
      var p := out[n - 1];
      assert Spells(ws, n - 1, p);
      SpellsPrefix(init + [ws[n - 1]], ws, n - 1, p);
      assert ws == init + [ws[n - 1]];
      DecodeSpelled(init, ws[n - 1], p);
    }
  }

  /** The text splits into the decoded part and the pending phrase, and the
      pending phrase is empty or a phrase already in the dictionary. */
  lemma RoundTrip(input: string)
    ensures |Pending(input)| <= |input|
    ensures Decode(Encode(input)) == Restored(input[..|input| - |Pending(input)|])
    ensures input[|input| - |Pending(input)|..] == Pending(input)
    ensures Pending(input) != [] ==> Pending(input) in Phrases(input)
  {
    EncoderInvariant(input);
    var st := EncodeState(input);
    var ws := Phrases(input);
    DecodeCoded(st.out, ws);
    assert input[..|input| - |st.current|] == Concat(ws);
    if st.current != [] {
      assert ws[st.dict[st.current] - 1] == st.current;
    }
  }

  /** The pair the corrected ending emits spells the pending phrase: the
      phrase is in the dictionary, so its prefix is a phrase too. */
  lemma FlushCoded(st: EncState, ws: seq<string>, input: string)
    requires EncInv(st, ws, input) && st.current != []
    ensures Coded(Flush(st), ws + [st.current])
  {
    var n := |st.current|;
    var j := st.dict[st.current] - 1;
    assert ws[j] == st.current;
    var q := st.out[j];
    assert Spells(ws, j, q);
    var prefix := st.current[..n - 1];
    assert st.current == prefix + [st.current[n - 1]];
    assert prefix == Entry(ws, q.index);
    var index := PrefixIndex(st.dict, prefix);
    assert 0 <= index <= |ws| && Entry(ws, index) == prefix by {
      if prefix != [] {
        assert prefix == ws[q.index - 1];
        assert prefix in st.dict;
      }
    }
    CodedAdd(st.out, ws, Pair(index, st.current[n - 1]), st.current);
  }

  /** The corrected encoder's output decodes to the whole text. */
  lemma FlushedRoundTrip(input: string)
    ensures Decode(EncodeFlushed(input)) == Restored(input)
  {
    EncoderInvariant(input);
    var st := EncodeState(input);
    var ws := Phrases(input);
    if st.current == [] {
      DecodeCoded(st.out, ws);
      assert input == Concat(ws);
    } else {
      FlushCoded(st, ws, input);
      DecodeCoded(Flush(st), ws + [st.current]);
      ConcatSnoc(ws, st.current);
    }
  }

  /** "aa" compresses to the single pair (0, 'a'): the second 'a' is a
      phrase already known when the text ends, and it is lost. */
  lemma TrailingPhraseIsLost()
    ensures Encode("aa") == [Pair(0, 'a')]
    ensures Decode(Encode("aa")) == Restored("a")
    ensures Decode(EncodeFlushed("aa")) == Restored("aa")
  {
    assert "aa"[..1] == "a";
    assert "a"[..0] == "";
    assert EncodeState("") == EncState(map[], 1, [], []);
    assert [] + ['a'] == "a";
    assert EncStep(EncState(map[], 1, [], []), 'a') == EncState(map["a" := 1], 2, [], [Pair(0, 'a')]);
    assert EncodeState("a") == EncState(map["a" := 1], 2, [], [Pair(0, 'a')]);
    assert EncodeState("aa") == EncState(map["a" := 1], 2, "a", [Pair(0, 'a')]);
    assert [Pair(0, 'a')][..0] == [];
    FlushedRoundTrip("aa");
  }
}
