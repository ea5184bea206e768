/** The LZW dictionary codec of alg_LZiv.cpp (class Compression::LZW):
    `compress` turns bytes into 16-bit codes, `decompress` turns codes back
    into bytes. Both are methods with loops, proved equal to a left fold
    (EncodeState, DecodeUpTo); the round trip is proved about the folds.

    The source compiles both with MAX_TABLE_SIZE = 1 << 16 while the decoder
    only allocates 4096 table slots. The dictionary capacity is therefore a
    parameter `cap` here: MaxTableSize reproduces the code as written, and
    TableSlots is the capacity both sides must agree on for every input to
    round-trip. */
module Lzw {

  type Byte = x: int | 0 <= x < 256
  /** A `uint16_t`. */
  type Code = x: int | 0 <= x < 0x1_0000

  /** `MAX_TABLE_SIZE = 1 << MAX_BITS` with `MAX_BITS = 16`. */
  const MaxTableSize: int := 0x1_0000
  /** The decoder's `vector<string> dictionary(4096)`. */
  const TableSlots: int := 4096

  predicate ValidCap(cap: int)
  {
    256 <= cap <= MaxTableSize
  }

  function Min(a: int, b: int): int
  {
    if a <= b then a else b
  }

  /** `s[0]` of a std::string: an empty string yields its terminating NUL. */
  function First(s: seq<Byte>): Byte
  {
    if s == [] then 0 else s[0]
  }

  /** Concatenation of a list of phrases. */
  function Concat(ws: seq<seq<Byte>>): seq<Byte>
  {
    if ws == [] then [] else Concat(ws[..|ws| - 1]) + ws[|ws| - 1]
  }

  // ---------------------------------------------------------------------
  // Compression
  // ---------------------------------------------------------------------

  /** The 256 single-byte phrases, each coded by its own byte. */
  function InitialDictionary(): map<seq<Byte>, Code>
  {
    map b: Byte | 0 <= b < 256 :: [b] := b
  }

  /** The encoder's variables between two input bytes. */
  datatype EncState = EncState(dict: map<seq<Byte>, Code>, next: Code, current: seq<Byte>, out: seq<Code>)

  /** The code the encoder emits for `current`; std::unordered_map's
      operator[] yields 0 for a missing key (which never happens, see
      EncoderInvariant). */
  function CodeOf(dict: map<seq<Byte>, Code>, w: seq<Byte>): Code
  {
    if w in dict then dict[w] else 0
  }

  /** One iteration of the encoder's loop over the input. */
  function EncStep(st: EncState, b: Byte, cap: int): EncState
  {
    var extended := st.current + [b];
    if extended in st.dict then
      st.(current := extended)
    else
      var out := st.out + [CodeOf(st.dict, st.current)];
      if st.next < cap then
        EncState(st.dict[extended := st.next], (st.next + 1) % 0x1_0000, [b], out)
      else
        EncState(st.dict, st.next, [b], out)
  }

  /** The encoder's state after reading `input`. */
  function EncodeState(input: seq<Byte>, cap: int): EncState
  {
    if input == [] then EncState(InitialDictionary(), 256, [], [])
    else EncStep(EncodeState(input[..|input| - 1], cap), input[|input| - 1], cap)
  }

  /** The codes `compress` returns: the loop's output plus the code of the
      pending phrase. */
  function Encode(input: seq<Byte>, cap: int): seq<Code>
  {
    var st := EncodeState(input, cap);
    if st.current != [] then st.out + [CodeOf(st.dict, st.current)] else st.out
  }

  /** `LZW::compress`. */
  method Compress(input: seq<Byte>, cap: int) returns (output: seq<Code>)
    requires ValidCap(cap)
    ensures output == Encode(input, cap)
  {
    var dictionary: map<seq<Byte>, Code> := map[];
    for i := 0 to 256
      invariant dictionary == map b: Byte | 0 <= b < i :: [b] := b
    {
      dictionary := dictionary[[i] := i];
    }
    var current: seq<Byte> := [];
    var nextCode: Code := 256;
    output := [];
    for k := 0 to |input|
      invariant EncState(dictionary, nextCode, current, output) == EncodeState(input[..k], cap)
    {
      assert input[..k + 1][..k] == input[..k];
      var byte := input[k];
      var currentPlusC := current + [byte];
      if currentPlusC in dictionary {
        current := currentPlusC;
      } else {
        output := output + [CodeOf(dictionary, current)];
        if nextCode < cap {
          dictionary := dictionary[currentPlusC := nextCode];
          nextCode := (nextCode + 1) % 0x1_0000;
        }
        current := [byte];
      }
    }
    assert input[..|input|] == input;
    if current != [] {
      output := output + [CodeOf(dictionary, current)];
    }
  }

  // ---------------------------------------------------------------------
  // Decompression
  // ---------------------------------------------------------------------

  /** What `decompress` ends with: the restored bytes, the empty vector it
      returns after reporting an invalid code, or a write past the end of
      its 4096-slot table (undefined behaviour in the source). */
  datatype Decoded = Restored(bytes: seq<Byte>) | Rejected | OutOfTable

  datatype DecState = DecState(table: seq<seq<Byte>>, next: int, prev: seq<Byte>, result: seq<Byte>)

  datatype DecStatus = Running(st: DecState) | Stopped(outcome: Decoded)

  predicate WellFormed(st: DecState)
  {
    |st.table| == TableSlots && 256 <= st.next <= TableSlots
  }

  /** The decoder's table before the first code: single bytes, then empty
      strings. */
  function InitialTable(): (t: seq<seq<Byte>>)
    ensures |t| == TableSlots
  {
    seq(TableSlots, c requires 0 <= c < TableSlots => if c < 256 then [c as Byte] else [])
  }

  /** One iteration of the decoder's loop. */
  function DecStep(s: DecStatus, code: Code, cap: int): (r: DecStatus)
    requires s.Running? ==> WellFormed(s.st)
    ensures r.Running? ==> WellFormed(r.st)
  {
    match s
    case Stopped(_) => s
    case Running(st) =>
      if code > st.next then Stopped(Rejected)
      else
        var entry := if code < st.next then st.table[code] else st.prev + [First(st.prev)];
        var result := st.result + entry;
        if st.next < cap then
          if st.next >= TableSlots then Stopped(OutOfTable)
          else Running(DecState(st.table[st.next := st.prev + [First(entry)]], st.next + 1, entry, result))
        else
          Running(DecState(st.table, st.next, entry, result))
  }

  /** The decoder's status after the first `i` codes. */
  function DecodeUpTo(codes: seq<Code>, i: nat, cap: int): (r: DecStatus)
    requires 1 <= i <= |codes|
    ensures r.Running? ==> WellFormed(r.st)
  {
    if i == 1 then
      if codes[0] >= TableSlots then Stopped(OutOfTable)
      else
        var first := InitialTable()[codes[0]];
        Running(DecState(InitialTable(), 256, first, first))
    else
      DecStep(DecodeUpTo(codes, i - 1, cap), codes[i - 1], cap)
  }

  function Decode(codes: seq<Code>, cap: int): Decoded
    requires |codes| > 0
  {
    match DecodeUpTo(codes, |codes|, cap)
    case Running(st) => Restored(st.result)
    case Stopped(outcome) => outcome
  }

  /** Once the decoder has stopped it stays stopped. */
  lemma {:induction false} StoppedStays(codes: seq<Code>, i: nat, j: nat, cap: int)
    requires 1 <= i <= j <= |codes| && DecodeUpTo(codes, i, cap).Stopped?
    ensures DecodeUpTo(codes, j, cap) == DecodeUpTo(codes, i, cap)
    decreases j
  {
    if j > i {
      StoppedStays(codes, i, j - 1, cap);
    }
  }

  /** `LZW::decompress`. The source reads `codes[0]` unconditionally, so
      the code list must not be empty. */
  method Decompress(codes: seq<Code>, cap: int) returns (d: Decoded)
    requires |codes| > 0 && ValidCap(cap)
    ensures d == Decode(codes, cap)
  {
    var dictionary := new seq<Byte>[TableSlots];
    for c := 0 to TableSlots
      invariant forall k :: 0 <= k < c ==> dictionary[k] == InitialTable()[k]
    {
      dictionary[c] := if c < 256 then [c as Byte] else [];
    }
    assert dictionary[..] == InitialTable();
    if codes[0] >= TableSlots {
      StoppedStays(codes, 1, |codes|, cap);
      return OutOfTable;
    }
    var nextCode := 256;
    var prev := dictionary[codes[0]];
    var result := prev;
    var i := 1;
    while i < |codes|
      invariant 1 <= i <= |codes|
      invariant DecodeUpTo(codes, i, cap) == Running(DecState(dictionary[..], nextCode, prev, result))
    {
      var code := codes[i];
      var entry: seq<Byte>;
      if code < nextCode {
        entry := dictionary[code];
      } else if code == nextCode {
        entry := prev + [First(prev)];
      } else {
        StoppedStays(codes, i + 1, |codes|, cap);
        return Rejected;
      }
      result := result + entry;
      if nextCode < cap {
        if nextCode >= TableSlots {
          StoppedStays(codes, i + 1, |codes|, cap);
          return OutOfTable;
        }
        dictionary[nextCode] := prev + [First(entry)];
        nextCode := nextCode + 1;
      }
      prev := entry;
      i := i + 1;
    }
    d := Restored(result);
  }
}
