/** Why LZW decoding undoes LZW encoding. Both sides build the same
    dictionary from the list of phrases the encoder emits: entry `c` below
    256 is the byte `c`, and entry `256 + k` is phrase `k` extended by the
    first byte of phrase `k + 1`. The encoder's map is the inverse of that
    table, the decoder's array is that table, and the decoder recovers each
    phrase from its code. */
module LzwRoundTrip {
  import opened Lzw

  /** Entry `c` of the table both sides build from the phrases `ws`. */
  function Entry(ws: seq<seq<Byte>>, c: int): seq<Byte>
    requires 0 <= c < 255 + |ws|
  {
    if c < 256 then [c as Byte] else ws[c - 256] + [First(ws[c - 255])]
  }

  /** Entries only depend on the phrases before the last one and on the
      first byte of the last one. */
  lemma EntryStable(ws: seq<seq<Byte>>, vs: seq<seq<Byte>>, c: int)
    requires 0 <= c < 255 + |ws| && |ws| <= |vs|
    requires forall k :: 0 <= k < |ws| - 1 ==> vs[k] == ws[k]
    requires 256 <= c ==> First(vs[|ws| - 1]) == First(ws[|ws| - 1])
    ensures Entry(vs, c) == Entry(ws, c)
  {
  }

  /** `codes` names the non-empty phrases `ws` one by one: code `k` was
      assigned before phrase `k` was emitted, and its table entry is that
      phrase. */
  ghost predicate Coded(codes: seq<Code>, ws: seq<seq<Byte>>, cap: int)
  {
    && |codes| == |ws|
    && (forall k :: 0 <= k < |ws| ==> ws[k] != [])
    && (forall k :: 0 <= k < |codes| ==> codes[k] < 256 + Min(k, cap - 256) && Entry(ws, codes[k]) == ws[k])
  }

  // ---------------------------------------------------------------------
  // The encoder side
  // ---------------------------------------------------------------------

  /** The phrases the encoder has emitted after reading `input`. */
  ghost function Phrases(input: seq<Byte>, cap: int): seq<seq<Byte>>
  {
    if input == [] then []
    else
      var prefix := input[..|input| - 1];
      var st := EncodeState(prefix, cap);
      if st.current + [input[|input| - 1]] in st.dict then Phrases(prefix, cap)
      else Phrases(prefix, cap) + [st.current]
  }

  /** The encoder's map is the inverse of the first `next` table entries
      built from `all`. */
  ghost predicate TableInv(dict: map<seq<Byte>, Code>, next: int, all: seq<seq<Byte>>)
  {
    && next <= 255 + |all|
    && (forall c :: 0 <= c < next ==> Entry(all, c) in dict && dict[Entry(all, c)] == c)
    && (forall w :: w in dict ==> dict[w] < next && Entry(all, dict[w]) == w)
  }

  /** Each emitted code was assigned before its phrase was emitted and
      names that phrase. */
  ghost predicate CodesInv(out: seq<Code>, ws: seq<seq<Byte>>, all: seq<seq<Byte>>, cap: int)
  {
    && |out| == |ws|
    && |ws| < |all|
    && (forall k :: 0 <= k < |out| ==> out[k] < 256 + Min(k, cap - 256) && Entry(all, out[k]) == ws[k])
  }

  /** What the encoder's variables mean after reading `input`, with `ws`
      the emitted phrases and `ws + [current]` the phrases the table is
      built from. */
  ghost predicate EncInv(st: EncState, ws: seq<seq<Byte>>, input: seq<Byte>, cap: int)
  {
    && Concat(ws) + st.current == input
    && (input == [] ==> ws == [] && st.current == [])
    && (input != [] ==> st.current != [])
    && (st.current != [] ==> st.current in st.dict)
    && (forall k :: 0 <= k < |ws| ==> ws[k] != [])
    && st.next == 256 + Min(|ws|, cap - 256)
    && TableInv(st.dict, st.next, ws + [st.current])
    && CodesInv(st.out, ws, ws + [st.current], cap)
  }

  /** The `uint16_t` code counter has not wrapped: either the capacity
      stops insertions below 1 << 16, or at most 65279 phrases have been
      emitted, so `nextCode` has reached 65535 at most (the 65280th
      insertion takes code 65535 and wraps the counter to 0). */
  predicate NoWrap(st: EncState, cap: int)
  {
    cap < MaxTableSize || |st.out| <= MaxTableSize - 257
  }

  lemma InitialInvariant(cap: int)
    requires ValidCap(cap)
    ensures EncInv(EncodeState([], cap), [], [], cap)
  {
    var st := EncodeState([], cap);
    forall c | 0 <= c < st.next ensures Entry([st.current], c) in st.dict && st.dict[Entry([st.current], c)] == c {
      assert [c as Byte] in InitialDictionary();
    }
  }

  /** The table invariant survives a change of phrases that keeps the
      first `next` entries. */
  lemma TableKeep(dict: map<seq<Byte>, Code>, next: int, all: seq<seq<Byte>>, all': seq<seq<Byte>>)
    requires TableInv(dict, next, all) && next <= 255 + |all'|
    requires forall c :: 0 <= c < next ==> Entry(all', c) == Entry(all, c)
    ensures TableInv(dict, next, all')
  {
  }

  /** Adding the phrase of entry `next` under code `next`. */
  lemma TableAdd(dict: map<seq<Byte>, Code>, next: int, all: seq<seq<Byte>>, w: seq<Byte>)
    requires TableInv(dict, next, all) && 0 <= next < 255 + |all| && next + 1 < 0x1_0000
    requires w !in dict && Entry(all, next) == w
    ensures TableInv(dict[w := next], next + 1, all)
  {
  }

  lemma CodesKeep(out: seq<Code>, ws: seq<seq<Byte>>, all: seq<seq<Byte>>, all': seq<seq<Byte>>, cap: int)
    requires CodesInv(out, ws, all, cap) && |ws| < |all'|
    requires forall c :: 0 <= c < 256 + |ws| - 1 ==> Entry(all', c) == Entry(all, c)
    ensures CodesInv(out, ws, all', cap)
  {
  }

  lemma CodesAdd(out: seq<Code>, ws: seq<seq<Byte>>, all: seq<seq<Byte>>, code: Code, w: seq<Byte>, cap: int)
    requires CodesInv(out, ws, all, cap) && |ws| + 1 < |all|
    requires code < 256 + Min(|ws|, cap - 256) && Entry(all, code) == w
    ensures CodesInv(out + [code], ws + [w], all, cap)
  {
  }

  /** Reading a byte that extends the current phrase. */
  lemma ExtendStep(st: EncState, ws: seq<seq<Byte>>, input: seq<Byte>, b: Byte, cap: int)
    requires ValidCap(cap) && EncInv(st, ws, input, cap)
    requires st.current + [b] in st.dict
    ensures EncInv(st.(current := st.current + [b]), ws, input + [b], cap)
  {
    var all := ws + [st.current];
    var all' := ws + [st.current + [b]];
    forall c | 0 <= c < st.next ensures Entry(all', c) == Entry(all, c) {
      EntryStable(all, all', c);
    }
    TableKeep(st.dict, st.next, all, all');
    CodesKeep(st.out, ws, all, all', cap);
  }

  /** Reading a byte that ends the current phrase: its code is emitted and
      the extended phrase takes the next code if there is room. */
  lemma EmitStep(st: EncState, ws: seq<seq<Byte>>, input: seq<Byte>, b: Byte, cap: int)
    requires ValidCap(cap) && EncInv(st, ws, input, cap)
    requires st.current + [b] !in st.dict
    requires cap < MaxTableSize || |ws| < MaxTableSize - 257
    ensures st.current != [] && st.current in st.dict
    ensures EncInv(EncStep(st, b, cap), ws + [st.current], input + [b], cap)
  {
    var all := ws + [st.current];
    assert Entry(all, b) == [b];
    assert [b] in st.dict;
    assert st.current + [b] != [b];
    var extended := st.current + [b];
    var ws' := ws + [st.current];
    var all' := ws' + [[b]];
    var st' := EncStep(st, b, cap);
    forall c | 0 <= c < 255 + |all| ensures Entry(all', c) == Entry(all, c) {
      EntryStable(all, all', c);
    }
    assert Concat(ws') == Concat(ws) + st.current;
    TableKeep(st.dict, st.next, all, all');
    CodesKeep(st.out, ws, all, all', cap);
    CodesAdd(st.out, ws, all', st.dict[st.current], st.current, cap);
    if st.next < cap {
      TableAdd(st.dict, st.next, all', extended);
    }
  }

  /** The encoder's variables keep their meaning through the whole input,
      as long as the code counter does not wrap. */
  lemma {:induction false} EncoderInvariant(input: seq<Byte>, cap: int)
    requires ValidCap(cap) && NoWrap(EncodeState(input, cap), cap)
    ensures EncInv(EncodeState(input, cap), Phrases(input, cap), input, cap)
  {
    if input == [] {
      InitialInvariant(cap);
    } else {
      var prefix := input[..|input| - 1];
      var b := input[|input| - 1];
      var st := EncodeState(prefix, cap);
      var st' := EncStep(st, b, cap);
      assert prefix + [b] == input;
      assert EncodeState(input, cap) == st';
      assert |st.out| <= |st'.out|;
      EncoderInvariant(prefix, cap);
      var ws := Phrases(prefix, cap);
      if st.current + [b] in st.dict {
        assert Phrases(input, cap) == ws;
        ExtendStep(st, ws, prefix, b, cap);
      } else {
        assert Phrases(input, cap) == ws + [st.current];
        assert |ws| == |st.out| && |st'.out| == |st.out| + 1;
        EmitStep(st, ws, prefix, b, cap);
      }
    }
  }

  /** The encoder never looks up a phrase that is not in its dictionary:
      the `0` fallback of CodeOf is never taken. */
  lemma EncoderNeverMisses(input: seq<Byte>, cap: int)
    requires ValidCap(cap) && NoWrap(EncodeState(input, cap), cap)
    ensures EncodeState(input, cap).current != [] ==> EncodeState(input, cap).current in EncodeState(input, cap).dict
    ensures input != [] <==> EncodeState(input, cap).current != []
  {
    EncoderInvariant(input, cap);
  }

  /** At the end of the input, the emitted codes followed by the code of
      the pending phrase name the phrases one by one. */
  lemma FinalCodes(st: EncState, ws: seq<seq<Byte>>, input: seq<Byte>, cap: int)
    requires ValidCap(cap) && EncInv(st, ws, input, cap) && st.current != []
    ensures st.current in st.dict
    ensures Coded(st.out + [st.dict[st.current]], ws + [st.current], cap)
    ensures Concat(ws + [st.current]) == input
  {
    var all := ws + [st.current];
    var codes := st.out + [st.dict[st.current]];
    assert all[..|all| - 1] == ws;
    forall k | 0 <= k < |codes| ensures codes[k] < 256 + Min(k, cap - 256) && Entry(all, codes[k]) == all[k] {
      if k < |st.out| {
        assert codes[k] == st.out[k];
      }
    }
  }

  /** Every code `compress` returns names the next phrase of the input. */
  lemma EncodeIsCoded(input: seq<Byte>, cap: int)
    requires ValidCap(cap) && input != []
    requires cap < MaxTableSize || |Encode(input, cap)| <= MaxTableSize - 256
    ensures Coded(Encode(input, cap), Phrases(input, cap) + [EncodeState(input, cap).current], cap)
    ensures Concat(Phrases(input, cap) + [EncodeState(input, cap).current]) == input
  {
    var st := EncodeState(input, cap);
    assert st == EncStep(EncodeState(input[..|input| - 1], cap), input[|input| - 1], cap);
    assert st.current != [];
    assert NoWrap(st, cap);
    EncoderInvariant(input, cap);
    FinalCodes(st, Phrases(input, cap), input, cap);
  }

  // ---------------------------------------------------------------------
  // The decoder side
  // ---------------------------------------------------------------------

  /** After `i` codes of a list that names the phrases `ws`, the decoder has
      restored the first `i` phrases and its table holds their entries. */
  ghost predicate DecInv(s: DecStatus, ws: seq<seq<Byte>>, i: int, cap: int)
    requires 1 <= i <= |ws|
  {
    && s.Running?
    && s.st.prev == ws[i - 1]
    && s.st.result == Concat(ws[..i])
    && s.st.next == 256 + Min(i - 1, cap - 256)
    && WellFormed(s.st)
    && s.st.next <= 255 + |ws|
    && (forall c :: 0 <= c < s.st.next ==> s.st.table[c] == Entry(ws, c))
  }

  lemma DecodeFirst(codes: seq<Code>, ws: seq<seq<Byte>>, cap: int)
    requires ValidCap(cap) && Coded(codes, ws, cap) && |codes| >= 1
    ensures DecInv(DecodeUpTo(codes, 1, cap), ws, 1, cap)
  {
    assert codes[0] < 256;
    assert Entry(ws, codes[0]) == ws[0];
    assert ws[..1] == [ws[0]];
    assert Concat([ws[0]]) == Concat([]) + ws[0];
  }

  /** The code after phrase `i - 1` restores phrase `i`: either it is
      already in the table, or it is the entry being defined, whose phrase
      is the previous one extended by its own first byte. */
  lemma DecodeNext(s: DecStatus, code: Code, ws: seq<seq<Byte>>, i: nat, cap: int)
    requires ValidCap(cap) && 1 <= i < |ws| && DecInv(s, ws, i, cap)
    requires ws[i - 1] != [] && ws[i] != []
    requires code < 256 + Min(i, cap - 256) && Entry(ws, code) == ws[i]
    requires cap <= TableSlots || |ws| <= TableSlots - 255
    ensures DecInv(DecStep(s, code, cap), ws, i + 1, cap)
  {
    var st := s.st;
    var entry := if code < st.next then st.table[code] else st.prev + [First(st.prev)];
    if code == st.next {
      assert ws[i] == ws[i - 1] + [First(ws[i])];
      assert First(ws[i]) == First(st.prev);
    }
    assert entry == ws[i];
    assert ws[..i + 1][..i] == ws[..i];
    assert Concat(ws[..i + 1]) == Concat(ws[..i]) + ws[i];
    if st.next < cap {
      assert st.next < TableSlots;
      assert Entry(ws, st.next) == st.prev + [First(entry)];
    }
  }

  lemma CodedAt(codes: seq<Code>, ws: seq<seq<Byte>>, j: int, cap: int)
    requires Coded(codes, ws, cap) && 1 <= j < |codes|
    ensures ws[j - 1] != [] && ws[j] != []
    ensures codes[j] < 256 + Min(j, cap - 256) && Entry(ws, codes[j]) == ws[j]
  {
  }

  lemma {:induction false} DecodeRestores(codes: seq<Code>, ws: seq<seq<Byte>>, i: nat, cap: int)
    requires ValidCap(cap) && Coded(codes, ws, cap) && 1 <= i <= |codes|
    requires cap <= TableSlots || |codes| <= TableSlots - 255
    ensures DecInv(DecodeUpTo(codes, i, cap), ws, i, cap) == true
  {
    if i == 1 {
      DecodeFirst(codes, ws, cap);
    } else {
      var j := i - 1;
      DecodeRestores(codes, ws, j, cap);
      assert DecodeUpTo(codes, i, cap) == DecStep(DecodeUpTo(codes, j, cap), codes[j], cap);
      CodedAt(codes, ws, j, cap);
      DecodeNext(DecodeUpTo(codes, j, cap), codes[j], ws, j, cap);
    }
  }

  /** A code list that names the phrases `ws` decodes to their
      concatenation. */
  lemma DecodeCoded(codes: seq<Code>, ws: seq<seq<Byte>>, cap: int)
    requires ValidCap(cap) && Coded(codes, ws, cap) && |codes| >= 1
    requires cap <= TableSlots || |codes| <= TableSlots - 255
    ensures Decode(codes, cap) == Restored(Concat(ws))
  {
    DecodeRestores(codes, ws, |codes|, cap);
    assert ws[..|ws|] == ws;
  }

  /** Decompressing what compress produced gives back the input, for every
      non-empty input whose codes fit the decoder's table; with a capacity
      of TableSlots on both sides, for every non-empty input. */
  lemma RoundTrip(input: seq<Byte>, cap: int)
    requires ValidCap(cap) && input != []
    requires cap <= TableSlots || |Encode(input, cap)| <= TableSlots - 255
    ensures Decode(Encode(input, cap), cap) == Restored(input)
  {
    EncodeIsCoded(input, cap);
    DecodeCoded(Encode(input, cap), Phrases(input, cap) + [EncodeState(input, cap).current], cap);
  }

  /** Whenever the round trip holds, every code compress returns is below
      both the capacity and the decoder's 4096 slots, so it fits in 12
      bits. */
  lemma EncodeFitsTable(input: seq<Byte>, cap: int)
    requires ValidCap(cap)
    requires cap <= TableSlots || |Encode(input, cap)| <= TableSlots - 255
    ensures forall k :: 0 <= k < |Encode(input, cap)| ==> Encode(input, cap)[k] < Min(cap, TableSlots)
  {
    if input != [] {
      EncodeIsCoded(input, cap);
      var codes := Encode(input, cap);
      forall k | 0 <= k < |codes| ensures codes[k] < Min(cap, TableSlots) {
        assert codes[k] < 256 + Min(k, cap - 256);
      }
    } else {
      assert EncodeState(input, cap).current == [];
    }
  }

  // ---------------------------------------------------------------------
  // The decoder's 4096-slot table
  // ---------------------------------------------------------------------

  /** As written (capacity MaxTableSize), the decoder keeps defining
      entries after its 4096th slot: a list of 3842 or more single-byte
      codes drives it to write slot 4096. */
  lemma {:induction false} SingleBytesReachSlot(codes: seq<Code>, i: nat)
    requires 1 <= i <= |codes| && i <= TableSlots - 255
    requires forall k :: 0 <= k < |codes| ==> codes[k] < 256
    ensures DecodeUpTo(codes, i, MaxTableSize).Running?
    ensures DecodeUpTo(codes, i, MaxTableSize).st.next == 255 + i
  {
    if i > 1 {
      SingleBytesReachSlot(codes, i - 1);
    }
  }

  lemma DecodeOverrunsTable(codes: seq<Code>)
    requires |codes| >= TableSlots - 254
    requires forall k :: 0 <= k < |codes| ==> codes[k] < 256
    ensures Decode(codes, MaxTableSize) == OutOfTable
  {
    var last := TableSlots - 255;
    SingleBytesReachSlot(codes, last);
    assert DecodeUpTo(codes, last + 1, MaxTableSize) == Stopped(OutOfTable);
    StoppedStays(codes, last + 1, |codes|, MaxTableSize);
  }

  /** The smallest such list: 3842 copies of the code of "A". */
  lemma OverrunExample()
    ensures Decode(seq(TableSlots - 254, _ => 65), MaxTableSize) == OutOfTable
  {
    DecodeOverrunsTable(seq(TableSlots - 254, _ => 65));
  }

  /** With a capacity within the table, the decoder never writes outside
      it. */
  lemma {:induction false} CappedDecoderStaysInTable(codes: seq<Code>, i: nat, cap: int)
    requires ValidCap(cap) && cap <= TableSlots && 1 <= i <= |codes| && codes[0] < TableSlots
    ensures DecodeUpTo(codes, i, cap) != Stopped(OutOfTable)
    ensures DecodeUpTo(codes, i, cap).Running? ==> DecodeUpTo(codes, i, cap).st.next <= cap
  {
    if i > 1 {
      CappedDecoderStaysInTable(codes, i - 1, cap);
    }
  }

  lemma CappedDecodeNeverOverruns(codes: seq<Code>, cap: int)
    requires ValidCap(cap) && cap <= TableSlots && |codes| > 0 && codes[0] < TableSlots
    ensures Decode(codes, cap) != OutOfTable
  {
    CappedDecoderStaysInTable(codes, |codes|, cap);
  }

  // ---------------------------------------------------------------------
  // Small inputs
  // ---------------------------------------------------------------------

  lemma FiveAsEncode()
    ensures Encode([65, 65, 65, 65, 65], MaxTableSize) == [65, 256, 256]
  {
    var input: seq<Byte> := [65, 65, 65, 65, 65];
    var d0 := InitialDictionary();
    assert [65] in d0 && d0[[65]] == 65;
    assert [65, 65] !in d0;
    var s1 := EncodeState(input[..1], MaxTableSize);
    assert input[..1][..0] == [];
    var s0 := EncodeState([], MaxTableSize);
    assert s0 == EncState(d0, 256, [], []);
    assert s1 == EncStep(s0, 65, MaxTableSize);
    assert s0.current + [65] == [65];
    assert s1 == EncState(d0, 256, [65], []);
    var d1 := d0[[65, 65] := 256];
    var s2 := EncodeState(input[..2], MaxTableSize);
    assert input[..2][..1] == input[..1];
    assert s2 == EncStep(s1, 65, MaxTableSize);
    assert s1.current + [65] == [65, 65];
    assert CodeOf(d0, [65]) == 65;
    assert s2 == EncState(d1, 257, [65], [65]);
    var s3 := EncodeState(input[..3], MaxTableSize);
    assert input[..3][..2] == input[..2];
    assert s3 == EncState(d1, 257, [65, 65], [65]);
    assert [65, 65, 65] !in d1;
    var d2 := d1[[65, 65, 65] := 257];
    var s4 := EncodeState(input[..4], MaxTableSize);
    assert input[..4][..3] == input[..3];
    assert s4 == EncStep(s3, 65, MaxTableSize);
    assert [65, 65] + [65] == [65, 65, 65];
    assert s4 == EncState(d2, 258, [65], [65, 256]);
    var s5 := EncodeState(input, MaxTableSize);
    assert input[..4] == input[..|input| - 1];
    assert s5 == EncState(d2, 258, [65, 65], [65, 256]);
  }

  lemma FiveAsDecode()
    ensures Decode([65, 256, 256], MaxTableSize) == Restored([65, 65, 65, 65, 65])
  {
    var codes: seq<Code> := [65, 256, 256];
    var t0 := InitialTable();
    assert DecodeUpTo(codes, 1, MaxTableSize) == Running(DecState(t0, 256, [65], [65]));
    var t1 := t0[256 := [65, 65]];
    assert [65] + [First([65])] == [65, 65];
    assert [65] + [65, 65] == [65, 65, 65];
    assert DecodeUpTo(codes, 2, MaxTableSize) == Running(DecState(t1, 257, [65, 65], [65, 65, 65]));
    var t2 := t1[257 := [65, 65, 65]];
    assert t1[256] == [65, 65];
    assert [65, 65] + [First([65, 65])] == [65, 65, 65];
    assert [65, 65, 65] + [65, 65] == [65, 65, 65, 65, 65];
    assert DecodeUpTo(codes, 3, MaxTableSize) == Running(DecState(t2, 258, [65, 65], [65, 65, 65, 65, 65]));
  }

  /** "AAAAA" compresses to the code of "A" followed twice by the code of
      "AA", the first entry the encoder defines, and decompresses back. */
  lemma FiveAs()
    ensures Encode([65, 65, 65, 65, 65], MaxTableSize) == [65, 256, 256]
    ensures Decode([65, 256, 256], MaxTableSize) == Restored([65, 65, 65, 65, 65])
  {
    FiveAsEncode();
    FiveAsDecode();
  }

  /** A single byte compresses to its own code, and nothing to nothing. */
  lemma ShortInputs(b: Byte)
    ensures Encode([b], MaxTableSize) == [b]
    ensures Encode([], MaxTableSize) == []
  {
    assert [b][..0] == [];
    var s0 := EncodeState([], MaxTableSize);
    assert s0.current + [b] == [b];
    assert [b] in InitialDictionary();
    assert EncodeState([b], MaxTableSize) == EncStep(s0, b, MaxTableSize);
  }
}
