/** The 12-bit wire format of alg_LZiv.cpp: `saveCompressed` packs each
    code least-significant bit first into a bit buffer and writes out whole
    bytes, padding the last one with zeros; `loadCompressed` reads the
    bytes back into 12-bit groups. Both are methods with nested loops,
    proved equal to left folds (SaveState, LoadState). The file itself is
    not modelled: Save returns the bytes written, Load takes the bytes read.

    Values are read as numbers: a sequence of w-bit digits stands for the
    number Pack(ds, w), least significant digit first. Both loops keep
    "bytes or codes so far, plus the buffer above them" equal to the number
    read so far. */
module BitPack {
  import opened Lzw
  import LzwRoundTrip

  function Pow2(k: nat): nat
  {
    if k == 0 then 1 else 2 * Pow2(k - 1)
  }

  /** The bitwise `|` of two naturals. */
  function BitOr(a: nat, b: nat): nat
    decreases a + b
  {
    if a == 0 then b
    else if b == 0 then a
    else 2 * BitOr(a / 2, b / 2) + (if a % 2 == 1 || b % 2 == 1 then 1 else 0)
  }

  /** The number the w-bit digits `ds` stand for, least significant first. */
  function Pack(ds: seq<int>, w: nat): int
  {
    if ds == [] then 0 else Pack(ds[..|ds| - 1], w) + ds[|ds| - 1] * Pow2(w * (|ds| - 1))
  }

  // ---------------------------------------------------------------------
  // saveCompressed
  // ---------------------------------------------------------------------

  /** The packer's variables: bytes written, `buffer` and `bitsInBuffer`. */
  datatype Packer = Packer(out: seq<Byte>, buffer: nat, bits: nat)

  /** The inner `while (bitsInBuffer >= 8)` loop. */
  function Flush(p: Packer): Packer
    decreases p.bits
  {
    if p.bits >= 8 then Flush(Packer(p.out + [p.buffer % 256], p.buffer / 256, p.bits - 8))
    else p
  }

  /** One code: `buffer |= code << bitsInBuffer`, twelve more bits, flush. */
  function SaveStep(p: Packer, code: Code): Packer
  {
    Flush(Packer(p.out, BitOr(p.buffer, code * Pow2(p.bits)), p.bits + 12))
  }

  function SaveState(codes: seq<Code>): Packer
  {
    if codes == [] then Packer([], 0, 0)
    else SaveStep(SaveState(codes[..|codes| - 1]), codes[|codes| - 1])
  }

  /** The bytes `saveCompressed` writes: the flushed bytes and, if bits
      remain, one more byte holding them. */
  function Save(codes: seq<Code>): seq<Byte>
  {
    var p := SaveState(codes);
    if p.bits > 0 then p.out + [p.buffer % 256] else p.out
  }

  /** `LZW::saveCompressed`, writing to a byte sequence instead of a file. */
  method SaveCompressed(codes: seq<Code>) returns (bytes: seq<Byte>)
    ensures bytes == Save(codes)
  {
    bytes := [];
    var buffer: nat := 0;
    var bitsInBuffer: nat := 0;
    for k := 0 to |codes|
      invariant Packer(bytes, buffer, bitsInBuffer) == SaveState(codes[..k])
    {
      assert codes[..k + 1][..k] == codes[..k];
      buffer := BitOr(buffer, codes[k] * Pow2(bitsInBuffer));
      bitsInBuffer := bitsInBuffer + 12;
      while bitsInBuffer >= 8
        invariant Flush(Packer(bytes, buffer, bitsInBuffer)) == SaveState(codes[..k + 1])
        decreases bitsInBuffer
      {
        bytes := bytes + [buffer % 256];
        buffer := buffer / 256;
        bitsInBuffer := bitsInBuffer - 8;
      }
    }
    assert codes[..|codes|] == codes;
    if bitsInBuffer > 0 {
      bytes := bytes + [buffer % 256];
    }
  }

  // ---------------------------------------------------------------------
  // loadCompressed
  // ---------------------------------------------------------------------

  /** The unpacker's variables: codes read, `buffer` and `bitsInBuffer`. */
  datatype Unpacker = Unpacker(codes: seq<Code>, buffer: nat, bits: nat)

  /** The inner `while (bitsInBuffer >= 12)` loop. */
  function Extract(u: Unpacker): Unpacker
    decreases u.bits
  {
    if u.bits >= 12 then Extract(Unpacker(u.codes + [u.buffer % 4096], u.buffer / 4096, u.bits - 12))
    else u
  }

  /** One byte: `buffer |= byte << bitsInBuffer`, eight more bits, extract. */
  function LoadStep(u: Unpacker, b: Byte): Unpacker
  {
    Extract(Unpacker(u.codes, BitOr(u.buffer, b * Pow2(u.bits)), u.bits + 8))
  }

  function LoadState(bytes: seq<Byte>): Unpacker
  {
    if bytes == [] then Unpacker([], 0, 0)
    else LoadStep(LoadState(bytes[..|bytes| - 1]), bytes[|bytes| - 1])
  }

  /** The codes `loadCompressed` returns; leftover bits are dropped. */
  function Load(bytes: seq<Byte>): seq<Code>
  {
    LoadState(bytes).codes
  }

  /** `LZW::loadCompressed`, reading from a byte sequence instead of a
      file. */
  method LoadCompressed(bytes: seq<Byte>) returns (codes: seq<Code>)
    ensures codes == Load(bytes)
  {
    codes := [];
    var buffer: nat := 0;
    var bitsInBuffer: nat := 0;
    for k := 0 to |bytes|
      invariant Unpacker(codes, buffer, bitsInBuffer) == LoadState(bytes[..k])
    {
      assert bytes[..k + 1][..k] == bytes[..k];
      buffer := BitOr(buffer, bytes[k] * Pow2(bitsInBuffer));
      bitsInBuffer := bitsInBuffer + 8;
      while bitsInBuffer >= 12
        invariant Extract(Unpacker(codes, buffer, bitsInBuffer)) == LoadState(bytes[..k + 1])
        decreases bitsInBuffer
      {
        var code := buffer % 4096;
        codes := codes + [code];
        buffer := buffer / 4096;
        bitsInBuffer := bitsInBuffer - 12;
      }
    }
    assert bytes[..|bytes|] == bytes;
  }

  // ---------------------------------------------------------------------
  // Arithmetic
  // ---------------------------------------------------------------------

  lemma {:induction false} Pow2Add(a: nat, b: nat)
    ensures Pow2(a + b) == Pow2(a) * Pow2(b)
  {
    if a > 0 {
      Pow2Add(a - 1, b);
    }
  }

  lemma {:induction false} Pow2Positive(k: nat)
    ensures Pow2(k) >= 1
  {
    if k > 0 {
      Pow2Positive(k - 1);
    }
  }

  lemma Pow2Values()
    ensures Pow2(4) == 16 && Pow2(8) == 256 && Pow2(12) == 4096
  {
    assert Pow2(2) == 4;
    assert Pow2(4) == 16;
    Pow2Add(4, 4);
    Pow2Add(8, 4);
  }

  /** Or-ing in a value shifted above all bits of `a` adds it. */
  lemma {:induction false} OrDisjoint(a: nat, b: nat, k: nat)
    requires a < Pow2(k)
    ensures BitOr(a, b * Pow2(k)) == a + b * Pow2(k)
  {
    var c := b * Pow2(k);
    if k > 0 && a != 0 && b != 0 {
      assert c == 2 * (b * Pow2(k - 1));
      OrDisjoint(a / 2, b, k - 1);
      assert BitOr(a, c) == 2 * BitOr(a / 2, c / 2) + (if a % 2 == 1 then 1 else 0);
    }
  }

  lemma DivBelow(x: nat, a: nat, b: nat)
    requires b > 0 && x < a * b
    ensures x / b < a
  {
  }

  lemma MulSucc(w: nat, n: nat)
    ensures w * (n + 1) == w * n + w
  {
  }

  lemma MulLe(a: int, b: int, c: nat)
    requires a <= b
    ensures a * c <= b * c
  {
  }

  /** (q * m + d) * p, expanded. */
  lemma Expand(q: int, m: int, d: int, p: int)
    ensures (q * m + d) * p == d * p + q * (m * p)
  {
  }

  lemma DivModUnique(q1: int, r1: int, q2: int, r2: int, m: int)
    requires m > 0 && 0 <= r1 < m && 0 <= r2 < m && q1 * m + r1 == q2 * m + r2
    ensures q1 == q2 && r1 == r2
  {
    var d := q1 - q2;
    Expand(q1, m, -q2 * m, 1);
    assert d * m == r2 - r1;
    if d >= 1 {
      MulLe(1, d, m);
      assert false;
    }
    if d <= -1 {
      MulLe(d, -1, m);
      assert false;
    }
  }

  /** A digit below `m` placed above a number below `p`. */
  lemma BelowNextPower(x: int, digit: int, p: int, m: int)
    requires 0 <= x < p && 0 <= digit < m
    ensures 0 <= x + digit * p < m * p
  {
    MulLe(digit, m - 1, p);
    MulLe(0, digit, p);
    Expand(m - 1, 1, 1, p);
  }

  /** Adding a value shifted above the buffer. */
  lemma GrowBuffer(low: int, buffer: nat, r: nat, p: nat, d: nat, target: int)
    requires low + buffer * r == target
    ensures low + (buffer + d * p) * r == target + d * (r * p)
  {
    Expand(d, p, buffer, r);
  }

  predicate DigitsBelow(ds: seq<int>, w: nat)
  {
    forall k :: 0 <= k < |ds| ==> 0 <= ds[k] < Pow2(w)
  }

  /** Digits in range make a number below the next power. */
  lemma {:induction false} PackBound(ds: seq<int>, w: nat)
    requires DigitsBelow(ds, w)
    ensures 0 <= Pack(ds, w) < Pow2(w * |ds|)
  {
    if ds != [] {
      var n := |ds|;
      var init := ds[..n - 1];
      var p := Pow2(w * (n - 1));
      var x := Pack(init, w);
      assert Pack(ds, w) == x + ds[n - 1] * p;
      assert DigitsBelow(init, w);
      PackBound(init, w);
      assert Pow2(w * n) == p * Pow2(w) by {
        MulSucc(w, n - 1);
        Pow2Add(w * (n - 1), w);
      }
      BelowNextPower(x, ds[n - 1], p, Pow2(w));
    }
  }

  /** A number has one representation of a given length. */
  lemma {:induction false} PackUnique(a: seq<int>, b: seq<int>, w: nat)
    requires |a| == |b| && DigitsBelow(a, w) && DigitsBelow(b, w) && Pack(a, w) == Pack(b, w)
    ensures a == b
  {
    if a != [] {
      var n := |a|;
      assert DigitsBelow(a[..n - 1], w) && DigitsBelow(b[..n - 1], w);
      PackBound(a[..n - 1], w);
      PackBound(b[..n - 1], w);
      DivModUnique(a[n - 1], Pack(a[..n - 1], w), b[n - 1], Pack(b[..n - 1], w), Pow2(w * (n - 1)));
      PackUnique(a[..n - 1], b[..n - 1], w);
      assert a == a[..n - 1] + [a[n - 1]];
      assert b == b[..n - 1] + [b[n - 1]];
    }
  }

  // ---------------------------------------------------------------------
  // Both loops keep the number read so far
  // ---------------------------------------------------------------------

  /** The w-bit digits `out`, with `buffer` (of at most `bits` bits) above
      them, stand for `target`. */
  predicate Holds(out: seq<int>, w: nat, buffer: nat, bits: nat, target: int)
  {
    Pack(out, w) + buffer * Pow2(w * |out|) == target && buffer < Pow2(bits)
  }

  lemma PackAppend(ds: seq<int>, d: int, w: nat)
    ensures Pack(ds + [d], w) == Pack(ds, w) + d * Pow2(w * |ds|)
  {
    assert (ds + [d])[..|ds|] == ds;
  }

  /** A quotient below `a` when the whole is below `a * m`. */
  lemma QuotientBelow(q: nat, d: nat, m: nat, a: nat)
    requires q * m + d < a * m
    ensures q < a
  {
    if q >= a {
      MulLe(a, q, m);
    }
  }

  /** A buffer `q * m + d` at weight `p` is the digit `d` at weight `p`
      and `q` at weight `p * m`. */
  lemma Recombine(low: int, q: int, m: int, d: int, p: int, target: int)
    requires low + (q * m + d) * p == target
    ensures low + d * p + q * (p * m) == target
  {
    Expand(q, m, d, p);
  }

  /** Moving the low w bits `d` of the buffer to the output, leaving `q`. */
  lemma EmitDigit(out: seq<int>, w: nat, buffer: nat, bits: nat, target: int, m: nat, q: nat, d: nat)
    requires m == Pow2(w) && d < m && buffer == q * m + d
    requires Holds(out, w, buffer, bits, target) && bits >= w
    ensures Holds(out + [d], w, q, bits - w, target)
  {
    var n := |out|;
    var p := Pow2(w * n);
    assert |out + [d]| == n + 1;
    assert Pow2(w * (n + 1)) == p * m by {
      MulSucc(w, n);
      Pow2Add(w * n, w);
    }
    assert Pack(out + [d], w) == Pack(out, w) + d * p by {
      PackAppend(out, d, w);
    }
    Recombine(Pack(out, w), q, m, d, p, target);
    assert q < Pow2(bits - w) by {
      Pow2Add(bits - w, w);
      QuotientBelow(q, d, m, Pow2(bits - w));
    }
  }

  /** Or-ing a dw-bit value in just above the buffer's bits. */
  lemma AbsorbDigit(out: seq<int>, w: nat, buffer: nat, bits: nat, target: int, d: nat, dw: nat)
    requires Holds(out, w, buffer, bits, target) && d < Pow2(dw)
    ensures BitOr(buffer, d * Pow2(bits)) == buffer + d * Pow2(bits)
    ensures Holds(out, w, buffer + d * Pow2(bits), bits + dw, target + d * Pow2(w * |out| + bits))
  {
    var p := Pow2(bits);
    var r := Pow2(w * |out|);
    OrDisjoint(buffer, d, bits);
    Pow2Add(w * |out|, bits);
    assert Pow2(w * |out| + bits) == r * p;
    GrowBuffer(Pack(out, w), buffer, r, p, d, target);
    assert Pack(out, w) + (buffer + d * p) * r == target + d * Pow2(w * |out| + bits);
    Pow2Add(bits, dw);
    BelowNextPower(buffer, d, p, Pow2(dw));
  }

  // ---------------------------------------------------------------------
  // What the two loops compute
  // ---------------------------------------------------------------------

  /** The inner flush loop writes out whole bytes and keeps the number. */
  lemma {:induction false} FlushKeeps(p: Packer, target: int)
    requires Holds(p.out, 8, p.buffer, p.bits, target)
    ensures Holds(Flush(p).out, 8, Flush(p).buffer, Flush(p).bits, target)
    ensures Flush(p).bits < 8 && 8 * |Flush(p).out| + Flush(p).bits == 8 * |p.out| + p.bits
    decreases p.bits
  {
    if p.bits >= 8 {
      Pow2Values();
      EmitDigit(p.out, 8, p.buffer, p.bits, target, 256, p.buffer / 256, p.buffer % 256);
      FlushKeeps(Packer(p.out + [p.buffer % 256], p.buffer / 256, p.bits - 8), target);
    }
  }

  predicate CodesBelow12Bits(codes: seq<Code>)
  {
    forall k :: 0 <= k < |codes| ==> codes[k] < 4096
  }

  /** For 12-bit codes, the bytes written and the buffer above them stand
      for the codes read as a base-4096 number, and every bit is counted. */
  lemma {:induction false} SaveInvariant(codes: seq<Code>)
    requires CodesBelow12Bits(codes)
    ensures Holds(SaveState(codes).out, 8, SaveState(codes).buffer, SaveState(codes).bits, Pack(codes, 12))
    ensures SaveState(codes).bits < 8
    ensures 8 * |SaveState(codes).out| + SaveState(codes).bits == 12 * |codes|
  {
    if codes != [] {
      var n := |codes|;
      var prefix := codes[..n - 1];
      var code := codes[n - 1];
      assert CodesBelow12Bits(prefix);
      SaveInvariant(prefix);
      var p := SaveState(prefix);
      Pow2Values();
      AbsorbDigit(p.out, 8, p.buffer, p.bits, Pack(prefix, 12), code, 12);
      assert codes == prefix + [code];
      PackAppend(prefix, code, 12);
      FlushKeeps(Packer(p.out, p.buffer + code * Pow2(p.bits), p.bits + 12), Pack(codes, 12));
    }
  }

  /** Whatever the codes, every code adds twelve bits and the loop leaves
      fewer than eight unwritten. */
  lemma {:induction false} SaveCounts(codes: seq<Code>)
    ensures SaveState(codes).bits < 8
    ensures 8 * |SaveState(codes).out| + SaveState(codes).bits == 12 * |codes|
  {
    if codes != [] {
      SaveCounts(codes[..|codes| - 1]);
      var p := SaveState(codes[..|codes| - 1]);
      FlushCounts(Packer(p.out, BitOr(p.buffer, codes[|codes| - 1] * Pow2(p.bits)), p.bits + 12));
    }
  }

  lemma {:induction false} FlushCounts(p: Packer)
    ensures Flush(p).bits < 8 && 8 * |Flush(p).out| + Flush(p).bits == 8 * |p.out| + p.bits
    decreases p.bits
  {
    if p.bits >= 8 {
      FlushCounts(Packer(p.out + [p.buffer % 256], p.buffer / 256, p.bits - 8));
    }
  }

  /** `saveCompressed` writes ceil(12 n / 8) bytes for n codes. */
  lemma SaveLength(codes: seq<Code>)
    ensures |Save(codes)| == (12 * |codes| + 7) / 8
  {
    SaveCounts(codes);
  }

  /** For 12-bit codes the bytes written stand for the same number as the
      codes: nothing is lost and the padding is zero. */
  lemma SaveValue(codes: seq<Code>)
    requires CodesBelow12Bits(codes)
    ensures Pack(Save(codes), 8) == Pack(codes, 12)
  {
    var p := SaveState(codes);
    assert Holds(p.out, 8, p.buffer, p.bits, Pack(codes, 12)) && p.bits < 8 by {
      SaveInvariant(codes);
    }
    var x := Pack(p.out, 8);
    var scale := Pow2(8 * |p.out|);
    assert x + p.buffer * scale == Pack(codes, 12);
    if p.bits > 0 {
      assert p.buffer < 256 by {
        Pow2Values();
        Pow2Mono(p.bits, 8);
      }
      assert p.buffer % 256 == p.buffer;
      assert Save(codes) == p.out + [p.buffer];
      assert Pack(p.out + [p.buffer], 8) == x + p.buffer * scale by {
        PackAppend(p.out, p.buffer, 8);
      }
    } else {
      assert p.buffer == 0;
      assert Save(codes) == p.out;
    }
  }

  /** The inner extraction loop takes whole 12-bit groups off the buffer
      and keeps the number. */
  lemma {:induction false} ExtractHolds(u: Unpacker, target: int)
    requires Holds(u.codes, 12, u.buffer, u.bits, target)
    ensures Holds(Extract(u).codes, 12, Extract(u).buffer, Extract(u).bits, target)
    decreases u.bits
  {
    if u.bits >= 12 {
      Pow2Values();
      EmitDigit(u.codes, 12, u.buffer, u.bits, target, 4096, u.buffer / 4096, u.buffer % 4096);
      ExtractHolds(Unpacker(u.codes + [u.buffer % 4096], u.buffer / 4096, u.bits - 12), target);
    }
  }

  /** Every code the extraction loop appends is below 4096. */
  lemma {:induction false} ExtractBelow(u: Unpacker)
    requires CodesBelow12Bits(u.codes)
    ensures CodesBelow12Bits(Extract(u).codes)
    decreases u.bits
  {
    if u.bits >= 12 {
      ExtractBelow(Unpacker(u.codes + [u.buffer % 4096], u.buffer / 4096, u.bits - 12));
    }
  }

  /** The extraction loop leaves fewer than twelve bits and loses none. */
  lemma {:induction false} ExtractCounts(u: Unpacker)
    ensures Extract(u).bits < 12 && 12 * |Extract(u).codes| + Extract(u).bits == 12 * |u.codes| + u.bits
    decreases u.bits
  {
    if u.bits >= 12 {
      ExtractCounts(Unpacker(u.codes + [u.buffer % 4096], u.buffer / 4096, u.bits - 12));
    }
  }

  /** A byte or-ed in above the buffer keeps the number read so far. */
  lemma LoadAbsorb(u: Unpacker, prefix: seq<Byte>, b: Byte)
    requires Holds(u.codes, 12, u.buffer, u.bits, Pack(prefix, 8))
    requires 12 * |u.codes| + u.bits == 8 * |prefix|
    ensures Holds(u.codes, 12, BitOr(u.buffer, b * Pow2(u.bits)), u.bits + 8, Pack(prefix + [b], 8)) == true
  {
    var t0 := Pack(prefix, 8);
    var e := 8 * |prefix|;
    assert Pack(prefix + [b], 8) == t0 + b * Pow2(e) by {
      PackAppend(prefix, b, 8);
    }
    assert e == 12 * |u.codes| + u.bits;
    assert Pow2(8) == 256 by {
      Pow2Values();
    }
    AbsorbDigit(u.codes, 12, u.buffer, u.bits, t0, b, 8);
  }

  /** `loadCompressed` leaves fewer than twelve bits unread and counts
      every bit of the bytes. */
  lemma {:induction false} LoadCounts(bytes: seq<Byte>)
    ensures LoadState(bytes).bits < 12
    ensures 12 * |LoadState(bytes).codes| + LoadState(bytes).bits == 8 * |bytes|
  {
    if bytes != [] {
      var prefix := bytes[..|bytes| - 1];
      LoadCounts(prefix);
      var u := LoadState(prefix);
      ExtractCounts(Unpacker(u.codes, BitOr(u.buffer, bytes[|bytes| - 1] * Pow2(u.bits)), u.bits + 8));
    }
  }

  /** Every code `loadCompressed` returns is below 4096. */
  lemma {:induction false} LoadBelow(bytes: seq<Byte>)
    ensures CodesBelow12Bits(LoadState(bytes).codes)
  {
    if bytes != [] {
      var prefix := bytes[..|bytes| - 1];
      LoadBelow(prefix);
      var u := LoadState(prefix);
      ExtractBelow(Unpacker(u.codes, BitOr(u.buffer, bytes[|bytes| - 1] * Pow2(u.bits)), u.bits + 8));
    }
  }

  /** The codes read and the buffer above them stand for the bytes read as
      a base-256 number. */
  lemma {:induction false} LoadHolds(bytes: seq<Byte>)
    ensures Holds(LoadState(bytes).codes, 12, LoadState(bytes).buffer, LoadState(bytes).bits, Pack(bytes, 8))
  {
    if bytes != [] {
      var prefix := bytes[..|bytes| - 1];
      var b := bytes[|bytes| - 1];
      var u := LoadState(prefix);
      var v := Unpacker(u.codes, BitOr(u.buffer, b * Pow2(u.bits)), u.bits + 8);
      assert bytes == prefix + [b];
      assert LoadState(bytes) == Extract(v);
      assert Holds(v.codes, 12, v.buffer, v.bits, Pack(bytes, 8)) by {
        LoadHolds(prefix);
        LoadCounts(prefix);
        LoadAbsorb(u, prefix, b);
      }
      ExtractHolds(v, Pack(bytes, 8));
    }
  }

  /** The codes read and the buffer above them stand for the bytes read as
      a base-256 number, and every bit is counted. */
  lemma LoadInvariant(bytes: seq<Byte>)
    ensures Holds(LoadState(bytes).codes, 12, LoadState(bytes).buffer, LoadState(bytes).bits, Pack(bytes, 8))
    ensures CodesBelow12Bits(LoadState(bytes).codes)
    ensures LoadState(bytes).bits < 12
    ensures 12 * |LoadState(bytes).codes| + LoadState(bytes).bits == 8 * |bytes|
  {
    LoadHolds(bytes);
    LoadBelow(bytes);
    LoadCounts(bytes);
  }

  /** `loadCompressed` returns floor(8 n / 12) codes for n bytes. */
  lemma LoadLength(bytes: seq<Byte>)
    ensures |Load(bytes)| == 8 * |bytes| / 12
  {
    LoadInvariant(bytes);
  }

  /** Loading what was saved gives back the codes, as long as every code
      fits in 12 bits: the at most four padding bits never make a code. */
  lemma LoadSave(codes: seq<Code>)
    requires CodesBelow12Bits(codes)
    ensures Load(Save(codes)) == codes
  {
    var bytes := Save(codes);
    var n := |codes|;
    SaveValue(codes);
    SaveCounts(codes);
    LoadInvariant(bytes);
    var u := LoadState(bytes);
    assert |u.codes| == n;
    Pow2Values();
    assert DigitsBelow(codes, 12);
    assert DigitsBelow(u.codes, 12);
    PackBound(codes, 12);
    PackBound(u.codes, 12);
    if u.buffer >= 1 {
      MulLe(1, u.buffer, Pow2(12 * n));
      assert false;
    }
    PackUnique(u.codes, codes, 12);
  }

  /** The whole file round trip: compress, save, load, decompress gives
      back the input whenever the in-memory round trip holds (any input
      with a capacity of at most 4096, or an output of at most 3841 codes
      with the source's capacity of 65536). */
  lemma FileRoundTrip(input: seq<Byte>, cap: int)
    requires ValidCap(cap) && input != []
    requires cap <= TableSlots || |Encode(input, cap)| <= TableSlots - 255
    ensures |Load(Save(Encode(input, cap)))| > 0
    ensures Decode(Load(Save(Encode(input, cap))), cap) == Restored(input)
  {
    LzwRoundTrip.EncodeFitsTable(input, cap);
    LoadSave(Encode(input, cap));
    LzwRoundTrip.RoundTrip(input, cap);
  }

  /** With the decoder's table size as the capacity, every input survives
      the file round trip. */
  lemma CappedFileRoundTrip(input: seq<Byte>)
    requires input != []
    ensures |Load(Save(Encode(input, TableSlots)))| > 0
    ensures Decode(Load(Save(Encode(input, TableSlots))), TableSlots) == Restored(input)
  {
    FileRoundTrip(input, TableSlots);
  }

  // ---------------------------------------------------------------------
  // Codes wider than 12 bits
  // ---------------------------------------------------------------------

  /** `saveCompressed` does not mask codes to 12 bits: the bits of a code
      above bit 11 are or-ed into the next code's slot. */
  lemma SaveLeaksHighBits()
    ensures Save([4096, 0]) == [0, 16, 0]
    ensures Load(Save([4096, 0])) == [0, 1]
  {
    Pow2Values();
    var codes: seq<Code> := [4096, 0];
    assert codes[..1] == [4096];
    assert SaveState([4096]) == Packer([0], 16, 4);
    assert BitOr(16, 0) == 16;
    assert Flush(Packer([0], 16, 16)) == Packer([0, 16, 0], 0, 0);
    assert SaveState(codes) == Packer([0, 16, 0], 0, 0);
    var bytes: seq<Byte> := [0, 16, 0];
    assert bytes[..1] == [0];
    assert bytes[..2] == [0, 16];
    assert bytes[..2][..1] == [0];
    assert LoadState([0]) == Unpacker([], 0, 8);
    assert BitOr(0, 16 * 256) == 4096;
    assert LoadState([0, 16]) == Unpacker([0], 1, 4);
    assert LoadState(bytes) == Unpacker([0, 1], 0, 0);
  }

  // ---------------------------------------------------------------------
  // The 32-bit buffers never overflow
  // ---------------------------------------------------------------------

  lemma Pow2Mono(a: nat, b: nat)
    requires a <= b
    ensures Pow2(a) <= Pow2(b)
  {
    Pow2Add(a, b - a);
    Pow2Positive(b - a);
    MulLe(1, Pow2(b - a), Pow2(a));
  }

  /** The or of two numbers below 2^k is below 2^k. */
  lemma {:induction false} OrBelow(a: nat, b: nat, k: nat)
    requires a < Pow2(k) && b < Pow2(k)
    ensures BitOr(a, b) < Pow2(k)
  {
    if a != 0 && b != 0 {
      assert k > 0;
      OrBelow(a / 2, b / 2, k - 1);
    }
  }

  /** A value below 2^dw shifted left by `bits` is below 2^(bits + dw). */
  lemma ShiftBelow(d: nat, dw: nat, bits: nat)
    requires d < Pow2(dw)
    ensures d * Pow2(bits) < Pow2(bits + dw)
  {
    Pow2Positive(bits);
    Pow2Add(bits, dw);
    MulLe(d + 1, Pow2(dw), Pow2(bits));
  }

  /** A value below 2^dw or-ed in above a buffer of `bits` bits. */
  lemma OrShiftedBelow(buffer: nat, bits: nat, d: nat, dw: nat)
    requires buffer < Pow2(bits) && d < Pow2(dw)
    ensures BitOr(buffer, d * Pow2(bits)) < Pow2(bits + dw)
  {
    ShiftBelow(d, dw, bits);
    Pow2Mono(bits, bits + dw);
    OrBelow(buffer, d * Pow2(bits), bits + dw);
  }

  lemma {:induction false} FlushFits(p: Packer)
    requires p.buffer < Pow2(p.bits + 4)
    ensures Flush(p).buffer < Pow2(Flush(p).bits + 4)
    decreases p.bits
  {
    if p.bits >= 8 {
      Pow2Values();
      Pow2Add(p.bits - 4, 8);
      DivBelow(p.buffer, Pow2(p.bits - 4), 256);
      FlushFits(Packer(p.out + [p.buffer % 256], p.buffer / 256, p.bits - 8));
    }
  }

  /** Between two codes the save buffer holds fewer than eight bits plus at
      most the four bits a 16-bit code overhangs. */
  lemma {:induction false} SaveBufferBound(codes: seq<Code>)
    ensures SaveState(codes).buffer < Pow2(SaveState(codes).bits + 4)
  {
    if codes != [] {
      var prefix := codes[..|codes| - 1];
      var code := codes[|codes| - 1];
      SaveBufferBound(prefix);
      SaveCounts(prefix);
      var p := SaveState(prefix);
      assert SaveState(codes) == Flush(Packer(p.out, BitOr(p.buffer, code * Pow2(p.bits)), p.bits + 12));
      SaveStepFits(p, code);
      var grown := Packer(p.out, BitOr(p.buffer, code * Pow2(p.bits)), p.bits + 12);
      assert grown.bits + 4 == p.bits + 16;
      assert grown.buffer < Pow2(grown.bits + 4);
      FlushFits(grown);
    } else {
      Pow2Values();
    }
  }

  /** `code << bitsInBuffer` and the or into the buffer stay below 2^32,
      so the unsigned 32-bit buffer of `saveCompressed` never wraps and
      modelling it by a natural number is exact. */
  lemma SaveStepFits(p: Packer, code: Code)
    requires p.bits < 8 && p.buffer < Pow2(p.bits + 4)
    ensures code * Pow2(p.bits) < Pow2(32)
    ensures BitOr(p.buffer, code * Pow2(p.bits)) < Pow2(p.bits + 16) <= Pow2(32)
  {
    var shifted := code * Pow2(p.bits);
    assert Pow2(16) == 0x1_0000 by {
      Pow2Values();
      Pow2Add(8, 8);
    }
    assert shifted < Pow2(p.bits + 16) by {
      ShiftBelow(code, 16, p.bits);
    }
    assert Pow2(p.bits + 16) <= Pow2(32) by {
      Pow2Mono(p.bits + 16, 32);
    }
    assert p.buffer < Pow2(p.bits + 16) by {
      Pow2Mono(p.bits + 4, p.bits + 16);
    }
    OrBelow(p.buffer, shifted, p.bits + 16);
  }

  lemma SaveNeverOverflows(codes: seq<Code>, code: Code)
    ensures BitOr(SaveState(codes).buffer, code * Pow2(SaveState(codes).bits)) < Pow2(32)
  {
    SaveCounts(codes);
    SaveBufferBound(codes);
    SaveStepFits(SaveState(codes), code);
  }

  /** The same for `loadCompressed`: fewer than twelve bits wait in the
      buffer, so a byte shifted above them stays below 2^20. */
  lemma LoadNeverOverflows(bytes: seq<Byte>, b: Byte)
    ensures BitOr(LoadState(bytes).buffer, b * Pow2(LoadState(bytes).bits)) < Pow2(32)
  {
    var u := LoadState(bytes);
    assert u.bits < 12 by {
      LoadCounts(bytes);
    }
    assert u.buffer < Pow2(u.bits) by {
      LoadHolds(bytes);
    }
    assert b < Pow2(8) by {
      Pow2Values();
    }
    OrShiftedBelow(u.buffer, u.bits, b, 8);
    Pow2Mono(u.bits + 8, 32);
  }

}
