# Compression and string-search algorithms, modelled in Dafny

This project models the algorithmic core of a set of small C++ teaching
programs:

- **LZW** (`alg_LZiv.cpp`, class `LZW`). `compress` turns bytes into 16-bit
  codes over a dictionary seeded with the 256 single bytes. `decompress`
  rebuilds the bytes, including the "code equals the next free code" case.
  `saveCompressed` / `loadCompressed` pack the codes 12 bits each,
  least-significant bit first, into bytes. Modules `Lzw`, `LzwRoundTrip`
  and `BitPack`.
- **LZ78** (`prueba_alg_LZiv.c++`, class `LZ78`). `compress` emits
  (index, next character) pairs and `decompress` rebuilds the phrase table.
  Module `Lz78`.
- **Huffman** (`alg_huffman.cpp`, `prueba_alg_huffman.cpp`,
  `prueba_alg_huffman.c++`). Covers the frequency count, tree construction
  by merging the two lightest trees, path-label codes ('0' left, '1' right),
  encoding by concatenation and decoding by walking the tree. Module
  `Huffman`.
- **KMP** (`alg_kmp.cpp`, `KMP.cpp`, `KMP.c++`). The in-place LPS (longest
  proper border) table, the all-occurrences search with a comparison
  counter (class `KMPCounter`), and the first-match search (class `KMP`).
  Module `Kmp`; the shared notion of an occurrence is in module
  `TextSearch`.
- **Brute force** (`alg_fbruta.cpp`, `fuerza_bruta.cpp`,
  `fuerza_bruta.c++`). Class `f_b` enumerates candidate strings and counts
  attempts. Also covered: the target validator, and the loop that lists
  every occurrence of a string in a file's content. Module `BruteForce`.

The model follows the code's own form, source file by source file:

- Code that mutates state is a Dafny `method` with loops (or a `class` when
  the source updates object fields). Each such method is proved equal to a
  specification function.
- The properties the programs promise are proved about those functions:
  round trips, prefix-freeness, exact occurrence lists, attempt counts and
  bounds.
- Where the code and its documentation disagree, the model follows the
  code:
  - `compress` of five equal bytes gives `[x, 256, 256]`.
  - An invalid LZW code makes `decompress` return an empty vector, which is
    modelled as the outcome `Rejected`.
  - Huffman decoding silently drops bits that end inside a path.
  - A one-symbol Huffman message gets the empty code.

## Model

| member | source | states |
|---|---|---|
| TextSearch.OccurrenceListIsUnique | alg_kmp.cpp:66-90 | Two strictly increasing lists that both hold exactly the occurrences of a pattern are equal, so "all occurrences, ascending" determines the search result. |
| TextSearch.IncreasingListsWithSameElementsAreEqual | alg_kmp.cpp:84-89 | Strictly increasing integer lists with the same elements are equal. |
| Kmp.LpsBounds | alg_kmp.cpp:19-41 | In an LPS table, `lps[0] == 0` and `0 <= lps[i] <= i`. |
| Kmp.BorderExtend | alg_kmp.cpp:24-28 | A border of length b+1 of the first n+1 characters is a border of length b of the first n characters, extended by an equal character (both directions). |
| Kmp.BorderOfBorder | alg_kmp.cpp:31-34 | A shorter border of a prefix is exactly a border of its longest border: the fallback `len = lps[len-1]` loses no candidate. |
| Kmp.FillLps | alg_kmp.cpp:17-42 | `construirLPS` fills the array in place so that every `lps[i]` is the length of the longest proper border of `patron[0..i]`; the loop terminates (`i` grows or `len` shrinks). KMP.cpp (lines 17-36) and KMP.c++ (lines 12-32) build the table the same way. |
| Kmp.KmpCounter.constructor | alg_kmp.cpp:46-48 | Stores the pattern and builds a correct LPS table. |
| Kmp.KmpCounter.SearchWithCounter | alg_kmp.cpp:53-93 | An empty pattern, an empty text or a pattern longer than the text gives no results and a count of 0. Otherwise the positions are exactly all occurrences, overlapping ones included, in increasing order. The total count of comparisons lies between n and 2n. The per-match counts are increasing and never above the total. The same holds for KMP.cpp (lines 45-81). |
| Kmp.KmpFirstMatch.Search | KMP.c++:43-73 | `buscar` reports found exactly when the text is non-empty and the pattern occurs in it. It stops at the first complete match; on a mismatch it falls back through `lps[j-1]` or advances `i`. |
| Kmp.KmpFirstMatch.constructor | KMP.c++:36-40 | Stores text and pattern and builds a correct LPS table. |
| Kmp.BuiltInExampleIsFound | KMP.c++:76-81 | The program's example pattern "ABABACA" occurs in "PALRANABABACA". |
| Lzw.Compress | alg_LZiv.cpp:23-54 | The greedy byte loop, with its dictionary map and `nextCode` counter, emits exactly `Encode(input, cap)`. The insertion guard is `nextCode < cap`. |
| Lzw.Decompress | alg_LZiv.cpp:57-90 | The decoder loop returns exactly `Decode(codes, cap)`. A code above `nextCode` is rejected; `code == nextCode` gives `prev + prev[0]`; a write past the 4096-slot table is the outcome `OutOfTable`. |
| Lzw.DecStep | alg_LZiv.cpp:67-85 | One decoder step keeps the table at 4096 slots and the next free code between 256 and 4096. |
| Lzw.StoppedStays | alg_LZiv.cpp:76-77 | Once the decoder has returned (rejected code or overrun), later codes change nothing. |
| LzwRoundTrip.EncoderInvariant | alg_LZiv.cpp:36-47 | Until the 16-bit `nextCode` wraps, the encoder's dictionary holds exactly the seeded bytes and the phrases inserted so far, under consecutive codes. The emitted codes spell the phrases consumed. The accumulator is a dictionary entry. "Until it wraps" means: for every capacity below 1<<16, and at the source's capacity 1<<16 as long as at most 65279 codes have been emitted (the 65280th insertion takes code 65535 and wraps the counter to 0). |
| LzwRoundTrip.EncoderNeverMisses | alg_LZiv.cpp:41-51 | Under the same no-wrap condition, the accumulator is empty exactly when no byte has been read, and it is always in the dictionary when it is emitted. |
| LzwRoundTrip.EncodeIsCoded | alg_LZiv.cpp:36-51 | For a non-empty input whose encoding has at most 65280 codes (any number when the capacity is below 1<<16), every emitted code names an entry already in the dictionary, and the phrases concatenate to the input. |
| LzwRoundTrip.DecodeCoded | alg_LZiv.cpp:64-85 | Decoding codes that spell a phrase list restores the concatenation of the phrases. |
| LzwRoundTrip.RoundTrip | alg_LZiv.cpp:201-204 | `decompress(compress(b)) == b` for non-empty input whenever the dictionary fits the decoder's 4096 slots: either the capacity is at most 4096, or at most 3841 codes are emitted. |
| LzwRoundTrip.EncodeFitsTable | alg_LZiv.cpp:42-44 | Under the same condition, every emitted code is below both the capacity and 4096. |
| LzwRoundTrip.DecodeOverrunsTable | alg_LZiv.cpp:58 | With the source's capacity of 1<<16, a list of at least 3842 single-byte codes makes the decoder write past its 4096-slot table. |
| LzwRoundTrip.OverrunExample | alg_LZiv.cpp:81-83 | A concrete overrunning list: 3842 copies of code 65. |
| LzwRoundTrip.CappedDecodeNeverOverruns | alg_LZiv.cpp:81-83 | With the capacity capped at 4096, the decoder never leaves its table. |
| LzwRoundTrip.FiveAs | alg_LZiv.cpp:36-51 | Five equal bytes compress to `[x, 256, 256]`, and those codes decompress to the five bytes. |
| LzwRoundTrip.ShortInputs | alg_LZiv.cpp:28-51 | The empty input gives no codes; a single byte gives exactly that byte as its code. |
| BitPack.SaveCompressed | alg_LZiv.cpp:93-113 | The bit-buffer loop of `saveCompressed` (OR-in at the bit count, emit low bytes, flush a final partial byte) yields exactly `Save(codes)`. |
| BitPack.LoadCompressed | alg_LZiv.cpp:116-134 | The bit-buffer loop of `loadCompressed` yields exactly `Load(bytes)`. |
| BitPack.SaveLength | alg_LZiv.cpp:98-110 | n codes pack into ceil(12n/8) bytes. |
| BitPack.SaveValue | alg_LZiv.cpp:98-110 | For codes below 4096, the bytes read as a base-256 number equal the codes read as a base-4096 number: LSB-first packing, zero padding. |
| BitPack.LoadLength | alg_LZiv.cpp:123-132 | k bytes unpack into floor(8k/12) codes; the at most 4 pad bits are discarded. |
| BitPack.LoadSave | alg_LZiv.cpp:93-134 | `load(save(cs)) == cs` whenever every code is below 4096. |
| BitPack.FileRoundTrip | alg_LZiv.cpp:201-204 | Compressing, saving, loading and decompressing restores the input under the round-trip condition of LzwRoundTrip.RoundTrip. |
| BitPack.CappedFileRoundTrip | alg_LZiv.cpp:193-204 | With the capacity capped at 4096, every non-empty input survives compress, save, load and decompress. |
| BitPack.SaveLeaksHighBits | alg_LZiv.cpp:99 | A code of 4096 or more is not masked: `[4096, 0]` saves as `[0, 16, 0]` and loads back as `[0, 1]`. |
| BitPack.SaveNeverOverflows | alg_LZiv.cpp:95-99 | The 32-bit `buffer` of `saveCompressed` never needs more than 32 bits, even for 16-bit codes. |
| BitPack.LoadNeverOverflows | alg_LZiv.cpp:120-124 | The 32-bit `buffer` of `loadCompressed` never needs more than 32 bits. |
| Lz78.Scan | prueba_alg_LZiv.c++:19-47 | The loop's dictionary, accumulator and output are exactly the fold `EncodeState(input)`. |
| Lz78.Compress | prueba_alg_LZiv.c++:19-47 | `compress` returns exactly `Encode(input)`. |
| Lz78.Decompress | prueba_alg_LZiv.c++:50-75 | The loop returns exactly `Decode(pairs)`. Index 0 gives the bare character; an index inside the table gives entry + character; an index past the table is `BadIndex`, which is unchecked in the source. |
| Lz78.FailedStays | prueba_alg_LZiv.c++:64 | Once an index has been out of range, later pairs cannot repair the result. |
| Lz78.EncoderInvariant | prueba_alg_LZiv.c++:26-44 | The dictionary maps exactly the emitted phrases to their 1-based indices. The pairs spell those phrases. The phrases followed by the accumulator concatenate to the input read so far. |
| Lz78.EncodeIndicesAreEarlier | prueba_alg_LZiv.c++:31-38 | The k-th pair's index is 0 or the index of an earlier phrase: `0 <= index <= k`. |
| Lz78.PhrasesAreDistinct | prueba_alg_LZiv.c++:29-41 | One phrase per pair, and all phrases inserted in the dictionary are pairwise distinct. |
| Lz78.DecodeCoded | prueba_alg_LZiv.c++:56-72 | Decoding pairs that spell a phrase list rebuilds the table of those phrases; the result is their concatenation. |
| Lz78.RoundTrip | prueba_alg_LZiv.c++:26-46 | `decompress(compress(s))` is `s` without its pending tail. The tail is exactly the accumulator left at the end, and when non-empty it is an already-inserted phrase. |
| Lz78.CompressFlushed | prueba_alg_LZiv.c++:19-47 | The corrected `compress`, which also emits a pending tail, returns exactly `EncodeFlushed(input)`. |
| Lz78.FlushedRoundTrip | prueba_alg_LZiv.c++:19-75 | With the pending tail emitted, `decompress(compress(s)) == s` for every text. |
| Lz78.TrailingPhraseIsLost | prueba_alg_LZiv.c++:26-46 | "aa" compresses to the single pair (0,'a') and decodes to "a"; the corrected codec restores "aa". |
| Huffman.CountFrequencies | alg_huffman.cpp:141-143 | The `freq[c]++` loop yields exactly the map `Count(msg)`. prueba_alg_huffman.cpp (lines 118-119) and prueba_alg_huffman.c++ (lines 95-96) count the same way. |
| Huffman.CountIsMultiplicity | alg_huffman.cpp:141-143 | A character has a count exactly when it occurs, and its count is its number of occurrences. |
| Huffman.CountTotal | prueba_alg_huffman.cpp:118-119 | The counts sum to the message length. |
| Huffman.MinIndex | alg_huffman.cpp:50-51 | The queue position taken is one of minimum frequency. |
| Huffman.PushLeaves | alg_huffman.cpp:44-46 | The first loop pushes exactly one leaf per key, weighted by its count; the leaf weights add up to all counts. |
| Huffman.MergeJoinsLightest | alg_huffman.cpp:48-60 | Each merge is a Huffman step: the new parent's children are two trees taken out of the queue, the other trees stay, every remaining tree is at least as heavy as both children, the lighter child is on the left, and the parent weighs their sum. |
| Huffman.MergeAll | alg_huffman.cpp:48-63 | The merge loop returns exactly `HuffmanOf(queue)`: it merges until one tree is left. |
| Huffman.HuffmanOfKeeps | alg_huffman.cpp:48-63 | Merging to one tree keeps every leaf and the total weight, and keeps every internal node's weight the sum of its children's, with the left child no heavier. |
| Huffman.BuildTree | alg_huffman.cpp:40-64 | For a non-empty map, the result is `HuffmanOf` of a queue holding one leaf per key, so it is built by repeatedly joining the two lightest trees (MergeJoinsLightest). It has one leaf per key; every internal node's weight is the sum of its children's; the first-popped (left) child is no heavier than the right; the root's weight is the sum of all counts. prueba_alg_huffman.cpp (lines 37-56) and prueba_alg_huffman.c++ (lines 28-49) build the tree the same way. |
| Huffman.RootOfCounts | alg_huffman.cpp:45-63 | Built from the counts of a message, the root weighs the message length, its leaves are exactly the message's characters, and no character has two leaves. |
| Huffman.Codes | alg_huffman.cpp:70-81 | Exactly the leaves receive codes. |
| Huffman.CodesExtend | alg_huffman.cpp:79-80 | A code under a prefix is that prefix followed by the path from the subtree root. |
| Huffman.CodesArePrefixFree | alg_huffman.cpp:70-81 | No code is a prefix of another. prueba_alg_huffman.cpp (lines 59-68) and prueba_alg_huffman.c++ (lines 52-62) assign codes the same way. |
| Huffman.Encode | alg_huffman.cpp:84-89 | `codificar` returns exactly the concatenation of the characters' codes. |
| Huffman.EncodedLength | prueba_alg_huffman.cpp:71-77 | The encoding's length is the sum over characters of count times code length. |
| Huffman.Decode | alg_huffman.cpp:93-117 | The decoder loop returns exactly `Decoding(root, bits)`. prueba_alg_huffman.cpp (lines 80-93) and prueba_alg_huffman.c++ (lines 74-88) decode the same way. |
| Huffman.RunAppend | prueba_alg_huffman.c++:77-86 | Decoding two bit strings one after the other is decoding their concatenation. |
| Huffman.WalkCode | prueba_alg_huffman.c++:82-85 | Walking a character's code from a subtree emits that character and returns to the root. |
| Huffman.RoundTrip | alg_huffman.cpp:84-117 | For a tree with an internal root and distinct leaves, decoding the encoding of any message over its leaves returns the message. |
| Huffman.CoderRoundTrip | alg_huffman.cpp:140-178 | For a message with at least two distinct characters, decoding the encoding over the tree built from its counts returns the message. The same holds for prueba_alg_huffman.cpp (lines 118-149). |
| Huffman.PartialCodeIsDropped | alg_huffman.cpp:99-116 | For every tree with an internal root and distinct characters, an encoding followed by a proper prefix of any character's code decodes to the message alone: bits that end inside a path are dropped. |
| Huffman.NonZeroBitGoesRight | alg_huffman.cpp:104-105 | For every tree, a bit string decodes exactly as its reading in '0' and '1' does: any bit other than '0' goes right. |
| Huffman.DecoderQuirks | alg_huffman.cpp:101-115 | The two quirks on small trees: "01" decodes to "a" when "0" is 'a' and "1" leads to a subtree, and 'x' decodes as '1'. |
| Huffman.NullChildStays | prueba_alg_huffman.cpp:84-85 | Once the decoder has followed a null child it stays failed. |
| Huffman.SingleSymbolIsLost | alg_huffman.cpp:74-80 | With one distinct character the code is "", the message encodes to "" and decodes to "". |
| Huffman.FixedCodes | alg_huffman.cpp:70-81 | The corrected codebook still gives codes to exactly the leaves. |
| Huffman.FixedRoundTrip | alg_huffman.cpp:70-117 | With a lone leaf coded "0", every message over the tree's characters round-trips, including single-symbol messages. |
| BruteForce.BruteForcer.constructor | alg_fbruta.cpp:28 | Stores target, alphabet and whether `generar` has the empty-target guard; `intentos` starts at 0. |
| BruteForce.BruteForcer.Generate | alg_fbruta.cpp:32-53 | An empty target returns false at once. Otherwise the call returns true exactly when `actual` is a prefix of the target and the rest is spelt in the alphabet. `intentos` grows by 1 + the rank of the target in alphabet-order enumeration on success, and on failure by the alphabet size raised to the number of characters still missing. It requires `actual` to be no longer than the target. fuerza_bruta.cpp (lines 21-36) has the same guard. fuerza_bruta.c++ (lines 16-36) has none, modelled by the constructor's guard flag: there `generar("")` on an empty target returns true after exactly one attempt. |
| BruteForce.SearchFromEmpty | alg_fbruta.cpp:32-53 | From "", the search succeeds exactly when every target character is in the alphabet. It then makes at least 1 and at most (alphabet size)^(target length) attempts; otherwise it makes exactly (alphabet size)^(target length). |
| BruteForce.RankBelow | alg_fbruta.cpp:47-50 | The rank of a spelt target is below (alphabet size)^(target length). |
| BruteForce.IsValidTarget | alg_fbruta.cpp:82-99 | The validator rejects an empty target, a length above 6, and a character whose ASCII lower-case is not in the alphabet; it accepts everything else. The same holds for fuerza_bruta.cpp (lines 56-72). |
| BruteForce.ValidateAndSearch | alg_fbruta.cpp:143-160 | Validating and then searching from "" succeeds exactly for validated targets that are spelt in "a".."z", within 26^(target length) attempts. A validated target that is not found costs exactly 26^(target length) attempts; a rejected target costs none. |
| BruteForce.UppercaseIsNeverFound | alg_fbruta.cpp:92 | A target with an upper-case letter is never found over an alphabet without upper-case letters, because `generar` compares case-sensitively. |
| BruteForce.UppercaseExample | fuerza_bruta.cpp:66 | "Hola" passes the validator but is not reachable over "a".."z". |
| BruteForce.ExactlyValidIsFound | alg_fbruta.cpp:82-99 | A target validated without lower-casing is always found, within (alphabet size)^(target length) attempts. |
| BruteForce.FindFrom | alg_fbruta.cpp:122 | `find(p, from)` returns the first occurrence at or after `from`, or none. |
| BruteForce.FindAll | alg_fbruta.cpp:120-127 | The loop collects exactly every start index of the string in the content, overlapping ones included, in increasing order. The same holds for fuerza_bruta.cpp (lines 86-91). |

## Left out

- File and console I/O are not modelled: reading files, writing the compressed and restored files, prompts and `getline`, and every message printed (including the step-by-step trace of `decodificarConPrefijos` and `printCompressed`). The algorithms take and return in-memory values instead.
- Timing with `chrono` and the floating-point compression percentages are not modelled.
- `liberarArbol` and all pointer ownership are not modelled. The Huffman tree is a datatype.
- The tie order of `std::priority_queue` is not modelled. Among equally light trees, Merge takes the first in queue order, and BuildTree pushes the leaves in an arbitrary order (its result is `HuffmanOf` some leaf queue). The heap may break ties differently, so the exact tree is not pinned down; each merge still joins two lightest trees (Huffman.MergeJoinsLightest).
- `std::string::find` is modelled by its specification (FindFrom), not its implementation.
- Huffman.Encode: `codigos[c]` on a character without a code inserts an empty code into the map; the model reads "" without changing the map. Messages are only encoded with their own codebook, so this never happens.
- Integer widths are unbounded except where the source depends on them: the LZW capacity parameter, the 16-bit `Code`, the 12-bit packing and the 32-bit buffer bounds. The `int` counters (LZ78 `dictIndex`, KMP indices) and the `long long` attempt counters are unbounded, since they cannot overflow for inputs the programs can hold in memory.
- LzwRoundTrip.EncoderInvariant: the wrap of the `uint16_t nextCode` is modelled in Lzw.Compress (`% 0x1_0000`), but the invariant is proved only until it happens. At capacity 1<<16 that is after 65280 insertions; later insertions would reuse code 0 onwards, and no property is claimed for them. The decoder already overruns its table after 3841 codes (LzwRoundTrip.DecodeOverrunsTable), long before the wrap.
- LzwRoundTrip.EncoderNeverMisses: holds under the same no-wrap condition as EncoderInvariant.
- LzwRoundTrip.EncodeIsCoded: holds under the same no-wrap condition, i.e. for at most 65280 emitted codes at capacity 1<<16.
- Kmp.KmpFirstMatch.Search: an empty pattern is read through its terminating NUL in the source, so a text starting with NUL is excluded by a precondition.
- Lzw.Decompress: `codes[0]` is read unchecked, so a non-empty code list is a precondition.
- The `main` flows of the KMP, Huffman and LZW programs are left out beyond the round trips they check; the brute-force `main` is modelled by BruteForce.ValidateAndSearch.

## Findings

| source | as written | input that shows it | evidently intended | confidence | as-written member | corrected member |
|---|---|---|---|---|---|---|
| alg_LZiv.cpp:58 | The decoder inserts while `nextCode < 1<<16` into a table of only 4096 slots | 3842 codes below 256, e.g. code 65 repeated | Insertions stop at the table size, so every encoder output decodes | not executed | LzwRoundTrip.DecodeOverrunsTable | LzwRoundTrip.CappedDecodeNeverOverruns |
| alg_LZiv.cpp:99 | `saveCompressed` ORs whole 16-bit codes into the buffer without masking to 12 bits | codes [4096, 0] save as [0, 16, 0] and load as [0, 1] | Only codes below 4096 are produced, so the file round-trips | not executed | BitPack.SaveLeaksHighBits | BitPack.CappedFileRoundTrip |
| prueba_alg_LZiv.c++:46 | `compress` returns without emitting a pending phrase that is already in the dictionary | "aa" compresses to [(0,'a')] and decompresses to "a" | Emit the pending phrase at the end, so every text round-trips | not executed | Lz78.TrailingPhraseIsLost | Lz78.FlushedRoundTrip |
| alg_huffman.cpp:74-75 | A lone leaf root gets the empty code | "aaaa" encodes to "" and decodes to "" | A single symbol gets a one-bit code and round-trips | not executed | Huffman.SingleSymbolIsLost | Huffman.FixedRoundTrip |
| alg_fbruta.cpp:92 | The validator lower-cases the target, but `generar` compares case-sensitively | "Hola" is accepted and never found | A validated target is always found | not executed | BruteForce.UppercaseExample | BruteForce.ExactlyValidIsFound |
