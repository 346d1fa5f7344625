# KmerEntry: the packed positional record of the kallisto k-mer index

kallisto maps sequencing reads to transcripts through a compacted de Bruijn
graph. Each k-mer in the index resolves to a `KmerEntry`: the id of the contig
(unitig) that contains it, the contig's length in k-mers, the k-mer's offset
within the contig, and the strand on which it was stored. The offset and the
strand share one 32-bit word `_pos`: the low 28 bits hold the offset, the high
4 bits ("nibble") are all zero for a forward k-mer and all ones after
`setDir(false)`. A default-constructed entry (`contig == -1`) means "k-mer not
in the index". `getDist(fw)` tells a matcher how many more k-mers of the read
can be skipped before the contig, and so the equivalence class, may change.

The project has three modules:

- `FixedWidth` (`fixed_width.dfy`): the C++ integer types `int32_t` and
  `uint32_t`, and the two's complement bit pattern of a signed `int`, which
  is what a bitwise AND on an `int` works on. The conversion's meaning is proved,
  not assumed: each integer below 2^32 survives the trip to a `bv32` word and
  back.
- `KmerEntries` (`kmer_entry.dfy`): first the word `_pos` as a `bv32` value.
  `Offset`, `Forward`, `WithPos`, `WithDir` and `Dist` are the expressions of
  `getPos`, `isFw`, `setPos`, `setDir` and `getDist`, written with the source's
  masks `0x0FFFFFFF` and `0xF0000000`. Their contracts give what each mask means
  as integer arithmetic: reduction modulo 2^28, and "the word is below 2^28".
  The lemmas state the properties of the packing. Then the class `KmerEntry`
  with the source's three fields. `SetPos` and `SetDir` rewrite `pos` in place
  and may modify nothing else (``modifies this`pos``). `GetPos`, `IsFw` and
  `GetDist` read the fields. The two constructors are `Sentinel` (the default
  constructor) and the unnamed four-argument one.
- `Records` (`records.dfy`): `TRInfo`, `ContigToTranscript`, `Contig` and
  `DBGraph` as datatypes, and the index format version 12. They carry no
  behaviour.

In the four-argument constructor, the C++ code leaves `_pos` uninitialised
before `setPos` reads its nibble. The Dafny constructor assigns only `contig`
and `contigLength` before `new;`, so afterwards `pos` holds an arbitrary word.
Its postcondition `pos == Packed(p, isFw)` therefore holds whatever that word
was. `ConstructionForgetsGarbage` states the same thing as a value-level
lemma.

Two things the record does not check:

- Offsets that do not fit in 28 bits are silently reduced modulo 2^28. They
  are not rejected (`WithPosTruncates`).
- The record does not enforce `offset < contig_length` for non-sentinel
  entries. The distance properties take it as a hypothesis instead.

## Model

| member | source | states |
|---|---|---|
| FixedWidth.Bits | src/KmerIndex.h:82 | the two's complement bit pattern of the signed `int` `p`, whose value is `p mod 2^32` (and `p` itself when `p >= 0`); `p & 0x0FFFFFFF` keeps its low 28 bits, which equal `p mod 2^28` |
| KmerEntries.Offset | src/KmerIndex.h:80 | the offset read from a word is the word's value modulo 2^28, so always in `[0, 2^28)` |
| KmerEntries.Forward | src/KmerIndex.h:81 | a word reads as forward exactly when its whole top nibble is zero, i.e. its value is below 2^28 |
| KmerEntries.WithPos | src/KmerIndex.h:82 | writing offset `p` makes the offset read back as `p mod 2^28`; the strand nibble and the forward flag are unchanged; the new value is the old value with its low 28 bits replaced |
| KmerEntries.WithDir | src/KmerIndex.h:83 | writing strand `fw` makes the word read back as `fw`; the offset field is unchanged; the nibble becomes 0 for forward and 15 for reverse |
| KmerEntries.Packed | src/KmerIndex.h:75-78 | the word the constructor builds has value `p mod 2^28`, plus `15 * 2^28` when reverse |
| KmerEntries.Dist | src/KmerIndex.h:84-90 | for an offset inside the contig, the distance to the boundary lies in `[0, contig_length - 1]`; signed overflow (undefined in C++) is excluded by the precondition |
| KmerEntries.PackRoundTrip | src/KmerIndex.h:75-83 | packing an in-range offset and a strand, then unpacking, gives both back |
| KmerEntries.WithPosTruncates | src/KmerIndex.h:80-82 | an out-of-range offset is masked, not rejected: 2^28 reads back as 0, and -1 as `2^28 - 1` (the sentinel's offset) |
| KmerEntries.ConstructionForgetsGarbage | src/KmerIndex.h:75-78 | `setPos` then `setDir` on any initial word gives the same word, so the uninitialised `_pos` does not matter |
| KmerEntries.WithPosIdempotent | src/KmerIndex.h:82 | writing the same offset twice is the same as writing it once |
| KmerEntries.WithPosLastWins | src/KmerIndex.h:82 | a second offset write completely overrides the first |
| KmerEntries.WithDirIdempotent | src/KmerIndex.h:83 | writing the same strand twice is the same as writing it once |
| KmerEntries.PosDirCommute | src/KmerIndex.h:82-83 | the offset and strand writes commute: either order gives the same word |
| KmerEntries.DistancesSum | src/KmerIndex.h:84-90 | for an offset inside the contig, `getDist(true) + getDist(false) == contig_length - 1` |
| KmerEntries.DistanceOfForwardEntry | src/KmerIndex.h:84-90 | for a forward k-mer at offset `p`, the forward distance is `contig_length - 1 - p` and the reverse distance is `p` |
| KmerEntries.DistanceStrandFlip | src/KmerIndex.h:83-90 | flipping the stored strand turns the distance for one query strand into the distance for the other |
| KmerEntries.KmerEntry.Sentinel | src/KmerIndex.h:74 | the default entry has `contig == -1`, `contig_length == 0` and word `0x0FFFFFFF`, so `getPos() == 2^28 - 1` and `isFw()`; its distances are `-2^28` (forward) and `2^28 - 1` (reverse) |
| KmerEntries.KmerEntry.constructor | src/KmerIndex.h:75-78 | stores `id` and `length`; `getPos() == p mod 2^28` and `isFw() == isFw`; the word equals `Packed(p, isFw)` whatever `_pos` held before |
| KmerEntries.KmerEntry.GetPos | src/KmerIndex.h:80 | the entry's offset is its word modulo 2^28, in `[0, 2^28)` |
| KmerEntries.KmerEntry.IsFw | src/KmerIndex.h:81 | the entry is forward exactly when its word is below 2^28 |
| KmerEntries.KmerEntry.SetPos | src/KmerIndex.h:82 | afterwards `getPos() == p mod 2^28`; the strand nibble, `isFw()`, `contig` and `contig_length` are unchanged |
| KmerEntries.KmerEntry.SetDir | src/KmerIndex.h:83 | afterwards `isFw() == fw`; the offset field, `getPos()`, `contig` and `contig_length` are unchanged |
| KmerEntries.KmerEntry.GetDist | src/KmerIndex.h:84-90 | `contig_length - 1 - getPos()` when the query strand equals the stored one, else `getPos()`; within `[0, contig_length - 1]` for an offset inside the contig |

## Left out

- `match`, `mapPair`, `intersect`, `BuildTranscripts`, `BuildDeBruijnGraph`, `BuildEquivalenceClasses`, `PopulateMosaicECs` and both `findPosition` overloads (src/KmerIndex.h:120-131, 146-147): only their declarations are in the header. Their bodies, and the compacted-graph, unitig-map, k-mer and bitmap types they use, are not part of this model.
- `write`, `writePseudoBamHeader`, `load`, `loadTranscriptSequences`, `loadECsFromFile`, `loadTranscriptsFromFile` and `clear` (src/KmerIndex.h:134-143): file and stream I/O, declared only.
- `SortedVectorHasher` and `RoaringHasher` (src/KmerIndex.h:35-67): they call the foreign `MurmurHash3_x64_64`, whose result is overwritten at once. Their rotations shift 32-bit values by up to 64 positions, which is undefined behaviour in C++ for shifts of 32 or more. `RoaringHasher` also allocates raw arrays over a foreign bitmap type.
- The `ecmap` and `ecmapinv` members and the `dbg` graph (src/KmerIndex.h:154-157): containers over foreign types with no code in the header that maintains them.
- The `KmerIndex` constructor and `ProgramOptions` (src/KmerIndex.h:114-116): configuration from a header that is not part of this model.
- Concurrency around a shared index: none in the header.
- KmerEntries.KmerEntry.IsFw: `isFw()` returns an `int` (0 or 1) in C++. It is modelled as a `bool`, which is how `getDist` uses it.
- KmerEntries.Dist: signed overflow of `contig_length - 1 - getPos()` is undefined behaviour in C++. The precondition excludes it instead of modelling any wrap-around.
