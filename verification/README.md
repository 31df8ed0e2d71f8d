# pa4 cache simulator and trace compiler, modelled in Dafny

The model covers two small C programs that share one binary format.

- `compile-trace` (`pa4/conv.c`) reads a textual memory trace, one access per line, such as `L 0x7ff000398 8`. For each line it writes the 32-bit address as four bytes, most significant first. It stops at the first malformed line, returns 1 and reports that line's number.
- The cache simulator (`pa4/sim.c`) reads those 4-byte records back with `fread` and `ntohl`. It feeds every address to a set-associative cache: 2^(C-B) slots, sets of 2^S consecutive slots, FIFO or LRU replacement. It counts hits and accesses.

Modules:

- `Words`: `uint32_t` and `unsigned char` as bounded integers, and powers of two. The C bit operations are written as arithmetic:
  - `x >> n` is `x / 2^n`;
  - `| 0x80000000` is `% 2^31 + 2^31`;
  - masking with `2^e - 1` is `% 2^e`;
  - `(a << 4) | d` is `(a * 16 + d) % 2^32`.
- `CacheSet`:
  - `cache_access` as a pure function on the slots of one set (`Access`);
  - an independent list view of the two replacement policies (`ListAccess`);
  - the in-place algorithm on the flat cache array (`CacheAccess`, with its two shifting loops `PromoteToLast`/`ShiftRun` and `EvictOldest`), proved against `Access`.
- `Geometry`:
  - the option checks and associativity clamp of `main`;
  - the derived sizes;
  - the marked tag and the set base of an address.
- `TraceFormat`: the 4-byte big-endian record, its `ntohl` decoding, and the byte stream as a sequence of records.
- `Simulator`: the `fread` loop of `cache_simulate`, as a method over a cache array proved against `Run`, the function that folds `Step` over the addresses. Also lemmas about runs: every set stays well-formed, a first access to a line misses, and an access hits when its line was accessed before and no access since went to the same set.
- `TraceCompiler`: `compile_trace_file` as methods that follow the C loops, proved against `ParseLine`/`Compile`. Also lemmas on the accepted line shape, on the mod 2^32 digit accumulation, and on the round trip into the simulator.

## Model

| member | source | states |
|---|---|---|
| CacheSet.Access | pa4/sim.c:33-55 | `cache_access` on the slots of one set; keeps the set's length. Its meaning is given by `AccessRefinesListAccess`, `AccessKeepsWellFormed`, `AccessHitsIffFoundBeforeEmpty` and the per-case lemmas below |
| CacheSet.CacheAccess | pa4/sim.c:33-55 | the set's slots in the array become exactly `Access(old slots)`; the result is `Access`'s hit flag; no slot outside the set changes |
| CacheSet.PromoteToLast | pa4/sim.c:43-46 | LRU hit at slot i: the slots i+1 .. j (the run of occupied slots after i) move down by one and the tag is stored at j; nothing outside the set changes |
| CacheSet.ShiftRun | pa4/sim.c:44 | the shifting loop stops at `RunEnd` (the last slot of the run of occupied slots after i); every slot from i up to, but not including, `RunEnd` takes the value of the next slot, and all others are unchanged |
| CacheSet.EvictOldest | pa4/sim.c:51-53 | the set becomes its old slots 1 .. n-1 followed by the tag; nothing outside the set changes |
| CacheSet.Probe | pa4/sim.c:35-49 | the scan stops at the first slot that is empty or holds the tag, or at the end of the set; every slot before it is occupied by another tag |
| CacheSet.RunEnd | pa4/sim.c:44 | the run of occupied slots starting at i ends at j: slots i+1 .. j are occupied, and j is the last slot or slot j+1 is empty |
| CacheSet.WellFormed | pa4/sim.c:33-55 | the invariant of a set: empty slots only after the occupied ones, and no tag twice. `AccessKeepsWellFormed` shows `cache_access` keeps it, `RunInvariant` that every set of the cache does |
| CacheSet.ListAccess | pa4/sim.c:33-55 | the independent list model of FIFO and LRU: it hits iff the tag is resident and never holds more than the capacity; `ListAccessKeepsDistinct` keeps the list distinct and nonzero |
| CacheSet.MissFillsEmptySlot | pa4/sim.c:35-40 | when the scan reaches an empty slot i, the access misses and the set is the old one with the tag at i |
| CacheSet.FifoHitKeepsSet | pa4/sim.c:41-47 | a FIFO hit returns 1 and leaves the set unchanged |
| CacheSet.LruHitPromotes | pa4/sim.c:43-46 | an LRU hit on resident entry i keeps slots before i, moves the later occupied slots down by one and puts the tag in the last occupied slot; the empty slots stay empty; the contents are a permutation of the old ones |
| CacheSet.EvictsOldestWhenFull | pa4/sim.c:51-54 | a miss in a full set drops slot 0, shifts the rest down and puts the tag last, under both policies |
| CacheSet.AccessKeepsWellFormed | pa4/sim.c:33-55 | with a nonzero tag: a set whose empty slots trail its occupied ones and has no duplicates keeps both properties; it hits iff the tag was in the set; afterwards the tag is resident |
| CacheSet.AccessRefinesListAccess | pa4/sim.c:33-55 | on a well-formed set, the resident tags after the access are what the list model of FIFO/LRU prescribes, and the hit flags agree |
| CacheSet.AccessHitsIffFoundBeforeEmpty | pa4/sim.c:35-49 | the access hits iff the tag (nonzero) occurs at a slot with only occupied slots before it |
| CacheSet.AccessAddsOnlyTag | pa4/sim.c:33-55 | after the access the tag is in the set, and every value in the set was there before or is the tag |
| CacheSet.ListAccessKeepsDistinct | pa4/sim.c:33-55 | the list model keeps the resident tags distinct and nonzero, within the capacity, with the tag present |
| CacheSet.PromotedPermutes | pa4/sim.c:44-45 | moving entry i of the resident list to its end is a permutation |
| CacheSet.Decompose | pa4/sim.c:33-55 | a well-formed set is its resident list, distinct and nonzero, followed by empty slots |
| CacheSet.Compose | pa4/sim.c:33-55 | a distinct nonzero list padded with empty slots is a well-formed set whose resident list is that list |
| Geometry.Configure | pa4/sim.c:437-449 | accepted iff 2 <= C <= 24 and 2 <= B <= C; an out-of-range C is reported as such, otherwise an out-of-range B is reported with C and B; an S outside 0 .. C-B (the negative sentinel included) becomes C-B and any other S is kept |
| Geometry.SetBits | pa4/sim.c:84-85 | a negative `set_bits` means fully associative: C-B; a nonnegative one is kept; the result never exceeds C-B |
| Geometry.ConfiguredSetBitsKept | pa4/sim.c:84-85 | after `main`'s clamp (sim.c:447-449) the clamp in `cache_simulate` leaves `set_bits` as it is, between 0 and C-B |
| Geometry.LinesExp | pa4/sim.c:82 | `num_lines_exp` = C-B, at most C |
| Geometry.NumLines | pa4/sim.c:83 | `num_lines` = 2^(C-B), at least one slot |
| Geometry.SetSize | pa4/sim.c:86 | `set_size` = 2^S, between 1 and `num_lines` |
| Geometry.NumSets | pa4/sim.c:82-86 | the number of sets, between 1 and `num_lines`; `LinesSplitIntoSets` multiplies it with `set_size` to `num_lines` |
| Geometry.LinesSplitIntoSets | pa4/sim.c:82-86 | `num_lines` = number of sets × `set_size` |
| Geometry.Tag | pa4/sim.c:101 | the tag has bit 31 set, so it is never the empty value 0 |
| Geometry.TagsEqualIffSameLine | pa4/sim.c:101 | for `line_bits` >= 1, two addresses have equal tags iff they agree on every bit above `line_bits` |
| Geometry.SetIndex | pa4/sim.c:102 | the set number of a tag is below the number of sets |
| Geometry.SetBase | pa4/sim.c:102 | the base is a multiple of `set_size`; the tag's line index lies in its set; the whole set lies inside the cache array |
| Geometry.FullyAssociativeHasOneSet | pa4/sim.c:82-86 | with S = C-B there is one set, holding all lines, at base 0 |
| Geometry.DirectMappedSetsHaveOneSlot | pa4/sim.c:82-86 | with S = 0 sets have one slot, the one the low tag bits select |
| TraceFormat.EncodeBE | pa4/conv.c:59-62 | the four bytes written for an address; `DecodeEncode` and `EncodeDecode` make it the inverse of `ntohl` |
| TraceFormat.DecodeEncode | pa4/conv.c:59-62 | `ntohl` of the four bytes written for an address gives back the address |
| TraceFormat.EncodeDecode | pa4/sim.c:100 | encoding the word decoded from four bytes gives back those bytes: the two are inverse bijections |
| TraceFormat.DecodeBE | pa4/sim.c:100 | the decoded word's top byte is the first byte read and its low byte the last |
| TraceFormat.RecordsOfSerialize | pa4/sim.c:99-100 | reading back the records written for a list of addresses, followed by any partial record, gives exactly that list |
| TraceFormat.RecordAt | pa4/sim.c:99-100 | record k of a byte stream is the word decoded from bytes 4k .. 4k+3 |
| TraceFormat.Records | pa4/sim.c:99 | `fread` yields one record per whole 4 bytes; a trailing partial record is dropped |
| TraceFormat.Serialize | pa4/conv.c:59-65 | four bytes per address, in order; `RecordsOfSerialize` reads them back as the same addresses |
| TraceFormat.SerializeSnoc | pa4/conv.c:65 | writing one more record appends its four bytes |
| Simulator.Simulate | pa4/sim.c:95-111 | `total` is the number of whole records in the input; `hits` is the hit count of the run over the decoded addresses, and `hits <= total` |
| Simulator.AccessAddress | pa4/sim.c:100-103 | the cache array becomes `Step` of the old contents, and the result is `Step`'s hit flag |
| Simulator.Step | pa4/sim.c:101-103 | the cache keeps its length |
| Simulator.Run | pa4/sim.c:95-111 | the cache has `num_lines` slots, and the hits never exceed the number of accesses |
| Simulator.StepUpdatesOneSet | pa4/sim.c:101-103 | an access replaces the address's set by what `Access` makes of it; every other set is unchanged |
| Simulator.StepHitsIffResident | pa4/sim.c:101-103 | on well-formed sets, an access hits iff its tag is in its set, and afterwards the tag is there |
| Simulator.RunInvariant | pa4/sim.c:88-111 | starting from the zeroed cache, after any accesses every set is well-formed and every occupied slot holds the tag of an address accessed so far |
| Simulator.StepKeepsSetsWellFormed | pa4/sim.c:101-103 | an access keeps every set well-formed |
| Simulator.StepKeepsTags | pa4/sim.c:101-103 | after an access, every occupied slot holds the tag of an address accessed so far |
| Simulator.RunSnoc | pa4/sim.c:99-111 | one more address: the cache is stepped and the hit count grows by one exactly on a hit |
| Simulator.ColdAccessMisses | pa4/sim.c:95-111 | an access whose tag no earlier address had misses |
| Simulator.StaysResident | pa4/sim.c:99-111 | a tag resident in its set stays resident while every later access goes to another set |
| Simulator.UntouchedLineHits | pa4/sim.c:95-111 | an access whose tag equals that of an earlier access hits when no access in between went to the same set, for every geometry and policy |
| Simulator.SameLineAgainHits | pa4/sim.c:95-111 | an access to the same line as the access just before it hits, for every geometry and policy |
| TraceCompiler.CompileTraceFile | pa4/conv.c:23-74 | returns 0 with the bytes of `Compile` when all lines are accepted; otherwise returns 1 with the bytes written so far and the number of the first bad line |
| TraceCompiler.SkipAccessType | pa4/conv.c:33-39 | stops at the first space or NUL; succeeds iff it is a space |
| TraceCompiler.ReadDigits | pa4/conv.c:42-57 | stops at the first non-digit; succeeds iff it is a space; the address is the mod 2^32 accumulation of the digits read |
| TraceCompiler.ReadAddress | pa4/conv.c:30-57 | the per-line code yields exactly `ParseLine`: the address, or a jump to `bad_input` |
| TraceCompiler.ParseLine | pa4/conv.c:30-57 | the address one line yields, or rejection; `ShapedLineParses` and `ParsedLineIsShaped` characterise acceptance, `ReadAddress` computes it with the loops of the C |
| TraceCompiler.ShapedLineParses | pa4/conv.c:33-57 | a line of the form type (no space or NUL), space, `0x`/`0X`, hex digits, space, anything, is accepted with the digits' accumulated value; `0x` directly followed by a space gives 0 |
| TraceCompiler.ParsedLineIsShaped | pa4/conv.c:33-57 | every accepted line has that form, with the fields where the scans stop, so acceptance is exactly that shape |
| TraceCompiler.LineWithoutSpaceRejected | pa4/conv.c:34-36 | a line without a space is rejected |
| TraceCompiler.DigitValue | pa4/conv.c:48-53 | a hex digit is worth less than 16, and below 10 exactly for `0`-`9` |
| TraceCompiler.HexWord | pa4/conv.c:42-57 | the address accumulated from the digits; `HexWordSnoc` gives the per-digit update and `HexWordIsValueMod` its value mod 2^32 |
| TraceCompiler.HexWordSnoc | pa4/conv.c:47-57 | one more digit updates the address to `(addr * 16 + d) mod 2^32` |
| TraceCompiler.HexWordIsValueMod | pa4/conv.c:47-57 | the accumulated address is the number the digits denote, modulo 2^32 |
| TraceCompiler.HexValueBound | pa4/conv.c:47-57 | n digits denote a number below 16^n |
| TraceCompiler.EightDigitsExact | pa4/conv.c:47-57 | up to eight digits are read exactly, without loss |
| TraceCompiler.TypeEnd | pa4/conv.c:34-38 | the type scan stops at a space or NUL, and not before |
| TraceCompiler.HexEnd | pa4/conv.c:47-57 | the digit scan stops at a non-digit, and not before |
| TraceCompiler.DigitField | pa4/conv.c:33-47 | for an accepted line, the digits lie strictly inside the line, after at least three characters |
| TraceCompiler.CompileFrom | pa4/conv.c:29-71 | converting from line i on; `CompileFromResult` states its two outcomes |
| TraceCompiler.Compile | pa4/conv.c:23-74 | converting a whole file; `CompileReportsFirstBadLine` and `ConvertedTraceReadsBack` state its outcome and output |
| TraceCompiler.CompileReportsFirstBadLine | pa4/conv.c:29-70 | conversion succeeds iff every line is accepted; otherwise the reported line number (from 1) is that of the first rejected line |
| TraceCompiler.CompileFromResult | pa4/conv.c:29-71 | from line i: either every later line is accepted and the output is their records, or the output is the records of the lines before the first bad line, whose number is reported |
| TraceCompiler.ConvertedTraceReadsBack | pa4/conv.c:29-71 | the simulator reads the output back as exactly the addresses of the converted lines, in order, whether the conversion completes or stops at the first bad line |

## Left out

- The plots (`draw_plot`, `generate_cache_size_plot`, `generate_block_size_plot`), the floating-point hit rate and result printing, and the `-v` trace lines on stderr: output formatting, not state.
- `setup_io`, `freopen`, `fopen`, `ferror`, `fwrite`, and the `calloc` failure path: I/O. `Simulate` takes the bytes of the trace as a sequence. `CompileTraceFile` takes the lines and returns the bytes written.
- `fgets` and its 32-byte buffer: the model takes the strings it returns, one per call. A line of more than 30 characters before its newline therefore arrives as several strings, as in the C; when the last of them is just the newline, it is rejected as bad input. The end of a string, like an embedded NUL, reads as the terminating `'\0'`.
- `usage`, `getopt`, `atoi` and the rest of both `main`s: option parsing. Only the range checks and the clamp (`Geometry.Configure`) are kept.
- The error message texts, and the exit statuses of `main` other than the configuration error.
- buffer-overflow/main.c is not part of this model.
- Simulate: `hits` and `total` are unbounded. The `unsigned int` wrap-around after 2^32 accesses is not modelled.
- CompileTraceFile: `lineno` is unbounded. Its `unsigned int` wrap-around after 2^32 lines is not modelled.
- TagsEqualIffSameLine: requires `line_bits >= 1`. With 0 offset bits, bit 31 of the address is lost in the tag. `main` only accepts `line_bits >= 2`.
- The bit operations are modelled by their arithmetic equivalents on unsigned values, not as bit-vectors.
