# Verification model of the AXU SoC tooling and runtime

Dafny 4.11 models of the parts of this repository where a mistake is silent and expensive, with proofs of what they
promise. `dafny verify dfyconfig.toml` checks the whole project.

| file | what it models |
|---|---|
| `RangedMap.dfy`, `Segments.dfy`, `StagedMem.dfy`, `Elf.dfy`, `MemUtil.dfy` | the ELF loader of the Verilator test bench: the map of disjoint address ranges, merging of overlapping segments, the staging area, flattening, registration of memories, and writing words into the design |
| `VectorUnit.dfy`, `Fmatmul.dfy`, `FmatmulUnrolled.dfy`, `Dotproduct.dfy` | the vector unit as far as the kernels use it, the tiled and software-pipelined matrix product with its 4-row kernel register by register, the strip-mined and the scalar dot product |
| `PrintfOut.dfy`, `PrintfNtoa.dfy`, `PrintfRead.dfy`, `PrintfDirective.dfy`, `Printf.dfy`, `PrintfText.dfy` | the tiny printf: bounded output, integer fields, what a reader makes of them, the reading of directives, the format loop, and what its output says |
| `Filelist.dfy` | recursive resolution of filelists over an include graph that may have cycles |
| `WfiWait.dfy` | the wait for an interrupt, as a state machine of hart, device and handler |
| `MemRoutines.dfy` | `memcpy`, `memset`, `memcmp` with their word paths, and `memmove` |
| `Ftrace.dfy` | the call tree drawn from an instruction trace |
| `ScopeName.dfy` | relative SystemVerilog scope names |
| `BootRom.dfy` | the two boot ROM images generated from one binary |
| `AxuPacking.dfy` | packing of operand rows and the layout of the AXU buffers |
| `Common.dfy`, `Arith.dfy` | shared types and facts about multiplication and division |

Classes and methods stand for the objects and loops of the sources; ghost functions and lemmas say what they mean.
A fused multiply-add is an unknown function of three arguments, so results are equal bit for bit whatever the
rounding. `vsetvli` may give any answer that section 6.3 of the RISC-V "V" Vector Extension 1.0 allows. A `wfi` may
end for any reason, and must end when an enabled interrupt is pending (section 3.3.3 of the RISC-V Privileged
Architecture).

## Where the code does less than one would think

- The comments of the loader take segment sizes for 32-bit values, but the headers are `Elf64_Phdr`. The check
  `seg_top >= offset` lets a segment of 2^32 + 4 bytes pass as a range of 4 addresses (`SegTopExact`), and the check
  that a region holds a segment is right for every region exactly if the size has 32 bits or its low 32 bits run past
  the address space all the same (`CheckExact`). The loader theorems ask for sizes below 2^32, which is what the
  comments say. Load addresses lose what is above 32 bits, so a byte is put at its own address exactly if that
  is nothing (`AddressKept`). A flattened image is right exactly if it spans at most 2^32 bytes (`FlattenElf`).
- `dotp_v*` reduces only the lanes of the last strip. It is right for every legal `vsetvli` exactly if the data fits
  one strip or the longest strip divides its length (`RightForEveryVsetvli`). `dotp_s*` reads up to the next multiple
  of eight and is right exactly if eight divides the length (`ScalarRightIff`).
- `%b` with a 64-bit argument prints only its low 32 bits, since the digit buffer has 32 places (`SixtyFourBits`). A
  left-justified number loses its precision, zeros for a width over 32 leave no room for the sign, so that "%033d" of
  -5 prints a positive number (`ZerosLoseSign`), and so do precisions of 32 and more; `ExpectedIff` has the exact
  condition. `%hhd` prints its argument as a `signed char` exactly if the low byte is below 128, as it
  goes through plain `char`, which is unsigned on RISC-V: -1 is printed as 255 (`CharIff`, `CharReadsBackIff`). A
  number with '#' that fills its width loses digits, as in `%#4x` of 0x1234, printed as 0x34 (`HashLosesDigits`);
  prefix and digits are all there exactly if only padding is cut off and the prefix has room (`HashIff`).
- `%s` of a string of 2^32 or more characters takes its length modulo 2^32 and may put too many spaces
  (`StringText`).
- A forward byte copy moves its source unharmed exactly if the destination does not start inside it (`CopyMovesIff`);
  the word path of `memcpy` has the same effect as the byte path even then.
- `while (!done) wfi;`, as in `software/app/dma_desc64_test/main.c:91-92`, can sleep for ever after the only
  interrupt has been served. It cannot exactly if it starts with the condition true or with interrupts disabled
  (`PlainSafeIff`), and with interrupts disabled the handler does not run. `WFI_WAIT` cannot (`NeverLost`).
- More than 256 rows overwrite each other in an AXU buffer (`AllKeptIff`).
- A refused registration of a memory still takes its name (`RegisterMemoryArea`), and the flat image of an empty
  staging object is two zero bytes (`GetFlat`).

## Model

| member | source | states |
|---|---|---|
| RangedMaps.EmplacedDisjoint | tb/verilator/lowrisc_dv_verilator_memutil_dpi/cpp/ranged_map.h:37-100 | inserting a range keeps all ranges sorted and pairwise disjoint, every value fit for its range, and covers nothing below what was covered |
| RangedMaps.EmplacedAligned | tb/verilator/lowrisc_dv_verilator_memutil_dpi/cpp/dpi_memutil.h:153-156 | merging never invents a start address: starts on word boundaries stay on word boundaries |
| RangedMaps.EmplacedSkips | tb/verilator/lowrisc_dv_verilator_memutil_dpi/cpp/ranged_map.h:61-68 | entries wholly below the new range are left alone, whatever is hit above |
| RangedMaps.RangedMap.UpperBound | tb/verilator/lowrisc_dv_verilator_memutil_dpi/cpp/ranged_map.h:49-51 | splits the entries into those that start at or below an address and those above |
| RangedMaps.RangedMap.HitRange | tb/verilator/lowrisc_dv_verilator_memutil_dpi/cpp/ranged_map.h:41-69 | the two iterator walks bound exactly the entries that touch the range |
| RangedMaps.RangedMap.MergeHits | tb/verilator/lowrisc_dv_verilator_memutil_dpi/cpp/ranged_map.h:78-92 | the accumulating loop gives the one entry that absorbing all hits in order gives, every merge call being allowed |
| RangedMaps.RangedMap.Emplace | tb/verilator/lowrisc_dv_verilator_memutil_dpi/cpp/ranged_map.h:37-100 | the new map is the old one with the range inserted, however many entries were hit |
| RangedMaps.RangedMap.EmplaceDisjoint | tb/verilator/lowrisc_dv_verilator_memutil_dpi/cpp/ranged_map.h:102-146 | fails exactly if an entry overlaps, returns such an entry and changes nothing; otherwise adds exactly the new entry |
| RangedMaps.RangedMap.Find | tb/verilator/lowrisc_dv_verilator_memutil_dpi/cpp/ranged_map.h:156-177 | the entry that contains the address, or none exactly if no entry does |
| Segments.MergeSegments | tb/verilator/lowrisc_dv_verilator_memutil_dpi/cpp/dpi_memutil.cc:319-379 | the three cases give a vector as long as the hull; all size assertions hold |
| Segments.MergeSegmentsBytes | tb/verilator/lowrisc_dv_verilator_memutil_dpi/cpp/dpi_memutil.cc:319-379 | merging two overlapping segments gives, byte for byte, the old one overwritten by the new one |
| Segments.MergeSegmentsMerges | tb/verilator/lowrisc_dv_verilator_memutil_dpi/cpp/dpi_memutil.cc:332-376 | merged segments again have one byte for each address of their range, so merges can be chained |
| Segments.EmplacedBytes | tb/verilator/lowrisc_dv_verilator_memutil_dpi/cpp/ranged_map.h:35-100 | the byte map of the ranges after an insertion is the old byte map overridden on exactly the new range |
| Segments.EmplacedHas | tb/verilator/lowrisc_dv_verilator_memutil_dpi/cpp/ranged_map.h:35-100 | in the entries themselves: after an insertion they have a byte for an address exactly if the new segment has it there, or does not reach there and an old entry has it |
| StagedMems.StagedMem.constructor | tb/verilator/lowrisc_dv_verilator_memutil_dpi/cpp/dpi_memutil.h:44-44 | a new object holds nothing |
| StagedMems.StagedMem.SegTopExact | tb/verilator/lowrisc_dv_verilator_memutil_dpi/cpp/dpi_memutil.cc:385-386 | the 32-bit top of a segment is right exactly if the segment ends inside the address space, with a size that passes the check all the same |
| StagedMems.StagedOkAdd | tb/verilator/lowrisc_dv_verilator_memutil_dpi/cpp/dpi_memutil.h:40-41 | after adding a segment the bounds are still the least and greatest staged address, and all staging invariants hold |
| StagedMems.StagedMem.AddSegment | tb/verilator/lowrisc_dv_verilator_memutil_dpi/cpp/dpi_memutil.cc:381-391 | the staged bytes become the old ones overridden by the segment |
| StagedMems.CopySegments | tb/verilator/lowrisc_dv_verilator_memutil_dpi/cpp/dpi_memutil.cc:397-411 | the copy loop stays in bounds and gives every staged byte at its place, zeros elsewhere |
| StagedMems.StagedMem.GetFlat | tb/verilator/lowrisc_dv_verilator_memutil_dpi/cpp/dpi_memutil.cc:393-412 | the flat array is the staged bytes from least to greatest address, zeros in the gaps; two zeros when nothing is staged |
| Elf.WrapsExact | tb/verilator/lowrisc_dv_verilator_memutil_dpi/cpp/dpi_memutil.cc:179-186 | the 64-bit overflow check fires exactly on segments that run past the address space |
| Elf.FindExtent | tb/verilator/lowrisc_dv_verilator_memutil_dpi/cpp/dpi_memutil.cc:156-200 | least and greatest address over the accepted headers, or the overflow error exactly if one of them wraps |
| Elf.StageAccepted | tb/verilator/lowrisc_dv_verilator_memutil_dpi/cpp/dpi_memutil.cc:206-241 | all accepted segments are staged in file order with their 32-bit offsets, or the first one that is not in the file is reported |
| Elf.StagedExact | tb/verilator/lowrisc_dv_verilator_memutil_dpi/cpp/dpi_memutil.cc:231-240 | offsets below 2^32 are staged as they are |
| Elf.FlattenElf | tb/verilator/lowrisc_dv_verilator_memutil_dpi/cpp/dpi_memutil.cc:145-244 | succeeds exactly if every loadable header with data ends inside the 64-bit address space and the file; then the array goes from the lowest to the highest address such a header covers, with the byte of the last header that covers each and zeros in the gaps, exactly if that spans at most 2^32 bytes; errors are for wrapping headers first, then for truncated files |
| Elf.ImageLastWriter | tb/verilator/lowrisc_dv_verilator_memutil_dpi/cpp/dpi_memutil.cc:231-241 | a byte of the image comes from the last accepted segment that covers it: from the file, or zero beyond the file size |
| Elf.ImageDomain | tb/verilator/lowrisc_dv_verilator_memutil_dpi/cpp/dpi_memutil.cc:212-241 | the image has exactly the addresses some accepted segment covers |
| Elf.LaidInImage | tb/verilator/lowrisc_dv_verilator_memutil_dpi/cpp/dpi_memutil.cc:206-241 | the image in header fields alone: it has the addresses that loadable headers with data cover, each with the byte of the last such header |
| MemUtil.AreasDisjoint | tb/verilator/lowrisc_dv_verilator_memutil_dpi/cpp/dpi_memutil.h:149-151 | no address belongs to two registered areas |
| MemUtil.ConsistentAdd | tb/verilator/lowrisc_dv_verilator_memutil_dpi/cpp/dpi_memutil.cc:463-473 | giving an area its address keeps the name map and the address map in step |
| MemUtil.DpiMemUtil.RegisterMemoryArea | tb/verilator/lowrisc_dv_verilator_memutil_dpi/cpp/dpi_memutil.cc:420-474 | succeeds exactly if the name is new and the range, if given, is nonempty, inside the address space and free; a refusal leaves the address map alone |
| MemUtil.DpiMemUtil.GetRegionForSegment | tb/verilator/lowrisc_dv_verilator_memutil_dpi/cpp/dpi_memutil.cc:643-682 | the area that holds the whole segment, or an error that says why none does, without 32-bit wrap |
| MemUtil.CheckExact | tb/verilator/lowrisc_dv_verilator_memutil_dpi/cpp/dpi_memutil.cc:643-680 | the check of a size cut to 32 bits is right for every area exactly if the size has 32 bits, or what is left of it runs past the address space all the same |
| MemUtil.DpiMemUtil.CheckSegment | tb/verilator/lowrisc_dv_verilator_memutil_dpi/cpp/dpi_memutil.cc:593-619 | a segment passes exactly if an area holds its size in 32 bits, it starts on a word of that area and its data is in the file |
| MemUtil.RefusedExactly | tb/verilator/lowrisc_dv_verilator_memutil_dpi/cpp/dpi_memutil.cc:593-619 | a segment with a reported fault is never one that could have been loaded |
| MemUtil.DpiMemUtil.StagedMemFor | tb/verilator/lowrisc_dv_verilator_memutil_dpi/cpp/dpi_memutil.cc:626-628 | looking up a staging object makes an empty one on first use and changes no staged byte |
| MemUtil.DpiMemUtil.AddSegmentTo | tb/verilator/lowrisc_dv_verilator_memutil_dpi/cpp/dpi_memutil.cc:630-634 | adding through the reference changes the staged bytes of that memory only |
| MemUtil.DpiMemUtil.StageElf | tb/verilator/lowrisc_dv_verilator_memutil_dpi/cpp/dpi_memutil.cc:572-636 | every area's staged bytes are the overlay of the segments that land in it, or the first faulty segment is reported, those before it being in order |
| MemUtil.AreaLastWriter | tb/verilator/lowrisc_dv_verilator_memutil_dpi/cpp/dpi_memutil.cc:630-634 | a byte of an area's image comes from the last segment in file order that covers it |
| MemUtil.HeaderByte | tb/verilator/lowrisc_dv_verilator_memutil_dpi/cpp/dpi_memutil.cc:580-634 | in header fields alone: byte k of a segment inside an area and the file stands at `p_paddr + k` of the area, from offset `p_offset + k` of the file below `p_filesz`, else zero, unless a later such segment lies over it |
| MemUtil.ImageSupplied | tb/verilator/lowrisc_dv_verilator_memutil_dpi/cpp/dpi_memutil.cc:580-634 | an area's image has exactly the offsets some header covers, each with the byte of the last header that does |
| MemUtil.AddressKept | tb/verilator/lowrisc_dv_verilator_memutil_dpi/cpp/dpi_memutil.cc:593-597 | a byte is put at its own address exactly if the load address has 32 bits |
| MemUtil.RefusedMeans | tb/verilator/lowrisc_dv_verilator_memutil_dpi/cpp/dpi_memutil.cc:593-619 | each error in header fields: no region at the start, past the address space, past the region, off a word boundary, past the end of the file |
| MemUtil.WriteFullWords | tb/verilator/lowrisc_dv_verilator_memutil_dpi/cpp/dpi_memutil.cc:280-291 | the full words are written one by one, as far as the memory has them |
| MemUtil.WritePartialWord | tb/verilator/lowrisc_dv_verilator_memutil_dpi/cpp/dpi_memutil.cc:293-306 | the partial word is padded with zeros |
| MemUtil.WriteSegment | tb/verilator/lowrisc_dv_verilator_memutil_dpi/cpp/dpi_memutil.cc:246-307 | exactly the words the data reaches are replaced, the last one padded with zeros; fails exactly if the memory lacks such a word |
| MemUtil.WordCounts | tb/verilator/lowrisc_dv_verilator_memutil_dpi/cpp/dpi_memutil.cc:273-276 | rounding up agrees with full words plus a partial one |
| MemUtil.StagedFromWordStart | tb/verilator/lowrisc_dv_verilator_memutil_dpi/cpp/dpi_memutil.h:153-156 | in an aligned, disjoint staging area every staged byte lies in a word whose first byte is staged |
| MemUtil.WrittenLoaded | tb/verilator/lowrisc_dv_verilator_memutil_dpi/cpp/dpi_memutil.cc:293-306 | the padding of one segment never reaches a byte of another |
| MemUtil.WriteSegments | tb/verilator/lowrisc_dv_verilator_memutil_dpi/cpp/dpi_memutil.cc:555-568 | writing all segments of a memory leaves exactly the staged words, or fails exactly if a byte lies beyond the memory |
| MemUtil.FromOneMore | tb/verilator/lowrisc_dv_verilator_memutil_dpi/cpp/dpi_memutil.cc:555-568 | writing one more area keeps every word of a memory either as it was or as one of its areas has it |
| MemUtil.WriteAll | tb/verilator/lowrisc_dv_verilator_memutil_dpi/cpp/dpi_memutil.cc:546-569 | in any order, every word of a memory ends as one of the areas it has stages it, or as it was if none does; a memory without an area is never touched; fails exactly if a byte lies beyond a memory |
| MemUtil.OnlyArea | tb/verilator/lowrisc_dv_verilator_memutil_dpi/cpp/dpi_memutil.cc:546-569 | a memory of a single area then holds that area's image |
| MemUtil.LoadedHoldsImage | tb/verilator/lowrisc_dv_verilator_memutil_dpi/cpp/dpi_memutil.cc:555-568 | byte view of a loaded memory: staged bytes, zeros in the rest of touched words, old bytes elsewhere |
| MemUtil.DpiMemUtil.LoadElfToMemories | tb/verilator/lowrisc_dv_verilator_memutil_dpi/cpp/dpi_memutil.cc:542-570 | a load comes as far as writing exactly if every segment to load lies whole and word-aligned in a region and its data in the file; after it each byte of a memory with one area is that of the last header that has one for it, zero in the rest of the words reached, and unchanged elsewhere; the words of a shared memory come from its areas, and other memories are untouched; a faulty image changes no memory |
| VectorUnit.Vsetvli | software/app/fmatmul/kernel/fmatmul.c:55-56 | any vector length the extension allows for the request |
| VectorUnit.Vse | software/app/fmatmul/kernel/fmatmul.c:158-158 | a vector store changes exactly its span, once each |
| Fmatmul.Pipeline | software/app/fmatmul/kernel/fmatmul.c:96-154 | for every even N >= 2 the loop ends with all but the last term in every row, every fetch of A and B inside the matrices |
| Fmatmul.HalfIteration | software/app/fmatmul/kernel/fmatmul.c:119-134 | one half of the double-buffered body adds one term to every row and prefetches the next slice and scalars |
| Fmatmul.FmatmulVec | software/app/fmatmul/kernel/fmatmul.c:88-168 | the block of C becomes the row-wise folds of fma over k = 0..N-1, stored once each, the rest of C unchanged, for any number of rows |
| FmatmulUnrolled.Half | software/app/fmatmul/kernel/fmatmul.c:119-134 | half of the unrolled body, loads and multiply-adds in their order, does to four rows what the general half iteration does; the pointer to A stays inside |
| FmatmulUnrolled.FmatmulVec4x4 | software/app/fmatmul/kernel/fmatmul.c:81-168 | the kernel register by register meets the contract of the kernel over any number of rows |
| Fmatmul.AccStep | software/app/fmatmul/kernel/fmatmul.c:122-134 | one multiply-accumulate brings a row from n to n+1 terms: every column's sum becomes fma of the element of A, the element of B and the sum |
| Fmatmul.BlockProgress | software/app/fmatmul/kernel/fmatmul.c:70-77 | finishing a block extends what is done of the slice by exactly its rows, no element twice |
| Fmatmul.NextBlock | software/app/fmatmul/kernel/fmatmul.c:70-70 | blocks tile the rows if the block size divides their number |
| Fmatmul.Slice | software/app/fmatmul/kernel/fmatmul.c:69-77 | the loop over the blocks finishes one column slice |
| Fmatmul.Tiled | software/app/fmatmul/kernel/fmatmul.c:48-79 | slices and blocks together finish every element of C once, whatever lengths `vsetvli` gives |
| Fmatmul.Matmul | software/app/fmatmul/kernel/fmatmul.c:24-42 | whichever kernel is dispatched, every element of C is the last of the partial sums that start at zero and take in a[i][k] and b[k][j] by one fma for each k in order; it is written exactly once, and nothing else is written |
| Fmatmul.ElementIsSum | software/app/fmatmul/kernel/fmatmul.c:122-167 | where multiply-add is exact, as on integers, an element is the sum over k of a[i][k] * b[k][j] |
| Dotproduct.SumSplit | software/app/dotproduct/kernel/dotproduct.c:70-84 | the sum over a range is the sum over its parts |
| Dotproduct.WrapIs | software/app/dotproduct/kernel/dotproduct.c:240-273 | a wrapped result is the signed word congruent to the exact one, and the exact one where that is a word |
| Dotproduct.DotpS | software/app/dotproduct/kernel/dotproduct.c:313-347 | the eight-accumulator form gives the signed word congruent to the sum of products up to the next multiple of eight; if eight divides the length and the sum is a word, the sum itself |
| Dotproduct.DotpV | software/app/dotproduct/kernel/dotproduct.c:58-89 | the strip-mined form gives the signed word congruent to the sum of the products in the lanes the last strip has; if the length is at most VLMAX or a multiple of it and the whole sum is a word, the whole sum itself |
| Dotproduct.KeptAll | software/app/dotproduct/kernel/dotproduct.c:86-89 | if no strip is longer than the last nothing is lost |
| Dotproduct.RightIffUniform | software/app/dotproduct/kernel/dotproduct.c:70-89 | for one `vsetvli` the vector form is right on all data exactly if the last strip is as long as the first |
| Dotproduct.RightForEveryVsetvli | software/app/dotproduct/kernel/dotproduct.c:58-89 | it is right for every legal `vsetvli` exactly if the length is at most VLMAX or a multiple of it |
| Dotproduct.ScalarRightIff | software/app/dotproduct/kernel/dotproduct.c:325-334 | the scalar form is right on all data exactly if eight divides the length |
| Dotproduct.FormsAgree | software/app/dotproduct/kernel/dotproduct.c:58-89 | where both conditions hold the vector and the scalar form give the same word, whatever the data and `vsetvli` |
| PrintfOut.Out | software/sdk/src/printf.c:103-119 | a character goes to its index by one store if that is below the bound, else nothing changes |
| PrintfOut.OutRepeat | software/sdk/src/printf.c:219-224 | padding puts exactly the missing characters |
| PrintfOut.OutReversed | software/sdk/src/printf.c:226-229 | the digit buffer comes out reversed |
| PrintfNtoa.PutDigits | software/sdk/src/printf.c:256-265 | the digit loop leaves at most 32 digits, least significant first |
| PrintfNtoa.PadField | software/sdk/src/printf.c:173-187 | zeros up to precision and width, within the buffer, a place kept for the sign |
| PrintfNtoa.AddPrefix | software/sdk/src/printf.c:189-209 | the '#' prefix takes the place of padding zeros and never overflows the buffer |
| PrintfNtoa.NtoaFormat | software/sdk/src/printf.c:167-239 | the output is the field, the index grows by its length |
| PrintfNtoa.Ntoa | software/sdk/src/printf.c:243-300 | the output is the field of the value, for both integer types |
| PrintfRead.DigitsMod | software/sdk/src/printf.c:256-265 | the digits, read positionally, give the value modulo the base to the power 32 |
| PrintfRead.ReadsBack | software/sdk/src/printf.c:256-265 | a value reads back from its digits exactly if it is below the base to the power 32 |
| PrintfRead.SixtyFourBits | software/sdk/src/printf.c:284-295 | 64-bit values read back in bases 8, 10 and 16; in base 2 only their low 32 bits do |
| PrintfRead.Atoi | software/sdk/src/printf.c:158-164 | the decimal number of the run of digits, modulo 2^32, and where the run ends |
| PrintfRead.AtoiInverts | software/sdk/src/printf.c:158-164 | gets back every 32-bit number from its printed digits, wherever they stand in a string |
| PrintfRead.FieldIs | software/sdk/src/printf.c:166-241 | without '#' and within the buffer a field is sign, zeros and digits, filled with spaces on the side the flags name |
| PrintfRead.ExpectedIff | software/sdk/src/printf.c:166-241 | for every width and precision the field is what one expects exactly if, left-justified, the number has the digits of its precision anyway; filled with zeros, the width is at most 32; and else precision and sign have room in the 32 places, or only a sign is missing that looks like a space |
| PrintfRead.ZerosLoseSign | software/sdk/src/printf.c:173-187 | "%033d" prints -5 as 5 with 31 zeros before it |
| PrintfRead.FieldLength | software/sdk/src/printf.c:166-241 | the length of a field is the greater of its width and its length without one, sign included |
| PrintfRead.HashIff | software/sdk/src/printf.c:189-209 | for every width and precision, with '#' a number stands as prefix, zeros and all its digits exactly if only padding is cut off and the prefix has room in the buffer, or is the zero of base 8 that stands there anyway |
| PrintfRead.HashLosesDigits | software/sdk/src/printf.c:190-197 | a number as wide as its field loses digits: "%#4x" prints 0x1234 as "0x34" |
| PrintfDirective.EvalFlags | software/sdk/src/printf.c:472-505 | takes the longest run of flag characters, in any order and number, and sets exactly the flags that occur in it |
| PrintfDirective.FlagsRead | software/sdk/src/printf.c:472-505 | any run of flags adds exactly the flags in it |
| PrintfDirective.WidthRead | software/sdk/src/printf.c:507-520 | no width, digits read as their number, or an argument whose negative value means '-' and its absolute value |
| PrintfDirective.PrecisionRead | software/sdk/src/printf.c:522-534 | no precision, digits read as their number, none after the point meaning zero, or an argument whose negative value means zero |
| PrintfDirective.LengthRead | software/sdk/src/printf.c:536-572 | each of the seven length fields gives the size it has on RV64 |
| PrintfDirective.DirectiveReads | software/sdk/src/printf.c:472-572 | every directive, with any flags, width, precision and length, numbers or '*', is read as exactly that wherever it stands, taking one argument for each '*' |
| PrintfDirective.PrintedNumber | software/sdk/src/printf.c:507-510 | a positive number as printed is a width that is read as that number |
| PrintfDirective.Directive | software/sdk/src/printf.c:472-572 | the code from the '%' to the specifier computes the meaning of whatever directive stands there |
| Printf.ConvertInt | software/sdk/src/printf.c:575-657 | flags, base, argument width and sign of the seven integer conversions |
| Printf.ConvertString | software/sdk/src/printf.c:686-710 | the string cut to its precision and padded to its width |
| Printf.ConvertChar | software/sdk/src/printf.c:666-684 | the character padded to its width |
| Printf.StrnlenS | software/sdk/src/printf.c:146-152 | the length of a string, at most the bound |
| Printf.PrintsBack | software/sdk/src/printf.c:598-657 | every plain integer conversion prints a text that reads back as the converted argument, sign included |
| Printf.CharIff | software/sdk/src/printf.c:625-632 | "%hhd" converts its argument to the `signed char` exactly if the low byte is below 128; -1 gives 255 |
| Printf.CharReadsBackIff | software/sdk/src/printf.c:622-634 | the printed text reads back as the `signed char` exactly then |
| PrintfText.SignedReadsBack | software/sdk/src/printf.c:613-634 | every `int`, `short`, `long` and `long long` is printed as a text that reads back as it, whatever the upper bits of its register |
| PrintfText.UnsignedReadsBack | software/sdk/src/printf.c:635-657 | every unsigned number is printed as a text that reads back as it in base 8, 10 or 16; in base 2 exactly below 2^32 |
| PrintfText.NumberPrinted | software/sdk/src/printf.c:450-657 | the whole output of "%", any length field and any integer specifier reads back as the number |
| PrintfText.ReadIs | software/sdk/src/printf.c:256-265 | what reading back is: each digit shifts the number by a place, a minus negates it |
| PrintfText.DigitsAre | software/sdk/src/printf.c:257-261 | digits are those of the base, in capitals exactly if asked |
| PrintfText.IntegerText | software/sdk/src/printf.c:575-657 | an integer conversion prints sign, zeros up to the precision, digits, and spaces or zeros to the width on the side the flags name; a left-justified number loses its precision |
| PrintfText.FieldPrinted | software/sdk/src/printf.c:472-634 | the whole output of "%", any flags, a width and "d" for every `int` |
| PrintfText.PrefixedText | software/sdk/src/printf.c:189-209 | "%#x", "%#X", "%#o" and "%#b" put their prefix before the digits of a number that is not zero |
| PrintfText.PointerText | software/sdk/src/printf.c:712-729 | "%p" prints sixteen capital hexadecimal digits that read back as the pointer |
| PrintfText.StringText | software/sdk/src/printf.c:686-710 | the string as far as the precision allows between spaces up to the width, exactly unless its length without a precision loses bits in 32 and the rest does not fill the width |
| PrintfText.CharacterText | software/sdk/src/printf.c:666-684 | the low byte of the argument between spaces up to the width |
| PrintfText.RenderFirst | software/sdk/src/printf.c:462-742 | text before a directive comes out as it is, the directive as the conversion it asks for, and the format goes on behind it with the next argument |
| Printf.TerminatedEmit | software/sdk/src/printf.c:744-746 | unbounded output cut at the bound and then terminated is the longest prefix that leaves room for the terminator, each index stored to once, in increasing order, before the terminator |
| Printf.Vsnprintf | software/sdk/src/printf.c:450-750 | for every format without 'f' the buffer holds the first min(length, bound-1) characters of the unbounded output and a terminator, nothing beyond is touched, each index below min(length, bound) is stored to exactly once before the terminator and no other is, and the unbounded length is returned |
| Filelist.ClosedHoldsChain | scripts/gen_filelist.py:34-37 | a set closed under inclusion holds everything reachable from its members |
| Filelist.Collector.ParseFilelist | scripts/gen_filelist.py:29-81 | terminates on every include graph, cycles included; what it collects is what the newly met filelists list, in the order of a depth-first walk |
| Filelist.Resolve | scripts/gen_filelist.py:214-217 | succeeds exactly if every reachable filelist can be opened; each is expanded exactly once; a path is among the include directories, defines or sources exactly if a line of that kind in a reachable filelist names it; the sources of each filelist keep the order of its lines |
| Filelist.ListedIn | scripts/gen_filelist.py:42-81 | exactly the include directories, defines and sources that the lines of expanded filelists name are collected, each in its own collection |
| Filelist.SourceCount | scripts/gen_filelist.py:68-81 | a source is collected as often as the expanded filelists list it |
| Filelist.WalkInOrder | scripts/gen_filelist.py:42-81 | the sources of every filelist met are collected in the order of its lines |
| Filelist.IncludedBetween | scripts/gen_filelist.py:42-56 | what an included filelist brings stands between the sources of the lines before and after its line |
| Filelist.Deduplicate | scripts/gen_filelist.py:219-225 | keeps each path where it first occurs |
| Filelist.FirstsInOrder | scripts/gen_filelist.py:219-225 | the deduplicated list has every path once, in order of first occurrence |
| WfiWait.StepKeepsInv | software/sdk/include/wfi.h:6-14 | every step of hart, handler or device keeps the protocol's invariant |
| WfiWait.NeverLost | software/sdk/include/wfi.h:9-11 | in no interleaving is the hart asleep with the condition true, the interrupt pending, or the device done |
| WfiWait.RankDecreases | software/sdk/include/wfi.h:7-13 | once the device has fired every step brings the end of the wait nearer |
| WfiWait.NotStuck | software/sdk/include/wfi.h:7-13 | until the wait is over some step is possible |
| WfiWait.EndsWithinBound | software/sdk/include/wfi.h:6-14 | once the device has fired the wait is over within nine steps, with the condition true, in every run |
| WfiWait.PlainSafeIff | software/app/dma_desc64_test/main.c:91-92 | the loop that checks with interrupts enabled never sleeps on a true condition, in any run, exactly if it starts with the condition true or with interrupts disabled |
| WfiWait.PlainLosesWakeup | software/app/dma_desc64_test/main.c:91-92 | from any other start it can sleep for any time after the only interrupt |
| MemRoutines.CopyBytesAt | software/sdk/src/string.c:13-17 | what a forward byte copy leaves at each index: the source, repeated with the distance as its period if the destination lies ahead |
| MemRoutines.CopyMovesIff | software/sdk/src/string.c:5-19 | it moves the source for every content exactly if the destination does not start inside the source |
| MemRoutines.CopyWord | software/sdk/src/string.c:8-11 | one word copied is eight bytes copied, also where the ranges overlap |
| MemRoutines.Memcpy | software/sdk/src/string.c:5-19 | for every length, alignment and overlap the effect is that of the byte copy; where the destination does not start inside the source, it holds the source as it was and nothing else changes |
| MemRoutines.DoubledBytes | software/sdk/src/string.c:23-26 | doubling the low byte three times gives eight copies of it |
| MemRoutines.Memset | software/sdk/src/string.c:21-37 | for every length and alignment exactly the range is filled with the byte |
| MemRoutines.EqualWords | software/sdk/src/string.c:62-67 | equal words can be passed over |
| MemRoutines.Memcmp | software/sdk/src/string.c:57-82 | zero exactly for equal regions, else the difference at the first byte that differs, for every length and alignment |
| MemRoutines.Memmove | software/sdk/src/minlibc.c:35-50 | the destination gets the source as it was, for every overlap in either direction; nothing else changes |
| Ftrace.Resolve | scripts/ftrace.py:53-67 | the greatest symbol not above the address with the offset from it, or none exactly if all are above |
| Ftrace.KindIs | scripts/ftrace.py:129-156 | calls are c.jal, c.jalr, and jal and jalr that link through ra or t0; returns are ret and c.jr that names one of them |
| Ftrace.LinesComplete | scripts/ftrace.py:96-195 | without a depth limit there is a line for the first instruction, one for each call and return, in order, and then only lines that close what is open |
| Ftrace.FilterIs | scripts/ftrace.py:99-107 | a depth limit leaves all the lines that are not deeper and no others |
| Ftrace.LinesNested | scripts/ftrace.py:111-195 | for every trace each line stands at the depth of what it opens or closes, unmatched returns only where nothing is open, and nothing is open at the end |
| Ftrace.FilterOpen | scripts/ftrace.py:99-107 | cutting at a depth leaves exactly the outermost open frames |
| Ftrace.NestedPaired | scripts/ftrace.py:158-195 | in a well-nested output every opened frame is closed at its depth with only deeper lines between, and every close has its open |
| Ftrace.MatchUnique | scripts/ftrace.py:158-195 | no frame is closed twice and no line closes two frames |
| Ftrace.OutputPaired | scripts/ftrace.py:96-195 | all this for every trace and every depth limit |
| Ftrace.Trace | scripts/ftrace.py:96-195 | the script's loops write exactly those lines: one for the first instruction, one for each call and return in order with its time, origin and symbol, and closing lines at the end |
| ScopeName.SplitConcat | tb/verilator/lowrisc_dv_verilator_memutil_dpi/cpp/sv_scoped.cc:76-84 | appending a dotted name appends its components |
| ScopeName.JoinSplit | tb/verilator/lowrisc_dv_verilator_memutil_dpi/cpp/sv_scoped.cc:46-53 | components hold no dot, and joined they are the name |
| ScopeName.SplitJoin | tb/verilator/lowrisc_dv_verilator_memutil_dpi/cpp/sv_scoped.cc:46-53 | a list of dotless components is the only one of its name |
| ScopeName.Climb | tb/verilator/lowrisc_dv_verilator_memutil_dpi/cpp/sv_scoped.cc:54-67 | going up drops one component for each step, never the last |
| ScopeName.SetRelScope | tb/verilator/lowrisc_dv_verilator_memutil_dpi/cpp/sv_scoped.cc:21-86 | for every current scope and name: min(up, components-1) trailing components dropped, the rest of the name appended; absolute names and "." as they are |
| BootRom.Padded | hardware/soc/common/bootrom/gen_rom.py:84-94 | the image followed by fewer than eight zeros, to a multiple of eight |
| BootRom.HexAppend | hardware/soc/common/bootrom/gen_rom.py:102-102 | the printed digits of reversed bytes denote their little-endian number |
| BootRom.HexValueIs | hardware/soc/common/bootrom/gen_rom.py:102-102 | what reading a literal is: each hexadecimal digit shifts the number by a place, underscores do nothing |
| BootRom.GenerateH | hardware/soc/common/bootrom/gen_rom.py:96-110 | the literals of the C array are the 32-bit words of the image |
| BootRom.GenerateSv | hardware/soc/common/bootrom/gen_rom.py:112-126 | the literals, last first, are the 64-bit words of the image |
| BootRom.WordPair | hardware/soc/common/bootrom/gen_rom.py:96-126 | a 64-bit word is two consecutive 32-bit words, low one first |
| BootRom.Decodes | hardware/soc/common/bootrom/gen_rom.py:84-126 | both kinds of words hold each byte of the padded image at its place |
| BootRom.BytesOfAt | hardware/soc/common/bootrom/gen_rom.py:96-126 | byte k of a word is its quotient by 256^k, modulo 256 |
| BootRom.Generate | hardware/soc/common/bootrom/gen_rom.py:128-132 | in the two files of one image mem[k] is h[2k] + 2^32 h[2k+1], and from each of them the image and the zeros after it can be read back |
| AxuPacking.PackBank | zzc_workspace_axu/file_format_transform/gen_input_data_axu.py:185-197 | the low 16 bits of every token stand at its place in the two words, clobbering no other |
| AxuPacking.PackRow | zzc_workspace_axu/file_format_transform/gen_input_data_axu.py:200-206 | all 64 tokens of a row, eight to a bank |
| AxuPacking.Low16Is | zzc_workspace_axu/file_format_transform/gen_input_data_axu.py:185-197 | a token below 2^16 is kept as it is, of a larger one the remainder |
| AxuPacking.FieldsApart | software/soc/include/my_axu.h:107-110 | the or of the three masked fields, in 32 bits, is their sum |
| AxuPacking.WordOffset | software/soc/include/my_axu.h:107-110 | the masked fields of an offset make it the place of one aligned word |
| AxuPacking.WriteBuffer | software/app/my_axu_test/main.c:129-145 | the buffer becomes the old one with the rows put in, one after another |
| AxuPacking.RowKept | software/app/my_axu_test/main.c:131-137 | a row stays if fewer than 256 follow it |
| AxuPacking.AllKeptIff | software/soc/include/my_axu.h:102-110 | all rows stay, whatever they hold, exactly if there are no more than 256 |
| AxuPacking.TokenBytes | software/app/my_axu_test/main.c:120-137 | token i of row r stands little-endian at byte 4096(i/8) + 16r + 2(i%8) |
| AxuPacking.IndexMap | zzc_workspace_axu/file_format_transform/gen_input_data_axu.py:581-584 | the map sends every listed row to a place where it is listed |
| AxuPacking.RunStays | zzc_workspace_axu/file_format_transform/gen_input_data_axu.py:571-584 | a run of consecutive rows is consecutive in the compact array: compact[at + i] is full[row + i] |

## Left out

- FmatmulVec: the kernels over 8 and 16 rows repeat the statements of the 4-row kernel with more registers; they are covered by this one method over any number of rows, and only the 4-row kernel is also given register by register.
- Matmul: asks for N even and at least 2 and for the number of rows to be a multiple of the chosen block, which the kernels need; A and B are values, so a C that overlaps them is not modelled.
- DotpV: one generic word size stands for the four widths, and `vset` answers the same request the same way; a length of zero, for which the code reduces an undefined register, is excluded. Signed overflow wraps.
- LoadElfToMemories: asks for segment sizes below 2^32 and file ends below 2^64, as the code's comments do, and for areas with an address to have words, since the code divides by the width. What a load that fails at a missing word leaves in the memories it had begun is not described, nor which of several areas wins a word they share.
- AddSegment: asks that the segment ends inside the address space; a longer one that passes the code's assertion leaves the map inconsistent, see `SegTopExact`.
- FlattenElf: asks of each segment what staging it asserts, that its 32-bit offset and its size end inside the address space.
- CheckSegment: a size whose low 32 bits are zero fails an assertion of the code and is excluded, and so is a file end beyond 2^64.
- Vsnprintf: '%f' is not modelled; missing or mistyped arguments and a directive cut off by the terminator have no defined output. The index is unbounded.
- ParseFilelist: lines come classified, with variables replaced and paths normalised; paths are numbers, as they are only compared.
- Trace: lines come parsed into mnemonic and operands; choosing among symbols of one address is not modelled.
- SetRelScope: looking up the resulting name and saving the previous scope are DPI calls.
- GenerateSv: the text around the literals is not modelled, and the quotient that Python computes in floating point is exact.
- Loading a file into a named memory: the flat image written at offset 0, by the two operations that are modelled.
- Opening ELF files, VMEM images and printing of regions: library calls and messages.
- `fdotproduct` and the similarity check: approximate comparison of floating point values, no exact claim.
- The intrinsics variants of the dot products and the VCD triggers: same algorithm, no effect on results.
- Drivers, JTAG and UART DPI models, the simulator controller, generated headers and scripts: register accesses, sockets and text.
