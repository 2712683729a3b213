# Four small C programs of a computer-architecture course, modelled in Dafny

The programs are:

- **pa0.c**: a whitespace tokenizer.
- **pa1.c**: a MIPS assembler for a 16-instruction subset.
- **pa2.c**: a MIPS emulator for a 20-instruction subset plus a `halt` pseudo instruction.
- **pa3.c**: a set-associative, write-back cache simulator.

Each program is modelled in the form its code takes:

- **State updated in place becomes Dafny classes over arrays.** The emulator's registers, pc and memory are `Emulator.Machine`. The simulator's cache blocks, memory and counters are `CacheSimulator.Simulator`. The in-place tokenizers are methods over a `char` array.
- **Each method is proved equal to a value-level specification function.** These are `Mips.Execute`, `Mips.RunFrom`, `Cache.Load`, `Cache.Store` and `Tokenizer.TokenStarts`. The lemmas state what those functions mean:
  - two's-complement arithmetic, sign extension, arithmetic shift and signed comparison;
  - byte-order round trips and frame conditions;
  - hit and miss behaviour, LRU choice, write-back and the cycle balance;
  - tokenizing as the inverse of joining words with blanks.
- **The assembler is pure.** Its register-name table is a parameter: `MIPS_NUM_NAMES` is pa1.c's `Mips_num` as written, and `REGISTER_NAMES` is the corrected table. Its packed words are proved to decode, through the emulator's own field extraction, into the registers, shift amounts and immediates they were assembled from.

Files:

| file | module | models |
|---|---|---|
| bytes.dfy | `Bytes` | bytes, words, big-endian packing, two's complement |
| tokenizer.dfy | `Tokenizer` | `parse_command` of pa0.c and pa1.c, `__parse_command` and `strmatch` of pa2.c / pa3.c |
| assembler.dfy | `Assembler` | `Mips_num`, `R_instruction`, `I_instruction`, `translate` of pa1.c |
| mips.dfy | `Mips` | the instruction semantics of pa2.c as values, load and run as values |
| emulator.dfy | `Emulator` | `process_instruction`, `load_program`, `run_program` of pa2.c, in place |
| geometry.dfy | `CacheGeometry` | `log2_discrete`, `init_simulator` and the address split of pa3.c |
| cache.dfy | `Cache` | `load_word` / `store_word` of pa3.c as values |
| simulator.dfy | `CacheSimulator` | the simulator state of pa3.c, updated in place, and its command accounting |

## Model

| member | source | states |
|---|---|---|
| `Bytes.PutWord` | pa2.c:320-326 | storing a word changes exactly the four bytes at its address, and those four bytes read back, big-endian, as the word |
| `Bytes.WordBytesThenWordAt` | pa2.c:313-326 | the four big-endian bytes of a word reassemble into that word |
| `Bytes.WordAtThenWordBytes` | pa2.c:313-326 | splitting the word read from four bytes gives back those bytes |
| `Bytes.WordPrefixFull` | pa2.c:312-316 | adding the four bytes one at a time, each at its weight, yields the big-endian word |
| `Tokenizer.TokenStarts` | pa0.c:22-39 | the token starts are exactly the positions where a non-whitespace run begins, in increasing order |
| `Tokenizer.StrMatch` | pa2.c:94-97 | strmatch is true exactly when the two strings are equal |
| `Tokenizer.StartsBeforeCharacterised` | pa0.c:22-39 | the token starts listed are exactly the positions where a non-whitespace run begins, each once, in increasing order |
| `Tokenizer.NoTokensIffBlank` | pa0.c:51-86 | a command has no tokens exactly when every character is whitespace |
| `Tokenizer.ScanStep` | pa1.c:312-324 | one step of the scan NULs a whitespace character and leaves any other character as it was |
| `Tokenizer.ScrubbedTokenText` | pa1.c:312-324 | after the scan, the C string at a token's start is exactly that token's run |
| `Tokenizer.ScrubSpaces` | pa0.c:59-69 | the whitespace loop NULs the run of whitespace and stops at the next token start or at the end |
| `Tokenizer.SkipToken` | pa0.c:70-81 | the token loop stops at the whitespace that ends the run, with the run's start the one new token start passed |
| `Tokenizer.ParseCommandNested` | pa0.c:51-86 | returns 0, counts every non-whitespace run, points tokens[k] at the k-th run's start, leaves the other entries alone and NULs every whitespace character before the terminator |
| `Tokenizer.ParseCommand` | pa1.c:306-327 | the same outcome with the token_started flag loop, for any command, including one that does not end in whitespace |
| `Tokenizer.TokensBeforeComment` | pa2.c:623-629 | the count is the position of the first token that is "//" or "#", or the number of tokens when there is none |
| `Tokenizer.DropComments` | pa2.c:623-629 | the comment pass cuts the count at the first comment token and sets only that entry to NULL |
| `Tokenizer.ParseCommandStripComments` | pa2.c:603-632 | the count stops at the first comment marker and that entry is NULL; every other token entry points at its run, and entries past the last token are unchanged; the buffer is scrubbed as by the plain scan |
| `Tokenizer.StartsBeforeAppend` | pa1.c:312-324 | after a prefix ending in whitespace, the token starts of the rest are its own starts moved up by the prefix length |
| `Tokenizer.AppendWord` | pa0.c:22-30 | appending a word and blanks after whitespace adds one token, starting at the old length and spelling that word |
| `Tokenizer.SentenceTokens` | pa0.c:22-39 | words joined by blanks tokenize back into those words at the positions they were placed: tokenizing inverts joining |
| `Tokenizer.ExampleTokens` | pa0.c:24-31 | "  Hello world   Ajou   University!!  " gives the tokens Hello, world, Ajou and University!! at 2, 8, 16 and 23 |
| `Assembler.Lookup` | pa1.c:68-136 | the if-chain of name comparisons returns a position below the table size exactly for a listed name, the position of that name, and 99 otherwise |
| `Assembler.MipsNum` | pa1.c:68-136 | Mips_num as written: a number below 32 exactly for the names it tests, whose position it is, and 99 for every other string |
| `Assembler.RegisterNumber` | pa1.c:68-136 | the corrected lookup: a number below 32 exactly for the conventional names, whose position it is, and 99 for every other string |
| `Assembler.RegisterNumberTable` | pa1.c:68-136 | with conventional names every register name maps to its own number 0..31, and every other string to 99 |
| `Assembler.RegisterNamesMatchEmulator` | pa2.c:71-76 | the conventional names of registers 1 to 31 are the names the emulator prints |
| `Assembler.RegisterNumberMatchesEmulator` | pa1.c:68-136 | the corrected table numbers every register but 0 by the name the emulator prints for it |
| `Assembler.MipsNumLacksK0` | pa1.c:122-125 | Mips_num as written maps "k0" to 99 |
| `Assembler.MipsNumShiftsK1` | pa1.c:122-125 | Mips_num as written maps "k1" to 26 and "k2" to 27 |
| `Assembler.MipsNumMisreadsKernelRegisters` | pa1.c:122-125 | Mips_num as written cannot name register 26 by its name k0 and maps the name of register 27 (k1) to 26 |
| `Assembler.Number` | pa1.c:149-154 | the atoi value of the token, or its base-16 strtol value when atoi gives 0; the decoding of the result is stated by `Assembler.TranslateR` and `Assembler.TranslateI` |
| `Assembler.PackR` | pa1.c:164 | the R-format sum of shifted fields modulo 2^32; what it packs is stated by `Assembler.PackRThenDecode` |
| `Assembler.PackI` | pa1.c:187-191 | the I-format sum of shifted fields modulo 2^32; what it packs is stated by `Assembler.PackIThenDecode` |
| `Assembler.RInstruction` | pa1.c:138-167 | R_instruction over a given name table; its fields are stated by `Assembler.TranslateR` |
| `Assembler.IInstruction` | pa1.c:170-194 | I_instruction over a given name table; its fields are stated by `Assembler.TranslateI` |
| `Assembler.Translate` | pa1.c:196-276 | translate over a given name table: the seven I-format mnemonics go to I_instruction and every other mnemonic to R_instruction, an unlisted one with sra's funct; its output is stated by `Assembler.TranslateR`, `Assembler.TranslateI` and `Assembler.AssembledIsListed` |
| `Assembler.PackRThenDecode` | pa1.c:164 | when each field fits its width, the emulator's decoder recovers opcode, rs, rt, rd, shamt and funct from the packed R word |
| `Assembler.PackIThenDecode` | pa1.c:187-191 | the decoder recovers opcode, rs and rt of an I word, and an immediate in -2^15..2^15-1 comes back through sign extension |
| `Assembler.TranslateR` | pa1.c:138-167 | for either name table, an R-format line whose register tokens are names of the table decodes to opcode 0, its mnemonic's funct, rd = the table's number for token 1, and either rt and the shift amount (shifts, rs 0) or rs and rt (others, shamt 0) |
| `Assembler.TranslateI` | pa1.c:170-194 | for either name table, an I-format line decodes to its opcode, rt = the table's number for token 1, rs = that for token 2, and the immediate in 16 bits |
| `Assembler.AssembledIsListed` | pa1.c:196-276 | for either name table, every word the assembler makes from names of the table and fitting numbers is in the emulator's instruction table |
| `Assembler.AsWrittenAddK1` | pa1.c:122-125 | "add k1 t0 t1" assembled with Mips_num as written writes register 26, the emulator's k0; with the corrected table it writes register 27 |
| `Assembler.AsWrittenAddK0` | pa1.c:122-125 | "add k0 t0 t1" assembled with Mips_num as written: the 99 for k0 spills out of the rd field, so the word decodes as rd 3 and rt 12 (add v1 t0 t4); with the corrected table it decodes as rd 26, rs 8, rt 9 |
| `Mips.FieldsMakeWord` | pa2.c:141-161 | the opcode, rs, rt, rd, shamt and funct fields, weighted by their bit positions, sum to the word; likewise opcode, rs, rt and the immediate, and opcode and the jump target |
| `Mips.Defined` | pa2.c:205-330 | whether executing a word stays within defined C: sra of a negative word by 0 and lw or sw outside memory are not; it is decided by `Emulator.Machine.CheckDefined` |
| `Mips.DefinedByRegisters` | pa2.c:502-507 | whether a word stays within defined C depends on the registers alone, so the pc += 4 before process_instruction does not change it |
| `Mips.ExecuteR` | pa2.c:144-245 | the R-format branch of process_instruction as a value; its effects are stated by `Mips.OnlyRdChanges`, `Mips.AddSubSigned`, `Mips.SltIsSignedLess`, `Mips.SraIsArithmetic` and `Mips.JrJumps` |
| `Mips.ExecuteI` | pa2.c:271-372 | the I-format branch of process_instruction as a value; its effects are stated by `Mips.AddiSignExtends`, `Mips.BranchTaken` and `Mips.StoreThenLoad` |
| `Mips.Execute` | pa2.c:139-375 | process_instruction as a value: the new registers, pc and memory and the return value; what it computes is stated by `Mips.ProcessedIffListed`, `Mips.HaltStops` and `Mips.JumpKeepsRegion` |
| `Mips.ProcessedIffListed` | pa2.c:111-138 | process_instruction returns 1 exactly for the instructions of its table; halt and every other word return 0 and change nothing |
| `Mips.HaltStops` | pa2.c:370-374 | halt returns 0 and changes no register, pc or memory |
| `Mips.OnlyRdChanges` | pa2.c:163-237 | the register-to-register instructions write rd and nothing else |
| `Mips.SignedOfWrap` | pa2.c:165 | a result stored into an `unsigned int` keeps its two's-complement meaning when it fits |
| `Mips.AddSubSigned` | pa2.c:163-174 | add and sub give the signed sum and difference whenever it fits in 32 signed bits |
| `Mips.SltIsSignedLess` | pa2.c:218-237 | the four-case slt writes 1 exactly when rs < rt as signed integers and 0 exactly otherwise |
| `Mips.SraIsArithmetic` | pa2.c:205-217 | sra is the arithmetic right shift: the signed value divided by 2^shamt, rounded down |
| `Mips.AddSigned16IsSignExtension` | pa2.c:287-293 | subtracting (imm ^ 0xffff) + 1 for a negative immediate is adding the sign-extended immediate |
| `Mips.AddiSignExtends` | pa2.c:285-296 | addi writes rs plus the sign-extended immediate to rt and changes nothing else |
| `Mips.BranchTaken` | pa2.c:337-369 | beq and bne move pc by the sign-extended immediate times four exactly when the registers are equal (beq) or differ (bne); registers and memory never change |
| `Mips.JumpKeepsRegion` | pa2.c:247-270 | j and jal keep the top four bits of pc and put target * 4 in the rest; jal first saves pc in register 31 |
| `Mips.RegionBase` | pa2.c:253 | (pc >> 28) << 28 clears the low 28 bits of pc |
| `Mips.JrJumps` | pa2.c:238-244 | jr sets pc to rs and changes nothing else |
| `Mips.StoreThenLoad` | pa2.c:309-330 | sw writes rt big-endian at rs + imm and no other byte; an lw from the same base and immediate reads it back |
| `Mips.ProgramWords` | pa2.c:442-457 | the loaded words are the file's lines, then a halt unless the last line already is one |
| `Mips.Place` | pa2.c:426-440 | word k is stored big-endian at at + 4k, and every byte outside the program is unchanged |
| `Mips.PlaceSnoc` | pa2.c:428-440 | placing one more word is one more big-endian store after the others |
| `Mips.LoadedProgramEndsInHalt` | pa2.c:409-462 | after loading, the word at INITIAL_PC + 4k is line k, and the word after the program is halt |
| `Mips.RunFrom` | pa2.c:482-513 | a bounded run stays well sized and counts at most its fuel in steps, all of it when it runs out |
| `Mips.MoreFuelSameRun` | pa2.c:490-510 | a run that stops before its fuel runs out stops the same way with any more fuel |
| `Mips.HaltEndsRun` | pa2.c:504-508 | a halt at pc ends the run after one step with only pc advanced |
| `Emulator.ShiftWeight` | pa2.c:499 | the fetch weights 1 << 4 * (6 - 2i) equal the lw weights 1 << (24 - 8i) and the big-endian byte weights |
| `Emulator.ByteRadix` | pa2.c:436-437 | the byte load_program writes at step i is byte 3 - i of the big-endian word |
| `Emulator.DecodeR` | pa2.c:148-161 | peeling fields off the low end of the word gives funct, shamt, rd, rt and rs, each in range |
| `Emulator.DecodeI` | pa2.c:276-283 | peeling fields off the low end gives the immediate, rt and rs, each in range |
| `Emulator.Machine.constructor` | pa2.c:44-81 | the registers, memory and pc start as their static initialisers say |
| `Emulator.Machine.ProcessInstruction` | pa2.c:139-375 | the registers, pc and memory become the state the instruction semantics gives, and the result is its return value |
| `Emulator.Machine.ExecuteRFormat` | pa2.c:144-245 | the R-format branch computes the R-format semantics in place |
| `Emulator.Machine.ExecuteIFormat` | pa2.c:271-372 | the I-format branch computes the I-format semantics in place |
| `Emulator.Machine.LoadWord` | pa2.c:309-319 | lw's byte loop sets rt to the big-endian word at its address and changes no other register |
| `Emulator.Machine.StoreWord` | pa2.c:320-330 | sw's byte loop stores the word big-endian and changes no other byte |
| `Emulator.Machine.FetchInstruction` | pa2.c:493-500 | the fetch loop reads the big-endian word at pc |
| `Emulator.Machine.PutBigEndian` | pa2.c:432-439 | the backwards byte loop of load_program stores the word big-endian and changes no other byte |
| `Emulator.Machine.PlaceLines` | pa2.c:426-440 | the line loop places every line's word from INITIAL_PC on |
| `Emulator.Machine.AppendHalt` | pa2.c:442-457 | the halt appended after a program whose last line is not halt completes the layout of ProgramWords |
| `Emulator.Machine.LoadProgram` | pa2.c:409-462 | memory becomes the program's words, big-endian from INITIAL_PC, halt appended as needed |
| `Emulator.Machine.CheckDefined` | pa2.c:205-217 | decides, before executing, whether the word stays within defined C: sra of a negative word by 0, lw and sw outside memory |
| `Emulator.Machine.Cycle` | pa2.c:493-508 | one round fetches at pc, adds 4 to pc and executes the fetched word |
| `Emulator.Machine.Round` | pa2.c:490-510 | one round either goes on or ends the run exactly as the bounded run does |
| `Emulator.Machine.RunProgram` | pa2.c:482-513 | starting from INITIAL_PC, the final machine, the way the run stopped and the step count are those of the bounded run |
| `CacheGeometry.Log2` | pa3.c:124-133 | log2_discrete: halvings counted after the first; its meaning is stated by `CacheGeometry.Log2Bounds` and `CacheGeometry.Log2OfPow2` |
| `CacheGeometry.Log2Bounds` | pa3.c:124-133 | for n >= 1, log2_discrete(n) = r with 2^r <= n < 2^(r+1); log2_discrete(0) = 0 |
| `CacheGeometry.Log2OfPow2` | pa3.c:124-133 | log2_discrete of 2^k is k |
| `CacheGeometry.BlockBytesIsPow2` | pa3.c:224 | 2^index_bit is the block size in bytes, at most the 128-byte data array |
| `CacheGeometry.SetInCache` | pa3.c:169 | the ways of every set lie inside the cache array |
| `CacheGeometry.SetOfBound` | pa3.c:166 | the set index is below nr_sets |
| `CacheGeometry.SplitRebuild` | pa3.c:164-174 | rebuilding a block address from the tag and the set gives the address with its offset bits cleared |
| `CacheGeometry.SameBlockIff` | pa3.c:164-166 | two addresses have the same tag and set exactly when they lie in the same block |
| `CacheGeometry.BlockInMemory` | pa3.c:174-180 | the block of an address in memory lies wholly in memory |
| `CacheGeometry.SourceTagOf` | pa3.c:164 | the tag load_word computes, addr >> tag_bit with init_simulator's width; its aliasing is stated by `CacheGeometry.SourceTagAliases` |
| `CacheGeometry.SourceTagAliases` | pa3.c:223 | with one word per block and four ways in four blocks, init_simulator's tag width gives addresses 0 and 4 the same set and tag |
| `CacheGeometry.TagSeparatesBlocks` | pa3.c:223 | with the corrected width, two different blocks of one set have different tags in every valid geometry |
| `CacheGeometry.SourceTagBitAgrees` | pa3.c:223-224 | when ways equal words per block, the source's tag width is the corrected one |
| `Cache.FindHit` | pa3.c:142-145 | the lookup finds the first way of the set that holds the tag, or reports that none does |
| `Cache.FirstInvalid` | pa3.c:169-172 | the scan finds the lowest invalid way of the set, or reports that every way is valid |
| `Cache.Lru` | pa3.c:146 | the least recently used way has the smallest timestamp of the set, the lowest such way |
| `Cache.Victim` | pa3.c:145-146 | the way a miss replaces: the first invalid way of the set when there is one, else a way with the smallest timestamp |
| `Cache.WriteBack` | pa3.c:146-147 | a dirty valid block's bytes replace the block of memory rebuilt from its tag and set, and nothing else changes; a clean or invalid block leaves memory as it was |
| `Cache.Fill` | pa3.c:174-180 | a refilled way holds the block of memory containing the address, from the address with its offset cleared |
| `Cache.Load` | pa3.c:138-185 | load_word as documented, and the access store_word shares: addr's tag ends up valid in a way of addr's set and no other way changes; its behaviour is stated by `Cache.LoadHit`, `Cache.LoadMiss` and `Cache.LoadThenLoadHits` |
| `Cache.LoadWellFormed` | pa3.c:141-147 | an access keeps the cache well formed: no tag twice in a set, invalid blocks clean, valid tags inside memory |
| `Cache.WayInSet` | pa3.c:169 | the ways scanned for a set belong to that set |
| `Cache.WayOutsideSet` | pa3.c:169 | no way outside that range belongs to the set |
| `Cache.Store` | pa3.c:188-209 | store_word as documented: the access of a load, then the word written into the cached block; its behaviour is stated by `Cache.StoreEffect` |
| `Cache.LoadHit` | pa3.c:142-145 | a load hits exactly when a valid way of the set holds the tag; it restamps that way and changes nothing else, in the cache or in memory |
| `Cache.LoadMiss` | pa3.c:145-147 | a miss replaces the lowest invalid way or else the LRU way, writes a dirty victim back to its own block only, and installs the block clean, tagged and stamped |
| `Cache.LoadThenLoadHits` | pa3.c:142-145 | loading an address twice hits the same way the second time |
| `Cache.HitIsUnique` | pa3.c:142-145 | in a well-formed cache the way holding the tag is the one the lookup finds |
| `Cache.StoreEffect` | pa3.c:192-198 | a store does the load's lookup, then leaves the way valid and dirty with the stored word at addr's offset and its other bytes unchanged |
| `Cache.LoadAsWritten` | pa3.c:156-185 | the source's load_word always reports a miss and never writes memory; it fills the lowest invalid way of addr's set with addr's block under the source's tag, stamped with the cycle count, and changes no other way; a full set is left exactly as it was |
| `Cache.TwoWayLoad` | pa3.c:144-147 | in a two-way set a load hits the way holding the tag; otherwise it misses into the lower invalid way, or, both being valid, the way with the older stamp; the way used ends up holding the tag, stamped with the cycle count |
| `Cache.LruAcrossLoads` | pa3.c:144-146 | over four loads A, B, A, C into an empty two-way set, the third hits A's way and C replaces B's way, the least recently used |
| `Cache.StoreThenEvictWritesBack` | pa3.c:146-147 | after a store, a later load of another block that replaces the stored block's way misses and writes that block back, so memory holds the stored word |
| `Cache.ColdFillMatchesSource` | pa3.c:169-181 | on a cold set the model picks the same way, block and memory as the source, differing only in the tag width |
| `Cache.AsWrittenRepeatMisses` | pa3.c:156-185 | the source's load_word misses twice on the same address although the first load filled a way with it |
| `Cache.StoreAsWritten` | pa3.c:204-209 | store_word as written: a miss, with the cache and memory as they were; its effect is stated by `Cache.StoreAsWrittenDropsValue` |
| `Cache.StoreAsWrittenDropsValue` | pa3.c:204-209 | the source's store_word reports a miss and leaves cache and memory as they were, whatever value is stored |
| `CacheSimulator.InitialMemory` | pa3.c:48-59 | memory starts with the 80 bytes of the initialiser, then zeros, 8 KB in all |
| `CacheSimulator.Charge` | pa3.c:384-390 | the counters after an access: a hit adds 1 to hits and 1 cycle, a miss 1 to misses and 100 cycles, each modulo 2^32; the balance it keeps is stated by `CacheSimulator.ChargeKeepsBalance` |
| `CacheSimulator.ChargeKeepsBalance` | pa3.c:384-390 | cycles == hits * 1 + misses * 100, counted modulo 2^32, survives every charge |
| `CacheSimulator.Decode` | pa3.c:336-382 | an empty line is blank; quit, show, cycles and help decode to their commands; dump decodes to the word-aligned address at or just below its operand (0 without one); lw with an address decodes to Lw of it and without one to the usage message; sw with exactly two operands decodes to Sw of them and otherwise to the usage message; any other first word, and only such a word, is skipped as unknown |
| `CacheSimulator.Simulator.constructor` | pa3.c:260-273 | the cache starts empty, memory seeded, counters at zero |
| `CacheSimulator.Simulator.InitCache` | pa3.c:260-273 | every block becomes invalid and clean, with tag 0, timestamp 0 and zero data |
| `CacheSimulator.Simulator.FindWay` | pa3.c:142-145 | the search loop returns the first way of the range holding the tag |
| `CacheSimulator.Simulator.FindInvalid` | pa3.c:169-172 | the scan returns the first invalid way of the range |
| `CacheSimulator.Simulator.FindLru` | pa3.c:146 | the loop returns the least recently used way |
| `CacheSimulator.Simulator.ChooseVictim` | pa3.c:145-146 | the victim is the first invalid way, or else the LRU way |
| `CacheSimulator.Simulator.WriteBackWay` | pa3.c:146-147 | a dirty valid way is copied byte by byte to its own block of memory |
| `CacheSimulator.Simulator.FillWay` | pa3.c:174-180 | the fill loop installs addr's block, tagged and stamped with cycles |
| `CacheSimulator.Simulator.Refill` | pa3.c:145-147 | the miss path writes back the victim and refills it |
| `CacheSimulator.Simulator.BringIn` | pa3.c:156-185 | the shared lookup leaves cache and memory as the access function says |
| `CacheSimulator.Simulator.LoadWord` | pa3.c:156-185 | load_word returns the outcome and leaves the cache and memory of Cache.Load |
| `CacheSimulator.Simulator.StoreWord` | pa3.c:204-209 | store_word returns the outcome and leaves the cache and memory of Cache.Store |
| `CacheSimulator.Simulator.Account` | pa3.c:384-390 | a hit adds 1 to hits and 1 cycle, a miss 1 to misses and 100 cycles, keeping the balance |
| `CacheSimulator.Simulator.Step` | pa3.c:354-390 | lw and sw act as Load and Store and are charged; every other command leaves cache, memory and counters alone |

## Left out

- Input and output are not modelled: every `main` and its prompt loop, file reading, `printf` tracing, and the printers `__show_cache`, `__dump_memory`, `__show_registers` and `__process_command`. A program file is given as its sequence of 32-bit line values.
- Library calls are not modelled. `atoi`, `strtol` and `strtoimax` are function parameters. `isspace` is the C-locale set of space, tab, newline, vertical tab, form feed and carriage return. The `tolower` pass of pa1.c's `main` (pa1.c:370-372) is not modelled; the assembler takes its tokens as given.
- `Tokenizer.ParseCommandNested` requires the command to end in whitespace. pa0.c's inner loop stops only at whitespace, so a final token not followed by a newline reads past the terminator. It also requires room for every token in `tokens`, as the 32-entry arrays of the callers do.
- `Assembler.Translate` requires four tokens. Every branch of `translate` reads `tokens[1]` to `tokens[3]`, which are NULL on shorter lines. pa1.c computes with `pow` in doubles; the model uses exact integers, which agree whenever the sum stays below 2^53. Numbers so large that the sum does not are not modelled.
- `Assembler.TranslateR`, `Assembler.TranslateI` and `Assembler.AssembledIsListed` cover only register tokens that are names of the table in use. For other names `Mips_num` returns 99, which spills into the neighbouring field. That is shown for one input only, by `Assembler.AsWrittenAddK0`.
- `Emulator.Machine.ProcessInstruction` requires `Mips.Defined`. This excludes the shift by 32 that sra performs on a negative word with shamt 0, and lw or sw addresses outside the 1 MB memory.
- The emulator's fetch (pa2.c:499, by a multiplication) and lw (pa2.c:315, by a shift) move a first byte of 0x80 or more into the sign bit of an `int`, which overflows. The model takes the two's-complement result, which is the big-endian word, rather than excluding every word whose first byte is 0x80 or more. That would exclude halt, lw and sw.
- `Emulator.Machine.RunProgram`: the run is bounded by a fuel argument. A program that does not halt within it is reported as out of fuel instead of looping forever. A fetch outside memory, or a word outside defined C, ends the run as Undefined.
- `Emulator.Machine.LoadProgram` requires at least one line. After an empty file, pa2.c reads the halt test from an uninitialised buffer. Lines are 32-bit values; a line whose `strtol` value is wider is not modelled.
- `CacheSimulator.Simulator.Step` excludes `help`: pa3.c then counts an uninitialised `hit`. It requires lw and sw addresses inside the 8 KB memory, which pa3.c indexes without a check.
- The simulator's start-up reading of `nr_words_per_block`, `nr_blocks` and `nr_ways` is not modelled; `CacheGeometry.Geometry.Valid` states what the address split needs. The `nr_sets < 1` repair in `load_word` is therefore dead and not modelled. The sizes of the cache array allocated by `malloc` are those of a Dafny array.
- The byte order inside a cache block is not fixed by pa3.c. The model stores a word big-endian at its aligned offset, as pa2.c does.

## Findings

| source | as written | input that shows it | evidently intended | confidence | as-written member | corrected member |
|---|---|---|---|---|---|---|
| pa3.c:223 | `tag_bit = log2(nr_blocks) + 2` drops the set-index bits and, when ways exceed words per block, some tag bits too | 1 word per block, 4 blocks, 4 ways: addresses 0 and 4 get set 0 and tag 0 | tag width = offset bits + set-index bits, log2(words) + 2 + log2(nr_sets) | high, not executed | `CacheGeometry.SourceTagOf`, `CacheGeometry.SourceTagAliases` | `CacheGeometry.TagSeparatesBlocks`, `CacheGeometry.SameBlockIff` |
| pa3.c:156-185 | `load_word` never looks for a hit, never evicts and never writes back; it fills the first invalid way and always returns a miss | `lw 0` twice on a fresh cache: two misses, and the second fills another way with the same block | the documented lookup: a hit restamps its way; a miss replaces the first invalid or LRU way, writing a dirty victim back (pa3.c:141-147) | high, not executed | `Cache.LoadAsWritten`, `Cache.AsWrittenRepeatMisses` | `Cache.Load`, `Cache.LoadHit`, `Cache.LoadThenLoadHits` |
| pa3.c:204-209 | `store_word` returns a miss and stores nothing | `sw 0 1` leaves cache and memory unchanged | write-back, write-allocate store into the cached block (pa3.c:192-194) | high, not executed | `Cache.StoreAsWritten`, `Cache.StoreAsWrittenDropsValue` | `Cache.Store`, `Cache.StoreEffect` |
| pa1.c:122-125 | `Mips_num` tests "k1" and "k2" for registers 26 and 27 | `add k0 t0 t1`: "k0" gives 99, which overflows the rd field and assembles as `add v1 t0 t4`; `add k1 t0 t1` writes register 26 | the MIPS names k0 and k1, which pa2.c prints for registers 26 and 27 (pa2.c:75) | high, not executed | `Assembler.MipsNum`, `Assembler.MipsNumMisreadsKernelRegisters`, `Assembler.AsWrittenAddK1`, `Assembler.AsWrittenAddK0` | `Assembler.RegisterNumber`, `Assembler.RegisterNumberMatchesEmulator`, `Assembler.TranslateR` |
