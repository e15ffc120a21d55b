# GMod offset scanner: a verified model of its scanning engine

GModOffsetScanner is a Windows console tool. It opens a running Garry's Mod
process, selects one of its loaded modules, and searches that module for byte
signatures. Each signature belongs to one of three engine globals: the entity
list, the local player and the view matrix. When a signature matches, the
tool turns the matched instruction into the address of the global it
references.

This project models the engine of that tool in Dafny and proves what it
computes:

- `patterns.dfy`: the pattern text and what `PatternToBytes` compiles it to.
  Compilation goes through a model of `strtoul(…, 16)` following section
  7.22.1.4 of the C standard (ISO/IEC 9899).
- `memory.dfy`: the target's address space as `ReadProcessMemory` sees it.
  It is a partial map from address to byte. A read that fails leaves the
  caller's zero-initialised buffer unchanged.
- `matcher.dfy`: which positions `FindPattern` examines, chunk by chunk, and
  which address it reports.
- `resolver.dfy`: the two ways a match site is turned into an address, and
  `std::string::find`.
  - The instruction-pointer-relative form adds a signed 32-bit displacement
    to the end of the instruction.
  - The absolute form reads a pointer-width literal.
  - All sums are taken modulo 2^W, where W is the width of `uintptr_t`.
- `targets.dfy`: the signature lists of the three Scan functions, in the
  order they are tried, and the encoding each matched signature is given.
- `machine.dfy`: bytes, little-endian decoding, two's-complement `int32_t`
  and the pointer width of the x86 and x64 builds.
- `scanner.dfy`: the `GModOffsetScanner` class.
  - Its state is the opened process (`hProcess`), the build's architecture
    and the selected module's base and size.
  - Each operation is proved against the functions above: `ReadBytes`,
    `Read<T>`, `PatternToBytes`, `FindPattern` and the three Scan functions.

## Model

| member | source | states |
|---|---|---|
| Patterns.CompileRendered | GModScanner.cpp:160-182 | A well-formed pattern (two-digit hex bytes and `?`/`??` wildcards, one space apart) compiles to exactly one entry per token, in order: -1 for each wildcard, the byte value 0..255 for each hex token. |
| Patterns.CompileFromSpelled | GModScanner.cpp:165-179 | The cursor walk over a text that spells a token list, from any position on, appends exactly the tokens' values. |
| Patterns.CompileStep | GModScanner.cpp:167-179 | One step of the walk over a spelled token appends that token's value. The cursor then stands one past the following space. |
| Patterns.StrToUlOfByteToken | GModScanner.cpp:177 | `strtoul` at two hex digits followed by a space or the end converts exactly those digits (value 16·hi+lo), and the end pointer stands after them. |
| Patterns.StrToUl | GModScanner.cpp:177 | The converted value never exceeds ULONG_MAX. The end lies between the start and the end of the text. When nothing is converted the value is 0 and the end is the start. |
| Patterns.LenientCompile | GModScanner.cpp:168-178 | Nothing is rejected. A character that starts no number yields 0 (`"G1"` gives [0, 1]). A one-digit token is a byte (`"1"` gives [1]). A longer digit run can yield a non-byte value (`"123"` gives [0x123]). Text whose `unsigned long` is all ones yields -1, the wildcard, which matches every byte (`"FFFFFFFF"`, `"-1"`, `"1FFFFFFFF"`). `??` and `?` are both wildcards. |
| Patterns.AllOnesIsWildcard | GModScanner.cpp:177 | The `unsigned long` 0xFFFFFFFF, stored in an `int`, is -1. So `"FFFFFFFF"`, `"-1"` and the saturating `"1FFFFFFFF"` each compile to the single wildcard entry [-1]. |
| Patterns.StrToUlAllOnes | GModScanner.cpp:177 | `strtoul("FFFFFFFF", &end, 16)` is ULONG_MAX, with the end after the eighth digit. |
| Patterns.StrToUlNegates | GModScanner.cpp:177 | `strtoul("-1", &end, 16)` negates modulo 2^32 and gives ULONG_MAX, with the end after the digit. |
| Patterns.StrToUlSaturates | GModScanner.cpp:177 | A magnitude past ULONG_MAX (`"1FFFFFFFF"`) saturates to ULONG_MAX, with the end after the whole run. |
| Patterns.StrToUlOfUnsignedRun | GModScanner.cpp:177 | For text that starts with a non-zero hex digit, `strtoul` converts the whole run of digits. The value is the run's value, or ULONG_MAX when the run's value exceeds it. The end is the end of the run. |
| Patterns.StrToUlAllOnesDigits | GModScanner.cpp:177 | The digit loop over `"FFFFFFFF"` accumulates 0xFFFFFFFF and stops after eight digits. |
| Patterns.StrToUlSaturatesDigits | GModScanner.cpp:177 | The digit loop over `"1FFFFFFFF"` accumulates 0x1FFFFFFFF, which is past ULONG_MAX, and stops after nine digits. |
| Patterns.CompileNonDigit | GModScanner.cpp:168-178 | `"G1"` compiles to [0, 1]: `G` starts no number, converts nothing and yields 0. |
| Patterns.CompileOneDigit | GModScanner.cpp:168-178 | `"1"` compiles to [1]: a one-digit token is a byte. |
| Patterns.CompileDigitRun | GModScanner.cpp:168-178 | `"123"` compiles to [0x123]: a run of three digits yields a value that is not a byte. |
| Patterns.CompileWildcards | GModScanner.cpp:168-172 | `"?? ?"` compiles to [-1, -1]: `??` and `?` are each one wildcard. |
| Patterns.StepValue | GModScanner.cpp:168-177 | The entry one step pushes is an `int` in [-2^31, 2^31). It is 0 when no number starts at the cursor and `strtoul` converts nothing. |
| Patterns.NextCursor | GModScanner.cpp:166-177 | Each step moves the cursor forward, to at most one past the end of the text. |
| Patterns.CompileFrom | GModScanner.cpp:166-179 | The walk from a cursor position appends at most one entry per remaining character, and nothing from the end on. |
| Patterns.Compile | GModScanner.cpp:160-182 | The sequence `PatternToBytes` returns for a text. It has at most one entry per character, and is empty exactly when the text is empty. |
| Patterns.CompileEntriesAreInts | GModScanner.cpp:173-177 | Every entry of the walk, from any cursor position on, lies in [-2^31, 2^31). |
| Scanner.GModOffsetScanner.PatternToBytes | GModScanner.cpp:160-182 | The loop returns exactly `Compile(pattern)`, which has at most one entry per character of the text. |
| ProcessMemory.ReadMemory | GModScanner.cpp:151-157 | Exactly `size` bytes. They are the memory's contents when the whole range is readable, and all 0 otherwise. |
| Scanner.GModOffsetScanner.ReadBytes | GModScanner.cpp:151-157 | Returns the buffer of `ReadMemory` over the process: `size` bytes, zeros when the read fails. |
| ProcessMemory.LoadUnsigned | GModScanner.cpp:141-148 | `Read<T>` for an unsigned T of `width` bytes (`uintptr_t`): a value below 256^width whose little-endian encoding is exactly the bytes read. It is 0 when they cannot be read. |
| ProcessMemory.LoadInt32 | GModScanner.cpp:141-148 | `Read<int32_t>` is the two's-complement reading of the four little-endian bytes at the address. It is 0 when they cannot be read. |
| ProcessMemory.LoadInt32Read | GModScanner.cpp:141-148 | A readable `int32_t` is the signed value of the four bytes `ReadBytes` returns for its address. |
| ProcessMemory.ReadAfterPrefix | GModScanner.cpp:151-157 | A read that returns a non-zero first byte was transferred. So the bytes after a known prefix are readable, and reading them alone returns the same bytes. |
| ProcessMemory.ReadSuffix | GModScanner.cpp:151-157 | Reading the tail of a readable range returns the tail of the bytes read for the whole range. |
| Scanner.GModOffsetScanner.ReadInt32 | GModScanner.cpp:141-148 | Returns `LoadInt32` of the process, an `int32_t` in range, and 0 on a failed read. |
| Scanner.GModOffsetScanner.ReadPointer | GModScanner.cpp:141-148 | `Read<uintptr_t>`: the pointer-width little-endian value, below 2^W, and 0 on a failed read. |
| Machine.DecodeEncode | GModScanner.cpp:146 | Encoding a value below 256^n in n little-endian bytes and decoding it gives the value back. |
| Machine.EncodeDecode | GModScanner.cpp:146 | Decoding n bytes and re-encoding the value in n bytes gives the bytes back. |
| Machine.ToInt32 | GModScanner.cpp:177 | The unsigned 32-bit value taken as an `int32_t`/`int` (also line 146, where `Read<int32_t>` reinterprets four bytes): the only value in [-2^31, 2^31) congruent to it modulo 2^32. |
| Machine.Wrap | GModScanner.cpp:246 | `uintptr_t` arithmetic: the result is below 2^W, congruent to the exact sum, and equal to it when no wrap occurs. |
| Scanner.GModOffsetScanner.FindPattern | GModScanner.cpp:185-215 | Returns exactly the `FindResult` of the compiled pattern over the module. A non-zero result lies inside the module. The `uintptr_t` sum `moduleBase + offset + i` and the `size_t` step `offset += chunkSize` are computed modulo 2^W, and the session invariant proves that neither wraps. |
| Matcher.FindResult | GModScanner.cpp:192-214 | What `FindPattern` returns for a compiled pattern. A non-zero result lies in the module and names a position that is examined and matches. When no position matches, the result is 0. |
| Scanner.ScanChunk | GModScanner.cpp:197-211 | The scan of one chunk returns the first position below the inner bound at which the pattern matches. When it returns none, no position below the bound matches. |
| Scanner.MatchesChunkAt | GModScanner.cpp:199-207 | The innermost loop: `found` holds exactly when every token is -1 or equal to the chunk's byte. |
| Matcher.FindResultIsFirstHit | GModScanner.cpp:192-214 | For a module not based at 0, the result is 0 exactly when no examined position matches. A non-zero result lies in the module, names an examined matching position, and no earlier examined position matches. |
| Matcher.FirstMatchInChunk | GModScanner.cpp:208-210 | The first match found in a chunk, after no hit in the earlier chunks, is the address `FindPattern` reports. |
| Matcher.ChunkScanned | GModScanner.cpp:192-211 | A chunk scanned without a match leaves no hit below the next chunk. |
| Matcher.FirstHitFrom | GModScanner.cpp:192-211 | The first examined matching position at or after p: it is a hit, no hit lies between p and it, and when there is none no hit lies at or after p. |
| Matcher.ChunkLength | GModScanner.cpp:194 | `readSize` is positive, at most 1 MiB, stays inside the module, and is short only for the last chunk. |
| Matcher.ChunkPartition | GModScanner.cpp:192-194 | The chunks at multiples of 0x100000 partition the module: each offset lies in exactly one chunk. |
| Matcher.HitInChunk | GModScanner.cpp:197-210 | Position i of the chunk at `offset` is a hit exactly when i is below the inner bound and the pattern matches the chunk there. |
| Matcher.HitMatchesMemory | GModScanner.cpp:195-207 | In a readable chunk, a reported hit matches memory itself: every token is -1 or the byte at base + p + j. |
| Matcher.UnreadableChunkMatchesZeros | GModScanner.cpp:195-207 | A chunk that cannot be read reads as zeros. A pattern of wildcards and 00 tokens then hits at every examined position of it. |
| Matcher.NoHitReachingChunkEnd | GModScanner.cpp:197 | With the strict bound, no window that reaches the end of its chunk is examined. A match straddling two chunks, or ending at a chunk's end, is never reported. |
| Matcher.MatchesAt | GModScanner.cpp:199-207 | The pattern matches at i when every token is -1 or equals the byte at i + j. A pattern that matches holds only tokens in -1..255. |
| Matcher.Examined | GModScanner.cpp:192-197 | The positions the loops examine: p is examined exactly when it lies in the module and its window of n tokens ends strictly inside p's 1 MiB chunk. |
| Matcher.HitAt | GModScanner.cpp:192-207 | A hit is an examined position whose chunk matches there. Its window ends strictly inside its chunk, and every token is in -1..255. |
| Matcher.WideTokenNeverMatches | GModScanner.cpp:202 | A token outside -1..255 (such as the 0x123 of `"123"`) equals no byte, so the pattern never matches. |
| Matcher.ChunkAt | GModScanner.cpp:195 | The buffer of `ReadBytes(moduleBase + offset, readSize)`: exactly `readSize` bytes, with `readSize` = min(1 MiB, moduleSize - offset) (`Matcher.ChunkLength`). |
| Matcher.InnerBoundAsWritten | GModScanner.cpp:197 | The source's `size_t` bound `chunk.size() - patternBytes.size()`. It is below 2^W. It is the difference when the chunk is at least as long as the pattern. Otherwise it wraps to 2^W minus the shortfall. |
| Matcher.InnerBound | GModScanner.cpp:197 | The corrected inner bound: positions below it are exactly those whose window ends strictly inside the chunk. It is 0 when the chunk is shorter than the pattern. |
| Matcher.InnerBoundAgrees | GModScanner.cpp:197 | Where the chunk is at least as long as the pattern, the source's `size_t` bound and the corrected one are equal. |
| Matcher.InnerBoundAsWrittenOverruns | GModScanner.cpp:197 | When the chunk is shorter than the pattern, the source's `size_t` bound wraps past the chunk's end, while the corrected one examines nothing. |
| Matcher.InnerBoundWrapsOnShortChunk | GModScanner.cpp:197 | A concrete case: a final chunk of 5 bytes with a pattern of 10 tokens. |
| Resolver.RelativeTarget | GModScanner.cpp:246 | `result + 7 + offset` in `uintptr_t` (also lines 291 and 332): below 2^W, and congruent modulo 2^W to the exact sum. |
| Resolver.ResolveRelative | GModScanner.cpp:245-246 | The x64 form (also lines 290-291, and 331-332 with offsets 4/8): the instruction end plus the `int32_t` read at site + dispAt, modulo 2^W. A failed read gives the instruction end itself. |
| Resolver.ResolveAbsolute | GModScanner.cpp:253 | The x86 form (also line 298): the `uintptr_t` at site + 2, whose little-endian encoding is the bytes read. A failed read gives 0. |
| Resolver.RelativeRoundTrip | GModScanner.cpp:245-246 | Resolution inverts instruction encoding: decoding the displacement an assembler emits for a target within ±2 GiB of the site and adding it to the instruction end gives the target. |
| Resolver.NegativeDisplacementMovesBackward | GModScanner.cpp:246 | The `int32_t` is sign-extended: a negative displacement lands that many bytes before the instruction end. |
| Resolver.PositiveDisplacementMovesForward | GModScanner.cpp:246 | A non-negative displacement lands that many bytes after the instruction end, absent wrap-around. |
| Resolver.DisplacementWrapsBelowZero | GModScanner.cpp:246 | A displacement pointing below address 0 wraps to the top of the 2^W address space. |
| Resolver.ResolveAbsoluteAfterOpcode | GModScanner.cpp:253 | On x86: over an opcode whose first byte is non-zero, followed by the encoding of addr, reading the pointer right after the opcode gives addr. |
| Resolver.ResolveRelativeAfterOpcode | GModScanner.cpp:245-246 | Over an opcode whose first byte is non-zero, followed by the displacement that reaches dest, reading the displacement right after the opcode and adding it to the instruction end gives dest. |
| Resolver.Resolve | GModScanner.cpp:243-256 | The address a match site resolves to. It is below 2^W. Each encoding is stated by `Resolver.ResolveRelative` and `Resolver.ResolveAbsolute`. |
| Resolver.RelativeExamples | GModScanner.cpp:245-246 | Worked examples: bytes 20 00 00 00 resolve 0x1000 + 7 to 0x1027, and F0 FF FF FF is -16. With the view matrix's anchor 8 (lines 331-332), bytes 20 00 00 00 resolve 0x1000 + 8 to 0x1028. |
| Resolver.FindFrom | GModScanner.cpp:241 | `find` from i: the first occurrence at or after i, or none when the text does not occur from i on. |
| Resolver.FindZeroIsPrefix | GModScanner.cpp:241 | `pattern.find(t) == 0` holds exactly when the pattern text starts with t. |
| Targets.Is64BitPattern | GModScanner.cpp:241 | The `is64bit` test: for the entity list, the text starts with "48" or "4C"; for the local player (line 286), it starts with "48". The view matrix has no test. |
| Targets.EncodingFor | GModScanner.cpp:241-253 | Entity list: patterns starting with "48" or "4C" take the x64 form, the others the x86 form. Local player (lines 286-298): only "48". View matrix (lines 331-332): always site + 8 + int32 at site + 4. |
| Targets.ListEncodings | GModScanner.cpp:223-232 | In the scanner's own lists, entity-list signatures 1-4 and local-player signatures 1-3 (lines 270-278) are resolved in the x86 form, the rest in the x64 form. |
| Targets.MovEaxOperandReadOneByteLate | GModScanner.cpp:226 | For the `A1` (mov eax, moffs32) signature, the operand starts at site + 1 but the pointer is read at site + 2 (line 253). Over bytes A1 78 56 34 12 8B the x86 build resolves 0x8B123456, not the operand 0x12345678. |
| Targets.SignaturesEndInByteToken | GModScanner.cpp:225-231 | Every signature of the three lists (also lines 272-277 and 317-322) ends in a two-digit byte token, not a wildcard. |
| Targets.EntityListPrefixes | GModScanner.cpp:225-231 | Entity-list signature 2 is the only one starting with `A1`. Signatures 1, 3 and 4 are the only ones starting with `8B 0D` or `8B 15`. |
| Targets.LocalPlayerPrefixes | GModScanner.cpp:272-277 | Local-player signature 2 is the only one starting with `A1`. Signatures 1 and 3 are the only ones starting with `8B 0D` or `8B 15`. |
| Targets.ViewMatrixPrefixes | GModScanner.cpp:317-322 | View-matrix signatures 2 and 4 are the only ones starting with `0F 10 05`. |
| Targets.IntendedEncodingFor | GModScanner.cpp:241-253 | The encoding the matched instruction calls for on each build (also lines 286-298 and 331-332). The REX-prefixed signatures, the ones the `is64bit` test accepts, keep the scanner's encoding. |
| Targets.IntendedEncodingsDiffer | GModScanner.cpp:241-253 | Build by build, where the encoding the instruction calls for differs from the one the scanner uses (also lines 286-298 and 331-332). On x86: exactly at the `A1` signatures and at every view-matrix signature. On x64: exactly at the `A1` and `8B 0D`/`8B 15` signatures (entity list 1-4, local player 1-3) and at the `0F 10 05` view-matrix signatures (2 and 4). |
| Targets.MovEaxOperandResolved | GModScanner.cpp:226 | Corrected x86 resolution: over the bytes A1 followed by the encoding of addr, reading the pointer at site + 1 gives addr. |
| Targets.MovupsDisplacementResolved | GModScanner.cpp:318 | Corrected x64 resolution: over the bytes 0F 10 05 followed by the displacement that reaches dest, reading it at site + 3 and adding it to site + 7 gives dest. |
| Targets.ViewMatrixAbsoluteResolved | GModScanner.cpp:331-332 | Corrected x86 resolution: over the bytes of movss/movups xmm, [addr] (F3 0F 10 with ModRM 05 or 0D, or 0F 10 05) followed by the encoding of addr, reading the address right after the opcode gives addr. |
| Targets.MovRipRelativeResolved | GModScanner.cpp:253 | Corrected x64 resolution: over the bytes 8B 0D/8B 15 followed by the displacement that reaches dest, reading it at site + 2 and adding it to site + 6 gives dest. |
| Targets.ViewMatrixReadAsRelativeOnX86 | GModScanner.cpp:331-332 | For signature `F3 0F 10 05 …` (line 317) on x86, the scanner adds the 32-bit value at site + 4 to site + 8. Over bytes F3 0F 10 05 00 10 00 00 it resolves site + 8 + 0x1000, while the instruction refers to address 0x1000. |
| Targets.MovEcxReadAsPointerOnX64 | GModScanner.cpp:253 | For signature `8B 0D …` (line 225) on x64, the scanner reads an 8-byte pointer at site + 2. Over bytes 8B 0D 20 00 00 00 8B 01 FF 50 it resolves 0x50FF018B00000020, while mov ecx, [rip + disp32] refers to site + 6 + 0x20. |
| Targets.MovupsDisplacementReadOneByteLate | GModScanner.cpp:331-332 | For signature `0F 10 05 …` (line 318) on x64, the scanner reads the displacement at site + 4 and adds it to site + 8. Over bytes 0F 10 05 20 00 00 00 0F 11 it resolves site + 8 + 0x0F000000, while the instruction refers to site + 7 + 0x20. |
| Scanner.FirstResolved | GModScanner.cpp:234-262 | What a Scan function returns for its list: the resolution of the first pattern that hits, or 0. The result is below 2^W. Its meaning is stated by `Scanner.FirstHitDecides` and `Scanner.NoHitGivesZero`. |
| Scanner.FirstNonZero | GModScanner.cpp:234-238 | The first index with a non-zero `FindPattern` result: all entries before it are 0, and when there is none all entries are 0. |
| Scanner.FirstHitDecides | GModScanner.cpp:234-259 | The first pattern whose `FindPattern` result is non-zero alone decides what a Scan function returns, even when that resolves to 0. Later patterns are not tried. |
| Scanner.NoHitGivesZero | GModScanner.cpp:261-262 | When no pattern of the list hits, the Scan function returns 0. |
| Scanner.GModOffsetScanner.ResolveSite | GModScanner.cpp:243-256 | Computes exactly `Resolve` of the site in the process's memory. |
| Scanner.GModOffsetScanner.ScanTarget | GModScanner.cpp:234-262 | The shared loop returns exactly `FirstResolved` of its list: patterns in list order, first hit resolved. |
| Scanner.GModOffsetScanner.ScanGModEntityList | GModScanner.cpp:218-263 | `FirstResolved` over the six entity-list signatures. |
| Scanner.GModOffsetScanner.ScanGModLocalPlayer | GModScanner.cpp:266-308 | `FirstResolved` over the five local-player signatures. |
| Scanner.GModOffsetScanner.ScanGModViewMatrix | GModScanner.cpp:311-341 | `FirstResolved` over the five view-matrix signatures. |
| Scanner.GModOffsetScanner.constructor | GModScanner.cpp:21 | No process opened (every read fails), base and size 0, and the session invariant holds. |
| Scanner.GModOffsetScanner.AttachToProcess | GModScanner.cpp:76-106 | The successful outcome: reads now go to the target's memory, and the module is unchanged. |
| Scanner.GModOffsetScanner.SetModule | GModScanner.cpp:124-125 | The successful outcome of `GetModuleInfo`: the module's base and size are stored, and the process is unchanged. |

## Behaviour of the code worth knowing

- Chunks do not overlap. A signature that straddles two 1 MiB chunks is never
  found (`Matcher.NoHitReachingChunkEnd`).
- The inner bound is strict, so a window that ends exactly at a chunk's end
  is not examined either. This is modelled as written.
- `PatternToBytes` rejects nothing (`Patterns.LenientCompile`).
  - Text that starts no number compiles to the byte 0.
  - A run of digits whose `int` value lies outside -1..255 never matches
    (`Matcher.WideTokenNeverMatches`).
  - A run whose `unsigned long` is all ones compiles to -1, the wildcard,
    which matches every byte (`Patterns.AllOnesIsWildcard`). This covers
    `FFFFFFFF`, `-1` and any run past ULONG_MAX, which saturates.
- The encoding of a matched signature is inferred from the first characters
  of its text, not recorded with it (`Targets.EncodingFor`).
- A module range that cannot be read is scanned as zeros, and can produce
  hits (`Matcher.UnreadableChunkMatchesZeros`).
- A failed read during resolution is not reported: the x64 form yields the
  instruction end and the x86 form yields 0 (`Resolver.ResolveRelative`,
  `Resolver.ResolveAbsolute`).
- On each build some signatures are resolved in a form their instruction
  does not use; see "## Findings". On x86 these are the `A1` signatures
  and every view-matrix signature. On x64 they are the `A1`, `8B 0D` and
  `8B 15` signatures and the `0F 10 05` view-matrix signatures. The Scan
  functions are modelled as written, with `Targets.EncodingFor`. The
  encodings the instructions call for are `Targets.IntendedEncodingFor`,
  per build, and are proved beside them.

## Left out

- Process and module discovery are not modelled: `ListProcesses`, the
  search for game processes and modules, and the toolhelp snapshots and
  `OpenProcess` inside `AttachToProcess` and `GetModuleInfo` (lines
  23-138). They are operating-system calls. The model keeps their successful
  outcome: `AttachToProcess` installs the target's memory, and `SetModule`
  stores the base and size `GetModuleInfo` found.
- The console output of every function is not modelled.
- `SaveResults`, `GenerateHeader`, `ShowMenu` and `main` (lines 344-621) are
  not modelled. They are file output and user interaction.
- The destructor's `CloseHandle` is not modelled.
- Partial transfers by `ReadProcessMemory` are not modelled. A request
  touching any unreadable address transfers nothing.
- The locale of `strtoul` and its `errno` are not modelled. The "C" locale's
  white space is used. `unsigned long` is 32 bits, as on Windows for both
  builds.
- Patterns.StrToUl: its contract states only the bounds of the value and of
  the end. The exact value is stated for the text that occurs in well-formed
  patterns, by `Patterns.StrToUlOfByteToken`.
- Resolver.Resolve: its own contract states only the range of the result.
  The two encodings are stated by `Resolver.ResolveRelative` and
  `Resolver.ResolveAbsolute`.
- The cursor of `PatternToBytes` can step one past the end of the text,
  after `strtoul` stops at the end. That is the past-the-end position of the
  `c_str()` array, so the loop test `current < end` stops there. The model
  ends the walk there too.
- Pattern text is a sequence of Unicode characters, while the source walks
  the bytes of a `std::string`. A non-ASCII character is one step here and
  several in the source. Every signature in the lists is ASCII, so the scan
  does not depend on this.
- The session invariant `Valid()` requires a module that ends inside the
  address space and is at least 1 MiB smaller than 2^W. `FindPattern` uses
  it to prove that its `uintptr_t` and `size_t` sums do not wrap. Larger
  modules are not modelled.
- The three Scan functions share one loop, `ScanTarget`, which is given the
  function's signature list. The source writes the same loop out three
  times.
- Concurrency is not modelled: the target process can change its memory
  between two reads.
- FindPattern, Scanner.ScanChunk and Matcher.FindResult examine no
  position of a chunk shorter than the pattern. The source's bound wraps
  there instead. When every token that lies past the chunk's end is a
  wildcard, the source can report `moduleBase + offset + i` without
  reading outside the chunk; the model returns no hit. An example is the
  pattern `AA ? ? ? ? ? ? ? ? ?` over a 5-byte module AA 00 00 00 00. No
  signature of the three lists ends in a wildcard
  (`Targets.SignaturesEndInByteToken`), so the Scan functions never meet
  this case.
- Targets.IntendedEncodingFor assumes the scanned code has the build's
  width: 32-bit on x86 and 64-bit on x64. The x64 build also lists 32-bit
  modules (`TH32CS_SNAPMODULE32`, lines 56 and 111), and several lists
  label their signatures as 32-bit Source Engine code (lines 224, 271 and
  316). For such code on the x64 build, the intended resolution would be a
  4-byte absolute read (at +2 for `8B 0D`/`8B 15`, +1 for `A1`, +4 or +3
  for the view matrix). `Resolver.Encoding` has no 4-byte absolute form
  on x64, so this is not modelled.

## Findings

| source | as written | input that shows it | evidently intended | confidence | as-written member | corrected member |
|---|---|---|---|---|---|---|
| GModScanner.cpp:197 | `i < chunk.size() - patternBytes.size()` is a `size_t` subtraction. When the chunk is shorter than a pattern whose last token is a byte, as every signature's is (`Targets.SignaturesEndInByteToken`), every window runs past the chunk. The test at line 202 then reads past the vector at the first non-wildcard token beyond the chunk's end, before any window can be reported | A final chunk of 5 bytes A1 00 00 00 00 and the signature `A1 ? ? ? ? 8B 14 B8 85 D2` (line 226): the bound wraps to 2^W - 5, and at i = 0 line 202 compares `chunk[0]`, skips the four wildcards and reads `chunk[5]` of a 5-byte vector | A chunk shorter than the pattern examines no position | not executed | Matcher.InnerBoundAsWrittenOverruns | Matcher.InnerBound |
| GModScanner.cpp:253 | On the x86 build, the pointer form reads at `result + 2` for every signature, including `A1 ? ? ? ?` (lines 226 and 273), which is `mov eax, [addr]` with its address at +1 | Bytes A1 78 56 34 12 8B at the site: the scanner resolves 0x8B123456, while the instruction refers to 0x12345678 | On x86, read the pointer at `result + 1` for the `A1` signatures | not executed | Targets.MovEaxOperandReadOneByteLate | Targets.MovEaxOperandResolved |
| GModScanner.cpp:331-332 | On the x64 build, the view matrix is always resolved as `result + 8 + int32 @ result + 4`, including `0F 10 05 ? ? ? ?` (lines 318 and 321), which is movups without the `F3` prefix, with its displacement at +3 and its end at +7 | Bytes 0F 10 05 20 00 00 00 0F 11 at the site: the x64 build resolves site + 8 + 0x0F000000, while the instruction refers to site + 7 + 0x20 | On x64, resolve the `0F 10 05` signatures as `result + 7 + int32 @ result + 3` | not executed | Targets.MovupsDisplacementReadOneByteLate | Targets.MovupsDisplacementResolved |
| GModScanner.cpp:331-332 | On the x86 build, every view-matrix signature (lines 317-322) is resolved as `result + 8 + int32 @ result + 4`. In 32-bit code, ModRM 05/0D (mod 00, r/m 101) is an absolute disp32, so the instruction holds the address itself (Intel SDM Vol. 2, section 2.2.1.6) | Bytes F3 0F 10 05 00 10 00 00 at the site: the x86 build resolves site + 8 + 0x1000, while the instruction refers to address 0x1000 | On x86, read the 32-bit address at `result + 4`, or at `result + 3` for the `0F 10 05` signatures | not executed | Targets.ViewMatrixReadAsRelativeOnX86 | Targets.ViewMatrixAbsoluteResolved |
| GModScanner.cpp:253 | On the x64 build, the `8B 0D`/`8B 15` signatures (lines 225, 227-228, 272 and 274) take the pointer form, reading 8 bytes at `result + 2`. In 64-bit code these are mov ecx/edx, [rip + disp32] (Intel SDM Vol. 2, section 2.2.1.6) | Bytes 8B 0D 20 00 00 00 8B 01 FF 50 at the site: the x64 build resolves 0x50FF018B00000020, while the instruction refers to site + 6 + 0x20 | When the scanned code is 64-bit, as the model assumes for the x64 build, resolve them as `result + 6 + int32 @ result + 2`. For a 32-bit module scanned by the x64 build, a 4-byte read at `result + 2` would be meant instead, which the model does not describe | not executed | Targets.MovEcxReadAsPointerOnX64 | Targets.MovRipRelativeResolved |
