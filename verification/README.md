# PDP-11/70 core: a model and its theorems

The repository is a C emulator of the PDP-11/70. This project models three parts of it in Dafny and proves what
they are for.

- **FP11-C arithmetic** (`Fp*.dfy`). The 56-bit fraction in two 32-bit halves, the shift ladders, the bit-serial
  multiplier and divider and the shared rounding tail are methods over `Fpac(h, l)`. Each is proved equal to a
  function of natural numbers, and the theorems about those functions speak of exact real numbers: `FpNumber` says
  what number a 64-bit word stands for and what it is for one to hold a real rounded once, without reference to any
  of the arithmetic, and `FpApi` states each operation on words through it.
- **The CPU step machine** (`Kt11`, `Psw`, `Cpu`, `VirtualMemory`, `Stack`, `Recovery`, `Operands`, `Stages`,
  `Instruction`, `Faults`, `Traps`, `Eis`, `ShiftOps`, `Pirq`, `Interrupts`, `Scheduler`). `Cpu.Cpu` is a class with the
  registers, banks, mapping registers and memory array of the C struct, fixed to the 11/70; the unwinding `longjmp`
  of a fault is an explicit `Done | Abort(vec)` outcome. `Stages` says of an instruction, from the state before it,
  where memory management stops it and what it leaves otherwise. Banking is related to a flat register file,
  relocation to physical cells, EIS shifts to one-bit shifts, and the idle skip to ticking.
- **Devices and cache** (`Csr`, `Clk`, `Console`, `Rk11`, `Rp11`, `Rl11`, `Tm11`, `TapeImage`, `TapeRuns`, `Unibus`,
  `Rx11`, `Cache`, `Bus`). One class per controller, updated in place. A controller's bit of the C `int_req` word is its
  `pending` field, and `Bus.Peripherals.Requests` collects them for the arbiter.

`Words`, `Bytes`, `Arith` and `Memory` are shared. A method is proved against a function of the old state, or states the
property outright; the lemmas about those functions are the results.

Four claims that hold only under a condition, with the exact condition and a case outside it:

- MMR1 is described as preserving the faulting instruction's register deltas (`src/core/cpu/cpu.c:387-392`). In
  mode 5 the pointer is read before the step is logged, so an abort there loses it. `Instruction.Execute` states
  recovery with exactly that exception, `Stages.LosesIff` gives the condition on the state before the instruction,
  and `Instruction.LoseStep` runs one that fails.
- The cache's answers are called insensitive to the replacement policy for localized access
  (`src/core/cache/cache.h:12-14`). `Cache.PolicyInsensitiveIff` says for which traces they are, and
  `Cache.ThirdBlockMatters` shows one for which they are not.
- A pending request stands for a done and enabled device, but on the RX11 only until a command is launched over it
  (`src/core/devices/rx11.c:175-199`): `Rx11.Controller.WriteControl`, `Bus.Peripherals.Run` and
  `Rx11.StaleRequest`.
- Subtraction in the guard bits is not correctly rounded for every pair; `FpSubValue.SubtractCorrectIff` gives the
  condition, which can be read off the operands before the operation, and `FpSubValue.TieExample` a pair. A sum that
  misses is one unit of its last place too large, and `FpApi.Add` says so of the words.

Two more conditions a reader should not miss. A 32-bit integer survives a load and a store in single precision only
with at most 24 significant bits. And at an abort the status word is not always that of before the instruction: ADD,
SUB and the single-operand instructions set the condition codes before they store, so a refused store pushes the new
codes.

## Model

| member | source | states |
|---|---|---|
| FpWord.FAdd | src/core/fp/fp.c:54-56 | Adding two halves with the carry is addition modulo 2^64. |
| FpWord.FSub | src/core/fp/fp.c:57-59 | Subtracting halves with the borrow is subtraction modulo 2^64. |
| FpWord.FLt | src/core/fp/fp.c:60 | The half-by-half comparison orders the 64-bit numbers. |
| FpWord.FLtAp | src/core/fp/fp.c:61-63 | The comparison with signs masked orders the numbers with bit 63 dropped. |
| FpWord.FGetFrac | src/core/fp/fp.c:64-65 | Unpacking restores the hidden bit: the fraction lies in [2^55, 2^56). |
| FpWord.FRshV | src/core/fp/fp.c:66-70 | A right shift of the halves by any count, across or within a half, is division by 2^n. |
| FpWord.FLshV | src/core/fp/fp.c:71-75 | A left shift of the halves by any count is multiplication by 2^n modulo 2^64. |
| FpWord.FLsh1 | src/core/fp/fp.c:76-78 | Doubling modulo 2^64. |
| FpWord.FRsh1 | src/core/fp/fp.c:79-81 | Halving. |
| FpWord.FLshK | src/core/fp/fp.c:82-85 | A constant left shift below 32 is multiplication modulo 2^64. |
| FpWord.FRshK | src/core/fp/fp.c:86-89 | A constant right shift below 32 is division. |
| FpValue.RoundingUnique | src/core/fp/fp.c:128-157 | Rounding a real half up, or cutting it, to 24 or 56 bits has one answer, so "correctly rounded" below pins the result. |
| FpNumber.StatusBits | src/core/fp/fp.c:23-34 | Bits 5 to 10 of the status register: truncation, long integers, double precision, and the conversion, overflow and underflow traps. |
| FpNumber.NumberRead | src/core/fp/fp.c:99-105 | Unpacking keeps the number a 64-bit word stands for, read straight off its sign (bit 63), exponent (62:55) and fraction (54:0, of which a single has the upper 23 bits). |
| FpNumber.NumberOf | src/core/fp/fp.c:107-109 | Packing gives a word that stands for the value of the halves. |
| FpNumber.NearestNumber | src/core/fp/fp.c:128-157 | What "rounded once" means for the word delivered: its number is within half a unit of its last place of the exact one, or less than a unit short of it under truncation. |
| FpNumber.RoundsAsDelivered | src/core/fp/fp.c:107-157 | A routine result is correctly rounded just when the word it packs to is: sign, exponent field, fraction, V and exception code. |
| FpPack.RoundUp | src/core/fp/fp.c:131-141 | Adding half of the last place and renormalising on the carry gives the rounded fraction and exponent. |
| FpPack.RoundAndPack | src/core/fp/fp.c:128-157 | The packed word, V and exception code for every guarded fraction, exponent, rounding and trap setting. |
| FpPack.RoundPackCorrect | src/core/fp/fp.c:128-157 | A guarded fraction that was cut from an exact real packs to that real rounded once, even if it was doubled after the cut. |
| FpPack.RoundPackDelivers | src/core/fp/fp.c:116-157 | Exponents 1 to 255 deliver the fraction; outside, V and the code or zero, by the trap enables. |
| FpMul.FracMulFp11 | src/core/fp/fp.c:250-283 | All three multiplier paths give floor(8*F1*F2 / 2^56). |
| FpMul.HighHalfOnly | src/core/fp/fp.c:256-263 | The 24-by-24 path gives floor(h * multiplicand / 2^24). |
| FpMul.LowHalf | src/core/fp/fp.c:265-273 | The 32 low multiplier bits give floor(l * multiplicand / 2^32). |
| FpMul.HighHalf | src/core/fp/fp.c:274-280 | From there, or from nothing, the 24 high bits give the floor for the whole multiplier. |
| FpMul.MulFp11 | src/core/fp/fp.c:286-304 | The multiply routine computes the product specification for all operands, zeros included. |
| FpMul.MulCorrectlyRounded | src/core/fp/fp.c:250-304 | The result is the exact product rounded once, half up or truncated under FPS_T; cutting before the left shift costs nothing. |
| FpMul.MulCommutes | src/core/fp/fp.c:250-304 | The asymmetric multiplier does not show: operand order changes no bit, flag or code. |
| FpDiv.DivideFractions | src/core/fp/fp.c:322-339 | The restoring loop, with its early exit and left justification, gives the quotient of the fractions to 59 (double) or 27 (single) bits. |
| FpDiv.LeftJustify | src/core/fp/fp.c:337-339 | Stopping when the remainder is zero and shifting equals running the loop to its end. |
| FpDiv.DivFp11 | src/core/fp/fp.c:307-345 | The divide routine computes the quotient specification for every divisor with a nonzero exponent. |
| FpDiv.DivCorrectlyRounded | src/core/fp/fp.c:307-345 | The result is the exact quotient rounded once, half up or truncated. |
| FpAdd.NormaliseByLadder | src/core/fp/fp.c:215-232 | The 24/12/6 ladder and its single steps end in the normalised fraction, as shifting by ones does. |
| FpAdd.NormaliseByOnes | src/core/fp/fp.c:229-232 | Single shifts reach the same normal form. |
| FpAdd.NormaliseExact | src/core/fp/fp.c:215-232 | Normalising loses no bit: fraction times 2^exponent is unchanged. |
| FpAdd.AddFp11 | src/core/fp/fp.c:177-246 | The add routine computes the sum specification for all operands: zeros, the magnitude swap, the 60-place shortcut, both signs. |
| FpAdd.AddCommutes | src/core/fp/fp.c:177-246 | Neither the magnitude swap nor a tie of magnitudes makes operand order visible. |
| FpAddValue.AddCorrectlyRounded | src/core/fp/fp.c:177-246 | Sums of one sign, or with a zero operand, are the exact sum rounded once at any exponent difference. |
| FpSubValue.SubtractCorrectIff | src/core/fp/fp.c:197-246 | A difference is the exact one rounded once if and only if alignment dropped no bit or the difference is off a rounding boundary; otherwise it is one unit of its last place too large; exact cancellation gives zero. |
| FpSubValue.CloseSubtractCorrect | src/core/fp/fp.c:197-246 | With exponents at most three apart a difference is always correctly rounded. |
| FpSubValue.SubtractWithinThreeQuarters | src/core/fp/fp.c:177-246 | In rounding mode every difference, the 60-place shortcut included, errs by less than 3/4 of the last place. |
| FpSubValue.CancellationExact | src/core/fp/fp.c:206-246 | Exponents at most one apart and a normalising shift: the exact difference, with no rounding. |
| FpSubValue.TieExample | src/core/fp/fp.c:197-246 | 8 - (1/2 + 5*2^-56) is not correctly rounded: the dropped bit makes a tie of a value just below one. |
| FpMod.ModFp11 | src/core/fp/fp.c:348-406 | The modulo routine computes the split specification for all operands. |
| FpMod.SplitProduct | src/core/fp/fp.c:368-405 | Masking, packing and normalising the two parts, in every branch on the exponent. |
| FpMod.MasksPartition | src/core/fp/fp.c:377-404 | A mask and its complement partition the bits of a word. |
| FpMod.AndHalves | src/core/fp/fp.c:377-379 | Masking both halves takes the remainder of the whole fraction. |
| FpModValue.ModSplitsExactly | src/core/fp/fp.c:348-406 | Below 2^56 (2^24 in single) the integer part is the product truncated toward zero, packed exactly; in single, integer plus unrounded fraction is the product. |
| FpModValue.ModAllInteger | src/core/fp/fp.c:372-375 | From there on the product is all integer: truncated to working precision, with no fraction. |
| FpCompare.CompareDecidesOrder | src/core/fp/fp.c:452-476 | Z if and only if the values are equal, N if and only if the source is less, dirty and negative zeros counting as zero. |
| FpApi.ComparePreorder | src/core/fp/fp.c:452-476 | Compare is a total preorder across calls. |
| FpConvert.RoundToSingle | src/core/fp/fp.c:160-174 | Rounding a double with a nonzero exponent field to single delivers its value rounded once to 24 bits, overflow included. |
| FpConvert.RoundZeroIff | src/core/fp/fp.c:160-174 | A pattern with a zero exponent field still stands for zero afterwards, if and only if its fraction does not carry into the exponent. |
| FpConvert.LoadInt | src/core/fp/fp.c:486-509 | The integer load with its shift loop computes the load specification. |
| FpConvert.LoadRounds | src/core/fp/fp.c:486-509 | Every integer is loaded correctly rounded: exactly where it fits, and in single precision half up in magnitude or truncated. |
| FpConvert.StoreTruncates | src/core/fp/fp.c:511-554 | A store gives truncation toward zero, and 0 with C set exactly when that does not fit. |
| FpConvert.WordRoundTrip | src/core/fp/fp.c:486-554 | Every 16-bit integer survives load and store under any settings, even changed between. |
| FpConvert.LongRoundTripIff | src/core/fp/fp.c:486-554 | A 32-bit integer survives if and only if the setting is double or it has at most 24 significant bits. |
| FpApi.Add | src/core/fp/fp.c:410-418 | On 64-bit words: the sum of the numbers they stand for, rounded once, if and only if it does not slip; a sum that slips is one unit of the last place too large. |
| FpApi.Mul | src/core/fp/fp.c:420-428 | On 64-bit words: the product of the numbers they stand for, rounded once, whatever the words. |
| FpApi.Div | src/core/fp/fp.c:430-438 | On 64-bit words: the quotient of the numbers they stand for, rounded once, for every divisor with a nonzero exponent and every dividend. |
| FpApi.Mod | src/core/fp/fp.c:440-450 | On 64-bit words: the product of the numbers they stand for split as `Splits` says, into an exact integer part and what is left of it, for every pair. |
| FpApi.ToFacClean | src/core/fp/fp.c:99-109 | Unpacked operands meet the value theorems: singles have no low half, the value is the number the word stands for, and doubles pack back unchanged. |
| FpApi.AddMulCommute | src/core/fp/fp.c:410-428 | Add and multiply of any two 64-bit operands agree bit for bit in either order, V and code included. |
| FpApi.AddRoundsIff | src/core/fp/fp.c:177-246 | For every pair of operands, zeros of every kind included: the sum is the exact one rounded once if and only if it does not slip, and is one unit too large if it does. |
| FpApi.MulRounds | src/core/fp/fp.c:286-304 | For every pair of operands the product is rounded once; a zero of any kind gives the true zero. |
| FpApi.DivRounds | src/core/fp/fp.c:307-345 | For every dividend the quotient is rounded once; a zero dividend, however dirty its fraction, gives the true zero with V clear and no code. |
| FpApi.ModSplits | src/core/fp/fp.c:348-406 | Every product is split: below 2^56 (2^24 in single) exactly at the point, from there on all integer, and a zero of any kind into two true zeros. |
| FpApi.CompareWords | src/core/fp/fp.c:452-476 | On 64-bit words: Z if and only if the numbers are equal, N if and only if the source is the less. |
| FpApi.LoadsInteger | src/core/fp/fp.c:486-509 | LDCif delivers every integer, zero included, as the word of that number rounded once. |
| FpApi.StoresInteger | src/core/fp/fp.c:511-554 | STCfi stores the number of any word truncated toward zero when it fits, and otherwise zero with C set and the conversion code if that trap is enabled. |
| FpApi.RoundsToSingle | src/core/fp/fp.c:478-484 | A double with a nonzero exponent field becomes the single nearest to it, half up, out of range as any result. |
| Kt11.FlagsNeverTranslate | src/core/cpu/cpu.c:658-699 | Setting the accessed and written flags of any page changes no translation of any address. |
| Kt11.AccessKeepsTranslations | src/core/cpu/cpu.c:658-699 | A completed access leaves every other translation, in any mode, space and direction, as it was. |
| Kt11.WritableIsReadable | src/core/cpu/cpu.c:634-647 | What may be written may be read, at the same physical address. |
| Kt11.WindowIff | src/core/cpu/cpu.c:658-683 | A mapped access succeeds if and only if the access field is 4 to 6, or 1 or 2 for a read, and its block is in the window of the length and direction fields. |
| Kt11.WindowBytes | src/core/cpu/cpu.c:664-697 | Every reached offset lies in that window, and under 22-bit relocation is contiguous from the page base. |
| Kt11.Regimes | src/core/cpu/cpu.c:684-698 | The physical address in each regime: the address itself below 160000 with management off, base plus offset with 22 bits, and with 18 bits the sum modulo 2^18, from 760000 on moved to the top. |
| Kt11.SharedIff | src/core/cpu/cpu.c:684-692 | Two accesses share a physical address if and only if base plus offset agree in the 18 or 22 bits in use. |
| Kt11.PagesApart | src/core/cpu/cpu.c:648-662 | Two accesses use one page register if and only if mode, space in use and eighth of the address space agree. |
| Kt11.ViolationBits | src/core/cpu/cpu.c:634-670 | The error bits of a refused access say why: not resident, length, read only. |
| Kt11.FrozenIff | src/core/cpu/cpu.c:612-615 | MMR0 holds a fault just when one of its bits 15 to 13 is set. |
| Kt11.DescriptorFields | src/core/cpu/cpu.c:621-625 | The layout of a page descriptor: every bit of it. |
| Kt11.MarkedFlags | src/core/cpu/cpu.c:679-682 | A completed access sets accessed and, if a write, written, and moves no other bit of the descriptor. |
| Kt11.FaultCaptured | src/core/cpu/cpu.c:671-677 | A refused access puts page number and error into MMR0 and keeps its other bits. |
| Kt11.FirstFaultStands | src/core/cpu/cpu.c:671-677 | Over any run of accesses MMR0 records the first refusal, as if it had been the only access, and later ones never. |
| Kt11.PlaceIff | src/core/cpu/cpu.c:701-732 | I/O page from 17760000 on, memory below what is installed, vector 250 for management and 4 for an odd or absent address. |
| Kt11.LayoutDecides | src/core/cpu/cpu.c:658-699 | Enable, MMR3, the PARs and three fields of each PDR decide where every access lands. |
| Kt11.AccessKeepsLayout | src/core/cpu/cpu.c:658-699 | No access changes these: a completed one sets flags, a refused one only records the fault. |
| Psw.MaskPsw | src/core/cpu/cpu.c:586-590 | Masking clears bits 10 to 8 and keeps every other field; a word already masked is unchanged. |
| Psw.WithPreviousMode | src/core/cpu/cpu.c:1498-1499 | Recording the previous mode keeps every other field of the status word. |
| Psw.WithCodes | src/core/cpu/cpu.c:1042-1061 | Setting condition codes keeps every other field, the T bit among them. |
| Psw.WithTraceOf | src/core/cpu/cpu.c:885-891 | A store to the status word takes every field of the value but the T bit, which stays. |
| Psw.WordOfFields | src/core/cpu/cpu.c:586-606 | A status word is its fields in their places and nothing else. |
| Psw.FieldsOfWord | src/core/cpu/cpu.c:586-606 | Any values of the fields make a word that has them. |
| Psw.CodesAre | src/core/cpu/cpu.c:1042-1061 | N, Z, V and C are bits 3, 2, 1 and 0. |
| Memory.WriteWord | src/core/memory/memory.c:13-15 | A word store changes that word and nothing else. |
| Memory.ReadByte | src/core/memory/memory.c:17-20 | Little-endian byte reads. |
| Memory.WriteByte | src/core/memory/memory.c:22-31 | A byte store changes that byte of its word and nothing else. |
| Memory.StoreReplacesBytes | src/core/memory/memory.c:9-31 | After a byte or word store every byte of memory is the new data if covered and the old otherwise. |
| Pirq.HighestPirLevel | src/core/cpu/cpu.c:530-537 | The loop finds the highest requested level. |
| Pirq.EchoIsTheLevel | src/core/cpu/cpu.c:576-581 | The register reads back the level the arbiter acts on, in both echo fields, and a rewrite keeps it. |
| Pirq.RequestBits | src/core/cpu/cpu.c:530-537 | Requests of levels 1 to 7 are bits 9 to 15. |
| Cpu.ViewOfFlat | src/core/cpu/cpu.c:586-606 | The eight active registers are a view of a flat file of two register sets, four stack pointers and the PC. |
| Cpu.FlatAfterPut | src/core/cpu/cpu.c:586-606 | Writing an active register is writing that register of the flat file. |
| Cpu.Cpu.constructor | src/core/cpu/cpu.c:131-159 | Power-up: all banks zero, management off, status word zero. |
| Cpu.Cpu.ExchangeSets | src/core/cpu/cpu.c:594-599 | The swap loop parks one register set and brings in the other. |
| Cpu.Cpu.PutPsw | src/core/cpu/cpu.c:586-606 | Loading any status word changes no register of the flat file. |
| Cpu.Cpu.Relocate | src/core/cpu/cpu.c:658-699 | Translation or abort, with the flags set or the first fault captured in MMR0 once. |
| Cpu.Cpu.IoRead | src/core/cpu/cpu.c:831-875 | The status, request, error, stack limit, mapping and page registers read back their state. |
| Cpu.Cpu.IoWrite | src/core/cpu/cpu.c:878-935 | Each register takes its masked value; MMR1 and MMR2 refuse; a status word store keeps T and never disturbs the flat file. |
| Cpu.Cpu.PutPirq | src/core/cpu/cpu.c:576-581 | The program request register after a write. |
| Cpu.Cpu.ReadWordGen | src/core/cpu/cpu.c:943-955 | A word read returns the translated cell or the register there, or faults where it must. |
| Cpu.Cpu.WriteWordMode | src/core/cpu/cpu.c:957-969 | A word write changes the translated cell and nothing else, stores to the register there, or faults changing nothing but the fault registers. |
| Cpu.Cpu.ReadByteAt | src/core/cpu/cpu.c:989-998 | The byte read, from a cell or from half a register. |
| Cpu.Cpu.WriteByteAt | src/core/cpu/cpu.c:1000-1012 | A byte write changes that byte, or faults; into a status or request register it writes back the register with the byte merged in. |
| Cpu.Cpu.IoWriteByte | src/core/cpu/cpu.c:1002-1007 | In the I/O page a byte write is a read of the register, a merge and a write of the whole. |
| Cpu.PageRegisters | src/core/cpu/cpu.c:734-752 | The page registers an access goes by are at the I/O addresses of their mode, space and page. |
| Cpu.StoresOneRegister | src/core/cpu/cpu.c:878-929 | A word written to a mapping register changes that one and no other. |
| Cpu.RegisterAddresses | src/core/cpu/cpu.c:831-875 | The processor registers by physical address. |
| Cpu.MaskMmr0 | src/core/cpu/cpu.c:896 | MMR0 takes every bit but 11 and 10. |
| Cpu.MaskMmr3 | src/core/cpu/cpu.c:897 | MMR3 takes the relocation width, the map enable and the three data-space enables. |
| Cpu.MaskPdr | src/core/cpu/cpu.c:918-926 | A write to a descriptor keeps its three fields and clears the accessed and written flags. |
| VirtualMemory.PlacesStand | src/core/cpu/cpu.c:658-699 | After an access that reached memory, every other access lands where it would have before. |
| VirtualMemory.WordsAreAligned | src/core/cpu/cpu.c:945-950 | A word access reaches an even physical address. |
| VirtualMemory.PlacesKeepOffset | src/core/cpu/cpu.c:658-699 | Relocation, the 18-bit fold included, keeps an access at its place within a 64-byte block. |
| VirtualMemory.NeighboursApart | src/core/cpu/cpu.c:658-699 | Two neighbouring words never share a physical cell, even on different pages. |
| VirtualMemory.LoadAfterStore | src/core/memory/memory.c:9-31 | A load after a store sees new data byte for byte where the store covered it and old data elsewhere. |
| VirtualMemory.StoreThenLoad | src/core/cpu/cpu.c:943-1012 | Virtual memory obeys read-over-write for any two modes, spaces and widths. |
| Stack.CheckStackLimit | src/core/cpu/cpu.c:501-526 | Yellow zone arms a trap; red zone aborts with the kernel stack pointer of the flat file at 4. |
| Stack.ZonesAre | src/core/cpu/cpu.c:501-526 | The zones by address: clear from the limit plus 400 (octal) on, yellow down to the limit plus 340, red below; outside kernel mode and in the pushes of a trap always clear. |
| Stack.PushWord | src/core/cpu/cpu.c:1371-1375 | A push stores one word at the lowered stack pointer, and completes if that is in installed memory and not in the red zone. |
| Stack.PopWord | src/core/cpu/cpu.c:1377-1381 | A pop returns the word and raises the pointer, or changes nothing. |
| Stack.PushedWordPops | src/core/cpu/cpu.c:1371-1381 | A word pushed lies where a pop of the same mode finds it. |
| Recovery.LogRewinds | src/core/cpu/cpu.c:393-399 | Undoing the log takes back the latest step, in either byte and even when both moved one register. |
| Recovery.StepAccounts | src/core/cpu/cpu.c:393-471 | Resolving an operand in any mode keeps the log an exact account of R0 to R6. |
| Recovery.UnloggedStepLost | src/core/cpu/cpu.c:445-452 | A step taken but not logged stays wrong after recovery. |
| Recovery.RecoveredIff | src/core/cpu/cpu.c:2374-2380 | With MMR2 holding the instruction address, recovery is exact if and only if the log accounts for R0 to R6. |
| Recovery.SpecifierFields | src/core/cpu/cpu.c:401-403 | A specifier is its mode and its register. |
| Recovery.StepsAre | src/core/cpu/cpu.c:380-471 | How far each mode moves its register: by the operand, a byte on SP and PC counting as a word; by a word in the deferred modes; not at all in the others. |
| Recovery.PointersStayEven | src/core/cpu/cpu.c:380-384 | So the stack pointer and the PC stay word-aligned at any width. |
| Recovery.Encoded | src/core/cpu/cpu.c:386-398 | A log entry is a five-bit signed step above the register number. |
| Recovery.OrBits | src/core/cpu/cpu.c:398 | Merging entries sets each bit that either has. |
| Operands.DecodeOperand | src/core/cpu/cpu.c:401-471 | Each mode gives the operand its specifier names, steps its register once and logs it; a management abort comes if and only if an access it needs is refused (or the stack limit strikes first), and leaves registers and log untouched except the unlogged step of mode 5. |
| Operands.AlikeResolve | src/core/cpu/cpu.c:401-471 | What a specifier names, and whether resolving it is refused, depend on the mapping only through its layout. |
| Operands.ModesAre | src/core/cpu/cpu.c:401-471 | The modes by what they have to do with each other: each deferred mode takes the word operand of the plain one as its pointer, and an index is added after its word has been fetched. |
| Operands.DecrementUndoesIncrement | src/core/cpu/cpu.c:413-444 | Autodecrement after autoincrement names the same place and restores the registers. |
| Operands.SpacesApart | src/core/cpu/cpu.c:937-987 | The instruction stream goes by the instruction-space registers alone, and operands, where data space is on, by the data-space registers alone. |
| Operands.Track | src/core/cpu/cpu.c:393-399 | The log entry, skipped for the PC and while MMR0 is frozen. |
| Operands.Fetch | src/core/cpu/cpu.c:363-367 | A fetch reads instruction space and advances the PC only if it completes. |
| Instruction.ReadOperand | src/core/cpu/cpu.c:1017-1026 | A register, an immediate or memory at either width; a management abort if and only if memory management refuses the read. |
| Instruction.WriteOperand | src/core/cpu/cpu.c:1028-1039 | The register or the cell changes and nothing else; an abort changes nothing at all in the processor. |
| Instruction.Commit | src/core/cpu/cpu.c:1098-1280 | Condition codes before the store or after it: all the same if the store completes, and visible at an abort only in the first case. |
| Instruction.MoveInstruction | src/core/cpu/cpu.c:1108-1123 | MOV and MOVB in every mode: the value moved or sign-extended, codes set last, or the stage at which it stopped. |
| Instruction.DoubleInstruction | src/core/cpu/cpu.c:1098-1160 | The other double-operand instructions: source resolved and read before the destination, the result stored there and nowhere else, ADD and SUB setting the codes before the store. |
| Instruction.Combine | src/core/cpu/cpu.c:1165-1280 | Single-operand instructions and XOR: one operand resolved, read, combined and stored, codes first except in XOR. |
| Instruction.EisInstruction | src/core/cpu/cpu.c:1536-1660 | MUL, DIV, ASH and ASHC: the operand read, then the two words of the register pair and the codes, memory untouched. |
| Stages.OperandLosesIff | src/core/cpu/cpu.c:401-471 | An operand loses a step if and only if it is autodecrement-deferred on a register other than the PC and memory management refuses the word pointed at. |
| Stages.DoubleLosesIff | src/core/cpu/cpu.c:1098-1123 | Of two operands, either; the destination only if the source gets through, and from the registers the source has stepped. |
| Stages.LosesIff | src/core/cpu/cpu.c:2371-2402 | For a whole instruction the loss is decided by the registers, the mapping and memory before it. |
| Stages.ShapesAre | src/core/cpu/cpu.c:1098-1280 | The instructions by opcode: width, whether they store, and whether the codes are set before the store. |
| Stages.BetweenRegisters | src/core/cpu/cpu.c:1098-1160 | Word instructions between registers: a move copies, the others combine source and destination in that order, comparisons store nothing; the codes are those of the operands. |
| Stages.BytesBetweenRegisters | src/core/cpu/cpu.c:1028-1160 | Byte instructions between registers: low bytes in, high byte of the destination kept, but MOVB extends the sign through it. |
| Stages.OnRegister | src/core/cpu/cpu.c:1165-1280 | Single-operand instructions on a register, at either width, storing or not. |
| Stages.RegisterPair | src/core/cpu/cpu.c:1536-1660 | EIS instructions leave the first word in the register named and the second in the odd one of its pair. |
| Stages.ToMemory | src/core/cpu/cpu.c:1028-1160 | Through a register to memory: that word or byte is combined or replaced, and nothing else changes. |
| Stages.Immediate | src/core/cpu/cpu.c:414-418 | An immediate operand is the word after the instruction, or its low byte. |
| Stages.PswAt | src/core/cpu/cpu.c:1130-1280 | The status word at an abort differs at most in the codes, and only at the store of an instruction that sets them first. |
| Instruction.Execute | src/core/cpu/cpu.c:2371-2402 | Abort recovery: if MMR0 held no fault at fetch and a management abort comes, undoing MMR1 and reloading MMR2 restores R0 to R7 exactly, if and only if the stage at which the instruction stops, a function of the state before it, loses no step. The status word is then unchanged, except by an early-code instruction stopped at its store. Management aborts only at such a stage or a refused store, an instruction that meets nothing but installed memory completes, and a completed one leaves what its shape says. |
| Instruction.PointerPageFaults | src/core/cpu/cpu.c:450-456 | A state in which recovery must fail: CLR @-(R1) with the page below R1 absent. |
| Instruction.LoseStep | src/core/cpu/cpu.c:450-456 | Running it: the abort leaves registers from which recovery does not give back the old ones. |
| Faults.ExecuteOrTrap | src/core/cpu/cpu.c:2360-2402 | From abort to handler: a trap into another mode, which the state before the instruction lets complete or not, changes memory only in the two words pushed, the upper being the status word of the abort; the interrupted registers, MMR1 and MMR2 recover exactly if and only if the stage loses no step; and the status word entered is the vector's. |
| Faults.TrapFromAbort | src/core/cpu/cpu.c:2360-2402 | The trap half of it: from what the abort left to the handler. |
| Faults.TakeFault | src/core/cpu/cpu.c:2365-2366 | The trap of a fault leaves R0 to R6 of the interrupted mode as the abort left them, and pushes the status word of the abort. |
| Faults.PushesStand | src/core/cpu/cpu.c:1504-1507 | The two pushed words land in different cells, so both stand. |
| Recovery.RecoverySame | src/core/cpu/cpu.c:393-402 | Recovery depends on R0 to R6 only. |
| Traps.PushState | src/core/cpu/cpu.c:1504-1507 | The two exempt pushes of a trap, which complete where there is room. |
| Traps.DoTrap | src/core/cpu/cpu.c:1491-1516 | A trap enters with the mode, register set, priority, T bit and codes of its vector's status word and the mode trapped from as previous mode; it pushes the old status word and PC on the entered mode's stack, and of the flat file only that pointer and the PC change. It completes whenever its vector and the pushed words are in installed memory and the pointer it leaves is not in the red zone. |
| Traps.EntryPsw | src/core/cpu/cpu.c:1494-1503 | The status word a trap enters with: every field the vector's, but the previous mode. |
| Traps.InstructionComplete | src/core/cpu/cpu.c:1509 | Dispatching a trap sets bit 7 of MMR0 and no other. |
| Traps.ReturnFromTrap | src/core/cpu/cpu.c:1522-1528 | RTI and RTT pop PC and status word, RTI arming the trace trap. |
| Traps.TrapThenReturn | src/core/cpu/cpu.c:1491-1528 | A trap and return restore PC, status word and every bank, and change memory in the two pushed words only, whenever the vector and those words are in installed memory and the pointer left is not in the red zone. |
| Traps.PreviousOperand | src/core/cpu/cpu.c:1299-1309 | The word MFPx moves, in every addressing mode: for R6 the previous mode's stack pointer, whether or not the modes differ, and otherwise the word in the previous mode's space. |
| Traps.MoveFromPrevious | src/core/cpu/cpu.c:1299-1313 | MFPI and MFPD push that word on the current stack and set N, Z and V; of the flat file only the registers the operand and the push step move. |
| Traps.MoveToPrevious | src/core/cpu/cpu.c:1315-1331 | MTPI and MTPD pop a word into the previous mode's space, or for R6 its stack pointer, in every addressing mode. |
| Traps.MovePsw | src/core/cpu/cpu.c:1299-1331 | The moves between spaces set N and Z from the word, clear V and keep C and every other field. |
| Traps.MovedBack | src/core/cpu/cpu.c:1299-1331 | A word moved to the previous mode's space is the word moved back from the same operand. |
| Eis.LeftProduct | src/core/cpu/cpu.c:1592-1660 | n one-bit left shifts multiply by 2^n: the carry is the bit above the word, and the sign changed on the way if and only if the product does not fit. |
| Eis.RightQuotient | src/core/cpu/cpu.c:1592-1660 | n one-bit right shifts divide by 2^n, the carry being the last bit out. |
| Eis.Ash | src/core/cpu/cpu.c:1592-1624 | ASH equals that many one-bit shifts for all 64 codes and all operands: result, C and V. |
| Eis.Ashc | src/core/cpu/cpu.c:1626-1660 | ASHC equals that many one-bit shifts of the 32-bit pair. |
| Eis.ShiftsByCount | src/core/cpu/cpu.c:1592-1660 | The six-bit count: 0 to 31 shift left, 32 to 63 right by 64 less it. |
| ShiftOps.OpAsh | src/core/cpu/cpu.c:1592-1624 | The instruction on the register file: the count is the low six bits of the operand in any mode, the register and N, Z, V and C those of that many one-bit shifts. |
| ShiftOps.OpAshc | src/core/cpu/cpu.c:1626-1660 | The same on a register pair, odd registers included. |
| ShiftOps.ShiftPsw | src/core/cpu/cpu.c:1592-1660 | N, Z, V and C after a shift, each in its bit, and every other field kept. |
| Interrupts.HighestInt | src/core/cpu/cpu.c:562-572 | The loop finds the pending device at the highest level, lowest numbered of equals. |
| Interrupts.Arbitrate | src/core/cpu/cpu.c:2303-2333 | The grant at an instruction boundary. |
| Interrupts.GrantIsHighest | src/core/cpu/cpu.c:2303-2333 | A grant is above PSW<7:5> and maximal over devices and program requests, devices winning ties; no grant means nothing outstanding is above the priority. |
| Interrupts.DeviceGrantIff | src/core/cpu/cpu.c:540-572 | Who is granted, by the wiring: clock at level 6, disks, tape and floppy at 5, terminal at 4, exactly when. |
| Interrupts.VectoredAtMostOnce | src/core/cpu/cpu.c:2314-2325 | Over any run of raises, drops and boundaries a device is vectored at most as often as it raised a request. |
| Interrupts.RequestsAccounted | src/core/cpu/cpu.c:2314-2325 | Over any run each raise is one vectoring, one merging with a request still up, one withdrawal, or up at the end. |
| Clk.LineClock.Write | src/core/clk/clk.c:12-25 | Enable follows the program, done can only be cleared, the request follows both. |
| Clk.LineClock.Tick | src/core/clk/clk.c:27-32 | A tick sets done and raises an enabled request. |
| Console.Dl11.Input | src/core/console/console.c:18-24 | A character sets receiver done and raises an enabled request. |
| Console.Dl11.Poll | src/core/console/console.c:26-34 | Nothing before the transmit time; then done and an enabled request. |
| Console.Dl11.Read | src/core/console/console.c:36-51 | Reading the buffer takes the character and drops the request. |
| Console.Dl11.Write | src/core/console/console.c:53-89 | Only the enable is writable, enabling a done half raises its request, and a character goes out when its buffer is written. |
| Rk11.Controller.Start | src/core/devices/rk11.c:124-173 | Control reset, the commands refused with their error bit, and those taken with the exact time each completes. |
| Rk11.AcceptedIff | src/core/devices/rk11.c:128-161 | Exactly which commands are scheduled: drive 0, attached, an existing sector and cylinder, or drive reset. |
| Rk11.AddressFields | src/core/devices/rk11.c:46-52 | The layout of a disk address. |
| Rk11.Controller.Write | src/core/devices/rk11.c:214-243 | No write sets done or restarts a busy RK11; the request follows the enable. |
| Rk11.Controller.Poll | src/core/devices/rk11.c:175-179 | The RK11 completes at its time and not before. |
| Rp11.Controller.Start | src/core/devices/rp11.c:125-164 | Which RP04 functions are scheduled, for when, and which finish at once. |
| Rp11.Controller.Write | src/core/devices/rp11.c:218-266 | Only a command starts the RP04, and only controller clear abandons one. |
| Rp11.Controller.Poll | src/core/devices/rp11.c:166-170 | The RP04 completes at its time and not before. |
| Rl11.Controller.Start | src/core/devices/rl11.c:132-199 | RL11 commands that finish at once, with their error bits, and those scheduled, with their time. |
| Rl11.Controller.WriteCommand | src/core/devices/rl11.c:223-245 | A write with done set re-evaluates the request; with done clear it drops it and goes. |
| Rl11.Controller.Poll | src/core/devices/rl11.c:256-260 | The RL11 completes at its time and not before, adding no error. |
| Tm11.Drive.Start | src/core/devices/tm11.c:230-248 | A command is refused at once with no tape or on a protected one, and otherwise scheduled for its exact time with the status cleared. |
| Tm11.Drive.WriteCommand | src/core/devices/tm11.c:280-297 | A go to an idle controller starts the command written, no other write starts one, and only init abandons one. |
| Tm11.Drive.Poll | src/core/devices/tm11.c:214-227 | At its time and not before, the command is executed, a rewind returning the tape to its start. |
| Bus.Peripherals.AtBoundary | src/core/cpu/cpu.c:2303-2333 | A boundary grants as the arbiter decides and drops exactly the granted request. |
| Bus.Peripherals.Initialize | src/core/cpu/cpu.c:1734-1752 | RESET drops every request. |
| Bus.Peripherals.Run | src/core/cpu/cpu.c:2281-2433 | After any sequence of accesses, ticks, input, passing time, RESETs and grants: a pending CLK, TTI, TTO, RK, RP, TM or RL request implies that device is done and enabled, a pending RX request too until and only until a command is launched over it, and a device not done has its completion scheduled. The request bits between the events move only as each event can move them, the grants are those the arbiter makes of them, and each time a request went up is one vectoring, one withdrawal or its being up still. |
| Bus.RisesOnItsOwn | src/core/cpu/cpu.c:2281-2433 | A request goes up only through an access to its own device, or with time where the device completes by itself. |
| Bus.RequestsConserved | src/core/cpu/cpu.c:2303-2333 | Over any unfolding of the request bits, rises are conserved: vectored, withdrawn or still up. |
| Scheduler.NextIsLeast | src/core/cpu/cpu.c:2258-2279 | The next event is the least deadline, and there is none only when nothing is scheduled. |
| Scheduler.NothingDue | src/core/cpu/cpu.c:2228-2248 | With nothing due a service pass changes nothing. |
| Scheduler.PassDelivers | src/core/cpu/cpu.c:2228-2248 | A pass delivers everything due, once each and in order, and nothing else; what was delivered is no longer busy, and the clock is next due one period later. |
| Scheduler.Due | src/core/cpu/cpu.c:2228-2248 | What is due: the clock if its time has come, then the busy subsystems whose time has, without repetition. |
| Scheduler.SkipIsTicks | src/core/cpu/cpu.c:2340-2349 | With nothing overdue one jump to the next event reaches the state that advancing 1 ns at a time with polling reaches, whatever completions do. |
| Scheduler.SkipKeepsPace | src/core/cpu/cpu.c:2340-2349 | A skip passes no deadline and leaves nothing overdue. |
| Scheduler.SkipOnTime | src/core/cpu/cpu.c:2340-2349 | A skip delivers at its own time exactly what is scheduled for the next event. |
| Scheduler.WaitsEndAlike | src/core/cpu/cpu.c:2340-2349 | A whole wait, of any number of skips, ends at the instant and in the state in which ticking first makes an interrupt grantable. |
| Scheduler.Timeline.ServiceDueEvents | src/core/cpu/cpu.c:2228-2248 | The service pass: the world after it is the world before with every due completion delivered, once each, the clock first. |
| Scheduler.Timeline.NextEventNs | src/core/cpu/cpu.c:2258-2279 | The running minimum is the next event. |
| Scheduler.Timeline.WaitStep | src/core/cpu/cpu.c:2340-2349 | The waiting branch of a step is one skip. |
| Scheduler.Timeline.TickUntil | src/core/cpu/cpu.c:2340-2349 | The loop the skip replaces. |
| Cache.Cache.Reset | src/core/cache/cache.c:5-7 | Every queue empty, no misses. |
| Cache.SameBlock | src/core/cache/cache.c:10-11 | A block is four bytes, and consecutive blocks lie in consecutive sets, of 256. |
| Cache.Cache.Read | src/core/cache/cache.c:9-25 | A read hits if and only if its tag is in its set's queue of the last two missed; a miss pushes out the older and counts. |
| Cache.Replay | src/core/cache/cache.c:5-25 | Over any trace from reset the answers are the queues' and the counter is the number of false answers. |
| Cache.HoldsLastTwoMissed | src/core/cache/cache.c:9-25 | After any trace a set holds the last two tags it missed, never one twice. |
| Cache.PolicyInsensitiveIff | src/core/cache/cache.h:10-15 | Exactly when the answers do not depend on the policy: every policy that fills invalid ways first answers as round robin, if and only if of each set that has been read three blocks only new ones and the newest are read. |
| Cache.PolicyInsensitive | src/core/cache/cache.h:10-15 | In particular on a trace touching at most two blocks of each set since reset. |
| Cache.ThirdBlockMatters | src/core/cache/cache.h:10-15 | A trace of four reads on which two policies differ. |
| Rx11.Controller.Complete | src/core/devices/rx11.c:57-76 | A command completes idle and done, with its flags and code. |
| Rx11.Controller.Transfer | src/core/devices/rx11.c:109-129 | The sector transfer, and its three refusals that move no data. |
| Rx11.Controller.FillStep | src/core/devices/rx11.c:91-98 | Filling ends with byte 128 exactly. |
| Rx11.Controller.EmptyStep | src/core/devices/rx11.c:83-90 | Emptying offers each byte once, then ends. |
| Rx11.Controller.Launch | src/core/devices/rx11.c:175-199 | What each function asks for first, and the request: untouched by a transfer, raised by a function that completes at once and is enabled. |
| Rx11.Controller.WriteControl | src/core/devices/rx11.c:168-209 | Init, go when idle, or enable only; idle if and only if done if and only if no byte is asked for. A go leaves a request that stands if and only if there was none before or the function completes at once and is enabled; no other write leaves one that does not. |
| Rx11.Controller.WriteData | src/core/devices/rx11.c:210-217 | A data write by state: fill, sector, track and transfer, or ignored; a request that stood still stands. |
| Rx11.Controller.ReadData | src/core/devices/rx11.c:154-166 | A data read takes the byte and brings up the next. |
| Rx11.Controller.ReadControl | src/core/devices/rx11.c:154-158 | A program sees the error, request, enable and done bits and no other. |
| Rx11.SectorsApart | src/core/devices/rx11.c:114 | Different sectors share no byte of the disk. |
| Rx11.DiskOrder | src/core/devices/rx11.c:114 | The disk is its tracks in order and a track its sectors in order, to the last byte. |
| Rx11.ControlBits | src/core/devices/rx11.c:15-25 | The control register bits in their places. |
| Rx11.Fill | src/core/devices/rx11.c:91-98 | A fill takes exactly 128 bytes into the buffer. |
| Rx11.Empty | src/core/devices/rx11.c:83-90 | An empty returns the buffer. |
| Rx11.SectorRoundTrip | src/core/devices/rx11.c:79-218 | FILL, WRITE(s,t), a refill, READ(s,t) and EMPTY return the bytes written for every valid sector, every other sector unchanged. |
| Rx11.StaleRequest | src/core/devices/rx11.c:175-217 | The failing run, by register writes alone: a fill that interrupts when it is over, and an empty before the interrupt is taken, leave the request up with done clear. |
| Unibus.IdentityNeverAliases | src/core/cpu/cpu.c:711-715 | With the map off no buffer up to 256 KB meets itself. |
| Unibus.MapsBy | src/core/cpu/cpu.c:703-722 | With the map on the top 8 KB are the I/O page, and each other 8 KB lie in one piece from the base their register holds; changing a register moves those addresses and no others. |
| Unibus.BufferRunsOn | src/core/devices/tm11.c:52-66 | A buffer runs upwards from its address, round the end of the 18-bit space. |
| Unibus.DeliveredFetched | src/core/devices/tm11.c:52-66 | Bytes delivered through a map that does not alias are the bytes fetched back. |
| Unibus.DeliveredElsewhere | src/core/devices/tm11.c:52-66 | A device store changes nothing but its buffer. |
| TapeImage.SpacingBackInverts | src/core/devices/tm11.c:195-207 | From the end of a record or mark, spacing back by the trailing length reaches its start. |
| TapeImage.BoundaryBefore | src/core/devices/tm11.c:195-207 | Spacing back from a boundary other than the start reaches a boundary. |
| TapeImage.BoundaryAfter | src/core/devices/tm11.c:122-145 | Passing an item from a boundary reaches a boundary. |
| TapeImage.ParsesFromBoundary | src/core/devices/tm11.c:70-76 | On an image that parses, every boundary has an item or the end ahead. |
| TapeImage.WrittenReadsBack | src/core/devices/tm11.c:146-171 | A record laid over an image, of either parity, reads back as that record. |
| TapeImage.BytesOf | src/core/devices/tm11.c:70-76 | A length is four bytes, lowest first. |
| Tm11.Drive.LengthAt | src/core/devices/tm11.c:70-76 | The length word, or no length past the end. |
| Tm11.Drive.ReadRecord | src/core/devices/tm11.c:122-145 | A read takes as much as asked, passes all of the record, and reports marks, long records and the end. |
| Tm11.Drive.WriteRecord | src/core/devices/tm11.c:146-171 | A write lays down length, data, padding and length, or refuses with the tape unchanged. |
| Tm11.Drive.WriteMark | src/core/devices/tm11.c:172-181 | A mark is four zero bytes. |
| Tm11.Drive.SpaceForward | src/core/devices/tm11.c:182-194 | Space forward passes one item. |
| Tm11.Drive.SpaceReverse | src/core/devices/tm11.c:195-207 | Space reverse goes back by the trailing length, and not past the start. |
| Tm11.Drive.Execute | src/core/devices/tm11.c:116-212 | Each command's effect on tape, memory and registers; every one ends done. |
| TapeRuns.SpaceForthAndBack | src/core/devices/tm11.c:182-207 | SPACE REVERSE undoes SPACE FORWARD over a record or mark. |
| TapeRuns.MoveKeepsBoundary | src/core/devices/tm11.c:116-212 | On an image that parses, READ and both SPACEs keep the position on a boundary. |
| TapeRuns.WriteKeepsBoundary | src/core/devices/tm11.c:146-171 | A write from a boundary ends on one and keeps all earlier ones, even when it ruins what lay ahead. |
| TapeRuns.ReadReports | src/core/devices/tm11.c:122-145 | What a program learns from a read: end-of-file for a mark, illegal-command at the end, the length error if and only if the record was longer than asked for, and in the counter what a short one did not supply. |
| TapeRuns.WriteReports | src/core/devices/tm11.c:146-181 | A write or mark leaves that item on the tape and the position past it, or reports illegal-command and changes nothing. |
| TapeRuns.SpaceReports | src/core/devices/tm11.c:182-207 | Spacing passes one item, counting records and reporting marks and either end. |
| TapeRuns.EmptyWriteReadsAsMarks | src/core/devices/tm11.c:146-171 | A write of no bytes reads back as two marks, which is why the round trip asks for at least one. |
| TapeRuns.CommandWords | src/core/devices/tm11.c:19-30 | The functions by their command words. |
| TapeRuns.BufferParts | src/core/devices/tm11.c:20 | Address bits 17:16 come from bits 5:4 of the command. |
| TapeRuns.Command | src/core/devices/tm11.c:214-303 | A program that sets the counter and the address and writes a command has it executed with that count and address. |
| TapeRuns.RecordRoundTrip | src/core/devices/tm11.c:116-303 | Commanded through the registers, WRITE of n > 0 bytes, SPACE REVERSE, READ of n bytes return the same bytes and end position, for any parity, memory content, map and buffer that does not alias. |

## Left out

- Frontends, the Python tools, probes, goldens and images: I/O and test data.
- `pdp11_state_hash` and the instruction timing table: byte hashing and table lookups.
- Models other than the 11/70, the system identification and diagnostic registers, and the opcode decode beyond the instruction shapes of `Stages.ShapeOf`.
- Instruction.Execute: the arithmetic of each instruction, condition codes included, is a parameter (except in ASH and ASHC), and instructions outside those shapes do nothing; JSR, MARK and the moves between spaces are not part of the recovery statement, as their pushes and pops are not logged. An index word, pointer or operand taken from the I/O page is whatever that answered, given as a ghost result.
- Stages.LosesIff: for the same reason the source of a double-operand instruction is followed through the I/O page by the answer it gave.
- Instruction.Commit: what a store into the I/O page does is stated by `Cpu.Cpu.WriteWordMode` and `Cpu.Cpu.WriteByteAt` and not repeated for each instruction.
- Faults inside a trap's own pushes: `Traps.DoTrap` returns them as an outcome, and the nested retry, the depth counter and the halt are not modelled.
- The order of trace trap, yellow-zone trap, interrupt and fetch at the top of a step is not modelled; each is modelled by itself.
- FP operand addressing, the FP registers and status word of the CPU, and the undefined-variable trap, which the C code does not implement.
- Cpu.Cpu.IoRead: registers of devices, the Unibus map and the diagnostic registers answer with an arbitrary word or a bus fault; the effect of such an access on a device is the subject of the device modules.
- Cpu.Cpu.IoWrite: likewise a write to a register of a device or of the Unibus map completes or faults.
- The accesses of a program to a controller are events of `Bus.Peripherals.Run` and are not connected to `Cpu.Cpu`.
- Rk11.Controller.Start: the words a transfer moves and the registers after it are arbitrary; so with the RP04 and the RL11, whose seek arithmetic and drive status are left out as well.
- Rp11.Controller.Start: likewise.
- Rl11.Controller.Start: likewise.
- Vectors of the devices: which vector a granted device traps through is a table.
- Tm11.Drive.ReadRecord: on an image that does not parse at the position, nothing is stated beyond the protocol (the C code reads outside the buffer there). Images are less than 4 GiB minus 128 KiB, so that no position sum wraps.
- The assembly of the TM11 status word, and what the RX11 status flags mean to a program.
- FpConvert.RoundToSingle: a zero exponent field is `FpConvert.RoundZeroIff`; both callers in the CPU clear such a word before.
- Scheduler.SkipIsTicks: emulated time is an unbounded number, so the 64-bit wrap after 584 years is not modelled; what a completion does is an arbitrary function of the rest of the machine, which must not schedule further work, as none of the completions in the C code does.
- The cache's effect on instruction time, and its lookups during CPU reads.
- A bitwise or of disjoint fields is written as a sum, and CSR words are 16-bit vectors.
- Arithmetic right shifts of negative numbers round down and `-(int32_t)0x80000000` is taken as two's complement, as the compilers the C code is built with do.
