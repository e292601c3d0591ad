# A verified model of the exact and stateful cores

This project models the parts of the repository whose correctness is hard to see from the code, and proves what
those parts promise. `dafny verify dfyconfig.toml` checks all of it.

**Exact decimal conversion** (`src/libstdio/dtoa.c`). Numbers of any length are kept in 32-bit words and worked in
16-bit halves, in objects that live on free lists by size. `Words` proves the word loops against the numbers they
stand for, `Bigints` the objects, the free lists and the cached powers of 5, `Doubles` the taking apart of a double,
`Scaling` the split into powers of 2 and 5, `DigitGen` the digit loops over naturals, `DigitLoops`, `Handles` and
`Dtoa` the code that joins them. `Decimals` says what a good answer is, and `Readback` why: the rounding interval is
exactly what reads back as the same double, so mode 0 prints the shortest digits that do. `Subnormals` says what
becomes of that for subnormal doubles.

**The tar archive** (`src/cmd/tar.c`). `TarHeader` makes and reads header blocks, `TarFormat` says what an archive is
and what every-block reading finds in one, `TarWriter` writes through the ring of block buffers, `TarReader` reads
through it, passing over what is not wanted, and appends.

**The buffered stream** (`src/libstdio`). `Plainfile` is a file with a position and no buffer, `Streams` the buffer
with its pointers, states and three ways of buffering over a system that reads in pieces and may fail, `Sessions`
whole runs of one against the other. `Integers` has the integer conversions of printf and scanf.

**Three smaller cores.** `Ramfs` is the memory file server under all requests, `Nametree` its name space and
`Plainserver` what its clients see; `Quoting` has the command lines of Windows programs and `Fdtab` the table of open
descriptors.

`Arith` and `Bytes` hold what the others share. Bodies use `hide` to keep definitions folded while proving.

## What the proofs turned up

- `d2b` sets the hidden bit of subnormal doubles too (dtoa.c:547), so they are printed as other, larger numbers: 2 to
  the -1074 as a number above 2 to the -1023 (`Subnormals.TiniestMisprinted`). The header's promise for mode 0 is kept
  for every normal double (`Readback.ModeZeroReadsBack`) and for the largest subnormal one alone
  (`Subnormals.SubnormalReadsBack`).
- Halving the lower gap is wrong for the smallest normal double, whose neighbours are equally far (dtoa.c:1131-1139
  does not look at the exponent), and for no other (`Readback.HalvedGapReadsBack`, with a number that the halved
  interval is without in `Readback.HalvedTooFar`). It does no harm there: no 16 digits lie even in the wider interval
  (`Readback.SmallestNormal`), so mode 0 is still shortest for every normal double.
- A failing flush at the start of `fseek` is forgotten: the state becomes RDWR and the bytes are lost without an error
  (`Streams.Stream.Fseek`; its result `lost` is set exactly when a write failed in the call). Every other failure of a
  read or write leaves the state ERR, but for a large `fwrite` of which the system took only a part: that goes on with
  the rest. The state becomes ERR for no other reason than such a failure and the misuses named in the contracts.
- In an unbuffered stream `fseek` relative to here does not count a byte pushed back and goes one byte too far, which is
  right exactly when even that is before the start of the file (`Sessions.SeekAfterPushBack`). That is the one rule
  `Sessions.Allowed` adds to the standard's.
- `ungetc` returns a signed `char`, so pushing back byte 255 returns -1, the value of EOF, and yet succeeds
  (`Streams.Stream.Ungetc`, and `UnreadChar` in `Sessions.Step`).
- A name that fits no split leaves a header without a name, which reads as the end of the archive
  (`TarHeader.MakeHeader`). Padding after a member's data is what the buffer held before, unless the last read got less
  than one block (`TarWriter.Tar.Fill`); readers do not look at it.
- Listing or extracting a fifo that is matched consumes none of its data, but the place of the next header counts it. A
  run strays exactly when such a fifo has a length (`TarReader.Extract`; `TarReader.StrayingFifo` makes an archive at
  which even a listing does).
- In base 16 a lone 0 in a field of one character does not scan (`Integers.PrintThenScan` has the exact condition).
- The first file created in the memory file server has the path of the file that was there from the start
  (`Ramfs.FirstCreated`); all other paths differ. A failed walk to a new fid ends the server (`Ramfs.Server.Walk`).
  A remove-on-close takes whatever its slot holds by then (`Ramfs.Server.Clunk`), and a refused open can leave it set
  (`Ramfs.Server.Open`).
- Duplicating a descriptor onto its own number frees the object it keeps, exactly when no other slot holds it
  (`Fdtab.Table.Dup`).
- Splitting a quoted command line gives the arguments back exactly when none is empty (`Quoting.NonEmptyAll`).

## Model
| member | source | states |
|---|---|---|
| Words.MultAddWords | src/libstdio/dtoa.c:131-139 | the words then stand for m times the old number plus a, with the carry as one more word; no intermediate leaves 32 bits |
| Words.MultWords | src/libstdio/dtoa.c:286-321 | the columns of two numbers add up to exactly their product, in wa + wb words |
| Words.SubWords | src/libstdio/dtoa.c:455-478 | borrowing by halves gives exactly the difference when the second number is not larger |
| Words.SubMulWords | src/libstdio/dtoa.c:690-702 | subtracting q times S in one pass, carries and borrows together, is exact when it does not go below zero |
| Words.ShiftWords | src/libstdio/dtoa.c:386-403 | n whole words and k bits of shift multiply by 2 to the 32n + k, the bits pushed out being the carry |
| Words.CompareWords | src/libstdio/dtoa.c:419-429 | the sign of the result orders the numbers of equally many words |
| Bigints.Pool.Balloc | src/libstdio/dtoa.c:80-105 | the object is of the size class asked for, belongs to no one, and comes from its free list if there is one; no other object changes |
| Bigints.Pool.Bfree | src/libstdio/dtoa.c:107-116 | the object is then on exactly one free list, that of its own size |
| Bigints.Pool.MultAdd | src/libstdio/dtoa.c:121-151 | the number becomes m times itself plus a, growing to the next size class only when full, and no other number changes |
| Bigints.Pool.Mult | src/libstdio/dtoa.c:264-326 | a new number, the product of the two, which a size class found from the larger always holds |
| Bigints.Pool.Pow5Mult | src/libstdio/dtoa.c:330-371 | the number, zero included, becomes itself times 5 to the k for every k; old cached powers stay and new ones are 5 to the 4 times 2 to the i at node i |
| Bigints.Pool.NeedPower | src/libstdio/dtoa.c:343-369 | the list of powers grows on demand and keeps its law, whatever was called before |
| Bigints.Pool.Lshift | src/libstdio/dtoa.c:373-407 | the number becomes itself times 2 to the k and stays normalised |
| Bigints.Pool.Cmp | src/libstdio/dtoa.c:409-430 | orders numbers; two zeros of different lengths compare by length |
| Bigints.Pool.Diff | src/libstdio/dtoa.c:432-483 | a new number, the distance of the two, with the sign of which was smaller |
| Bigints.Pool.QuoRem | src/libstdio/dtoa.c:673-736 | returns exactly the quotient and leaves exactly the remainder when b < 10 S and the top word of S has 28 bits |
| Bigints.QuoEstimate | src/libstdio/dtoa.c:688 | the estimate from the top words is never too big and at most one too small |
| Bigints.QuoWords | src/libstdio/dtoa.c:686-690 | why one word is enough: b is no longer than S, and if shorter then smaller |
| Bigints.Pool.NodesNotFree | src/libstdio/dtoa.c:328-371 | cached powers are numbers in use, never on a free list |
| Bigints.LengthOrder | src/libstdio/dtoa.c:415-418 | a normalised number with more words is larger, zero with one word or none included |
| Doubles.Hi0bits | src/libstdio/dtoa.c:181-208 | counts the leading zeros of a word |
| Doubles.Lo0bits | src/libstdio/dtoa.c:210-251 | strips the trailing zeros of a word and counts them; 32 for zero |
| Doubles.D2B | src/libstdio/dtoa.c:532-567 | the number times 2 to the e is the significand with its hidden bit, which for a normal double is the double; its zeros are taken out and `bits` is what is left of the 53 |
| Scaling.FreeRatios | src/libstdio/dtoa.c:918-934 | after the powers of 2 and 5 are split, b/S is d over 10 to the k, and mlo/S and mhi/S are the half gaps, the lower one halved at a power of two |
| Scaling.RatioBounds | src/libstdio/dtoa.c:1166-1168 | comparing b with S is comparing d with 10 to the k |
| Scaling.Botched | src/libstdio/dtoa.c:1167-1171 | multiplying by ten for an estimate one too large keeps every ratio |
| Scaling.IntervalSane | src/libstdio/dtoa.c:1191-1200 | the rounding interval of a normal double is not empty and wider than 10 to the k over 2 to the 53 |
| Scaling.ExponentBound | src/libstdio/dtoa.c:885-904 | the decimal exponent of a finite double, taken with its hidden bit, lies between -345 and 345, so every number fits its size class |
| Dtoa.MakePlan | src/libstdio/dtoa.c:1081-1111 | what is cancelled between numerator and denominator keeps them balanced, without negative powers |
| Dtoa.ShiftAmount | src/libstdio/dtoa.c:1149-1161 | the shift gives S a top word between 2 to the 27 and 2 to the 28, as quorem needs |
| Dtoa.SettleK | src/libstdio/dtoa.c:912-917 | within the table of tens the estimate is corrected at once and is then exact; otherwise it is left to be checked |
| Dtoa.FreeBegin | src/libstdio/dtoa.c:1124-1200 | the loop of modes 0 and 1 starts with the number and both half gaps on one scale, S <= b < 10 S |
| DigitLoops.RoundOff | src/libstdio/dtoa.c:1265-1272 | the digits plus one unit in the last place, nines dropped; all nines become a one and a carry |
| DigitLoops.StripZeros | src/libstdio/dtoa.c:1274-1276 | the same number without trailing zeros |
| DigitGen.NoneShorter | src/libstdio/dtoa.c:1204-1206 | if neither neighbour of d among the n-digit decimals lies in the interval, no decimal of n digits does |
| DigitGen.NearestNeighbour | src/libstdio/dtoa.c:1219-1231 | the neighbour chosen is nearest to d among all n-digit decimals in the interval |
| DigitGen.EmitLow | src/libstdio/dtoa.c:1219-1231 | stopping with the digit itself is good: shortest, in the interval and nearest |
| DigitGen.EmitHigh | src/libstdio/dtoa.c:1232-1239 | stopping with the next digit is good |
| DigitGen.EmitOne | src/libstdio/dtoa.c:1233-1236 | rounding up a nine is good: a single one and a larger exponent |
| DigitGen.NineIsFirst | src/libstdio/dtoa.c:1233 | a nine is rounded up only as the first digit |
| DigitGen.GoOn | src/libstdio/dtoa.c:1241-1250 | going on keeps the invariant that nothing shorter will do |
| DigitGen.FewDigits | src/libstdio/dtoa.c:945-949 | the loop goes on only while fewer than 16 digits are out, because 10 to the 16 is above 2 to the 53: 17 digits at most |
| DigitGen.RoundLast | src/libstdio/dtoa.c:1262-1264 | comparing twice the remainder with S rounds to the nearest, ties to even |
| DigitGen.NoDigits | src/libstdio/dtoa.c:1175-1186 | rounding to a place at or above the first digit gives a one or nothing, correctly |
| DigitLoops.FreeLoop | src/libstdio/dtoa.c:1202-1251 | ends with good digits: shortest in the interval, nearest among those, at most 17, no zero first or last |
| DigitLoops.FixedLoop | src/libstdio/dtoa.c:1252-1277 | at most ilim digits, d correctly rounded at the last place, the all-nines carry included |
| Dtoa.Dtoa | src/libstdio/dtoa.c:815-1292 | for every double but NaN's payload, in terms of its bits and of the caller's own mode: modes 0, 1 and those outside 0 to 9 give good digits, with the interval closed for an even significand in all but mode 1; 2 and 6 at most max(1, ndigits) digits and 3 and 7 digits up to ndigits places, each correctly rounded there; infinities, zero and the sign. At return every object taken is on its free list except cached powers, which are only added to, and no other number changed |
| Dtoa.ModePromised | src/libstdio/dtoa.c:935-966 | what the loops give for the mode they are run in is what the caller's mode promises |
| Dtoa.NoneOrOne | src/libstdio/dtoa.c:1175-1186 | mode 3 with no digits before the place asked for: a one or nothing, correctly rounded, and for nothing the decimal point at that place |
| Readback.ReadsBack | src/libstdio/dtoa.c:4-9 | a decimal in the rounding interval is nearer to the double than to any other double, as near only on a closed end |
| Readback.IntervalReadsBack | src/libstdio/dtoa.c:824-829 | for every normal double, reading back as it is the same as lying between the middles to its neighbours, these included for an even significand |
| Readback.HalvedGapReadsBack | src/libstdio/dtoa.c:1131-1139 | the interval with the lower gap halved at a power of two is what reads back, exactly when the double is not the smallest normal one |
| Readback.HalvedTooFar | src/libstdio/dtoa.c:1131-1139 | three eighths of a gap below the smallest normal double reads back as it and is not in that interval |
| Readback.ModeZeroReadsBack | src/libstdio/dtoa.c:825-826 | what mode 0 prints reads back as the double, and nothing with fewer digits does |
| Readback.ShortestReadsBack | src/libstdio/dtoa.c:1204-1206 | the same for any digits that meet the loop's goal, the smallest normal double included |
| Readback.SmallestNormal | src/libstdio/dtoa.c:1131-1139 | no decimal of 16 digits lies within even the full gaps of the smallest normal double |
| Subnormals.SubnormalReadsBack | src/libstdio/dtoa.c:547 | what mode 0 prints of a subnormal double reads back as it exactly when it is the largest one |
| Subnormals.TiniestMisprinted | src/libstdio/dtoa.c:547 | what mode 0 prints of 2 to the -1074 is above 2 to the -1023 |
| TarHeader.BlockFields | src/cmd/tar.c:83-104 | the fields in their order fill a block exactly, and come back from it |
| TarHeader.FieldsJoin | src/cmd/tar.c:83-104 | each field lies in the block where the struct puts it, and what a number is read from runs on to the end of the block |
| TarHeader.ChecksumInPlace | src/cmd/tar.c:382-400 | the sum with blanks for the checksum, and the block is as before |
| TarHeader.SumFits | src/cmd/tar.c:632 | the sum is at most 130560, so six octal digits always hold it |
| TarHeader.PutSum | src/cmd/tar.c:632 | storing the sum does not change it, and reading the field gives it back |
| TarHeader.RightReads | src/cmd/tar.c:607-623 | a number printed in octal with blanks before it is read back, whatever byte that is not a digit follows |
| TarHeader.BigReads | src/cmd/tar.c:473-478 | a number put in big-endian bytes is read back |
| TarHeader.PutSize | src/cmd/tar.c:610-622 | a length is stored in octal below 2 to the 32 and else in base 256, its low eight bytes where they are read |
| TarHeader.SizeReads | src/cmd/tar.c:489-504 | any length below 2 to the 63 is read back from either form |
| TarHeader.FindSplit | src/cmd/tar.c:576-585 | the rightmost slash that divides the name between the fields, if any does |
| TarHeader.PutFullName | src/cmd/tar.c:544-598 | succeeds exactly when the name fits one field or some slash divides it, and changes nothing else |
| TarHeader.NameBack | src/cmd/tar.c:420-442 | a stored relative name is read back whole, whether in one field or two |
| TarHeader.MakeHeader | src/cmd/tar.c:600-634 | a header from which name (a directory's with a slash), kind, length, permissions, owner, group, time and checksum are read back, with the flag, the ustar fields and the zeros besides; a name that does not fit makes an end mark |
| TarHeader.DescribedIs | src/cmd/tar.c:443-451 | a header by any program, with flag '0' or zero or any but those of links, fifos and directories, and any type in its mode but a directory's, is read as a file with data of its length; one whose name ends in a slash as a directory |
| TarHeader.KindIs | src/cmd/tar.c:66-81 | from the bytes of a block: flag '1', '2' or 's' is a link, '6' a fifo, and '5', a final slash or an octal mode of 40000 to 47777 a directory |
| TarHeader.DataLength | src/cmd/tar.c:489-515 | from the bytes: directories, links and negative lengths have no data, and else the length is in binary behind 0x80 or in octal |
| TarHeader.NameIs | src/cmd/tar.c:401-442 | from the bytes: a prefix and a slash stand before the name exactly in a ustar header that has a prefix |
| TarHeader.SumIs | src/cmd/tar.c:382-400 | from the bytes: the sum of all of them with eight blanks for the checksum, and where that is stored |
| TarFormat.ArchiveReads | src/cmd/tar.c:517-534 | reading every block of an archive, made here or elsewhere, finds its members' names, sizes and bytes in order and stops at the end mark |
| TarFormat.StoredMore | src/cmd/tar.c:705-744 | a header and its data after stored members are one member more |
| TarWriter.Tar.GotHowMany | src/cmd/tar.c:326-332 | as many blocks as asked for or as there are to the end of the ring |
| TarWriter.Tar.PutLastBlk | src/cmd/tar.c:338-348 | the ring is written with zeros after what was got |
| TarWriter.Tar.PutBlk | src/cmd/tar.c:350-355 | blocks are written when the ring is full and otherwise wait, which does not change the archive so far |
| TarWriter.Tar.Fill | src/cmd/tar.c:724-735 | the data lands in the ring's blocks from the first on; the rest of the last holds zeros after a read of less than one block, and otherwise what it held before |
| TarWriter.Tar.PutData | src/cmd/tar.c:723-737 | the archive so far grows by just enough blocks that begin with the data |
| TarWriter.Tar.AddMember | src/cmd/tar.c:677-744 | the archive so far holds one member more |
| TarWriter.Tar.AddAll | src/cmd/tar.c:790-799 | after the end mark the file is an archive of the old members followed by the new, written up to just enough whole records, and is not longer unless it was before |
| TarWriter.Tar.Create | src/cmd/tar.c:746-806 | the file is an archive of the members and just enough whole records long |
| TarReader.Refill | src/cmd/tar.c:236-287 | the ring then holds the next record, or a record passed over that the next header is not in; it fails only past the end |
| TarReader.GetBlkRd | src/cmd/tar.c:289-304 | the blocks come in order, and are the archive's own unless only the next header matters |
| TarReader.ReadHdr | src/cmd/tar.c:517-534 | the next header, the end mark or a bad checksum, and nexthdr is then where the following header is |
| TarReader.SkipData | src/cmd/tar.c:1029-1044 | with or without seeks the next block is then the next header |
| TarReader.CopyData | src/cmd/tar.c:987-1003 | all of a member's bytes are copied out, or the archive is cut short |
| TarReader.Extract | src/cmd/tar.c:1046-1078 | whatever is wanted and however much is passed over, the headers and the ending are those of reading every block, and the data copied is what the archive holds, exactly when no fifo that is matched has a length; at the first of those the next block taken for a header is not the next header |
| TarReader.WantIs | src/cmd/tar.c:925-960 | from the bytes: which of the members that are matched are copied out, and which fifos stray |
| TarReader.StrayingFifo | src/cmd/tar.c:932-939 | an archive of one header, a fifo's with a length, at which a listing of all names strays |
| TarReader.MembersRestored | src/cmd/tar.c:916-1044 | on an archive that means the k-th name, size, kind, permissions, owner, group and time are the k-th member's, and its bytes are copied out exactly if it is wanted in a file |
| TarReader.RoundTrip | src/cmd/tar.c:1065-1071 | what was created is listed and extracted whole, in any two blockings, with or without seeking |
| TarReader.SkipToEnd | src/cmd/tar.c:769-779 | skipping finds the end mark exactly when every-block reading does, with the record that holds it in the ring |
| TarReader.Append | src/cmd/tar.c:769-799 | the archive then holds the old members followed by the new, and is just enough whole records long unless it was longer before |
| TarReader.AppendRoundTrip | src/cmd/tar.c:746-806 | what was created and then appended to is read back whole, in any three blockings; in one blocking throughout it is just enough whole records |
| Plainfile.OverwriteAt | src/libstdio/fwrite.c:8-51 | what a write does to a file, byte by byte, zeros filling a gap |
| Plainfile.OverwriteAppend | src/libstdio/_IO_putc.c:85-97 | writing two pieces one after the other is writing them at once |
| Plainfile.StaysHonest | src/libstdio/Stdio.h:14-31 | reading, writing, flushing and seeking keep what is read next equal to what the file holds at the position |
| Plainfile.BackHonest | src/libstdio/ungetc.c:19-27 | so does pushing back the byte just read |
| Streams.Stream.Setvbuf | src/libstdio/setvbuf.c:5-33 | chooses the buffering before the first use and changes nothing seen from outside; later it is an error |
| Streams.Stream.FillAndGet | src/libstdio/_IO_getc.c:5-26 | refills from the file or notices the end, and returns what a plain file would; the state becomes ERR exactly when the read fails, and the answer is then -1 |
| Streams.Stream.Getc | src/libstdio/Stdio.h:90 | the macro returns what a plain file would, from the buffer or not; the state becomes ERR exactly when a read fails, and the answer is then -1 |
| Streams.Stream.FlushAndPut | src/libstdio/_IO_putc.c:11-105 | in every mode the view changes as a write to a plain file; the state becomes ERR exactly after a read or when a write fails |
| Streams.Stream.Putc | src/libstdio/Stdio.h:96 | the same for the macro that stores without a call, with the same exact cause of ERR |
| Streams.Stream.PutLine | src/libstdio/_IO_putc.c:56-76 | in line mode a newline leaves nothing in the buffer and any other byte one more; it fails exactly when a write does |
| Streams.Stream.Fread | src/libstdio/fread.c:8-41 | all the bytes wanted that there are, buffered or not, and the number of whole items; the state becomes ERR exactly when a read fails, and what had arrived by then is counted |
| Streams.Stream.Fwrite | src/libstdio/fwrite.c:8-51 | all the bytes, through the buffer or past it, or the state is ERR, which it becomes only after a read or when a write fails; the whole items taken are counted, and are then not all |
| Streams.Stream.Ungetc | src/libstdio/ungetc.c:5-28 | the byte is read next and the answer is the signed byte, between -128 and 127; fails only while writing or with no room before what is unread |
| Streams.Stream.Fflush | src/libstdio/fflush.c:15-42 | pending bytes are in the file and the position is unchanged, or the write failed and the state is ERR |
| Streams.Stream.Fseek | src/libstdio/fseek.c:5-23 | lands where a plain file would, up to an unbuffered push-back, unless the flush it starts with fails, which is exactly when the error is lost |
| Streams.Stream.Ftell | src/libstdio/ftell.c:5-16 | the position a plain file would have |
| Streams.Stream.Fclose | src/libstdio/fclose.c:5-14 | what was written is in the file; an error exactly when the write or the close fails or there was one before |
| Sessions.RunAll | src/libstdio/Stdio.h:14-31 | any run of getc, ungetc of the byte before, putc, fread, fwrite, fseek, ftell and fflush, in all three modes, shows its caller what a file without a buffer would and leaves the same bytes and position, unless a read or write of the system failed in it |
| Sessions.RunAndClose | src/libstdio/fclose.c:5-14 | and with a close at the end the file itself holds those bytes |
| Sessions.SeekAfterPushBack | src/libstdio/fseek.c:14-16 | in an unbuffered stream with a byte pushed back every seek from here goes one byte too far, and is what a plain file would do exactly when that is still before the start |
| Integers.Print | src/libstdio/vfprintf.c:284-370 | the printed characters are blanks, sign, prefix, zeros, digits and blanks, each stated without the functions the printing uses: the digits' alphabet, case and value, the sign, the prefix, and where the width and the precision put blanks and zeros; the count returned is theirs and at least the width |
| Integers.NumeralWorth | src/libstdio/vfprintf.c:317-321 | the digits of a numeral are those of the conversion, in its case, and are worth the number |
| Integers.FillDigits | src/libstdio/vfprintf.c:317-321 | at most 64 digits, least significant first, that make the numeral |
| Integers.LeadingDigit | src/libstdio/vfprintf.c:326-328 | only zero starts with a 0, so the alternate octal form adds its 0 exactly when there is none |
| Integers.TokenInside | src/libstdio/vfprintf.c:330-369 | whatever the flags, only blanks stand around the sign, prefix, zeros and digits |
| Integers.ScanNumber | src/libstdio/vfscanf.c:132-210 | the number, its sign and how far the stream moved, for any width and base, after any blanks |
| Integers.BaseZero | src/libstdio/vfscanf.c:148-175 | base 0 reads in base 16 after 0x or 0X, in base 8 after another 0 and else in base 10, but for a lone 0 that the width ends |
| Integers.DigitValueIs | src/libstdio/vfscanf.c:177-178 | which characters are digits and what each is worth, in either case |
| Integers.NumeralReads | src/libstdio/vfscanf.c:177-184 | the digits of a printed number make the number again |
| Integers.PrintThenScan | src/libstdio/vfscanf.c:132-210 | what was printed under any flags, width and precision is scanned back in its base by a field wide enough, but for a lone 0 in one column of base 16 |
| Integers.StoredBack | src/libstdio/vfscanf.c:181-208 | the value stored, in two's complement, is the number printed |
| Nametree.ReachesRoot | src/cmd/ramfs.c:38 | the directories above any entry lead to the root |
| Nametree.Planted | src/cmd/ramfs.c:453-478 | a new entry under a name its directory does not have keeps the tree |
| Nametree.Uprooted | src/cmd/ramfs.c:583-598 | removing a file or an empty directory keeps the tree, and is never the root |
| Nametree.Renamed | src/cmd/ramfs.c:672-716 | a name new in its directory keeps the tree |
| Nametree.CreatedIsFound | src/cmd/ramfs.c:350-354 | what was created is found by its name |
| Nametree.RemovedIsGone | src/cmd/ramfs.c:583-598 | what was removed is not found, and every other name still leads where it did |
| Nametree.DoomedNext | src/cmd/ramfs.c:232-234 | closing fids one by one removes their entries in that order |
| Nametree.ChildUnique | src/cmd/ramfs.c:449-452 | a name leads to at most one entry of a directory |
| Nametree.TrailLive | src/cmd/ramfs.c:322-359 | a walk meets only entries in use, at most one a name |
| Nametree.FollowLaws | src/cmd/ramfs.c:324-356 | "." stays, ".." leads to the directory of an entry and so back from any name followed, another name to the entry of that name or nowhere, and all but "." take permission |
| Nametree.FollowNowhere | src/cmd/ramfs.c:325-332 | nothing is followed from a file or from what was removed, with the error of each |
| Plainserver.StepSound | src/cmd/ramfs.c:776-835 | whatever is asked of the plain server, fids in use name entries and entries directories of the table |
| Plainserver.CreateThenWalk | src/cmd/ramfs.c:426-486 | after a create answered without an error a walk by that name is answered with the new file's path |
| Plainserver.RemoveThenWalk | src/cmd/ramfs.c:617-633 | after a remove answered without an error a walk by that name finds nothing, and a walk by any other is answered as before |
| Ramfs.Server.constructor | src/cmd/ramfs.c:186-219 | the table the server starts with: the root, one file and 2046 free entries, a tree |
| Ramfs.Server.NewFid | src/cmd/ramfs.c:753-774 | the fid of that number, else the first idle one, which keeps what it holds, else a new one in front; numbers stay distinct and no other fid changes |
| Ramfs.Server.EmptyDir | src/cmd/ramfs.c:571-581 | stopping the scan at nram is enough |
| Ramfs.Server.RealRemove | src/cmd/ramfs.c:583-598 | only a directory that holds something stays, and the root always does |
| Ramfs.Server.Clunk | src/cmd/ramfs.c:600-615 | the fid is idle, whether it was before or not, and a remove-on-close frees what its slot holds now |
| Ramfs.Server.Remove | src/cmd/ramfs.c:617-633 | the fid is idle whatever the answer, and the entry free exactly when there is no error |
| Ramfs.Server.Create | src/cmd/ramfs.c:426-486 | the answer in every case; on success one entry is new, in the lowest free place, and the fid open on it |
| Ramfs.Server.WalkNames | src/cmd/ramfs.c:324-356 | the loop follows names as looking each up in its directory would |
| Ramfs.Server.Walk | src/cmd/ramfs.c:299-370 | a fid moves only by a complete walk; an incomplete one to another fid ends the run |
| Ramfs.Server.Open | src/cmd/ramfs.c:372-424 | the answer in every case, when the fid becomes open and when remove-on-close is set |
| Ramfs.Server.Attach | src/cmd/ramfs.c:262-279 | an idle fid comes to name the root |
| Ramfs.Server.Version | src/cmd/ramfs.c:227-245 | every fid is closed, and what was to be removed on close is removed in the order of the fids |
| Ramfs.Server.Wstat | src/cmd/ramfs.c:647-727 | the answer in every case; a rename changes one name and nothing else |
| Ramfs.Server.Serve | src/cmd/ramfs.c:776-835 | the answer, with the paths it tells of, and the table, fids and last path after it are those of a plain server of one step a request, unless the request ends the server, which it does exactly when it follows the null pointer of an idle fid or is an incomplete walk to another fid |
| Ramfs.Server.Run | src/cmd/ramfs.c:776-835 | the answers to any requests and the state they leave are those of the plain server, up to the first request that ends the server; the table is a tree all along: directories as parents, no two names alike in one, slots reused or not |
| Ramfs.FirstCreated | src/cmd/ramfs.c:457 | the first file created shares its path with the file that was there |
| Quoting.DblQuote | src/lib9/mingw/spawn.c:21-59 | writes the quoted word, at most 2 times its length and 2, with a zero after it, and nothing before it changes |
| Quoting.BodyReads | src/lib9/mingw/spawn.c:36-55 | between quotes the doubled backslashes and escaped quotes read as the word, and the closing quote ends it |
| Quoting.PlainWordReads | src/lib9/mingw/spawn.c:27-34 | a word that needs no quotes reads as itself |
| Quoting.Specials | src/lib9/mingw/spawn.c:27-34 | blank, tab, newline, return and quote ask for quotes, and only the first two part words |
| Quoting.ProcCmd | src/lib9/mingw/spawn.c:61-85 | the quoted words with one space between two and a zero after the last |
| Quoting.RoundTrip | src/lib9/mingw/spawn.c:13-20 | splitting by the rules gives back the arguments that are not empty, for any arguments |
| Quoting.NonEmptyAll | src/lib9/mingw/spawn.c:13-20 | so the arguments come back exactly when none is empty |
| Fdtab.Table.constructor | src/lib9/mingw/fdtab.c:154-172 | three objects in the first three slots, each counted once |
| Fdtab.Table.Need | src/lib9/mingw/fdtab.c:135-150 | the table grows by steps of 32, no more than are needed, and keeps its slots |
| Fdtab.Table.FirstFree | src/lib9/mingw/fdtab.c:181-184 | the lowest free slot is among the first nfd and one, so the scan need go no further |
| Fdtab.Pigeonhole | src/lib9/mingw/fdtab.c:182-184 | when the first nfd slots are full the next is free |
| Fdtab.Table.Alloc | src/lib9/mingw/fdtab.c:174-200 | the lowest free slot holds the object given or a new one, and the counts stay right |
| Fdtab.Table.Dup | src/lib9/mingw/fdtab.c:201-240 | the slot shares the object, and what it held is released if that was the last; the counts stay right exactly when it is not a lone object onto itself |
| Fdtab.Table.Close | src/lib9/mingw/fdtab.c:254-292 | the slot is free, the object released once when that was the last, and the consistency check never fails |
| Fdtab.Table.Cleanup | src/lib9/mingw/fdtab.c:99-115 | every object is released exactly once, nfd ends at zero, and the check never fails |
| Fdtab.Table.Run | src/lib9/mingw/fdtab.c:174-292 | every run shows what a table without counts and sizes would, numbers leading to the same objects; no consistency check fails, no object is forgotten, and each is released once, when it has no slot left |
| Fdtab.Process | src/lib9/mingw/fdtab.c:99-115 | from the start through any run to the clean-up no consistency check fails, and every object made is released exactly once |

## Left out

- Dtoa.Dtoa: the quick path (970-1044), the small-integer path (1046-1079) and modes 4, 5, 8 and 9 are not modelled, because the first two are floating-point error analysis and no caller in the library asks for those modes; the estimate of log10 (907-911) is a parameter that is floor(log10 d) or one more.
- Dtoa.Dtoa: the text buffer of `rv_alloc`, locks and the private memory pool are left out, and digits come back as a string. `ndigits` is an unbounded integer, so `ndigits + k + 1` does not overflow.
- Words.MultWords: `|` of disjoint bits is written as a sum, and the two 16-bit halves of a store are joined at once.
- Readback.IntervalReadsBack: doubles have no largest exponent here, as rounding has none before it overflows.
- Bigints.Pool.Lshift: zero is shifted by less than 32 bits, because the source makes a number with leading zero words of it otherwise; `dtoa` never does.
- `s2b`, `ulp`, `b2d`, `ratio`, `match` and `gethex` have no caller in this part.
- Streams.Stream.Fseek: after a failed flush the pointers and the state no longer agree, and the model stops there. A seek of the system fails only for a negative position.
- Streams.Stream.Setvbuf: memory does not run out.
- Append mode, string streams, `clearerr` and the guess that a stream is a terminal (a parameter here) are not modelled; line and block buffers have at least one byte; the buffer memory freed by `fclose` is not used again.
- Streams.Stream.Fread: negative sizes and a product of sizes that is not below 2 to the 31 are not modelled.
- Streams.Stream.Fwrite: the same.
- Integers.Print: a signed number is above the least `int`, because its negation overflows; long is 32 bits, and the characters are collected in a string in place of the stream.
- Integers.ScanNumber: the stream is a text with a position, and a missing width never counts down to zero.
- Tar archives are worked in blocks: one that is not a whole number of blocks ends the program and is not modelled. The header's fields are a value of the struct that is stored in the ring at the end. A file is as long as its directory entry says. Failing writes end the program.
- TarHeader.MakeHeader: names are relative, without zero bytes, and a plain file's does not end in a slash; user and group numbers have at most six octal digits.
- TarHeader.HdrSize: lengths of 2 to the 63 and more are not modelled.
- TarHeader.OctalOf: a sign before the digits, and blanks there other than spaces, are not modelled.
- TarReader.Extract: what a run that has strayed at a fifo does next is not modelled.
- Compression, descent into directories, making links, fifos and files and the printing of listings are left out; which names are matched and which files can be opened are functions of the header.
- Ramfs.Server.Clunk: an idle fid was not opened to be removed on close when it was last in use; the source follows a null pointer otherwise.
- Ramfs.Server.Remove: the fid is in use; the source follows a null pointer otherwise.
- Plainserver.Step: the answers to reads, writes, stats, auths and flushes (`Other`) are not modelled; they are there because they too take a slot for their fid.
- Permissions of the memory file server are parameters of a request. File contents, times, users, exclusive use (a parameter) and message formats are left out, as requests that only touch those do not change names.
- Quoting.ProcCmd: the buffer has room for the longest result, which the source's computation of its size does not ensure.
- Fdtab.Table.Dup: a new number is -1 or at least 0. Locks, the kinds of objects and what releasing one does are left out; the model counts releases.
