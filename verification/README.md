# OoOS, verified in Dafny

OoOS is a hobby operating system with a UEFI boot loader, a small C library for the loader, a C++ kernel and a
vendored image resampler. This project models the parts of it that are hard to get right and proves what they do
for all inputs, all runs or all reachable states.

* `QuickSort` - the C library's `qsort` (Bentley and McIlroy's fat partition) and `bsearch`.
* `PageTables`, `MemoryMap`, `BootMemory` - the loader's four-level page tables, the condensed memory map, and the
  two together.
* `AllocTracker` - `malloc`, `realloc` and `free` over a firmware pool that may refuse any request.
* `Utf8`, `Argv` - the conversions between 16-bit characters and UTF-8, and the packed argument vector.
* `NumberText` - the integer conversions of `vsnprintf`, `strtol` and `atol`.
* `Calendar` - `mktime` with its 64-bit and `int` arithmetic written out.
* `VerticalGather`, `Pivot`, `FancyAlpha`, `Rational` - the resampler: the ring of scanlines, the gather-to-scatter
  pivot, in-place alpha weighting, and the continued fraction. Floating point is modelled by exact reals.
* `Bitmap`, `MsiVectors` - the kernel's bit scans and the allocation of interrupt vectors on top of them.
* `FdTable`, `PathWalk`, `Vfs` - the virtual file system's descriptor table, its path resolution, and opening by path.
* `Common` - definitions that several modules share.

Code that works in place on an array stays a method on an array, an object that updates its fields is a class, and
each such method is proved against a function or predicate on values. Memory, pools and devices that the source
gets from elsewhere appear as parameters: `AllocatePool` grants or refuses as a list of answers says, with any fresh
address, and the frames for page tables are handed in.

## What the proofs found

Where a property that the code is meant to have is false, the project gives the exact condition under which it holds.

* `map_id_pages` asks for exactly the frames it uses, but its table of saved page-table pointers is sized by rounding
  down, so the last store lies outside it unless the page count is a multiple of 512 (`PageTables.MapIdPages`,
  `PageTables.SavedFits`). The loader clears the page-size bit only in page directories, so on frames with no entry
  present the mapping is right exactly when the entries it will use in the root and in the tables right below it come
  without that bit (`PageTables.IdentityIff`, `PageTables.StaleBitBlocks`).
* `mktime` is right exactly for times not before 1970 that are given by months that are not negative, a normalised
  year from 1902 on, and a day of the month that can be decremented; `time_t` is unsigned, so earlier times come out
  near 2^64, before 1902 an `int` overflows, and negative months are wrong always, even modulo 2^64
  (`Calendar.MktimeExact`, `Calendar.BeforeEpochWraps`).
* The pivot transposes the coefficients exactly when inputs come into use from left to right and the outputs of one
  input fit the scatter width. A skipped coefficient inside a range can make it forget others
  (`Pivot.Pivot`, `Pivot.InteriorZeroLoses`).
* The vertical pass takes a lone coefficient within a millionth of one for one (`VerticalGather.ExactUnlessLone`).
* The continued fraction settles on a convergent that is close enough, but its numerator is then cut to 32 bits: a
  fraction reported as found is within the tolerance exactly when it came from the full-range branch or the numerator
  fits. A factor of 2^33 with a denominator below 2 is reported as found with 0/1 (`Rational.DoubleToRational`,
  `Rational.CutToZero`).
* The exit of the continued fraction for `bot == 0` is never taken (`Rational.FullyExpanded`).
* The scan for a run of zero bits tests the wrong end of the word: only the highest one bit decides where it stops and
  what it reports. The run reported is then free as `Bitmap.ReportedFree` says: for 32 bits or more exactly when the
  word is zero, for fewer exactly when some bits that were never looked at are zero (`Bitmap.FreeIffZero`,
  `Bitmap.ShortRunMisses`). A request for 2 to 31 interrupt vectors stops in the first word, which holds the reserved
  vectors, and is never sound; scans for more than 64 bits report only runs of words in use, or hang, read past the
  bitmap or subtract from a null pointer (`MsiVectors.SmallOffTable`, `MsiVectors.SoundAtBoot`, `Bitmap.ScanLong`,
  `Bitmap.LongRunTaken`).
* Setting a run of 2 to 63 bits that crosses a word sets as many bits in the second word as in the first, which is
  right only when the run is split in halves or the difference was set already (`Bitmap.ChainSetExact`,
  `Bitmap.CrossingRunFalls`).
* `malloc` forgets its old table when it makes a larger one; these blocks are never given back
  (`AllocTracker.Allocator.Malloc`, `AllocTracker.Allocator.Valid`). A first `malloc` that gets a table but no block
  leaves an empty table behind, and nothing else does; `free` drops the table exactly when nothing is live.
* `wcstombs` and `mbstowcs` write no terminator for an empty text, and with `n == 0` `wcstombs` writes one outside
  its buffer. `mbstowcs` refuses a character that meets its limit and goes on past the limit otherwise
  (`Utf8.RoundTrip`, `Utf8.DecodedEncoded`).
* Closing a device leaves it in the table of open files under a descriptor that it no longer carries, closing a file
  twice sets the next descriptor to -1, and registering a node under 0 to 2 lets later nodes in there too
  (`FdTable.FileTable.CloseFile`, `FdTable.FileTable.RegisterFd`).
* `split` returns one empty part for an empty text, where its comment promises none; the code is followed
  (`PathWalk.Split`).

## Model

| member | source | states |
|---|---|---|
| `QuickSort.Qsort` | boot/uefi/qsort.c:79-154 | on every range and comparator the sort terminates, leaves the range sorted and a permutation of what it was, and touches nothing outside |
| `QuickSort.SortRound` | boot/uefi/qsort.c:84-153 | one pass of the `goto loop`: a longer prefix is sorted, below the rest, and still a permutation |
| `QuickSort.Divide` | boot/uefi/qsort.c:93-144 | pivot choice, partition and both block swaps give smaller, equal and greater parts that permute the range |
| `QuickSort.Partition` | boot/uefi/qsort.c:105-132 | the scan from both ends keeps equal elements at the two ends and meets in the middle |
| `QuickSort.ScanLeft` | boot/uefi/qsort.c:110-117 | the left scan stops at the first greater element and parks equal ones at the front |
| `QuickSort.ScanRight` | boot/uefi/qsort.c:118-125 | the right scan stops at the first smaller element and parks equal ones at the back |
| `QuickSort.Gather` | boot/uefi/qsort.c:140-144 | the two block swaps turn the parked runs into one middle run, leaving a finished partition |
| `QuickSort.VecSwap` | boot/uefi/qsort.c:43-70 | swapping two disjoint blocks exchanges exactly them |
| `QuickSort.InsertionSort` | boot/uefi/qsort.c:86-92 | short ranges end up sorted and permuted |
| `QuickSort.Med3` | boot/uefi/qsort.c:71-77 | the index returned is one of the three and holds a median |
| `QuickSort.ChoosePivot` | boot/uefi/qsort.c:93-104 | every index tried lies in the range, for the middle, median of three and median of nine alike |
| `QuickSort.BSearch` | boot/uefi/stdlib.c:214-226 | on a sorted array an index is returned exactly when a matching element exists, and it matches |
| `QuickSort.SortAndSearch` | boot/uefi/stdlib.c:214-226 | sorting and then searching finds a key exactly when the unsorted array held a match |
| `PageTables.MapIdPages` | boot/loader.c:147-168 | on frames with no entry present, after success a hardware walk maps every address below n pages to itself and no other iff the frames came without page-size bits where the root and the tables below it are used; then saved pointer k is the table that the walk of page 512k comes through; saved pointers stay in their room iff n is a multiple of 512 |
| `PageTables.MapSomePages` | boot/loader.c:96-146 | on frames with no entry present, pages from any start map in order to the physical pages, with exactly the tables they need, and page-size bits above the page directories stay as they were |
| `PageTables.Descend` | boot/loader.c:109-138 | each of the three conditionals makes the missing table in the next frame and changes no translation |
| `PageTables.SetLeaf` | boot/loader.c:139-142 | the leaf write changes the translation of that one page |
| `PageTables.MapPage` | boot/loader.c:107-142 | one pass of the loop adds one page to the mapping and the tables it lacked |
| `PageTables.PlacePage` | boot/loader.c:109-142 | the three conditionals and the leaf give the page its missing tables, in the next frames, and its mapping |
| `PageTables.WalkIsMapping` | boot/loader.c:109-142 | the four-level walk of a block that holds a tree of tables is exactly its mapping, or ends at a stale page-size bit on the way |
| `PageTables.AddTable` | boot/loader.c:109-138 | linking a fresh frame clobbers no other table |
| `PageTables.SetPage` | boot/loader.c:139-142 | writing a leaf entry changes no other entry of any table |
| `PageTables.RequestIsExact` | boot/loader.c:89-95 | `required_tables(n)` is one more than the number of tables the mapping takes, for every n |
| `PageTables.IdentityIff` | boot/loader.c:109-142 | the identity mapping holds iff no entry used above the page directories came with its page-size bit set |
| `PageTables.PageWalk` | boot/loader.c:109-142 | which of the two stale bits, found in the block as it came, ends the walk of a page, and what it comes to otherwise |
| `PageTables.StaleBitBlocks` | boot/loader.c:118-138 | one stale bit in the second frame keeps the first page from being reached |
| `PageTables.SavedFits` | boot/loader.c:135-165 | every saved pointer has room iff the page count is a multiple of 512 |
| `PageTables.SavedIsTable` | boot/loader.c:135-135 | each saved pointer is the page table a walk comes through for the addresses it stands for |
| `PageTables.IndexBits` | common/include/kernel/kernel_defs.h:406-413 | the four indices are bits 12 to 20, 21 to 29, 30 to 38 and 39 to 47 of the address |
| `PageTables.OnePageOverruns` | boot/loader.c:162-166 | with one page the only saved pointer has no room |
| `MemoryMap.Merge` | boot/loader.c:317-362 | merging keeps how often each byte is given each kind, the bytes of each kind and the page count; every byte of a descriptor has the kind of its type number; there is one entry for each descriptor that does not continue the one before; the total and the top are exact |
| `MemoryMap.SameExtend` | boot/loader.c:326-327 | lengthening the last entry says the same as a new adjacent entry |
| `MemoryMap.MergedNext` | boot/loader.c:326-361 | one more descriptor, merged or appended, keeps everything the loop has established |
| `MemoryMap.KindsByNumber` | boot/loader.c:332-351 | types 7 to 12 of the firmware give available, bad, reclaimable, non-volatile and device memory, and every other type reserved |
| `MemoryMap.PagesByKind` | boot/loader.c:332-351 | the pages are those of the six kinds together |
| `MemoryMap.KindFunctionPreserved` | boot/loader.c:324-362 | for descriptors that do not overlap, every byte has the same single kind before and after |
| `BootMemory.DescribedIsMapped` | boot/loader.c:359-365 | every byte that the merged map describes is mapped to itself by the page tables built from the top found |
| `AllocTracker.Allocator.Malloc` | boot/uefi/stdlib.c:80-105 | a fresh block of the size asked for, or null with what is live unchanged, and null exactly when the pool refuses the table needed or the block; grows the table only when it is full, and then forgets the old one; a table without anything live is left exactly when a first table was obtained and the block refused |
| `AllocTracker.Allocator.Grow` | boot/uefi/stdlib.c:87-96 | a longer table with the same entries, or nothing changed, which is exactly when the pool refuses |
| `AllocTracker.Allocator.Realloc` | boot/uefi/stdlib.c:114-146 | null, zero size, unknown pointer, refusal and success: the new block holds the common prefix then zeros and replaces the old one; a live pointer and a size give null exactly when the pool refuses; size zero drops the table exactly when nothing is left |
| `AllocTracker.Allocator.Move` | boot/uefi/stdlib.c:127-138 | the copy to the new block, its entry and the release of the old one, unless the pool refuses |
| `AllocTracker.Allocator.Free` | boot/uefi/stdlib.c:148-167 | exactly that pointer goes; unknown pointers change nothing; the table is dropped exactly when nothing is live |
| `AllocTracker.Allocator.Tidy` | boot/uefi/stdlib.c:161-163 | the table goes exactly when every slot is free |
| `AllocTracker.Allocator.Run` | boot/uefi/stdlib.c:80-167 | over any requests and any answers of the pool each answer keeps the C library's promise and is null exactly when it must be, slots, live pointers and pool agree, and the table is followed state by state |
| `AllocTracker.IdleSince` | boot/uefi/stdlib.c:80-167 | over any run there is a table without anything live exactly since a first table was obtained in vain |
| `AllocTracker.OthersKept` | boot/uefi/stdlib.c:80-167 | over any run a block that no request names stays live with its bytes and is never handed out again |
| `AllocTracker.TracksFilled` | boot/uefi/stdlib.c:102-103 | filling a free slot keeps slots and live pointers in one-to-one agreement |
| `AllocTracker.TracksCleared` | boot/uefi/stdlib.c:156-160 | clearing a slot takes exactly its pointer away |
| `AllocTracker.AccountedGrown` | boot/uefi/stdlib.c:87-96 | the pool stays live blocks, table and forgotten tables when a larger table takes over |
| `Utf8.WcToMb` | boot/uefi/stdlib.c:262-279 | writes exactly the one to three bytes of the character |
| `Utf8.Encode` | boot/uefi/stdlib.c:262-279 | one to three bytes by the size of the character, in the ranges of section 4 of RFC 3629 but for surrogates |
| `Utf8.MbToWc` | boot/uefi/stdlib.c:246-260 | decodes one character, refuses what the limit does not allow, and says how wide it was |
| `Utf8.WidthRanges` | boot/uefi/stdlib.c:246-260 | which first bytes announce one to four bytes, and which are refused |
| `Utf8.AcceptedWidths` | boot/uefi/stdlib.c:246-260 | how much room each width asks for |
| `Utf8.FourBytes` | boot/uefi/stdlib.c:246-260 | the four bytes of a character from U+10000 on decode to its lower 16 bits |
| `Utf8.WcsToMbs` | boot/uefi/stdlib.c:296-309 | writes the encoding of a whole-character prefix and a terminator; nothing for an empty text |
| `Utf8.MbsToWcs` | boot/uefi/stdlib.c:281-294 | writes what the bytes decode to and a terminator, or reports failure; nothing for an empty text |
| `Utf8.StopsInside` | boot/uefi/stdlib.c:301-308 | the stopping point is unique, the terminator lies inside n bytes iff n > 0, and all characters fit iff the last one starts five bytes before n |
| `Utf8.DecodeEncode` | boot/uefi/stdlib.c:252-275 | decoding an encoded character gives it back with its width, whatever surrounds it |
| `Utf8.DecodedEncoded` | boot/uefi/stdlib.c:281-294 | decoding an encoded text gives it back iff no character meets the limit with too little room |
| `Utf8.RoundTrip` | boot/uefi/stdlib.c:281-309 | `mbstowcs` after `wcstombs` returns the text iff it fits and no character meets the limit |
| `Argv.ArgvSize` | boot/uefi/crt_x86_64.c:215-218 | the size computed is nine bytes for each argument and the null pointer, and the encoded characters |
| `Argv.Pack` | boot/uefi/crt_x86_64.c:219-234 | pointers, null pointer and texts are in place and packing ends one byte before the end of the block |
| `Argv.PackText` | boot/uefi/crt_x86_64.c:227-232 | one argument's encoding and terminator, and nothing else, is written |
| `Argv.WordAt` | boot/uefi/crt_x86_64.c:222-227 | a pointer is stored lowest byte first |
| `Argv.PackedReads` | boot/uefi/crt_x86_64.c:222-234 | each pointer addresses a terminated text that decodes to its argument, ends where the next begins, and the pointers end in null |
| `Argv.OneByteSpare` | boot/uefi/crt_x86_64.c:215-234 | the texts end exactly one byte before the computed size |
| `NumberText.StoreDigits` | boot/uefi/stdio.c:559-564 | digits are stored from the end, as positional notation, inside the places that suffice |
| `NumberText.FormatDecimal` | boot/uefi/stdio.c:551-573 | the 24 characters hold the padded decimal text and its terminator, for every 64-bit number but the least signed one |
| `NumberText.FormatHex` | boot/uefi/stdio.c:581-596 | the same for hexadecimal, in 16 characters |
| `NumberText.DecimalShape` | boot/uefi/stdio.c:551-573 | padding, then the sign, then decimal digits, as wide as asked below 23 |
| `NumberText.HexShape` | boot/uefi/stdio.c:581-596 | zeros, then hexadecimal digits in the case asked for, as wide as asked up to 16 |
| `NumberText.CopyString` | boot/uefi/stdio.c:600-621 | number text is copied whole iff it and two more characters fit, else its longest prefix that does |
| `NumberText.Strtol` | boot/uefi/stdlib.c:60-78 | the signed value of the longest run of accepted characters, with no step overflowing when the value fits |
| `NumberText.Atol` | boot/uefi/stdlib.c:46-58 | base chosen by `0x` and a leading zero, with the sign outside |
| `NumberText.ReadDigits` | boot/uefi/stdlib.c:65-75 | reading positional notation of a number yields the number |
| `NumberText.NumberEnds` | boot/uefi/stdlib.c:65-76 | a number ends at the first character that is no digit of its base, the letters up to F counting as digits from base ten on |
| `NumberText.AtolDecimal` | boot/uefi/stdlib.c:46-58 | `atol` of unpadded `%d` is the number, for every 64-bit number but the least |
| `NumberText.AtolHex` | boot/uefi/stdlib.c:46-58 | `0x` and hexadecimal digits are read in base 16 |
| `NumberText.AtolOctal` | boot/uefi/stdlib.c:46-58 | a zero and octal digits are read in base 8 |
| `NumberText.AtolNotOctal` | boot/uefi/stdlib.c:54-57 | a zero before an eight or a nine does not make a number octal |
| `NumberText.LetterIsZero` | boot/uefi/stdlib.c:65-75 | a letter in a decimal number counts as the digit zero |
| `NumberText.StrtolHex` | boot/uefi/stdlib.c:60-78 | base-16 `strtol` of `%x` or `%X` of any width is the number |
| `NumberText.PrintAndParseDecimal` | boot/uefi/stdio.c:551-573 | formatting, copying, terminating and parsing a decimal number is the identity |
| `NumberText.PrintAndParseHex` | boot/uefi/stdio.c:581-596 | formatting, copying, terminating and parsing a hexadecimal number below 2^63 is the identity |
| `Calendar.MktimeExact` | boot/uefi/time.c:109-135 | the result is the Gregorian count of seconds iff that is not negative, the month is not negative, the normalised year is 1902 or later and the day can be decremented |
| `Calendar.BeforeEpochWraps` | boot/uefi/time.c:126-134 | 1 January 1969 comes out as 2^64 less a year of seconds |
| `Calendar.MktimeForward` | boot/uefi/time.c:109-135 | for months that are not negative, months carry into years and the result is the count modulo 2^64 from 1902 on, an overflow before |
| `Calendar.MktimeBack` | boot/uefi/time.c:117-124 | a negative month never gives the right time, not even modulo 2^64 |
| `Calendar.YearStartExact` | boot/uefi/time.c:37-83 | both paths of `__year_to_secs` give the days of the Gregorian calendar and its leap flag exactly from 1902 on |
| `Calendar.NearYearPosix` | boot/uefi/time.c:41-50 | the fast path for 1902 to 2038 agrees with the year terms of the POSIX formula |
| `Calendar.FarYearPosix` | boot/uefi/time.c:51-82 | the path by 400-year cycles agrees with the same terms |
| `Calendar.EarlyYearOverflows` | boot/uefi/time.c:51-82 | years before 1902 overflow an `int` |
| `Calendar.PosixIsGregorian` | boot/uefi/time.c:37-83 | the year terms of the POSIX formula count the days of the calendar one year at a time |
| `Calendar.TableIsCalendar` | boot/uefi/time.c:111-115 | the table of months and the leap day are the calendar's days before each month |
| `Calendar.PosixFormula` | boot/uefi/time.c:109-135 | on normal fields from 1970 on `mktime` is the formula of section 4.16 of POSIX.1 |
| `VerticalGather.GatherLoop` | common/include/stb_image_resize2.h:6279-6338 | every output row is the weighted sum of its window's input lines, whatever the ring has evicted, for every window that stays within the ring |
| `VerticalGather.Split.constructor` | common/include/stb_image_resize2.h:6293-6296 | the ring starts empty just before the first window |
| `VerticalGather.Split.GetScanline` | common/include/stb_image_resize2.h:6198-6203 | the modular index finds the line of the row asked for |
| `VerticalGather.Split.LoadNext` | common/include/stb_image_resize2.h:6309-6330 | loading the next row evicts only the oldest line |
| `VerticalGather.Split.GatherRow` | common/include/stb_image_resize2.h:6227-6246 | chunks of up to eight lines add up to the whole weighted sum |
| `VerticalGather.GatherChunk` | common/include/stb_image_resize2.h:10083-10232 | a kernel stores or adds the weighted sum of its lines, sample by sample |
| `VerticalGather.NextRow` | common/include/stb_image_resize2.h:6298-6336 | one output row, with the horizontal pass before or after |
| `VerticalGather.NextLine` | common/include/stb_image_resize2.h:6311-6322 | a new line overwrites none that is still wanted |
| `VerticalGather.ForwardWindows` | common/include/stb_image_resize2.h:6305-6318 | windows that move forward and are no wider than the ring always stay within it |
| `VerticalGather.ExactUnlessLone` | common/include/stb_image_resize2.h:10096-10103 | the row differs from the plain weighted sum only for a lone coefficient near one that is not one, and then iff its line is not zero |
| `VerticalGather.OrderIsFree` | common/include/stb_image_resize2.h:6217-6256 | vertical first and horizontal first give the same row |
| `VerticalGather.NoOvershoot` | common/include/stb_image_resize2.h:6217-6256 | with weights that are not negative and add up to one over the rows n0 to n1, a gathered sample lies between the least and the greatest sample of those rows |
| `VerticalGather.TapsBetween` | common/include/stb_image_resize2.h:6205-6215 | a horizontal sample lies between the bounds of its inputs times the sum of its weights |
| `Pivot.Pivot` | common/include/stb_image_resize2.h:3969-4032 | the result is the transpose of the gather table iff inputs come into use from left to right and outputs fit the width; it then holds, for every output and input, the coefficient of the gather table if that is 2^-120 or more in size, and zero otherwise, and an input is marked unused iff it has no such coefficient |
| `Pivot.PivotRow` | common/include/stb_image_resize2.h:3974-4020 | all coefficients of one output keep the invariant and the exact record of loss |
| `Pivot.Record` | common/include/stb_image_resize2.h:3986-4016 | one coefficient is stored, added or skipped as the specification says |
| `Pivot.InsertCoeff` | common/include/stb_image_resize2.h:3355-3389 | inserting at or after a range extends it with zeros between, or does nothing when too wide |
| `Pivot.InsertAdds` | common/include/stb_image_resize2.h:3355-3389 | an insertion that fits adds the coefficient to what is said of its output and changes what is said of no other |
| `Pivot.StepKeeps` | common/include/stb_image_resize2.h:3986-4013 | a harmless coefficient loses nothing seen so far |
| `Pivot.StepHarms` | common/include/stb_image_resize2.h:3986-4013 | a harmful coefficient does lose something |
| `Pivot.HarmlessIff` | common/include/stb_image_resize2.h:3974-4020 | no coefficient is harmful iff use goes left to right and outputs fit the width |
| `Pivot.SignificantIs` | common/include/stb_image_resize2.h:3989-3989 | a coefficient is kept iff it is 2^-120 or more in size |
| `Pivot.TransposedIs` | common/include/stb_image_resize2.h:3974-4020 | the transpose, told without the skip test: every coefficient of 2^-120 or more is where it belongs and every other place holds zero |
| `Pivot.UnusedIff` | common/include/stb_image_resize2.h:4022-4032 | an input is left unused iff none of its coefficients is 2^-120 or more in size |
| `Pivot.ForwardRanges` | common/include/stb_image_resize2.h:3974-4020 | ranges that move forward with nothing skipped satisfy the condition |
| `Pivot.InteriorZeroLoses` | common/include/stb_image_resize2.h:3985-4005 | on a table with one zero inside a range, a coefficient of one that was stored is gone after the next row |
| `FancyAlpha.Weight` | common/include/stb_image_resize2.h:4186-4198 | widening in place from the far end of the buffer keeps each pixel as it was and adds its colours times its alpha |
| `FancyAlpha.Unweight` | common/include/stb_image_resize2.h:4273-4320 | narrowing in place, on any buffer, gives each pixel its weighted colours divided by its weighted alpha, or the plain colours when that alpha is below 2^-120 |
| `FancyAlpha.RoundTrip` | common/include/stb_image_resize2.h:4186-4320 | narrowing undoes widening on every row, near-zero alpha included |
| `FancyAlpha.WeightUnweight` | common/include/stb_image_resize2.h:4107-4320 | both in place, one after the other, leave the row at the front of the buffer |
| `Rational.DoubleToRational` | common/include/stb_image_resize2.h:7540-7615 | the first convergent within tolerance is returned, its numerator cut to 32 bits, if it comes before the limit, else the full-range fraction, which is exact and found when the limit times the factor, or the limit over it, is a whole number that fits; one reported as found is within tolerance iff it is full-range or the numerator was below 2^32, which a caller can ensure by a bound on the factor |
| `Rational.FullRangeAnswer` | common/include/stb_image_resize2.h:7598-7615 | the full-range branch: both parts cut to 32 bits and reported iff within tolerance |
| `Rational.FullRangeNearest` | common/include/stb_image_resize2.h:7598-7611 | the part chosen by the caller is the limit and the other the nearest whole number |
| `Rational.FullRangeExact` | common/include/stb_image_resize2.h:7598-7611 | when that whole number is exact the fraction is the factor |
| `Rational.CloseIs` | common/include/stb_image_resize2.h:7567-7567 | close enough is an error below 2^-24 |
| `Rational.CutIsFar` | common/include/stb_image_resize2.h:7570-7572 | a numerator of 2^32 or more, cut to 32 bits, is never within tolerance |
| `Rational.CutToZero` | common/include/stb_image_resize2.h:7562-7573 | a factor of 2^33 settles on 2^33/1, which is cut to 0/1 |
| `Rational.SettledConverges` | common/include/stb_image_resize2.h:7554-7595 | the expansion always settles on a convergent, at the limit or within tolerance |
| `Rational.SettledFirst` | common/include/stb_image_resize2.h:7554-7595 | it settles at the first state that has reached the limit or is within 2^-24, or where nothing is left |
| `Rational.NextConverges` | common/include/stb_image_resize2.h:7580-7595 | each step keeps the two linear identities and determinant one, and what is left shrinks |
| `Rational.ConvergentLowest` | common/include/stb_image_resize2.h:7554-7595 | every estimate is in lowest terms |
| `Rational.ConvergentBounded` | common/include/stb_image_resize2.h:7554-7595 | estimates never outgrow the fraction expanded |
| `Rational.FullyExpanded` | common/include/stb_image_resize2.h:7562-7578 | when nothing is left the estimate is exactly the fixed-point factor, and was accepted before |
| `Bitmap.ScanSingleZero` | kernel/util/bitmap.cpp:6-12 | the first zero bit, or none when all are set |
| `Bitmap.ScanChain` | kernel/util/bitmap.cpp:26-33 | the first word whose top bits pass, and the first offset that does |
| `Bitmap.ScanLong` | kernel/util/bitmap.cpp:16-25 | runs over a word: where the first zero word lies decides between a report at zero, a loop, a read past the bitmap and a difference with a null pointer |
| `Bitmap.LongRunTaken` | kernel/util/bitmap.cpp:16-25 | something is reported iff the words it covers are all in use and the next is zero; and exactly when the scan hangs, reads past the bitmap or subtracts from a null pointer |
| `Bitmap.ScanChainZeroes` | kernel/util/bitmap.cpp:13-34 | which of the three scans a length selects and exactly what each comes to |
| `Bitmap.ShiftedTest` | kernel/util/bitmap.cpp:28-30 | the shifted mask looks only at the bits from 64 - n + j on |
| `Bitmap.ReportedIs` | kernel/util/bitmap.cpp:28-31 | the highest one bit alone decides whether a word stops the scan and which offset it reports |
| `Bitmap.ReportedFree` | kernel/util/bitmap.cpp:26-33 | for every length up to a word, the exact condition on the word for the run reported to be free |
| `Bitmap.ShortRunMisses` | kernel/util/bitmap.cpp:26-33 | with one bit set, a scan for two reports a run over it iff it is one of the two lowest |
| `Bitmap.FreeIffZero` | kernel/util/bitmap.cpp:26-33 | from 32 bits on the run reported is free iff the word is zero |
| `Bitmap.WithBitAt` | kernel/util/bitmap.cpp:4-5 | setting or clearing a bit changes that bit of the bitmap and no other |
| `Bitmap.SetChainBits` | kernel/util/bitmap.cpp:35-55 | the bitmap afterwards, for every run of at least one bit, over any number of words |
| `Bitmap.ChainSetAt` | kernel/util/bitmap.cpp:35-55 | exactly which bits are set |
| `Bitmap.ChainSetExact` | kernel/util/bitmap.cpp:48-53 | they are those asked for iff the run is one bit, a word or more, inside a word, split in halves, or the difference was set already |
| `Bitmap.CrossingRunFalls` | kernel/util/bitmap.cpp:51-52 | three bits from bit 63 on: the last is not set |
| `MsiVectors.InterruptTable.AllocateVector` | kernel/arch/idt_amd64.cpp:116-138 | the lowest vector without an owner is taken, or none |
| `MsiVectors.InterruptTable.AllocateVectors` | kernel/arch/idt_amd64.cpp:139-163 | for every count the outcome is determined: a sound request gets the lowest free vector or the first free word, with every slot naming its vector; any other is placed where the scan reports, with the bits set and the stores past the table, or does not come back |
| `MsiVectors.InterruptTable.DeregisterOwner` | kernel/arch/idt_amd64.cpp:48-66 | exactly that owner's vectors are freed |
| `MsiVectors.InterruptTable.constructor` | kernel/arch/idt_amd64.cpp:14-15 | the reserved vectors start marked and nothing is owned |
| `MsiVectors.TakeRun` | kernel/arch/idt_amd64.cpp:144-161 | taking a free run keeps bits and owners in agreement |
| `MsiVectors.Release` | kernel/arch/idt_amd64.cpp:54-63 | releasing a slot clears the bit of the vector it names and no other |
| `MsiVectors.SmallRequestsUnsound` | kernel/arch/idt_amd64.cpp:139-144 | while the reserved vectors are marked no request for 2 to 31 vectors is sound |
| `MsiVectors.SmallOffTable` | kernel/arch/idt_amd64.cpp:139-156 | a request for 2 to 31 vectors always begins in the reserved ones, and its slots lie past the table |
| `MsiVectors.SoundAtBoot` | kernel/arch/idt_amd64.cpp:139-144 | at start-up the sound requests are those for one vector and for 40 to 64 |
| `MsiVectors.LedgerGrant` | kernel/arch/idt_amd64.cpp:116-163 | a grant of unowned vectors keeps all grants disjoint and complete |
| `MsiVectors.LedgerDrop` | kernel/arch/idt_amd64.cpp:48-66 | dropping an owner leaves exactly the other grants |
| `MsiVectors.Serve` | kernel/arch/idt_amd64.cpp:48-163 | over any run, up to the first request that is not sound: each request grants exactly the vectors it should or none when there are none, a drop takes exactly its owner's grants, and bits, slots and grants always agree |
| `MsiVectors.ServeOp` | kernel/arch/idt_amd64.cpp:48-163 | one request, with the exact effect on slots and grants, and whether it was sound |
| `MsiVectors.GrantLasts` | kernel/arch/idt_amd64.cpp:48-163 | over any run a grant stays until its owner is dropped and shares no vector with any other |
| `FdTable.FileTable.AddFd` | kernel/fs/filesystem.cpp:72-77 | terminates at the first descriptor that is free or the node's own, and displaces no one |
| `FdTable.FileTable.RegisterFd` | kernel/fs/filesystem.cpp:17-17 | the node is open under the first descriptor that is free or its own, again-registering changes nothing, and the reserved descriptors stay free iff the node carried none of them |
| `FdTable.FileTable.CloseFile` | kernel/fs/filesystem.cpp:78-93 | exactly when the table stays right, when another node loses its entry and when the reserved descriptors stay free |
| `FdTable.FileTable.MkPipe` | kernel/fs/filesystem.cpp:133-145 | two new nodes under the first two free descriptors |
| `FdTable.FileTable.Run` | kernel/fs/filesystem.cpp:17-145 | over any run each registration opens its node under the first free descriptor, each close, by node or by descriptor, removes exactly its node, each pipe adds two new ones, which can be closed too, and in every state each key is 3 or above and its node carries it |
| `FdTable.StaysPut` | kernel/fs/filesystem.cpp:17-145 | over any run an open node, also one opened on the way, keeps its descriptor until it is closed |
| `PathWalk.Split` | common/include/c++/algorithm:19-26 | the parts between separators, found by the loop |
| `PathWalk.PartsJoined` | common/include/c++/algorithm:19-26 | the parts hold no separator and rebuild the path up to one at its end |
| `PathWalk.JoinedUnique` | common/include/c++/algorithm:19-26 | parts that rebuild the same path are the same |
| `PathWalk.FileSystem.WalkNames` | kernel/fs/filesystem.cpp:205-227 | the loop's outcome is the resolution in the tree it leaves, and that tree is the old one with the missing directories, or the old one |
| `PathWalk.FileSystem.GetParent` | kernel/fs/filesystem.cpp:201-230 | a failure changes nothing, nothing is lost, and the answer is what resolution without creation gives afterwards: the names walked and the last name rebuild the path, and the directory is where the walk of those names ends |
| `PathWalk.NamesLast` | kernel/fs/filesystem.cpp:203-207 | the names walked, followed by the last name, are the parts of the path |
| `PathWalk.FileAtIs` | kernel/fs/filesystem.cpp:252-272 | a file is found iff the names lead to a directory that holds it under the last name |
| `PathWalk.DirectoryAtIs` | kernel/fs/filesystem.cpp:305-331 | the same for a directory |
| `PathWalk.WalkOneName` | kernel/fs/filesystem.cpp:207-222 | one name leads to a directory, is missing or is in the way, as the entry of that name says |
| `PathWalk.EmptyNamesSkip` | kernel/fs/filesystem.cpp:205-227 | empty names change no walk |
| `PathWalk.GrownWalks` | kernel/fs/filesystem.cpp:205-227 | creating fails exactly where resolution meets a file, and then changes nothing; otherwise the same walk succeeds afterwards |
| `PathWalk.GrownAdds` | kernel/fs/filesystem.cpp:209-217 | exactly one chain of the missing directories is added under the deepest existing one |
| `PathWalk.WalkLasts` | kernel/fs/filesystem.cpp:205-227 | every successful resolution is the same in every larger tree |
| `PathWalk.FileSystem.OpenDirectory` | kernel/fs/filesystem.cpp:305-331 | the lookup and creation of directories: opening with creation answers what opening without it answers afterwards, failing only on a file in the way and then changing nothing; the empty path and a lone separator give the root and change nothing |
| `PathWalk.FileSystem.OpenFile` | kernel/fs/filesystem.cpp:252-272 | the lookup and creation of files: the answer is what opening without creation gives afterwards, failing only on something in the way and then changing nothing |
| `Vfs.FileSystemTable.OpenFile` | kernel/fs/filesystem.cpp:252-286 | a file found or made, that opens and is allowed, is registered under the first free descriptor or the one it has; every other outcome leaves the table alone |
| `Vfs.FileSystemTable.OpenDirectory` | kernel/fs/filesystem.cpp:305-331 | a directory found or made is registered under the first free descriptor or the one it has, the root under its own names is not |
| `Vfs.FileSystemTable.OpenTwice` | kernel/fs/filesystem.cpp:252-286 | opening with creation and then without gives the same descriptor, and fails exactly when a directory or a file is in the way |

## Left out

- Hardware and firmware plumbing: protocol calls, file, console and serial I/O, graphics, CR3, APIC, PCI.
- Locks and interrupts: runs of the interrupt table are serialised, as its lock makes them.
- Null arguments of C functions and `errno`; a null argument of the start-up code counts as an empty one.
- QuickSort.Qsort: arrays of more than 2^31 - 1 elements are excluded, because a block length is narrowed to `int`; elements are moved whole and not by bytes or longs.
- PageTables.MapIdPages: frames that come with entries marked present are excluded; the loader neither clears them nor looks at what they hold.
- MemoryMap.Merge: 64-bit wrap-around of a descriptor's end is not modelled; firmware addresses are far below it.
- AllocTracker.Allocator.AllocatePool: whether the pool grants a request is a parameter, and the address is any fresh one; pool types, alignment and 64-bit wrap of sizes are not modelled, and neither is `calloc`.
- Utf8.MbsToWcs: texts whose last character is cut off by the terminator are excluded, because the source reads past them.
- Argv.Pack: a block size beyond `int` is excluded, because the source computes it in one.
- NumberText.FormatDecimal: the least 64-bit number is excluded for signed conversions, because negating it overflows.
- NumberText.CopyString: line feeds and `%q` escapes are not modelled; number text has neither.
- NumberText.Strtol: values beyond 63 bits are excluded, because the source overflows on them.
- VerticalGather.GatherLoop: exact reals in place of floats; pixel decoding, the horizontal filter's own table and SIMD variants are parameters or left out.
- Pivot.InsertCoeff: insertion before a range is not modelled; the pivot never does it. The input margin is folded into the input numbering.
- Bitmap.SetChainBits: a run of no bits is excluded, because the source then shifts by the width of a word.
- MsiVectors.InterruptTable.AllocateVectors: what stores past the slot table hit is not modelled, nor is a null owner; a request for no vectors is a shift that C leaves undefined.
- FdTable.FileTable.MkPipe: the hash tables are maps; rehashing and the table of pipes are not modelled, a pipe is a new node.
- PathWalk.FileSystem.GetParent: mounts, symbolic links, permissions and a directory that cannot be made are not modelled.
- PathWalk.FileSystem.OpenDirectory: registering the node opened is not part of it; `Vfs` adds that.
- PathWalk.FileSystem.OpenFile: opening, permission and registering are not part of it; `Vfs` adds them.
- Vfs.FileSystemTable.OpenFile: what a node's own open and the permission check say are parameters, and so is the descriptor that a file system gives a new node; the mode is not modelled.
- Reference-counted deletion (`unlink`, `xunlink`): the node is read after its reference is gone.
- File systems on disk (ext, FAT32), scheduling, the C++ containers and everything else in the kernel.
