# Boot loader algorithms in Dafny

A model of the stateful and arithmetic core of a U-Boot 2019.10 tree and its vendor libraries, with proofs of
what that code keeps, undoes and computes. `dafny verify dfyconfig.toml` checks everything.

| files | what they model |
|---|---|
| NumText, PartText, PartList, DeviceText, TableRoundTrip | the `mtdparts` grammar: sizes, definitions, sorted lists, devices, and printing against parsing |
| MtdState, MtdProofs, MtdLookup, MtdWitness, MtdTable | the partition table as a state machine over its commands, its text cache, its current partition, lookup by name and number, and the mutable table itself |
| Sha256 | SHA-256 as FIPS 180-4 defines it, both transforms, and the streaming context |
| Kermit, KermitReceiver, KermitLine | the Kermit receiver as a protocol of packet attempts with checkpoint and rollback, as code writing to memory, and from the characters on the line to the file |
| SRecord | the S-record writer |
| StorageEnum | the cookie-driven enumeration of storage devices |
| Crc32, Crc32Table | CRC-32 as a bit-serial shift register (section 8 of RFC 1952), its table- and word-driven forms, and the table literal |
| EfiMap | sorting and in-place coalescing of the EFI memory map (section 7.2 of the UEFI Specification) |
| FlashSectors, Eeprom, MtdIo | sector ranges, page-bounded EEPROM transfers, bad-block-skipping page I/O |
| MemTest | the RAM tests over a memory whose addresses may alias |
| Base | what these share |

Where the code does not do what its comments or the obvious reading promise, the code is modelled as it is and the
exact condition is proved:

- printing and parsing a partition table are inverse only for tables that meet the condition in
  `TableRoundTrip.TableReadable`; runs of equal offsets come back reversed, fill-up partitions below the minimum size
  and a first id that begins with `mtdparts=` do not come back at all;
- removing a partition that follows the current one at the same offset sends the current number to another partition;
- an inactive storage device hides the active ones behind it in its group;
- a flash range that ends at the top of the address space can also select a bank at zero, and the empty range at zero
  selects all of a flash that fills the address space;
- an EEPROM transfer that fails is forgotten when a later one succeeds, and the command reports success;
- a Kermit packet with a garbled length or number discards the packet accepted before it;
- a size that is printed without a suffix is read back only in front of a character that cannot extend it;
- the comparison used to sort the EFI map is an order only for addresses less than 2^63 apart, and a descriptor that ends
  at the top of the address space is joined with one at zero.

## Model

| member | source | states |
|---|---|---|
| MtdProofs.CacheAgrees | boot/u-boot_2019_10/cmd/mtdparts.c:1721-1861 | Over every sequence of init, add, del, delall and chpart commands from start-up in which each printed table is readable: whenever mtdparts_init then succeeds with `mtdparts` set, the device list in memory is a fresh parse of the environment strings, also when parsing was skipped (generated names apart). |
| MtdProofs.CacheAgreesOnlyThen | boot/u-boot_2019_10/cmd/mtdparts.c:1210-1222 | Readability is exactly what is needed: right after a command that printed the table, mtdparts_init skips both parsers and keeps the list, and the list equals a fresh parse if and only if the printed table was readable. |
| MtdProofs.ExecAgrees | boot/u-boot_2019_10/cmd/mtdparts.c:1956-2072 | One command keeps the agreement between the remembered texts and the list if and only if it does not print an unreadable table. |
| MtdProofs.InitAgrees | boot/u-boot_2019_10/cmd/mtdparts.c:1721-1861 | mtdparts_init keeps the agreement on every path, and success with `mtdparts` set leaves a fresh table. |
| MtdProofs.GenerateAgrees | boot/u-boot_2019_10/cmd/mtdparts.c:1210-1222 | Remembering the printed text keeps the agreement if and only if the table is readable or nothing was printed. |
| MtdProofs.RunAgrees | boot/u-boot_2019_10/cmd/mtdparts.c:1721-1861 | The agreement holds in every state of every run that prints only readable tables. |
| MtdProofs.RunKeeps | boot/u-boot_2019_10/cmd/mtdparts.c:1956-2072 | Every reachable table is well formed: sorted and validated partitions, at most one at offset zero, num_parts equal to the list length, one entry per device, ids without a colon, a current device exactly when there is one. |
| MtdProofs.ExecKeeps | boot/u-boot_2019_10/cmd/mtdparts.c:1956-2072 | Each command preserves that invariant, failing paths included. |
| MtdProofs.InitKeeps | boot/u-boot_2019_10/cmd/mtdparts.c:1721-1861 | So does mtdparts_init. |
| MtdProofs.ParseTableOk | boot/u-boot_2019_10/cmd/mtdparts.c:1553-1601 | A successful parse of any text gives a well-formed table that is not empty. |
| MtdWitness.CacheDisagrees | boot/u-boot_2019_10/cmd/mtdparts.c:1956-2072 | A concrete board and run, naming a device and adding two partitions at one offset: the last command prints an unreadable table, and mtdparts_init then succeeds with a list that is not a fresh parse of the environment. |
| MtdProofs.EqualOffsetsComeBackSwapped | boot/u-boot_2019_10/cmd/mtdparts.c:951-959 | Two different partitions at one offset never survive printing and parsing. |
| MtdProofs.SmallFillUpIsNotReadBack | boot/u-boot_2019_10/cmd/mtdparts.c:602-640 | A partition below MIN_PART_SIZE, which the fill-up form can create, is printed but not read back. |
| MtdProofs.PrintedInSync | boot/u-boot_2019_10/cmd/mtdparts.c:1210-1222 | After a command that prints, the remembered texts are the environment strings themselves. |
| MtdProofs.InitSkips | boot/u-boot_2019_10/cmd/mtdparts.c:1721-1861 | With the remembered texts equal to the environment, mtdparts_init only selects the current partition. |
| MtdProofs.FoundIsThere | boot/u-boot_2019_10/cmd/mtdparts.c:1348-1400 | Whatever find_dev_and_part returns is on the list, by name or by number. |
| MtdProofs.AddKeepsCurrent | boot/u-boot_2019_10/cmd/mtdparts.c:517-571 | Linking a partition leaves the current number on the same partition, equal offsets included, if and only if that number is not the last an 8-bit counter can hold with the insertion at or before it. |
| MtdProofs.DelKeepsCurrent | boot/u-boot_2019_10/cmd/mtdparts.c:452-489 | Unlinking another partition leaves the current number on the same partition if and only if the one removed does not follow it at the same offset. |
| MtdProofs.DelLosesCurrent | boot/u-boot_2019_10/cmd/mtdparts.c:452-489 | A concrete list where removing a later partition at the same offset sends the current number to 255. |
| MtdProofs.PartDelKeeps | boot/u-boot_2019_10/cmd/mtdparts.c:452-489 | part_del, with device_del for the last partition, preserves the invariant. |
| MtdProofs.PartAddKeeps | boot/u-boot_2019_10/cmd/mtdparts.c:580-588 | part_add preserves the invariant, refusals included. |
| MtdProofs.DeviceDelKeeps | boot/u-boot_2019_10/cmd/mtdparts.c:762-784 | device_del preserves the invariant and moves the current device. |
| TableRoundTrip.TableRoundTrips | boot/u-boot_2019_10/cmd/mtdparts.c:1085-1200 | Parsing the printed table rebuilds the same devices, sizes, offsets, user names and ro flags if and only if the table is readable: known ids, sizes at least MIN_PART_SIZE with a fill-up size only at the end, runs of equal offsets symmetric, and a first id that does not begin with the `mtdparts=` prefix. |
| TableRoundTrip.DeviceReadsBack | boot/u-boot_2019_10/cmd/mtdparts.c:841-965 | The same if-and-only-if for one device in front of any text, with the exact rest left over. |
| TableRoundTrip.DevicesReadBack | boot/u-boot_2019_10/cmd/mtdparts.c:1553-1601 | The same for any suffix of the device list behind devices already parsed. |
| TableRoundTrip.PrefixLost | boot/u-boot_2019_10/cmd/mtdparts.c:1553-1570 | A first id that begins with the prefix is never read back. |
| TableRoundTrip.StrictIsSymmetric | boot/u-boot_2019_10/cmd/mtdparts.c:951-959 | Strictly increasing offsets satisfy the symmetry condition. |
| DeviceText.DefsReadBack | boot/u-boot_2019_10/cmd/mtdparts.c:1115-1180 | The printed definition list, offsets written only at gaps, parses back if and only if its sizes are readable, and stops at the text behind it. |
| DeviceText.ParseDefsShrinks | boot/u-boot_2019_10/cmd/mtdparts.c:841-965 | The definition parser never produces more text than it was given. |
| PartText.PartReadsBack | boot/u-boot_2019_10/cmd/mtdparts.c:602-710 | One printed definition parses if and only if its size is readable, and gives back size, offset, user name and flag. |
| PartText.ParsePartShape | boot/u-boot_2019_10/cmd/mtdparts.c:602-710 | A parsed definition consumes text, and its name is generated or not empty and free of closing brackets. |
| PartText.ValidateSettles | boot/u-boot_2019_10/cmd/mtdparts.c:416-443 | A validated partition validates again unchanged, is not empty and lies inside the device; only a fill-up size is altered. |
| PartList.SortInsertSorted | boot/u-boot_2019_10/cmd/mtdparts.c:517-571 | Sorted insertion keeps the list sorted and one longer. |
| PartList.InsertPart | boot/u-boot_2019_10/cmd/mtdparts.c:517-571 | The list walk computes the insertion point that lies behind exactly the lower offsets, and refuses a second partition at offset zero. |
| PartList.InsertAllMirrors | boot/u-boot_2019_10/cmd/mtdparts.c:951-959 | Linking a sorted list partition by partition reverses exactly the runs of equal offsets. |
| NumText.MemsizeRoundTrip | boot/u-boot_2019_10/cmd/mtdparts.c:173-223 | For every 64-bit size and every text behind it, parsing the printed size returns it and stops just behind if and only if the size is a multiple of 1024 or the next character cannot extend a number. |
| NumText.SimpleStrtoull | boot/u-boot_2019_10/lib/strto.c:128-147 | The digit loop computes base detection and the 64-bit wrapping value, and stops at the first character that is no digit of the base. |
| NumText.ScanDecimal | boot/u-boot_2019_10/cmd/mtdparts.c:173-223 | Scanning printed digits accumulates the number printed, whatever follows. |
| MtdTable.ParseText | boot/u-boot_2019_10/cmd/mtdparts.c:1553-1601 | The device loop returns the table the grammar gives the text. |
| MtdTable.DeviceParse | boot/u-boot_2019_10/cmd/mtdparts.c:841-965 | Name, definitions and linking together return the device the grammar gives the text. |
| MtdTable.ParseIdText | boot/u-boot_2019_10/cmd/mtdparts.c:1611-1712 | The entry loop returns the mtdids list the grammar gives the text, or the error and the list it leaves. |
| MtdTable.Generate | boot/u-boot_2019_10/cmd/mtdparts.c:1085-1200 | Piecewise printing yields the whole table text exactly when it fits the buffer, and an error otherwise. |
| MtdTable.PutPut | boot/u-boot_2019_10/cmd/mtdparts.c:1085-1110 | Writing piece by piece overflows exactly when writing all at once would. |
| MtdTable.FindPart | boot/u-boot_2019_10/cmd/mtdparts.c:1348-1400 | The search returns the first partition of that name over all devices, else the one addressed by device and number. |
| MtdLookup.ParsedIdsOk | boot/u-boot_2019_10/cmd/mtdparts.c:1611-1712 | Whatever the text, no device is listed twice, only devices of the board are listed, with their sizes, and success never gives an empty list. |
| MtdLookup.RunFindsCurrent | boot/u-boot_2019_10/cmd/mtdparts.c:273-294 | After every run from start-up, for each partition an 8-bit number can name: the text that current_save publishes for it is resolved by find_dev_and_part to the same partition if and only if no partition bears that text as its name first. |
| MtdLookup.CurrentIsFoundAgain | boot/u-boot_2019_10/cmd/mtdparts.c:273-294 | The same for any well-formed table of known devices. |
| MtdLookup.RunKnown | boot/u-boot_2019_10/cmd/mtdparts.c:1721-1861 | In every run the mtdids list names each device once, and every device on the list or in the table is one of the board. |
| MtdLookup.FirstOfName | boot/u-boot_2019_10/cmd/mtdparts.c:1348-1366 | The search by name returns the first partition so named, device by device, and fails only when there is none. |
| MtdLookup.DevIdReadsBack | boot/u-boot_2019_10/cmd/mtdparts.c:1043-1075 | A printed device type and number is parsed back, the rest of the text left over. |
| MtdTable.PartTable.Do | boot/u-boot_2019_10/cmd/mtdparts.c:1956-2072 | One command on the mutable table: the invariant is kept, and the agreement if and only if no unreadable table was printed. |
| MtdTable.PartTable.InitTable | boot/u-boot_2019_10/cmd/mtdparts.c:1721-1861 | mtdparts_init on the mutable table: invariant and agreement kept, a fresh table on success. |
| MtdTable.PartTable.AddPartition | boot/u-boot_2019_10/cmd/mtdparts.c:517-571 | Linking in place changes list, counter and current number as specified and nothing else. |
| MtdTable.PartTable.DelPartition | boot/u-boot_2019_10/cmd/mtdparts.c:452-489 | Unlinking in place likewise, and removes an emptied device. |
| MtdTable.PartTable.GenerateAndSave | boot/u-boot_2019_10/cmd/mtdparts.c:1210-1222 | Prints, sets `mtdparts` and remembers the text, or forgets both. |
| MtdTable.PartTable.constructor | boot/u-boot_2019_10/cmd/mtdparts.c:972-979 | The start-up state satisfies the invariant and the agreement. |
| Sha256.HashChunks | boot/common/lib/sha2.c:455-562 | For every message and every split of it into Update calls, Final yields the digest of the padded message of FIPS 180-4 sections 5.1.1 and 6.2.2 (length field modulo 2^64). |
| Sha256.Context.Update | boot/common/lib/sha2.c:455-499 | The context keeps standing for the bytes passed in so far: chaining value of the whole blocks, buffered rest, bit counter modulo 2^64. |
| Sha256.Context.Pad | boot/common/lib/sha2.c:501-542 | Leaves the chaining value of the whole padded message, in one or two more blocks. |
| Sha256.Context.Final | boot/common/lib/sha2.c:544-562 | Returns the digest of everything passed in and wipes the context. |
| Sha256.Context.Init | boot/common/lib/sha2.c:286-295 | A fresh context stands for the empty message. |
| Sha256.PadInTwo | boot/common/lib/sha2.c:501-542 | When the length field does not fit, the padded message is exactly two more blocks. |
| Sha256.PadInOne | boot/common/lib/sha2.c:501-542 | When it fits, exactly one. |
| Sha256.Transform | boot/common/lib/sha2.c:380-451 | The loop with the 16-word circular buffer computes the compression function over the 64-word schedule. |
| Sha256.TransformUnrolled | boot/common/lib/sha2.c:322-376 | The unrolled form with renamed registers computes the same function, for every state and block. |
| Sha256.RoundInPlace | boot/common/lib/sha2.c:301-320 | One macro round, given renamed registers, is one round of the standard and advances the window. |
| Sha256.WindowStep | boot/common/lib/sha2.c:310-320 | The expansion in the window equals the schedule word of that round and keeps the window. |
| Sha256.ShiftBytesAreBigEndian | boot/common/lib/sha2.c:501-542 | The eight shifted bytes are the big-endian length field. |
| Sha256.UsedSpace | boot/common/lib/sha2.c:455-499 | The wrapped bit counter still gives the fill of the buffer. |
| Kermit.OrderlyRunDelivers | boot/u-boot_2019_10/cmd/load.c:773-947 | For every run in which each packet is repeated any number of times, its last attempt is accepted and consecutive numbers differ: the image is the decoding of the concatenated data of the accepted attempts, each exactly once. |
| Kermit.RunDelivers | boot/u-boot_2019_10/cmd/load.c:773-947 | For every run of attempts whatever: the image is the decoding, in order, of the data of the last attempt of each block of equal numbers, and of nothing else. |
| Kermit.Checkpoint | boot/u-boot_2019_10/cmd/load.c:602-624 | The saved state is always the state before the current block of attempts. |
| Kermit.GarbledDropsAccepted | boot/u-boot_2019_10/cmd/load.c:834-947 | Outside the stated assumption: a garbled length or number character discards the packet accepted before it. |
| Kermit.DecodeInvertsEncode | boot/u-boot_2019_10/cmd/load.c:644-678 | Unquoting inverts control prefixing for every byte string and every legal quote character. |
| Kermit.KtransInverts | boot/u-boot_2019_10/cmd/load.c:546-554 | ktrans undoes the control transformation and leaves a doubled quote alone. |
| Kermit.FileArrives | boot/u-boot_2019_10/cmd/load.c:773-947 | A quoted file split into packets anywhere, also between a quote and its character, arrives byte for byte. |
| KermitReceiver.Receive | boot/u-boot_2019_10/cmd/load.c:773-947 | For every character stream: the transfer finishes if and only if the attempts on the line end with an accepted break packet, and memory then holds what these attempts deliver, at the reported size; otherwise the size is zero. |
| KermitLine.PacketScans | boot/u-boot_2019_10/cmd/load.c:773-947 | A packet framed by the protocol, short or with an extended header and behind any noise, is accepted whole and nothing behind it is touched. |
| KermitLine.LineDelivers | boot/u-boot_2019_10/cmd/load.c:773-947 | Whatever characters stand for each attempt, damaged and repeated ones included: a line on which every packet is finally accepted, up to one break packet, delivers exactly the file that was quoted. |
| KermitLine.FileCrosses | boot/u-boot_2019_10/cmd/load.c:773-947 | The text of an S packet, of packets of other types with the quoted file split over the data packets anywhere, and of a B packet delivers exactly the file. |
| KermitLine.ReceiveFile | boot/u-boot_2019_10/cmd/load.c:773-947 | On that text k_recv finishes with the size of the file, and memory holds the file. |
| KermitReceiver.Receiver.Packet | boot/u-boot_2019_10/cmd/load.c:773-947 | One packet attempt on the mutable receiver is one step of the protocol model, with memory written in place. |
| KermitReceiver.Receiver.PutDataChar | boot/u-boot_2019_10/cmd/load.c:663-678 | One data character changes image and escape flag as the decoder does. |
| KermitReceiver.Receiver.StoreByte | boot/u-boot_2019_10/cmd/load.c:626-633 | Stores behind the current end without touching what the checkpoint covers. |
| KermitReceiver.Receiver.Save | boot/u-boot_2019_10/cmd/load.c:651-655 | The checkpoint becomes the current state. |
| KermitReceiver.Receiver.Restore | boot/u-boot_2019_10/cmd/load.c:657-661 | The current state becomes the checkpoint. |
| KermitReceiver.Receiver.TakeParms | boot/u-boot_2019_10/cmd/load.c:686-736 | The quote character is the one announced, or the default in a short packet. |
| SRecord.SaveSerial | boot/u-boot_2019_10/cmd/load.c:309-367 | For every 32-bit address and every count: the text is header, records and trailer; each record has 1 to 16 bytes, all but the last 16; their cells are exactly the requested ones in order; bytes and checksum add up to 0xFF. |
| SRecord.ChecksumCloses | boot/u-boot_2019_10/cmd/load.c:309-367 | The checksum byte completes the sum to 0xFF modulo 256. |
| SRecord.TextReadsBack | boot/u-boot_2019_10/cmd/load.c:309-367 | Reading the hexadecimal text of a record gives back its length, address, data and checksum bytes. |
| StorageEnum.EnumerateAll | boot/u-boot_2019_10/api/api.c:197-227 | Repeated calls from a null cookie return exactly the listing and then clear the cookie. |
| StorageEnum.ListingIsExact | boot/u-boot_2019_10/api/api_storage.c:98-154 | The listing is strictly increasing, so nothing comes twice; it holds the network device if there is one and exactly the active devices with no inactive one before them in their group. |
| StorageEnum.AllActiveListed | boot/u-boot_2019_10/api/api_storage.c:98-154 | Every active device is returned if and only if none sits behind an inactive one of its group. |
| StorageEnum.CallStarts | boot/u-boot_2019_10/api/api.c:197-227 | A null cookie starts the listing over, whatever flags an earlier run left. |
| StorageEnum.CallAdvances | boot/u-boot_2019_10/api/api_storage.c:180-291 | A call in mid-run moves exactly one device on. |
| StorageEnum.EnterGroup | boot/u-boot_2019_10/api/api_storage.c:180-268 | Entering a group finds its next active device or leaves the group for good. |
| StorageEnum.Enumerator.Call | boot/u-boot_2019_10/api/api.c:197-227 | The call on the mutable flags and cookie is one step of the model. |
| StorageEnum.Enumerator.Get | boot/u-boot_2019_10/api/api_storage.c:98-154 | The two slot loops find the slot behind the cookie and the next occupied one. |
| StorageEnum.Enumerator.EnumGroup | boot/u-boot_2019_10/api/api_storage.c:180-268 | The flag and cookie updates of one group are those of the model. |
| Crc32.Crc32NoComp | boot/common/lib/crc32.c:163-201 | For every buffer, start alignment and initial value, the align, word and tail loops equal the bit-serial shift register for 0xedb88320. |
| Crc32.Crc32Whole | boot/common/lib/crc32.c:204-207 | The same between the two complements. |
| Crc32.Crc32Wd | boot/common/lib/crc32.c:213-236 | Chunks of any positive size give the CRC of the whole buffer. |
| Crc32.CrcChains | boot/common/lib/crc32.c:204-236 | Continuing from the CRC of a first part gives the CRC of the joined buffer. |
| Crc32.MakeTable | boot/common/lib/crc32.c:56-77 | Every table entry is eight shifts of its index, with the polynomial assembled from its exponents. |
| Crc32Table.LiteralIsTable | boot/common/lib/crc32.c:84-148 | The table literal of the default build holds the same 256 entries. |
| Crc32Table.CrcByLiteral | boot/common/lib/crc32.c:213-236 | With the literal, crc32_wd gives the CRC of the buffer for every alignment, length and chunk size. |
| Crc32.LookupIsByte | boot/common/lib/crc32.c:153 | One table lookup is eight steps of the shift register on one byte. |
| Crc32.WordIsFourBytes | boot/common/lib/crc32.c:163-201 | Xoring a little-endian word and shifting 32 times equals four bytes in turn. |
| Crc32.LowByteDecides | boot/common/lib/crc32.c:153 | Eight shifts act on the low byte alone and move the rest down. |
| EfiMap.BuildMemTable | boot/u-boot_2019_10/cmd/efi.c:71-122 | For every map whose descriptors end below 2^64, in any order and overlapping or not: every address keeps its type (boot services as conventional when skipped), total pages are kept, the table ends with the marker, and with skip_bs no two conventional neighbours abut. For a map without empty or overlapping descriptors, less than 2^63 apart, the table is sorted without overlap. |
| EfiMap.CoalesceInPlace | boot/u-boot_2019_10/cmd/efi.c:86-119 | The aliasing in-place pass computes the coalesced sequence of the original descriptors. |
| EfiMap.CoalesceKeepsTypes | boot/u-boot_2019_10/cmd/efi.c:86-119 | Coalescing changes the type of no address, for every sequence of descriptors that end below 2^64. |
| EfiMap.CoalesceShape | boot/u-boot_2019_10/cmd/efi.c:86-119 | For every such sequence coalescing keeps page total and end, and leaves no abutting conventional neighbours when boot services are skipped. |
| EfiMap.CoalesceLayout | boot/u-boot_2019_10/cmd/efi.c:86-119 | Descriptors in order, not empty and apart stay so. |
| EfiMap.WrapJoins | boot/u-boot_2019_10/cmd/efi.c:86-119 | A descriptor that ends at the top of the address space is joined with one behind it at zero, and the address zero loses its type. |
| EfiMap.CompareIsOrder | boot/u-boot_2019_10/cmd/efi.c:58-69 | The comparison by signed difference orders two addresses correctly if and only if their distance fits a signed 64-bit number. |
| EfiMap.Sort | boot/u-boot_2019_10/cmd/efi.c:71-84 | Sorting by that comparison permutes the descriptors and orders them when all lie less than 2^63 apart. |
| FlashSectors.PlanInside | boot/u-boot_2019_10/cmd/flash.c:187-268 | Whenever a range is accepted, every selected sector lies wholly inside it, if and only if the range does not end at the top of the address space with a bank at zero listed behind a bank at the top. |
| FlashSectors.WrapTakesTooMuch | boot/u-boot_2019_10/cmd/flash.c:187-268 | A concrete pair of banks where the wrapped address also selects the bank at zero. |
| FlashSectors.FillSectRanges | boot/u-boot_2019_10/cmd/flash.c:187-268 | The bank loop returns the planned first and last sectors per bank and their exact number, or refuses when the plan does. |
| FlashSectors.ScanBank | boot/u-boot_2019_10/cmd/flash.c:196-226 | The sector loop notes the sector that starts at the first address and the one that ends at the last. |
| FlashSectors.PlanTiles | boot/u-boot_2019_10/cmd/flash.c:187-268 | The selected runs lie end to end from the first address, if and only if the range does not end at the top of the address space with a bank at zero listed behind a bank at the top. |
| FlashSectors.TilesBelowTop | boot/u-boot_2019_10/cmd/flash.c:187-268 | Below the top of the address space they always do, inside the range. |
| FlashSectors.BoundariesArePlanned | boot/u-boot_2019_10/cmd/flash.c:187-268 | In contiguous banks a range from a sector start to a sector end, up to the last address there is, is always accepted and tiled exactly. |
| FlashSectors.StartMissed | boot/u-boot_2019_10/cmd/flash.c:187-268 | In contiguous banks a range that ends with a sector but does not start with one is refused. |
| FlashSectors.PlannedExactly | boot/u-boot_2019_10/cmd/flash.c:187-268 | In contiguous banks, for a range that ends in flash: something is selected if and only if the range starts and ends with a sector, and then the sectors tile it exactly. |
| FlashSectors.PlanReachesEnd | boot/u-boot_2019_10/cmd/flash.c:187-268 | In contiguous banks a plan that selects anything tiles the whole of a range that ends in flash. |
| FlashSectors.RoundUp | boot/u-boot_2019_10/cmd/flash.c:91-127 | The result is the end of the sector that holds the address, or an error exactly when no sector does. |
| FlashSectors.LeastEnd | boot/u-boot_2019_10/cmd/flash.c:91-127 | No sector ends between an address and that end. |
| FlashSectors.PlanLength | boot/u-boot_2019_10/cmd/flash.c:146-185 | The "+len" form over contiguous banks, for every start and length. A length above zero is accepted if and only if the range starts with a sector, does not overflow and ends in flash, and is not the single byte of a one-byte sector; the sectors then tile exactly the least sector cover of [first, first + length). Length zero is accepted if and only if the start is zero, a sector starts there and flash reaches the last address; all sectors are then taken. |
| FlashSectors.ComparisonDecides | boot/u-boot_2019_10/cmd/flash.c:378-385 | Comparing the start with the rounded end decides exactly that acceptance. |
| FlashSectors.EmptyRangeTakesAll | boot/u-boot_2019_10/cmd/flash.c:146-185 | A concrete bank that fills the address space, where start zero with length zero is accepted and takes all of it. |
| Eeprom.EepromWrite | boot/u-boot_2019_10/cmd/eeprom.c:162-217 | On a chip whose address counter wraps within a page, and for any pattern of failing transfers: the transfers lie end to end, each non-empty, at most I2C_RXTX_LEN, inside one page and one 256-byte block; what a transfer covers is the data if it succeeded and as before if it failed, all else unchanged; the result is that of the last transfer; a zero result means one flat write if and only if no earlier failing transfer covered bytes that differ; an overflowing range writes nothing. |
| Eeprom.ZeroMeansAll | boot/u-boot_2019_10/cmd/eeprom.c:162-189 | A zero result stands for the whole range, read or written, if and only if every earlier transfer that failed would have changed nothing. |
| Eeprom.FailureIsMasked | boot/u-boot_2019_10/cmd/eeprom.c:162-189 | Two pages of which the first fails: the result is zero and the first page is as it was. |
| Eeprom.TransfersChain | boot/u-boot_2019_10/cmd/eeprom.c:162-189 | The transfers are proper and lie end to end over the range. |
| Eeprom.TransferIsProper | boot/u-boot_2019_10/cmd/eeprom.c:105-126 | The computed length never crosses a page or block and is never zero or beyond the range. |
| Eeprom.ChipWrite | boot/u-boot_2019_10/cmd/eeprom.c:128-160 | Inside a page, byte-by-byte writing through the wrapping counter is a flat write. |
| Eeprom.EepromRead | boot/u-boot_2019_10/cmd/eeprom.c:162-199 | The same for reading: failed transfers leave their share of the buffer, and a zero result means the flat contents if and only if no earlier failure mattered. |
| MtdIo.WriteThenRead | boot/u-boot_2019_10/cmd/mtd.c:323-359 | With any bad blocks, and the pages the transfer gets to erased: writing a buffer (with or without all-0xff pages) and reading from the same page returns the buffer, whenever there are enough good pages. |
| MtdIo.WriteBuffer | boot/u-boot_2019_10/cmd/mtd.c:329-359 | When the pages the transfer gets to are erased: the pages used hold the buffer afterwards, no page of a bad block changes, and no page but those used does. |
| MtdIo.ReachedIsUsed | boot/u-boot_2019_10/cmd/mtd.c:329-359 | The pages a transfer gets to are the pages it uses whenever it finds enough. |
| MtdIo.ReadBuffer | boot/u-boot_2019_10/cmd/mtd.c:329-359 | The buffer returned is the content of the same pages in order. |
| MtdIo.PagesUsedAreGood | boot/u-boot_2019_10/cmd/mtd.c:323-359 | Every page touched is on the device, in a good block and touched once, also from an offset inside a bad block. |
| MtdIo.PagesUsedAreFirst | boot/u-boot_2019_10/cmd/mtd.c:323-359 | A transfer finds its pages if and only if enough good ones follow the first page used, and leaves none of them out. |
| MtdIo.SeekIsFirst | boot/u-boot_2019_10/cmd/mtd.c:323-326 | The first page used lies whole blocks behind the start, every block passed over being bad. |
| MtdIo.IsEmpty | boot/u-boot_2019_10/cmd/mtd.c:180-194 | True exactly for data that is all 0xff. |
| MemTest.QuickTest | boot/u-boot_2019_10/cmd/mem.c:793-850 | On memory whose only fault is aliasing, the errors reported are exactly the words minus the distinct cells reached, for either direction and every pattern; each cell reached holds the word of the last offset that reaches it, and other cells are untouched. |
| MemTest.OddTurnsRound | boot/u-boot_2019_10/cmd/mem.c:802-816 | At every offset an odd iteration writes the complement of what an even one writes, or its negative when bit 31 of the pattern is set. |
| MemTest.AllDistinct | boot/u-boot_2019_10/cmd/mem.c:793-850 | There are as many cells as words, so no error, if and only if no two offsets reach one cell. |
| MemTest.AddressLines | boot/u-boot_2019_10/cmd/mem.c:675-727 | The phase reports exactly the clashes of zero with the powers of two and of each power with the others. |
| MemTest.WalkingOnesExact | boot/u-boot_2019_10/cmd/mem.c:675-727 | That number is zero if and only if zero and all powers of two in range reach different cells. |
| MemTest.DataLines | boot/u-boot_2019_10/cmd/mem.c:612-639 | The data-line phase reports an error if and only if the first word and the parking word are one cell. |
| MemTest.CheckAndInvert | boot/u-boot_2019_10/cmd/mem.c:751-769 | The second pass counts exactly the words that share a cell with another. |
| MemTest.CheckAndClear | boot/u-boot_2019_10/cmd/mem.c:771-788 | So does the third, and leaves every word zero. |
| MemTest.AltTest | boot/u-boot_2019_10/cmd/mem.c:568-791 | The whole alternative test reports no error if and only if the parking word is not the first word and no two words of the range, one beyond its end included, share a cell. |

## Left out

- Interrupts, console output, watchdog, delays and prompts are absent; allocation succeeds and the environment is always ready.
- Commands that forward to subsystems whose code is not part of this model (avb, bootefi, fpga, fs, mmc, nvme, dfu, fastboot, i2c, mdio, gpio and the like), xyzModem and S-record decoding, bootm ordering, ELF loading and register code.
- Small table lookups and single-branch commands (ini, bcb, date, itest, ethsw, bootmenu) are not modelled.
- mtdparts: `spread`, net sizes, the printed partition list and the `mtddevnum` and `mtddevname` variables.
- mtdparts: the hardware (device sizes, erase regions) is a parameter; `num_parts` is not 16 bits wide; strings hold no NUL character; a list entry holds its mtdids entry by value, where the code keeps a pointer.
- mtdparts: the description built for `add` is taken as refused from 64 characters on, where the code's 8-bit length would wrap.
- MtdTable.PartTable.Do: linked lists are sequences; pointers into them are indices.
- SHA-384 and SHA-512, which are not compiled, and the hexadecimal string functions.
- Sha256.HashChunks: for messages of 2^64 bits and more the length field is modulo 2^64, as in the code; the standard defines no digest there.
- Kermit: acknowledgements, padding and end-of-line characters sent back, and the sender.
- KermitReceiver.Receive: the end of the modelled character stream stops the transfer, where the code would wait.
- SRecord: sending the text over the console and waiting for the operator.
- StorageEnum: device pointers are pairs of group and slot, so different slots hold different devices; block counts and sizes, opening and reading are not modelled, and the network layer has at most one device.
- CRC-32: the big-endian variant is not modelled.
- EfiMap.Sort: insertion sort stands for the library's sorting routine, which only sees the comparison.
- EfiMap.BuildMemTable: virtual addresses and attributes of merged descriptors are those of the first one, as in the code, and nothing is stated about them.
- FlashSectors: erasing and protecting the planned sectors, and the text of the arguments; a known bank has ascending sectors inside the address space.
- Eeprom: FRAM parts, the bytes of the device address and write delays; page sizes are powers of two up to 256; a transfer that fails leaves chip and buffer as they were.
- MtdIo.WriteBuffer: running past the end of the device counts as failure, where the code relies on driver calls that are not part of this model; raw, out-of-band and NOR transfers are not modelled, and nothing is said about writing to pages that are not erased.
- MemTest.AltTest: the error count is not bounded to the width of a word.
