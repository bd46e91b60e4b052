# Models of two RTEMS_app programs

Two programs of the repository have logic of their own worth stating and proving.

**The PF_KEY v2 message builder** (`test_pfkey.c`). A base header and a list of length-prefixed extensions
(RFC 2367) are copied one after another into a global buffer `m_buf` at a global cursor `m_len`; the total length
is stored into the base header at the end. Each setter declares one length and copies another number of bytes, and
the padding between the two is never cleared, so a message depends on what the buffer held before. The model keeps
all of that: declared and copied lengths are separate, stale bytes are followed, lengths are cut to 16 bits, and a
receiver written from RFC 2367 (a walker over the length fields, a decoder for each extension) says what the bytes
mean. Everything holds for both byte orders, for any buffer contents and for arbitrary keys, identities, times and
socket addresses.

**The SSD1306 display driver** (`test_SSD1306.c`). The driver sends a command stream once and 1024-byte bursts for
ever after, never sending an address again. The controller at the other end of the SPI line is a state machine:
command decoder with pending operands, addressing mode, window, pointer, display RAM.

| file | content |
|---|---|
| `Bytes.dfy` | integers in memory, rounding to 64-bit units, zero padding |
| `Appending.dfy` | pieces copied at a cursor: what stays, what is stale, what is overwritten |
| `Walking.dfy` | the receiver's walk over length and type fields |
| `Extensions.dfy`, `Reading.dfy` | extension structures, the decoder, and exactly when a value is read back |
| `Runs.dfy`, `Messages.dfy`, `Guarantees.dfy` | runs of setters, whole messages, what the receiver gets |
| `Layout.dfy`, `Contents.dfy`, `Endpoints.dfy` | the stored bytes, the planned extensions and the addresses sent, written out as constants at offsets |
| `Schedule.dfy`, `Grammar.dfy`, `Capacity.dfy` | the list planned for each message type, against RFC 2367 section 3.1; room |
| `Builder.dfy` | the program itself: `m_buf`, `m_len`, the setters, `key_setsadbmsg` |
| `FirstRun.dfy`, `LaterMessages.dfy`, `FirstMessages.dfy` | zeroed buffers; the program from beginning to end, called again or for the first time |
| `Reruns.dfy`, `Uniqueness.dfy` | used buffers; which lists of extensions look alike |
| `Ssd1306.dfy`, `Programs.dfy`, `Addressing.dfy` | the controller, its command streams, where data lands |
| `Driver.dfy` | the program itself: frame buffer, data/command line, initialisation, frame loop |

## What turned out false of the code

- `key_setsadbprop` declares its length by the size of a pointer (test_pfkey.c:339). The proposal is read back whole
  exactly when twice that size has room for exactly two 72-byte combinations; with 4 or 8 bytes a receiver reads a
  proposal without combinations (`Reading.PropExact`, `FirstRun.PropReadsEmpty`). Framing survives.
- For the same reason messages do not determine arbitrary proposals. Two lists of extensions agree outside padding
  exactly when they agree one by one, or up to the first two pointer sizes of combination bytes where both proposals
  reach as far as that (`Uniqueness.MasksAgreeExactly`). With 8-byte pointers the program's own proposal looks like one
  with only its first combination (`Uniqueness.ProposalsLookAlike`). What the setters of the program can build is
  still determined, since its proposal is always the same (`Uniqueness.SameBytesSameExtensions`). This is for
  extensions that at each place were stored by one setter, or with extension types meant for their setters: the
  setters accept any type, and a key and an address stored under one type can be the same bytes
  (`Uniqueness.KeysLookLikeAddresses`). And it is for extensions below 524288 bytes, as every message short enough to
  be accepted has (`Runs.ShortIsExact`); without that bound it is false (`Uniqueness.LongListsLookAlike`).
- `key_setsadbsens` stores byte counts in two fields that section 2.3.6 of RFC 2367 counts in 64-bit words
  (test_pfkey.c:320-322), so a receiver refuses every sensitivity. It also packs two words into the first of the two
  blocks it declares (test_pfkey.c:312-328): a receiver that counts bytes takes a stale word for the second
  (`FirstRun.SensReads`, `FirstRun.SensLengthsAreBytes`).
- `key_setsadbextbuf` clears only what it then overwrites (test_pfkey.c:554), never the padding. An identity is read
  back exactly when its stale bytes are zeros. Read as the C string that section 2.3.4 of RFC 2367 asks for, it needs
  only the first of them to be zero, but an identity whose length is a multiple of 8 has none, and is sent without a
  terminator (`Runs.FoundAsCString`). After a
  message of type SADB_ADD, the source identity of a message of type SADB_UPDATE is read as
  `hoge1234@hoge.com2345678` (`Reruns.UpdateAfterAdd`). Which setter calls let earlier contents through is decided by
  their arguments alone (`Reruns.ReadsAlikeExactly`).
- A key of 8192 bytes or more does not fit its 16-bit number of bits; below that it is always read back
  (`Reading.KeyExact`). A message of 524288 bytes or more is refused by a receiver (`Guarantees.MessageExact`). Both
  need a buffer larger than the usual `BUFSIZ`; the program's own messages have at most 1072 bytes
  (`Capacity.PlansAreShort`). A message type of 256 or more is stored as another type, without extensions
  (`Guarantees.TypeExact`).
- The comment at test_SSD1306.c:248 says that the operand 0x12 clears bit 4 and sets bit 5; it does the opposite. The
  model follows the code.

## Assumptions

The system headers are not part of the repository. Structure layouts and constants are those of RFC 2367; the SPD
message types and the algorithm numbers that start with `SADB_X_` are those of the KAME `net/pfkeyv2.h`.
`PFKEY_ALIGN8` is rounding up to a multiple of 8 and `PFKEY_UNIT64` division by 8. The process number, the byte
order, the size of a pointer, `BUFSIZ` and the result of `getaddrinfo` are parameters. The controller follows the
SSD1306 datasheet; where the datasheet is silent (addressing mode 3), the pointer stays where it is. A C string is the
characters before its terminator.

## Model

| member | source | states |
|---|---|---|
| Appending.BelowCursorStays | test_pfkey.c:549-559 | no setter, whatever it copies, changes a byte below the cursor at which it starts |
| Appending.ReachedOrUntouched | test_pfkey.c:549-559 | after any run each byte of the buffer depends on the setters alone, if one of them has been copied over it, or is what it was before |
| Appending.BeyondCursorUntouched | test_pfkey.c:325-328 | as long as no setter copies more than it declares, nothing at or beyond the cursor has changed |
| Appending.RegionIsFilled | test_pfkey.c:549-559 | after any run the declared bytes of an extension are the copied ones, cut off or filled up with what lay under them, whatever was appended later |
| Appending.UnderIsStale | test_pfkey.c:549-559 | where no earlier setter reaches past its start, an extension lies over what the buffer held before the run |
| Appending.UnderIsStaleExactly | test_pfkey.c:549-559 | that is so for every content of the buffer if and only if no earlier setter reaches past its start; what later ones do does not matter |
| Appending.RebuildChangesNothing | test_pfkey.c:88-92 | for every run, proposals that overrun their length included: building a message over the bytes of the same message changes nothing |
| Appending.ZeroTailKept | test_pfkey.c:61 | on a zeroed buffer every byte that no setter is copied over stays zero |
| Walking.WalkFindsEveryPiece | test_pfkey.c:300-547 | where every declared length fits its 16-bit field, the walk over the length fields stays in step and lands on the cursor for every disagreement between declared and copied bytes, however long the whole is |
| Walking.UnitsConserved | test_pfkey.c:328-542 | the units the walker finds add up to the distance the cursor has moved |
| Walking.LengthFieldExact | test_pfkey.c:315-316 | a 16-bit length field is exact if and only if the length is below 65536 units |
| Extensions.PieceHeaded | test_pfkey.c:300-547 | what every setter copies starts with a length field for the units by which it moves the cursor |
| Extensions.SaLoads | test_pfkey.c:482-489 | sadb_sa: the SPI is stored in network order, and each field is loaded again from its offset |
| Extensions.LifetimeLoads | test_pfkey.c:424-429 | sadb_lifetime: each field is loaded again from its offset |
| Extensions.IdentLoads | test_pfkey.c:404-408 | sadb_ident: each field is loaded again from its offset |
| Extensions.SensLoads | test_pfkey.c:316-323 | sadb_sens: each field is loaded again from its offset |
| Extensions.SpiRangeLoads | test_pfkey.c:442-446 | sadb_spirange: each field is loaded again from its offset |
| Extensions.CombLoads | test_pfkey.c:350-385 | sadb_comb: its 72 bytes load as the same sixteen fields |
| Bytes.LoadsArePositional | test_pfkey.c:308-309 | a field's bytes are worth their places, from the most significant one down on a big-endian host and in network order, from the other end on a little-endian one |
| Layout.SaAt | test_pfkey.c:482-489 | the bytes of a stored sadb_sa: length 2, type 1, then every field at its offset |
| Layout.LifetimeAt | test_pfkey.c:424-429 | the bytes of a stored sadb_lifetime: length 4, the type, then every field at its offset |
| Layout.SpiRangeAt | test_pfkey.c:442-446 | the bytes of a stored sadb_spirange: length 2, type 16, then every field at its offset |
| Layout.KeyAt | test_pfkey.c:462-471 | the bytes of a stored key: its length in units, the type, its number of bits, and the key at offset 8 |
| Layout.IdentAt | test_pfkey.c:403-412 | the bytes of a stored identity: its length in units, the type, every field at its offset, and the name at offset 16 |
| Layout.AddressAt | test_pfkey.c:529-541 | the bytes of a stored address: its length in units, the type, protocol, prefix length, and the socket address at offset 8 |
| Layout.SensAt | test_pfkey.c:308-327 | the bytes of a stored sensitivity: every field at its offset, and both words in network order at offsets 16 and 20 |
| Layout.PropAt | test_pfkey.c:339-390 | the bytes of a stored proposal: the length by the pointer size, type 13, and the combinations at offset 8 |
| Layout.CombAt | test_pfkey.c:350-385 | the 72 bytes of a combination in which only algorithms and numbers of bits are set |
| Reading.AddressExact | test_pfkey.c:531-541 | a socket address is read back if and only if its first byte is its length |
| Reading.KeyExact | test_pfkey.c:463-471 | a key is read back by its number of bits, whatever the padding, if and only if it is shorter than 8192 bytes |
| Reading.IdentExact | test_pfkey.c:403-412 | an identity is read back by dropping trailing zeros if and only if its stale bytes are zeros and it does not end in one, for every length |
| Reading.IdentAsCString | test_pfkey.c:401-412 | a receiver that reads it as a C string gets it if and only if there is no stale byte or the first is zero |
| Reading.SensRefused | test_pfkey.c:320-322 | two lengths of 8 over two blocks of 8 bytes are refused by a receiver that counts 64-bit words |
| Reading.PropExact | test_pfkey.c:339-390 | a proposal is read back if and only if the length declared by the pointer size holds exactly its combinations |
| Reading.ReadBackExactly | test_pfkey.c:300-559 | for every setter call over every buffer: the value is read back if and only if the call is readable over its stale bytes |
| Runs.WalkFindsEveryExtension | test_pfkey.c:181-293 | for every run of setters whose lengths fit their fields, over every buffer, the walk from offset 16 finds the appended extensions and ends on m_len |
| Runs.ShortIsExact | test_pfkey.c:328-542 | in a message short enough to be accepted every declared length fits its field |
| Runs.FoundExactly | test_pfkey.c:181-293 | each found extension has its own type and declared length, and is read back if and only if it is readable |
| Runs.FoundAsCString | test_pfkey.c:401-412 | a receiver of C strings gets an identity without zeros in it if and only if the first of its stale bytes is zero; if its length is a multiple of 8 there is none, and no terminator |
| Runs.ContinuationKeepsFound | test_pfkey.c:325-328 | what is found after a run is found the same after every continuation of it |
| Runs.CapacityExact | test_pfkey.c:61 | for every run, all writes stay inside the buffer if and only if the total length does and, for each proposal, so do the combinations it copies beyond the length it declares |
| Messages.BaseLoads | test_pfkey.c:170-179 | sadb_msg: each field is loaded again from its offset |
| Messages.BaseAt | test_pfkey.c:170-179 | the bytes of a stored sadb_msg: every field at its offset |
| Messages.BaseFields | test_pfkey.c:171-179 | version 2, the type cut to 8 bits, no error, satype 3, sequence number 0, the process number |
| Messages.MLenAligned | test_pfkey.c:181-295 | m_len is a multiple of 8 after every run, so no conversion to units loses anything |
| Guarantees.MessageExact | test_pfkey.c:165-298 | a receiver accepts a message if and only if its total length fits; then the lengths add up and every extension is found in order, each read back if and only if readable |
| Guarantees.WhatTheReceiverGets | test_pfkey.c:147-148 | the same of the bytes that m_buf and m_len hold after key_setsadbmsg, with every field of the received base header |
| Guarantees.TypeExact | test_pfkey.c:172-183 | the message type survives if and only if it is below 256, and a wider one carries no extension |
| Contents.ResolvedExactly | test_pfkey.c:183-293 | which names each message type looks up, in which family and under which service |
| Contents.GetSpiContents | test_pfkey.c:184-190 | the extensions of a GETSPI message, written out |
| Contents.UpdateContents | test_pfkey.c:196-209 | the ten extensions of an UPDATE message, written out: each address, key, name, time and constant at its place |
| Contents.AddContents | test_pfkey.c:192-209 | an ADD message has the proxy address before them |
| Contents.GetContents | test_pfkey.c:213-229 | the extensions of DELETE and GET messages, written out |
| Contents.AcquireContents | test_pfkey.c:231-244 | the seven extensions of an ACQUIRE message, written out, with both combinations |
| Contents.SpdContents | test_pfkey.c:288-292 | the extensions of SPDADD and SPDDELETE messages, written out |
| Contents.NoContents | test_pfkey.c:246-268 | exactly the other types have none |
| Grammar.ListedKind | test_pfkey.c:183-293 | the extension at each place of each message has the type of that place, stored by the setter meant for that type |
| Grammar.ListedConforms | test_pfkey.c:184-293 | no message holds two extensions of one type, and each has all that its rule demands and none that it does not allow; EXPIRE, PCHANGE and the SPD types have no rule here |
| Grammar.ListsWithoutSensOrProp | test_pfkey.c:183-293 | the types that ask for neither a sensitivity nor a proposal are all but UPDATE, ADD and ACQUIRE |
| Capacity.PlansFit | test_pfkey.c:61 | 280 bytes and three times the longest address extension are enough for every planned message and every write made in building it, wherever it stops |
| Capacity.SmallPlansFit | test_pfkey.c:61 | 400 bytes are enough for addresses of at most 28 bytes |
| Capacity.AcquireRoom | test_pfkey.c:231-244 | that bound is reached: an acquire message needs 280 bytes and its three address extensions, and no fewer |
| Capacity.PlansAreShort | test_pfkey.c:183-293 | with addresses as BSD makes them no planned message is longer than 1072 bytes, so none is refused for its length |
| FirstRun.FirstMessage | test_pfkey.c:61-62 | on the zeroed buffer a receiver reads every extension of every message as listed, except sensitivities and proposals |
| FirstMessages.TestP | test_pfkey.c:95-148 | the program once through, in a zeroed buffer with room for it, for every message type: it exits exactly when a planned address does not resolve; otherwise what it sends is accepted, its header is given field by field: version 2, the type cut to 8 bits, satype 3, sequence number 0, the process number, the length, zeros elsewhere, its extensions are those listed, each read back unless it is a sensitivity or a proposal, and the whole is read back if and only if the type is not UPDATE, ADD or ACQUIRE |
| FirstMessages.ReadWholeExactly | test_pfkey.c:183-293 | of the messages so received, those read whole are the ones of every type but UPDATE, ADD and ACQUIRE |
| LaterMessages.TestPAgain | test_pfkey.c:61-148 | the program called again, whatever earlier calls have left in the buffer: what it sends is accepted, with the header field by field; sensitivities are refused, proposals read without combinations, identities with the buffer's earlier bytes behind them up to the last that is not zero, all others as listed; and whatever the resolver, the bytes sent hold the source's own address and then the destination's, at the offsets of the type |
| LaterMessages.FoundOverPadding | test_pfkey.c:181-293 | each listed extension so found over any buffer; an identity is read back if and only if the buffer held zeros where it is padded |
| FirstRun.FreshExactly | test_pfkey.c:395-416 | on a zeroed buffer what is read back of an extension depends on its setter call alone, by a condition on it, unless an earlier proposal reaches past its start |
| FirstRun.SensReads | test_pfkey.c:312-328 | a receiver refuses every sensitivity; one that counts its lengths in bytes takes the stale word under its second block for its second word |
| FirstRun.SensLengthsAreBytes | test_pfkey.c:320-322 | its length fields fill the extension when taken as bytes and overrun it when taken as words |
| FirstRun.PropReadsEmpty | test_pfkey.c:339-390 | a proposal declared by a pointer size is read as one without combinations |
| Reruns.CopiedBytesIndependent | test_pfkey.c:88-92 | two builds over any two buffers agree at every byte a setter copies |
| Reruns.ReadsAlikeExactly | test_pfkey.c:549-559 | for a setter called with a type meant for it, a receiver reads the same whatever the buffer held, if and only if the name of an identity fills its 64-bit units, an address does not claim bytes of its own padding, a proposal's declared length has no room for one more combination; the other setters always hide it |
| Reruns.ReadAlike | test_pfkey.c:88-92 | of such an extension a receiver reads the same value from messages built over any two buffers |
| Reruns.SameMessageAgain | test_pfkey.c:88-110 | after any run of setters the same run again, under any base header, leaves all bytes after the header as they were |
| Reruns.UpdateAfterAdd | test_pfkey.c:192-210 | an update after an addition carries a source identity that is read with the end of the encryption key behind it |
| Uniqueness.ImageFitsMask | test_pfkey.c:300-559 | for every run, outside padding the built buffer is the concatenation of the encodings, and padding is what the setter found there: the buffer's earlier bytes, unless an earlier setter reaches so far |
| Uniqueness.LooksAlikeExactly | test_pfkey.c:300-559 | two calls of one setter, or with types meant for their setters, store the same visible bytes if and only if they are the same, or proposals that agree as far as their declared length reaches |
| Uniqueness.MasksAgreeExactly | test_pfkey.c:300-559 | where each pair of calls at one place is of one setter or has types meant for the setters, and lengths fit their fields: the messages of two lists agree outside padding if and only if the lists have one length and look alike at each place |
| Uniqueness.SameBytesSameExtensions | test_pfkey.c:300-559 | under the same conditions, two lists with the program's own proposal whose messages agree outside padding are the same list, whatever the pointer size |
| Uniqueness.KeysLookLikeAddresses | test_pfkey.c:463-471 | every key is byte for byte an address stored under the same type |
| Uniqueness.ProposalsLookAlike | test_pfkey.c:339-390 | with pointers of up to 36 bytes the program's proposal looks like one with only its first combination |
| Uniqueness.LongListsLookAlike | test_pfkey.c:526-541 | a socket address of 524288 bytes, or a multiple, can look like an empty one followed by extensions |
| Builder.KeySetSadbExtBuf | test_pfkey.c:549-559 | the buffer is the old one with the structure and the value copied at the offset, nothing else changed |
| Builder.KeyMessage.constructor | test_pfkey.c:61-62 | both globals start as zeros |
| Builder.KeyMessage.KeySetSadbSens | test_pfkey.c:300-331 | appends 24 bytes, given field by field, the words 0x01234567 and 0x89abcdef in network order at offsets 16 and 20, and advances m_len by 32; keeps the invariant of the builder and all other bytes |
| Builder.KeyMessage.KeySetSadbProp | test_pfkey.c:333-393 | appends the structure and the two combinations, given field by field, 152 bytes in all, advancing m_len by 8 and two pointer sizes |
| Builder.KeyMessage.KeySetSadbId | test_pfkey.c:395-416 | appends type, identity type 3, process number and name, each at its offset; m_len advances by the rounded length, which the length field holds |
| Builder.KeyMessage.KeySetSadbLft | test_pfkey.c:418-435 | appends the type, 2 allocations, 0x1000 bytes, the time as add time and 0x20 as use time, each at its offset |
| Builder.KeyMessage.KeySetSpiRange | test_pfkey.c:437-452 | appends minimum 0x1000 and maximum 0x2000, each at its offset |
| Builder.KeyMessage.KeySetSadbKey | test_pfkey.c:454-475 | appends the type, the number of bits and the key, each at its offset; m_len advances by the rounded length, which the length field holds |
| Builder.KeyMessage.KeySetSadbSa | test_pfkey.c:477-495 | appends the SPI 0x12345678 in network order, replay window 4, algorithms 0 and 20, each at its offset |
| Builder.KeyMessage.KeySetSadbAddr | test_pfkey.c:497-547 | exits with nothing written exactly when the family is unknown or the name does not resolve in that family under service 0 for the proxy and 4660 otherwise; else appends protocol, prefix length 32 or 128 by the family, and the address found, each at its offset |
| Builder.KeyMessage.KeySetSadbMsg | test_pfkey.c:164-298 | from any buffer: exits exactly when one of the names that the type looks up does not resolve; otherwise builds the planned message, with all sixteen bytes of the header given field by field |
| Builder.PatchedBase | test_pfkey.c:295 | storing the total length changes that field of the base header and no other byte |
| Ssd1306.CutsDoNotMatter | test_SSD1306.c:152-166 | however the same bytes are cut into any number of transfers, the controller ends in the same state, from every state |
| Programs.ProgramRuns | test_SSD1306.c:140-145 | the bytes of every program execute as its instructions: no operand is misread or left over |
| Programs.InitEncoded | test_SSD1306.c:177-276 | the command bytes of ssd1306_init are those of its twenty instructions |
| Programs.InitFromAnyState | test_SSD1306.c:169-278 | from any prior state, a reset pulse and these bytes lead to horizontal mode, all pages and columns, pointer at the origin, display on, and the settings sent |
| Addressing.StreamIndex | test_SSD1306.c:196-201 | in horizontal mode a stream of n bytes moves the pointer n places around the window, for every window and pointer |
| Addressing.StreamCell | test_SSD1306.c:196-201 | after any stream every cell of the window holds the last byte that wrapped around to it, or its old content if none did |
| Addressing.StreamOutside | test_SSD1306.c:209-215 | no stream touches a cell outside the window |
| Addressing.PointerReturns | test_SSD1306.c:162-167 | the pointer is back where it was if and only if the stream was whole rounds of the window |
| Addressing.PagedStreamStaysOnPage | test_SSD1306.c:199-203 | in the mode that a reset selects a stream changes one page only |
| Driver.FrameLands | test_SSD1306.c:162-167 | one burst puts byte 128 * page + column into every cell and the pointer back to the origin |
| Driver.FramesNeverDrift | test_SSD1306.c:301-314 | after any number of frames the display holds the last one and the next starts at the origin |
| Driver.OnlyWholeFramesAlign | test_SSD1306.c:162-167 | a stream leaves the panel aligned if and only if it is whole frames |
| Driver.Display.SpiWriteBuf | test_SSD1306.c:152-158 | sending byte by byte puts the same bytes on the wire, and the panel in the same state, as one transfer |
| Driver.Display.WriteCommand | test_SSD1306.c:140-145 | one command byte with the data/command line low |
| Driver.Display.Fill | test_SSD1306.c:147-150 | every byte of the buffer becomes 0x00 for black and 0xFF for any other color |
| Driver.Display.UpdateScreen | test_SSD1306.c:162-167 | from an aligned panel, the display RAM becomes the buffer and the panel stays aligned |
| Driver.Display.Init | test_SSD1306.c:169-278 | from whatever state the panel was in: puts these 31 command bytes on the wire, and leaves the panel with its pointer at the origin of the full window, horizontal, on, with every setting as written out, its RAM as it was |
| Driver.Display.Worker | test_SSD1306.c:296-317 | the panel shows a screen of 0xFF bytes and the bitmap in turn, five times, without drift |

## Left out

- sendkeymsg, recv, pfkey_sadump, sockets, shell registration, argument parsing: input and output, and code that is not part of this model.
- getaddrinfo: its result is an arbitrary socket address or a failure; names are not parsed.
- Disabled `#if 0` blocks, among them the SPD policy extension.
- What happens after exit(1): the builder stops at the address that does not resolve, with the earlier extensions written; the contract of KeySetSadbMsg says which.
- 32-bit wrap-around of lengths: a run that fits a buffer cannot reach it; the 16-bit fields, which it can overrun, are modelled.
- Stack contents: every field of every structure copied is assigned before.
- SPI_Open, ioctl and write failures, GPIO set-up, sleeps: SPI delivery is lossless, with the data/command line as set.
- The bitmap of the logo: any 1024 bytes stand for it.
- Analogue settings, scrolling and start line of the SSD1306: recorded as set, without effect on the display RAM.
- Vertical addressing mode: the controller has it, no theorem is about it, since the driver never selects it.
- test_unix.c, test_libbsd.c, test_lwip.c, test_shell.c, test_uart.c, test_SPI.c, test_WDT.c, test_gpio.c, test_fdt.c, test_mailbox.c, test_fifo.c, test_select.c, and the build files: calls into drivers and libraries, with no logic of their own.
