# Verified models of the router's DNS, DHCP and control code

This project models, in Dafny 4.11, the parts of a VPN router where a mistake is easy to make and hard to see: the
DNS wire codec with name compression, the DHCP server, the concurrent pieces of the DNS library and of the
controller, zone transfers, and the curve list that the drawing library keeps up to date in place. Each module holds
a model of the code's own steps and the properties proved of them for all inputs, all runs or all interleavings.

`dafny verify dfyconfig.toml` checks the whole project.

| module | what it covers |
|---|---|
| `Names`, `UnpackName`, `PackName` | names, their escaped text, the decoder and the in-place unescaping packer |
| `Compression`, `RoundTrip` | soundness of the compression table, pointers, packing and unpacking undone by each other |
| `ReadRecord`, `WriteRecord`, `ReadBack`, `Message` | records, rdata length patching, sections and whole messages |
| `Depths`, `Forecast` | the pointers names are going to take, worked out before packing |
| `Nsec` | the NSEC type bitmap |
| `Labels`, `Subdomain`, `Mux` | label positions, the subdomain order, the request multiplexer |
| `DhcpPacket`, `Leases`, `DhcpServer` | the option codec, the lease state machine, the server with its reused buffer |
| `Singleflight`, `WorkerPool`, `Controller` | protocols as steps of concurrent callers |
| `Transfer`, `Dedup` | incoming zone transfers, removal of duplicate records |
| `Curves`, `Paths` | the incrementally kept curve list of a path |

Methods follow the loops and updates of the code; each is proved against a function or predicate that says what it
computes, and the theorems are about those. Concurrent code is a state machine in which every step of every caller
may interleave with every other; a critical section is entered and left by steps of its own.

## Where the code does less than its documentation says

* A name packed with compression is not always decoded again: a chain of more than ten pointers is refused
  (`RoundTrip.ChainRefused`, exactly when: `RoundTrip.PackedNameDecodes`, from the message and table before packing),
  and so a message of twelve questions is refused that was packed without error (`Message.ChainMessage`, exactly when:
  `Message.PackUnpack` from the packed octets, `Forecast.PackUnpackForecast` from the message before it is packed).
* A DHCP request without a requested address option stops the server; the fallback to `ciaddr` is never reached
  (`Leases.RenewWithoutOption`, exactly when: `Leases.CrashExactly`).
* An incremental zone transfer whose serial has wrapped around stops after the first message
  (`Transfer.WrapExample`, exactly when: `Transfer.IxfrComplete`).
* The circuit breaker acts once in the life of the controller: after a second failure forwarding stays on
  (`Controller.SecondFailureUnnoticed`, exactly when a tick protects: `Controller.TickProtects`). It also fails on a
  missing interface when a call clears it between the unlocked guard and the lock (`Controller.ClearedUnderTick`,
  exactly when: `Controller.CrashExactly`).
* After one failed start of the VPN process every later SetVPN that finds it panics, and none succeeds again
  (`Controller.PanicAfterFailedStart`, exactly when: `Controller.PanicsExactly` and `Controller.SucceedsExactly`).
* A handler pattern with an upper-case letter never matches, though names compare without regard to case
  (`Mux.UpperCaseIgnored`, exactly when a pattern is found: `Mux.LonePattern`).
* Packing an NSEC bitmap adds to what the buffer held before (`Nsec.StrayExample`, exactly when the list comes back:
  `Nsec.PackUnpackNsec`).
* Removing segments of an open path with a range that ends beyond it leaves a curve too many
  (`Curves.BeyondExample`, exactly when: `Curves.RemoveBeyond`, `Paths.Path.RemoveSegments`, and `Paths.Draw` for any
  sequence of operations).

## Model

| member | source | states |
|---|---|---|
| `Names.ParseText` | src/github.com/miekg/dns/msg.go:216-298 | reading the escaped text of a name, byte by byte as the packer does, gives back exactly its labels, whatever bytes they hold |
| `Names.ParseRefuses` | src/github.com/miekg/dns/msg.go:239-248 | a text without escapes that ends in a dot is refused if and only if two dots follow each other in it or 64 bytes in a row are no dots |
| `Names.EscapeOverflow` | src/github.com/miekg/dns/msg.go:227-234 | three digits above 255 stand for their value modulo 256, and fewer than three digits for themselves |
| `Names.EscapedByte` | src/github.com/miekg/dns/msg.go:358-380 | a byte is written with a backslash exactly when it is one of . ( ) ; space @ " \\, with three decimal digits of its value exactly below 32 and above 126, and as itself otherwise |
| `UnpackName.SpelledIsDecoded` | src/github.com/miekg/dns/msg.go:340-410 | a name that the octets spell through h pointers (section 4.1.4 of RFC 1035) is decoded when h pointers may be followed, and runs out of pointers otherwise |
| `UnpackName.DecodedIsSpelled` | src/github.com/miekg/dns/msg.go:340-410 | conversely, whatever the decoder accepts is spelled by the message |
| `UnpackName.DecodeBounds` | src/github.com/miekg/dns/msg.go:341-421 | on success the offset moves forward and stays in the message, and every label fits its length octet |
| `UnpackName.SpellsStable` | src/github.com/miekg/dns/msg.go:340-410 | a spelled name survives every write outside the octets it uses |
| `UnpackName.AppendEscaped` | src/github.com/miekg/dns/msg.go:357-383 | the escaping loop appends the escaped label and moves the length limit by exactly the bytes escaping added |
| `UnpackName.UnpackLoop` | src/github.com/miekg/dns/msg.go:340-420 | the loop ends, never reads outside the buffer, and agrees with the reference decoder from every state |
| `UnpackName.UnpackDomainName` | src/github.com/miekg/dns/msg.go:334-421 | total on every buffer and offset: fails exactly as the reference decoder with ten pointers fails, rejects a name exactly when its unfolded wire form exceeds 255 octets, and otherwise returns its escaped text and an offset past the start and inside the buffer; the decoder in turn is fixed by `UnpackName.PointerFollowed` and `UnpackName.SpelledIsDecoded` |
| `UnpackName.PointerFollowed` | src/github.com/miekg/dns/msg.go:385-405 | two octets 192 + h, l are followed to offset 256 h + l, in plain arithmetic, and cost one pointer |
| `UnpackName.PointerExample` | src/github.com/miekg/dns/msg.go:385-405 | behind any 12-octet header and the name a. the octets C0 0C decode to a. |
| `UnpackName.Refused` | src/github.com/miekg/dns/msg.go:341-409 | every refusal has its cause: following labels of 1 to 63 octets and pointers from the start, at most ten of them, leads out of the message, to an octet between 64 and 191, or to a pointer when all are used up, and the error is the one for that cause |
| `PackName.ShiftLeft` | src/github.com/miekg/dns/msg.go:220-232 | moving the rest of the text down by k in place leaves exactly the text without those k bytes |
| `PackName.UnescapeAt` | src/github.com/miekg/dns/msg.go:219-237 | an escape in place becomes the one byte it stands for, the text behind it unchanged |
| `PackName.EmitLabel` | src/github.com/miekg/dns/msg.go:250-266 | a counted label is written octet by octet, or the message is too short for it |
| `PackName.CloseLabel` | src/github.com/miekg/dns/msg.go:240-295 | closing a label writes its length and octets, and enters its suffix in the table at that offset if the suffix is not the lone dot, is absent and the offset is below 16384; on a hit with compression it leaves the two octets of 0xC000 plus the recorded offset instead, and the table as it was |
| `PackName.ParseRaw` | src/github.com/miekg/dns/msg.go:218-298 | a text without escapes is the plain text of the labels it is parsed into, which is what makes table keys and suffixes agree |
| `PackName.PackLoop` | src/github.com/miekg/dns/msg.go:218-298 | the loop over the text ends as the reference packer on labels does, on errors, at a pointer, and at the end |
| `PackName.PackDomainName` | src/github.com/miekg/dns/msg.go:184-317 | for every text: the empty text packs to nothing, one without closing dot is refused, and any other packs exactly as the reference packer on its labels, with the same octets, offset, label count, error and table; octets before the start are untouched. What that table holds is fixed by `RoundTrip.TableComplete` and `RoundTrip.TableExact`, what the pointers are by `RoundTrip.PointerOctets` |
| `Compression.RawInjective` | src/github.com/miekg/dns/msg.go:274-278 | a table key determines the name it stands for |
| `Compression.SoundKept` | src/github.com/miekg/dns/msg.go:274-292 | entries of a sound table stay right while the message is written outside the octets they use |
| `Compression.FollowPointer` | src/github.com/miekg/dns/msg.go:385-405 | a pointer spells what its target spells, through one pointer more |
| `Compression.PlanSpells` | src/github.com/miekg/dns/msg.go:212-316 | a packed name is spelled where it was packed, through at most as many pointers as it has labels, and every new table entry points at the suffix it names |
| `Compression.PackKeepsSound` | src/github.com/miekg/dns/msg.go:212-316 | every packed name, compressed or not, keeps the whole table sound: each entry lies below 16384 and unfolds to exactly its suffix |
| `RoundTrip.DecodedWalk` | src/github.com/miekg/dns/rawmsg.go:9-37 | the walk over a name finds the end that the decoder finds |
| `RoundTrip.PackedWalk` | src/github.com/miekg/dns/rawmsg.go:9-37 | and the end at which the packer stopped |
| `RoundTrip.PackedNameDecodes` | src/github.com/miekg/dns/msg.go:340-420 | in a sound table a packed name decodes to itself, ending where the packer stopped, if and only if it shares no suffix or its shared suffix, in the message and table as they were before packing, decodes through at most nine pointers; otherwise the decoder refuses it. The number of pointers is none without a shared suffix and otherwise one more than that suffix takes where the table has it |
| `RoundTrip.LongestHitIsLongest` | src/github.com/miekg/dns/msg.go:280-291 | no longer suffix of the name has an entry |
| `RoundTrip.PointsToLongest` | src/github.com/miekg/dns/msg.go:271-310 | with compression a name is packed as its labels down to the longest suffix recorded before it, and a pointer to that entry |
| `RoundTrip.PointerOctets` | src/github.com/miekg/dns/msg.go:280-311 | with w and n the octets packed and the number of octets before the pointer, 256 w[n] + w[n + 1] is 0xC000 plus the offset recorded for the longest suffix |
| `RoundTrip.TableComplete` | src/github.com/miekg/dns/msg.go:268-279 | every suffix of the name that is written out below offset 16384 and had no entry is in the table afterwards, at the offset it was written at |
| `RoundTrip.TableExact` | src/github.com/miekg/dns/msg.go:268-279 | nothing else is entered: every entry is an old one, unchanged, or such a suffix at its offset |
| `RoundTrip.PackedAgain` | src/github.com/miekg/dns/msg.go:268-311 | a name that was packed below offset 16384 takes exactly two octets when it is packed with compression later, and they are 0xC000 plus that offset if it had no entry before |
| `RoundTrip.PackedTakes` | src/github.com/miekg/dns/msg.go:271-310 | the pointers a packed name takes are fixed by the message and table before packing, and the one it writes goes strictly backwards |
| `RoundTrip.LabelsSpell` | src/github.com/miekg/dns/msg.go:250-266 | labels written out in front of a suffix take no pointers of their own |
| `RoundTrip.ChainRefused` | src/github.com/miekg/dns/msg.go:399-401 | the twelfth name of a chain of nested names is refused by the decoder, the eleventh accepted |
| `RoundTrip.WireDecodes` | src/github.com/miekg/dns/msg.go:340-421 | the plain wire form of any name, anywhere in a message, decodes to that name |
| `RoundTrip.PackPresented` | src/github.com/miekg/dns/msg.go:216-298 | the packer turns the escaped text of any name into its wire form |
| `RoundTrip.Repack` | src/github.com/miekg/dns/msg.go:184-421 | unpacking a name and packing the text again without a table writes its plain wire form, for every name of at most 255 octets that decodes |
| `RoundTrip.EscapingRoundTrip` | src/github.com/miekg/dns/msg.go:216-383 | the wire form of every valid name, of any bytes, is decoded and packed back to the same octets |
| `ReadRecord.RecordBounds` | src/github.com/miekg/dns/msg.go:593-616 | a record read takes at least eleven octets inside the message, except the empty one at its end |
| `ReadRecord.HeaderInOctets` | src/github.com/miekg/dns/msg_helpers.go:72-100 | type, class, the four octets of the TTL and the rdata length are read behind the name, the most significant octet first |
| `ReadRecord.RecordSpan` | src/github.com/miekg/dns/msg.go:593-616 | a record read ends exactly where its name, ten octets and the announced rdata length end, inside the message |
| `ReadRecord.SectionBounded` | src/github.com/miekg/dns/msg.go:620-642 | whatever count is claimed, a section yields at most one record per eleven octets and never more than claimed |
| `ReadRecord.SectionInRow` | src/github.com/miekg/dns/msg.go:620-642 | all or nothing: the records are read in a row up to the claimed number or the end of the message and all returned, or one of them is bad and only its error is |
| `ReadRecord.UnpackRRSlice` | src/github.com/miekg/dns/msg.go:620-642 | the loop returns the records of the section and the offset after them, or on an error no records, the end of the message and that error |
| `WriteRecord.PresentAccepted` | src/github.com/miekg/dns/msg.go:216-298 | the escaped text of every name, of any bytes, may be packed without a table and stands for that name |
| `WriteRecord.KeyedIsPlain` | src/github.com/miekg/dns/msg.go:271-291 | a text that may be packed with a table is the plain text of the name it stands for |
| `WriteRecord.PackText` | src/github.com/miekg/dns/msg.go:179-317 | the name a text stands for, packed into a message with a sound table or with none, is held by the message with the octets and table of the reference packer, the table stays sound, and nothing fails when the uncompressed form fits |
| `WriteRecord.HeldKept` | src/github.com/miekg/dns/msg.go:576-590 | a held name stays held when octets elsewhere change, in particular when the rdata length is patched |
| `WriteRecord.PackItems` | src/github.com/miekg/dns/msg.go:576-590 | the fields of a record are held one after the other, in no more than their uncompressed size, each name exactly as the reference packer writes it with the table the one before left |
| `WriteRecord.RawSetRdlength` | src/github.com/miekg/dns/rawmsg.go:9-49 | for any octets: finds the header end e by walking, and writes the distance from e + 10 to the end of the record, 256 m[e + 8] + m[e + 9] afterwards, into those two octets and nowhere else, or changes nothing |
| `WriteRecord.PackHeader` | src/github.com/miekg/dns/msg_helpers.go:104-130 | the header is held, ten octets after its name, with the length octets still free to change |
| `WriteRecord.Patched` | src/github.com/miekg/dns/msg.go:586-588 | patching completes a held record and keeps the table sound |
| `WriteRecord.PackRR` | src/github.com/miekg/dns/msg.go:576-590 | after every success inside the message the whole record is held, with type, class, TTL and a length that reaches exactly to the end, in octets e to e + 9 behind the name, the most significant first; its names are as the reference packer writes them, and the table is sound; there is success whenever the uncompressed record fits and its rdata is at most 65535 octets |
| `WriteRecord.RecordOctets` | src/github.com/miekg/dns/msg_helpers.go:104-134 | the fixed part of a held record, octet by octet: type, class, the four octets of the TTL, and the distance to the end of the record |
| `ReadBack.HeldNameReads` | src/github.com/miekg/dns/msg.go:334-421 | a held name of at most 255 octets reads back as its escaped text if and only if its octets take at most ten pointers, and is refused for its pointers otherwise |
| `ReadBack.FewExactly` | src/github.com/miekg/dns/msg.go:385-405 | how many pointers a spelled name takes is a matter of the octets alone |
| `ReadBack.ItemsRead` | src/github.com/miekg/dns/msg.go:604-616 | held fields read back in order up to the cut-off end, if and only if none of their names takes more than ten pointers |
| `ReadBack.RecordReads` | src/github.com/miekg/dns/msg_helpers.go:72-142 | framing agreement: a packed record is read with the header end and length the packer meant, the message is cut off exactly at its end, and the same record comes back, if and only if none of its names takes more than ten pointers |
| `ReadBack.PrintableComesBack` | src/github.com/miekg/dns/msg.go:357-383 | a printable text without escapes comes back as it was packed |
| `Message.UnpackQuestions` | src/github.com/miekg/dns/msg.go:833-849 | the question loop yields the questions the octets hold, however many are claimed; on a fault the questions read before it are kept |
| `Message.QuestionInOctets` | src/github.com/miekg/dns/msg.go:1128-1152 | type and class of a question are read behind its name, the most significant octet first; where the message ends before them they are zero |
| `Message.QuestionsInRow` | src/github.com/miekg/dns/msg.go:833-849 | the questions are read in a row up to the claimed number or the end of the message, and those before a bad one are kept |
| `Message.Unpack` | src/github.com/miekg/dns/msg.go:801-875 | for every buffer: id and bits are octets 0 to 3 and the counts octets 4 to 11, the most significant first; which questions and sections are filled and which error results, including the faulty question behind good ones, the header-only and the truncated message |
| `Message.PackQuestions` | src/github.com/miekg/dns/msg.go:772-778 | the questions are held back to back, each name exactly as the reference packer writes it with the table the one before left |
| `Message.PackSection` | src/github.com/miekg/dns/msg.go:779-796 | a section of records is held back to back, with the names and tables of the reference packer, and keeps the table sound |
| `Message.Pack` | src/github.com/miekg/dns/msg.go:704-798 | packing never fails in a buffer of the uncompressed length, whatever it held before, takes no more room than uncompressed, and the result holds header, questions and sections in order up to its end, the header with id, bits and the four counts in octets 0 to 11, the most significant first; without compression for names of any bytes |
| `Message.HeaderWords` | src/github.com/miekg/dns/msg.go:1154-1177 | the six words of the header, octet by octet |
| `Message.QuestionOctets` | src/github.com/miekg/dns/msg.go:1112-1126 | a packed question ends in its type and class, the most significant octet first, right behind its name |
| `Message.TruncatedBit` | src/github.com/miekg/dns/msg.go:866-872 | the TC bit is the second lowest of octet 2 |
| `Message.SectionReads` | src/github.com/miekg/dns/msg.go:620-642 | a held section reads back record by record, if and only if none of its names takes more than ten pointers |
| `Message.ReadBefore` | src/github.com/miekg/dns/msg.go:833-849 | of the questions a message holds, exactly those before the first with too many pointers are read |
| `Message.PackUnpack` | src/github.com/miekg/dns/msg.go:696-875 | pack and then unpack gives the message back if and only if none of its names, as packed, takes more than ten pointers, for any layout of record fields, compressed or not, with the truncation error exactly when the TC bit is set and the message holds anything; otherwise it is not given back, the error says why, and the questions before the first refused one are. Without compression, or with at most ten labels in each name, it always comes back |
| `Message.ChainMessage` | src/github.com/miekg/dns/msg.go:704-875 | the message that asks for a., a.a. and so on, compressed, comes back if and only if there are at most eleven questions; from twelve on, in 107 octets, it is refused for its pointers |
| `Depths.NameTakes` | src/github.com/miekg/dns/msg.go:271-310 | a packed name takes the pointers worked out for it from the keys of the table: one more than its longest recorded suffix, none without one or without compression |
| `Depths.DepthKept` | src/github.com/miekg/dns/msg.go:271-310 | the entries a packed name adds are suffixes of it that take as many pointers as the name, so that the working goes on to the next name |
| `Forecast.MessageForecast` | src/github.com/miekg/dns/msg.go:704-798 | no name of the packed message takes more than ten pointers if and only if the longest chain worked out from the message beforehand, through questions, owner names and rdata, has at most ten |
| `Forecast.PackUnpackForecast` | src/github.com/miekg/dns/msg.go:696-875 | pack and then unpack gives the message back if and only if that longest chain has at most ten pointers, which is known before packing |
| `Nsec.SetBitBits` | src/github.com/miekg/dns/msg_helpers.go:606-606 | setting a bit changes that bit and no other |
| `Nsec.BitValue` | src/github.com/miekg/dns/msg_helpers.go:548-573 | bit k of an octet is the one of weight 128, 64, 32, 16, 8, 4, 2, 1 |
| `Nsec.SetBitValue` | src/github.com/miekg/dns/msg_helpers.go:606-606 | setting bit k of a zero octet gives that weight |
| `Nsec.UnpackDataNsec` | src/github.com/miekg/dns/msg_helpers.go:521-580 | accepts exactly the well-formed bitmaps, and returns the types whose bits are set, strictly increasing |
| `Nsec.LayoutUnique` | src/github.com/miekg/dns/msg_helpers.go:524-578 | the octets of a bitmap determine its blocks |
| `Nsec.PackDataNsec` | src/github.com/miekg/dns/msg_helpers.go:582-611 | succeeds if and only if the list never falls in its octet numbers and its bitmap fits; it then lays out one block for each window of the list, and a bit is set exactly when its type is listed or it was set before |
| `Nsec.PackedTypes` | src/github.com/miekg/dns/msg_helpers.go:582-611 | the set bits of a packed bitmap are the listed types and the stray ones |
| `Nsec.PackUnpackNsec` | src/github.com/miekg/dns/msg_helpers.go:521-611 | what comes back is the increasing list of the listed types and the bits already set in the octets used; it is the list itself if and only if that is strictly increasing and the buffer held no bit of another type there, as it does over zeros |
| `Nsec.PackLone` | src/github.com/miekg/dns/msg_helpers.go:588-610 | a single type t over zeros packs to t / 256, the number of octets up to its own, zeros, and the octet 128, 64, 32, 16, 8, 4, 2 or 1 for t mod 8; type 1 to 0, 1, 64 |
| `Nsec.StrayExample` | src/github.com/miekg/dns/msg_helpers.go:606-606 | type 1 alone, packed over an octet that held the bit of type 7, comes back as 1 and 7 |
| `Labels.NextLabel` | src/github.com/miekg/dns/labels.go:131-148 | for every text and offset: the place after the first separating dot, or that there is none |
| `Labels.QuotedByRun` | src/github.com/miekg/dns/labels.go:131-145 | a dot does not separate exactly when an odd number of backslashes stands right before it |
| `Labels.Split` | src/github.com/miekg/dns/labels.go:110-125 | all label starts of any text |
| `Labels.StartsElements` | src/github.com/miekg/dns/labels.go:110-148 | a position starts a label exactly when it is the beginning or follows an unquoted dot that is not the last byte |
| `Labels.CountLabel` | src/github.com/miekg/dns/labels.go:91-104 | their number, for every text: the length of what Split returns |
| `Labels.SplitDomainName` | src/github.com/miekg/dns/labels.go:12-40 | label k is the text from start k to the dot before start k + 1, the last up to the final dot; there is one for each start, and joined with dots they rebuild the text up to its final dot |
| `Labels.Equal` | src/github.com/miekg/dns/labels.go:169-192 | equality of the texts in lower case: same length, and at each place the same byte or the two cases of a letter A to Z |
| `Labels.SameTextBytes` | src/github.com/miekg/dns/labels.go:169-192 | texts are the same in lower case if and only if they are byte by byte the same up to the case of the letters A to Z |
| `Labels.CompareDomainName` | src/github.com/miekg/dns/labels.go:52-87 | the length of the longest common label suffix, ignoring case, for every two texts |
| `Subdomain.IsSubDomain` | src/github.com/miekg/dns/defaults.go:175-178 | all labels of the parent are the last labels of the child, ignoring case |
| `Subdomain.BelowIsSuffix` | src/github.com/miekg/dns/defaults.go:175-178 | equivalently, the child ends in the parent's text, in any case, at a label start |
| `Subdomain.BelowReflexive` | src/github.com/miekg/dns/defaults.go:173-178 | a name is a subdomain of itself |
| `Subdomain.BelowTransitive` | src/github.com/miekg/dns/defaults.go:173-178 | the order is transitive |
| `Subdomain.BelowAntisymmetric` | src/github.com/miekg/dns/defaults.go:173-178 | names below each other differ in case only |
| `Subdomain.PresentLabels` | src/github.com/miekg/dns/labels.go:91-148 | the text of a name, whatever octets are escaped in it, counts as many labels as the name has |
| `Mux.Lower` | src/github.com/miekg/dns/server.go:150-156 | the buffer holds the query suffix in lower case |
| `Mux.ServeMux.Handle` | src/github.com/miekg/dns/server.go:177-184 | stores the pattern fully qualified, and panics exactly on the empty one |
| `Mux.ServeMux.HandleRemove` | src/github.com/miekg/dns/server.go:192-199 | removes that pattern and no other |
| `Mux.ServeMux.FindHandler` | src/github.com/miekg/dns/server.go:142-174 | for every query: the handler of the lower-case pattern that lies below all patterns covering the name, else the root's; for DS the root's, else that of the topmost covering pattern; none only if there is no such pattern |
| `Mux.DispatchUnique` | src/github.com/miekg/dns/server.go:142-174 | patterns and query determine the handler |
| `Mux.LonePattern` | src/github.com/miekg/dns/server.go:150-163 | a lone pattern gets a query if and only if it is in lower case and covers the name |
| `Mux.UpperCaseIgnored` | src/github.com/miekg/dns/server.go:150-163 | a pattern with an upper-case letter misses even its own name |
| `Mux.Unqualified` | src/github.com/miekg/dns/server.go:142-184 | a query name without the closing dot finds no handler but the root's, since patterns are stored fully qualified |
| `DhcpPacket.ItemsWire` | src/github.com/krolaw/dhcp4/packet.go:112-128 | every octet string is well-formed options and padding followed by a place where reading stops |
| `DhcpPacket.WireItems` | src/github.com/krolaw/dhcp4/packet.go:112-128 | whatever options are written before such a place, their last values are read back |
| `DhcpPacket.ParseOptions` | src/github.com/krolaw/dhcp4/packet.go:112-128 | for every packet in a buffer: the map of last values, as views into the octets behind the header |
| `DhcpPacket.BuiltOptions` | src/github.com/krolaw/dhcp4/packet.go:139-198 | options added one by one and padded parse to exactly the map of last-written values |
| `DhcpPacket.LoneOption` | src/github.com/krolaw/dhcp4/packet.go:139-144 | an added option is read back if and only if its code is neither pad nor end and its value has at most 255 octets |
| `DhcpPacket.To4Octets` | src/github.com/krolaw/dhcp4/helpers.go:43-43 | four octets are an address, sixteen that begin with ten zeros and 255, 255 stand for their last four, and nothing else is one |
| `DhcpPacket.OptionsExample` | src/github.com/krolaw/dhcp4/packet.go:112-128 | pads are skipped, the last of two options with one code holds, and neither octets behind the end mark nor an option cut off by the end count |
| `DhcpPacket.Packet.constructor` | src/github.com/krolaw/dhcp4/packet.go:130-137 | a header of 240 octets with the cookie, and the end mark |
| `DhcpPacket.Packet.AddOption` | src/github.com/krolaw/dhcp4/packet.go:139-144 | replaces the end mark by the option and a new end mark, everything before untouched |
| `DhcpPacket.Packet.PadToMinSize` | src/github.com/krolaw/dhcp4/packet.go:194-198 | adds zeros up to 272 octets |
| `DhcpPacket.ReplyPacket` | src/github.com/krolaw/dhcp4/packet.go:171-188 | the reply echoes transaction, flags, relay and hardware address of the request, carries the address given, has its options behind octet 240 in order with the end mark and nothing but padding behind, and they parse to exactly those written |
| `Leases.DecideSafe` | src/netctrl/bridgeServices.go:32-66 | every message keeps leases injective and strictly between the server's address and the next one, with no bound on the number of grants: after the last address next is zero and stays there |
| `Leases.AckIsLease` | src/netctrl/bridgeServices.go:55-63 | an acknowledged address is the client's lease and not the server's own |
| `Leases.Renew` | src/netctrl/bridgeServices.go:60-63 | asking for one's own lease is acknowledged and changes nothing |
| `Leases.OfferHonoured` | src/netctrl/bridgeServices.go:34-59 | the offered address is acknowledged when asked for next, unless none is left |
| `Leases.CrashExactly` | src/netctrl/bridgeServices.go:43-53 | the server stops exactly on a request for it whose address option holds no IPv4 address |
| `Leases.RenewWithoutOption` | src/netctrl/bridgeServices.go:50-53 | a renewal without that option stops it, lease or not |
| `Leases.RunConsistent` | src/netctrl/bridgeServices.go:22-67 | in every run the history of grants agrees with the leases, and every address in it is used up |
| `Leases.HeldForever` | src/netctrl/bridgeServices.go:22-67 | an address once acknowledged stays its client's for the rest of the run |
| `Leases.NeverShared` | src/netctrl/bridgeServices.go:22-67 | no run acknowledges one address to two clients, nor the server's own to anyone |
| `Leases.Remembered` | src/netctrl/bridgeServices.go:57-61 | in every run a client holds the address it was last acknowledged |
| `Leases.Unknown` | src/netctrl/bridgeServices.go:57-61 | a client that was acknowledged nothing holds none |
| `Leases.UsedIsTaken` | src/netctrl/bridgeServices.go:55-61 | in every run the addresses in use are exactly those acknowledged to somebody |
| `Leases.NextIsLowest` | src/netctrl/bridgeServices.go:55-58 | the next address is the lowest above the server's own that was acknowledged to nobody, zero when there is none, and no other address is |
| `Leases.OfferDecided` | src/netctrl/bridgeServices.go:34-41 | in every run a discover is answered with an offer: of the address the client was last acknowledged, or for a client without one of the lowest address acknowledged to nobody |
| `Leases.RequestDecided` | src/netctrl/bridgeServices.go:43-64 | in every run a request to this server for an address is acknowledged if and only if that is the lowest one acknowledged to nobody, or the one this client was last acknowledged; else it is refused |
| `Leases.Ignored` | src/netctrl/bridgeServices.go:43-49 | other kinds of message, and requests that name another server, change nothing and get no reply |
| `DhcpServer.SelectOrder` | src/github.com/krolaw/dhcp4/helpers.go:25-33 | the server's options that were asked for, in the order asked |
| `DhcpServer.SelectedInOrder` | src/github.com/krolaw/dhcp4/helpers.go:25-33 | the selection keeps the order asked, and every option asked for as often as it is asked for |
| `DhcpServer.SelectAll` | src/github.com/krolaw/dhcp4/helpers.go:11-20 | every option once, in whatever order |
| `DhcpServer.To4View` | src/github.com/krolaw/dhcp4/helpers.go:42-43 | To4 copies nothing: what it returns lies in the array it was given |
| `DhcpServer.IPAdd` | src/github.com/krolaw/dhcp4/helpers.go:42-47 | from a view of any array: the 32-bit sum in an array of its own, or failure exactly when the octets are no IPv4 address |
| `DhcpServer.BridgeServices.constructor` | src/netctrl/main.go:253-268 | starts with no leases and the address after the server's |
| `DhcpServer.BridgeServices.Merge` | src/netctrl/bridgeServices.go:28-30 | the server's options take the place of the client's |
| `DhcpServer.BridgeServices.ServeDHCP` | src/netctrl/bridgeServices.go:22-67 | the fields step as the lease state machine does, the reply is the one that goes with the answer, a discover is offered the client's lease or else the next address, and though the requested address is a view of the receive buffer, no address stored afterwards lies in it; what the state machine does over runs is `Leases.OfferDecided` and `Leases.RequestDecided` |
| `DhcpServer.Receive` | src/github.com/krolaw/dhcp4/server.go:40-45 | the next datagram overwrites the buffer and changes neither a lease nor the next address |
| `DhcpServer.ViewOverwritten` | src/github.com/krolaw/dhcp4/server.go:40-50 | an address kept as a view of the buffer would become whatever the next datagram has in its place |
| `DhcpServer.Filter` | src/github.com/krolaw/dhcp4/server.go:46-62 | which packets reach the handler, at least 240 octets with a hardware address of at most 16 and one octet of message type between 1 and 8, and with which message type and options |
| `DhcpServer.Serve` | src/github.com/krolaw/dhcp4/server.go:39-79 | over any stream of datagrams read into one reused buffer, the log and the final leases are those of the lease state machine on the packets that pass, until the stream ends or a request stops the server |
| `DhcpServer.SentShows` | src/netctrl/bridgeServices.go:36-64 | every reply shows its kind, the server, the client and the address, whatever further options it carries |
| `DhcpServer.SentOctets` | src/netctrl/bridgeServices.go:36-64 | every reply octet by octet: reply code, hardware address, transaction, flags, relay, cookie, the address in octets 16 to 19, then the options message type, server address and, unless it refuses, a lease of 86400 seconds |
| `DhcpServer.FaithfulAppend` | src/netctrl/main.go:279-285 | serving again after an error continues the same run |
| `DhcpServer.AckedOnce` | src/netctrl/bridgeServices.go:22-67 | on the wire, in every run: acknowledgements that grant the same address carry the same hardware address, and none grants the server's own |
| `DhcpServer.OfferedAgain` | src/netctrl/bridgeServices.go:34-38 | on the wire, in every run: a discover from a hardware address that was acknowledged an address is offered, in octets 16 to 19, the one last acknowledged to it |
| `DhcpServer.OfferedFresh` | src/netctrl/bridgeServices.go:34-41 | on the wire, in every run: a discover from a hardware address that was acknowledged nothing is offered an address that no acknowledgement so far has granted and that is not the server's own, or zeros |
| `Singleflight.NextInv` | src/github.com/miekg/dns/singleinflight.go:33-57 | every step of every caller keeps the invariant of lock, map, calls, callers and message objects |
| `Singleflight.OneInFlight` | src/github.com/miekg/dns/singleinflight.go:38-49 | in every interleaving at most one execution per key is in flight |
| `Singleflight.ReturnsCall` | src/github.com/miekg/dns/singleinflight.go:38-56 | Do returns the stored result of a completed call for the caller's key, and shared is true exactly when someone else took part |
| `Singleflight.HandsOwnObject` | src/github.com/miekg/dns/client.go:162-173 | no two callers are handed the same message object, and each has the content fetched |
| `Singleflight.Progress` | src/github.com/miekg/dns/singleinflight.go:33-57 | no deadlock: while a caller has not been served, some caller can move |
| `WorkerPool.NextInv` | src/github.com/miekg/dns/server.go:318-361 | every step keeps the invariant of counter, workers and responses |
| `WorkerPool.Counts` | src/github.com/miekg/dns/server.go:321-331 | in every interleaving the counter is the number of workers between compare-and-swap and decrement, and at most 10001 |
| `WorkerPool.TakenOnce` | src/github.com/miekg/dns/server.go:318-361 | a response given to spawnWorker is taken up exactly once, or still waits in its own goroutine, which can take it up at once |
| `WorkerPool.OneWorker` | src/github.com/miekg/dns/server.go:318-361 | no two workers are in charge of one response |
| `WorkerPool.EveryCountReached` | src/github.com/miekg/dns/server.go:321-329 | the bound is exact: every count up to 10001, one above the limit, is reached by a run from the start |
| `Controller.OnlyEnabledLast` | src/netctrl/main.go:182-199 | in every interleaving forwarding comes on only as the last step of a SetVPN that holds the lock and whose latest route lookup named the VPN's link |
| `Controller.OffUntilLast` | src/netctrl/main.go:85-238 | forwarding once off stays off until such a step |
| `Controller.ErrorLeavesOff` | src/netctrl/main.go:89-199 | with a working sysctl a SetVPN that returns an error, or panics, leaves forwarding off |
| `Controller.TripLeavesOff` | src/netctrl/main.go:220-231 | a tick that trips leaves forwarding off until a later SetVPN takes its last step |
| `Controller.Complete` | src/netctrl/main.go:85-200 | a call whose requests all succeed can run to its end and switch forwarding on, unless the last start failed |
| `Controller.TickProtects` | src/netctrl/main.go:212-231 | with traffic routed past the VPN a tick ends with forwarding off if and only if it was off, or the breaker never tripped before, an interface is set, and lookup and sysctl work |
| `Controller.TrippedForever` | src/netctrl/main.go:212-223 | once tripped the breaker never acts again |
| `Controller.SecondFailureUnnoticed` | src/netctrl/main.go:202-238 | a run after which no tick does anything wherever the route leads, with forwarding on |
| `Controller.GoneSinceGuard` | src/netctrl/main.go:211-220 | in every run a breaker past its guard finds no interface if and only if a step of SetVPN has taken it away since the guard saw it |
| `Controller.CrashExactly` | src/netctrl/main.go:211-220 | in every run a step of the breaker fails on a missing interface if and only if it is the look under the lock, the route lookup works, and a SetVPN has taken the interface away since the guard was read |
| `Controller.ClearedUnderTick` | src/netctrl/main.go:105-118 | such a run, from the start |
| `Controller.UnstartedForever` | src/netctrl/main.go:97-147 | in every run, once a start of the VPN process has failed, none is ever started again, forwarding never comes on, and every call that reaches the old process panics |
| `Controller.UnstartedExactly` | src/netctrl/main.go:142-147 | in every run there is a process that was not started if and only if some earlier start failed |
| `Controller.PanicsExactly` | src/netctrl/main.go:97-98 | in every run a step of SetVPN panics if and only if it is about to end the old process and some earlier start failed |
| `Controller.SucceedsExactly` | src/netctrl/main.go:85-200 | after every run that leaves the lock free, a new call can still succeed if and only if no start failed |
| `Controller.PanicAfterFailedStart` | src/netctrl/main.go:97-147 | such a run, from the start |
| `Transfer.InAxfr` | src/github.com/miekg/dns/xfr.go:65-111 | the envelopes sent for any sequence of reads, faults included; each carries the answer and the verdict on its own message, in the fields of that message |
| `Transfer.AxfrFields` | src/github.com/miekg/dns/xfr.go:73-110 | for every sequence of reads and every envelope: a failed read, a foreign id, in the first message a response code other than zero or no leading SOA, are faults and nothing else is; an envelope is the last one if and only if it has a fault or its answer ends in an SOA and is not the first message holding just that |
| `Transfer.AxfrInOrder` | src/github.com/miekg/dns/xfr.go:73-110 | whatever is read, answers are delivered in order and without fault up to the last envelope, which ends the transfer for a fault of its own read or a final SOA |
| `Transfer.AxfrComplete` | src/github.com/miekg/dns/xfr.go:84-110 | however a zone is split into messages, each is delivered once, in order, and reading stops at the one with the final SOA (section 2.2 of RFC 5936) |
| `Transfer.ScanAnswer` | src/github.com/miekg/dns/xfr.go:155-169 | the inner loop stops at the record where the reference scan stops |
| `Transfer.InIxfr` | src/github.com/miekg/dns/xfr.go:113-172 | the envelopes sent for any sequence of reads, each with the verdict on its own message, in the fields of that message |
| `Transfer.ScanExactly` | src/github.com/miekg/dns/xfr.go:150-169 | the records are scanned to exactly the third SOA with the server's serial, or the second one if no other SOA came before it |
| `Transfer.IxfrFromFields` | src/github.com/miekg/dns/xfr.go:124-171 | for every sequence of reads and every envelope: the faults, with the response code held against every message and the leading SOA against the first; an envelope is the last one if and only if it has a fault, or the first answer has nothing newer, or the answers so far hold such an SOA |
| `Transfer.IxfrInOrder` | src/github.com/miekg/dns/xfr.go:124-171 | the same for incremental transfers, the last envelope holding the server's SOA or a fault |
| `Transfer.IncrementalStops` | src/github.com/miekg/dns/xfr.go:155-169 | with any number of difference sequences (section 4 of RFC 1995) the scan stops at the final SOA and not before |
| `Transfer.WholeZoneStops` | src/github.com/miekg/dns/xfr.go:155-169 | and so it does in a full answer |
| `Transfer.IxfrRest` | src/github.com/miekg/dns/xfr.go:124-171 | a stream that stops at its end is delivered message by message, however it is split |
| `Transfer.IxfrComplete` | src/github.com/miekg/dns/xfr.go:113-172 | the whole answer is delivered if and only if the serial asked from is below the server's as a number or there is one message; otherwise only the first message is |
| `Transfer.WrappedSerial` | src/github.com/miekg/dns/xfr.go:147-151 | of the serials that are newer by section 3.2 of RFC 1982, exactly those that have not wrapped around, and so are larger as numbers, are transferred in full |
| `Transfer.WrapExample` | src/github.com/miekg/dns/xfr.go:147-151 | a transfer from serial 4294967295 to 1 that stops early |
| `Dedup.FirstsKeys` | src/github.com/miekg/dns/sanitize.go:3-6 | the records kept have every key exactly once |
| `Dedup.FirstsPlaces` | src/github.com/miekg/dns/sanitize.go:3-6 | they stand in the order given, and each is the first record of its key |
| `Dedup.Collect` | src/github.com/miekg/dns/sanitize.go:14-26 | the first pass maps every key to its first record, gives that one the smallest TTL, and leaves all others alone, also when a record occurs twice |
| `Dedup.Compact` | src/github.com/miekg/dns/sanitize.go:33-47 | the second pass moves exactly the first occurrences to the front, in order |
| `Dedup.Dedup` | src/github.com/miekg/dns/sanitize.go:7-48 | in place: the first record of every key, in order, with the smallest TTL of its duplicates; no other record changes |
| `Curves.Joined` | static/js/libs/paper.js:7886-7897 | the list built from scratch has a curve for every segment, one fewer in an open path, each from segment i to segment (i + 1) mod n |
| `Curves.InsertKeeps` | static/js/libs/paper.js:8017-8060 | inserting segments, making room and adjusting gives the list that would be built from scratch |
| `Curves.RemoveKeeps` | static/js/libs/paper.js:8112-8122 | so does removing segments in range |
| `Curves.RemoveBeyond` | static/js/libs/paper.js:8094-8122 | with an end beyond the segments it does so if and only if the path is closed or everything is removed |
| `Curves.BeyondExample` | static/js/libs/paper.js:8112-8121 | two segments, the second removed with too large an end: one curve stays |
| `Curves.CloseKeeps` | static/js/libs/paper.js:7915-7920 | closing adds the curve from the last segment to the first, opening drops it |
| `Paths.Claim` | static/js/libs/paper.js:8001-8009 | takes free segments over, copies those already in a path or given twice, and changes no other segment |
| `Paths.Reindex` | static/js/libs/paper.js:8014-8015 | numbers the segments from a place on |
| `Paths.Path.GetCurves` | static/js/libs/paper.js:7886-7897 | returns the list, built of new curves when there is none |
| `Paths.Path.SetClosed` | static/js/libs/paper.js:7912-7923 | keeps every segment's place and the curve list right; a curve that was not in the list is new |
| `Paths.Path.AdjustCurves` | static/js/libs/paper.js:8035-8055 | sets the ends of the curves in range and of both neighbours, and of no other curve |
| `Paths.Path.Add` | static/js/libs/paper.js:7995-8033 | inserts or appends at any place in range; afterwards every segment knows its place and the curve list is the one built from scratch; segments given that are in another path stay as they are there, and curves that were not in the list are new |
| `Paths.Path.RemoveSegments` | static/js/libs/paper.js:8094-8125 | for any range: the segments in it leave the path, the rest are renumbered, and the curve list stays right if and only if the path is closed, has no list, or the range does not begin inside and end beyond it |
| `Paths.Perform` | static/js/libs/paper.js:7886-8125 | one operation on one of several paths makes it look as it should, keeps it right unless it is a removal that begins inside an open path with a list and ends beyond it, and leaves all other paths as they are |
| `Paths.Draw` | static/js/libs/paper.js:7886-8125 | any sequence of inserts, removals, looks and open/close changes on any number of new paths, with segments of each other, of themselves and of other paths: every path has the points it should, each segment knows its place, and every list is the one built from scratch, if and only if no edit is such a removal; one that is spoils the list of its own path only |

## Left out

- PackName.PackDomainName: with a compression table, texts that hold escapes or begin with a dot are only shown to keep the octets before the start and the table's offsets in range, because the keys then mix escaped and unescaped text; without a table every text is covered. The variant without a buffer, which IsDomainName uses, is not modelled.
- Compression.PackKeepsSound: with a table it is stated for names whose labels hold neither dots nor backslashes, for the same reason; without one for all names.
- RoundTrip.PackedNameDecodes: the same.
- RoundTrip.TableComplete: the same.
- RoundTrip.TableExact: the same.
- RoundTrip.PackedAgain: the same.
- WriteRecord.PackRR: with a table it takes texts without escapes only, for the same reason; record types are lists of fields, fixed octets, names and a rest, so the generated pack and unpack functions of the single types are not modelled.
- WriteRecord.PackItems: behind a name whose closing zero did not fit, every further field is refused; an empty list of EDNS0 options or of NSEC types, which the code lets pass there, is not among the fields of the model.
- Message.Pack: its fields are octets and names that are written over whatever the buffer held; an NSEC bitmap is not among them, and what it makes of the old octets is stated by Nsec.PackUnpackNsec. The buffer length is any number at least the sum of the uncompressed sizes, since Msg.Len is not part of this model; header flags and response code are one 16-bit value, and the refusal of response codes above 15 without EDNS0 is not modelled.
- Message.Unpack: starts from a fresh message, so what an earlier use left in the sections is not modelled.
- Mux.ServeMux.FindHandler: the lock around the map is not modelled.
- Leases.NeverShared: clients are told apart by the octets of their hardware address, which its printed form keeps apart; leases never expire, as in the code.
- DhcpServer.Serve: the address a reply is sent to, and errors of the connection other than the end of the stream, are not modelled.
- Singleflight.NextInv: panics of fn and the way keys are built from questions are not modelled; fn is taken to return a new message or none.
- WorkerPool.NextInv: the time of the idle timer and the serving of a response itself are not modelled; no response is given to spawnWorker after the queue is closed.
- DhcpServer.BridgeServices.constructor: the server's own address and its options, which nothing writes to, are values rather than views.
- Controller.PanicAfterFailedStart: what recovers the panic is not modelled; the deferred unlock is.
- Controller.TickProtects: time is not modelled, so what happens within a second is what happens in one tick; processes, routes and sysctl are arbitrary answers.
- Transfer.InIxfr: signatures, connections and time-outs are not modelled, and records other than SOA are opaque.
- Dedup.Dedup: starts from an empty map; how a record's normalized text is computed is not modelled.
- Paths.Path.Add: curves handed over with removed segments, selection, and the curve written to place -1 when an empty path is closed are not modelled; nothing reads that curve but the adjustment of itself.
- Paths.Draw: the edits stop at the first removal that spoils a list, since what the code does with a spoilt list is not modelled.
- Paths.Path.RemoveSegments: negative starts, which count from the end, are not modelled.
- DNSSEC, TSIG and SIG(0), the zone file parser, EDNS0 options and the per-type rdata encodings.
- Msg.Len and the lengths computed for compression ahead of packing.
- DNS over HTTPS, the HTTP handlers, configuration, hostapd, iptables and the user interface.
- The geometry, drawing, import and export of the drawing library.
