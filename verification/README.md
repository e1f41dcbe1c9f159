# Verified model of the capture side

The capture daemons under `Capture/nfelastic/bin` contain a number of self-contained algorithms whose correctness is
not obvious from reading them. This project models them in Dafny and proves what they are for. `dafny verify
dfyconfig.toml` checks all of it.

| files | what they model | main results |
|---|---|---|
| `LzoFormat`, `LzoParse`, `LzoCompress`, `LzoDecode`, `LzoDecompress`, `LzoStatus`, `LzoGrammar` | the LZO1X compressor and both decompressors | every input comes back from compression; the safe decoder is total and accepts exactly the blocks of the format; the fast one agrees with it; the size bound |
| `Adler` | the checksum with deferred modulus | no overflow, the definition of RFC 1950, composition |
| `IpfixElements`, `IpfixTemplate`, `IpfixLayout`, `IpfixDecoder`, `IpfixData`, `IpfixSelection`, `IpfixRecord` | IPFIX templates compiled to a move/zero program, and its interpreter | the program means what the template says, for every template; exactly which fields reach the record, and at which byte |
| `IpFrag` | IP reassembly with a hole list | exact condition under which every call keeps the hole list right; whole runs, interleavings and reuse of a key; what goes out when it is not met |
| `NetflowTime`, `NetflowSequence` | times and sequence numbers modulo 2^32 | exact conditions for times; counted failures are gaps |
| `FtsTree`, `Fts`, `FtsLaws` | the directory walker | the calls give the recursive traversal; exactly which paths are visited, and in what order |
| `FlowNodes`, `NodeQueue` | node pool, UDP list, flow tree, queue between threads | invariants over every run and every interleaving; expiry from the front is a timer per flow |
| `Expire`, `Exporter`, `HeapSort`, `IpConv` | expiry over channels, exporter numbers, partial heapsort, address parser | prefix of the merged order; ids stay distinct; the top n; texts parse to their addresses, and which texts are accepted |
| `Bytes`, `Names`, `Wrappers` | bytes and words, `strcmp`, optional values | |

Code that works in place is modelled in place: methods with loops over arrays and objects with the fields of the C
structures. Each is proved equal to a function of its input or of the old state, and the properties are proved about
that function. Machine arithmetic is explicit: 8, 16, 32 and 64-bit values wrap where the code lets them wrap.

What the code needs from its surroundings is a parameter. The clock, the memory allocator (where its failure has a
path of its own), the enabled extensions, the sampling rate, the order of directory entries and the skipping of
directories by the caller are arbitrary. The compiled configuration of LZO is the deterministic one: 16-bit
dictionary, blocks of 49152 bytes, a cleared dictionary per block.

Where the code and what is said about it differ, the model follows the code:

- The compressed size is documented with a slack of 67 bytes; the proved bound is n + n/16 + 4. The compressor is
  modelled with room for the larger one, which its wide copies need.
- Closing the first of several holes drops the others, and a final fragment of one byte may leave a hole behind the
  end. `IpFrag.ReceiveKeeps` has the exact condition for one call and `IpFrag.SafeExactly` for a run. A run that does
  not meet it can still deliver the right datagram in the end, when a later fragment makes up for the wrong case;
  `IpFrag.FirstMissingDelivers` shows runs that deliver a datagram with zeros in it.
- The IPFIX decoder takes a field for ICMP type and code at the start of the record for absent
  (`IpfixData.IcmpExactly`).
- A "::" in an address of eight groups clears what follows it (`IpConv.ShortenedExactly`).
- A moved exporter keeps its id, so slot and id differ afterwards, and a failing allocation after the move breaks the
  numbering (`Exporter.AddKeepsPermutation`).
- A gap in a v5 stream goes unnoticed exactly if the number of dropped flows is a multiple of 2^32.
- The LZO decoder takes an end marker of any length and with any literal count; at the very start of a block, one of
  4 to 9 would be taken for a literal count (`LzoGrammar.Opens`).
- An IPFIX field of variable length is taken for four bytes.
- `parse_ipv6` takes a dotted quad of fewer than four parts, and the empty text.

Some failures are stated, but what the code does after them is not modelled: reads and writes outside its buffers.
There a method asks for inputs that stay inside, and a lemma says exactly when they do:

- The test of a fragment against the largest packet compares a 16-bit number with 65535, so it never fires
  (`IpFrag.NewNodeOverruns`, `IpFrag.EmptyFirstOverruns`).
- IPFIX keeps field offsets in 16 bits (`IpfixTemplate.OffsetsExact`, `IpfixTemplate.LongTemplateMisreads`), and with
  a record length of 0 the loop over the records of a set makes no progress (`IpfixData.LoopEnds`).

## Model

| member | source | states |
|---|---|---|
| LzoFormat.BodySnoc | Capture/nfelastic/bin/minilzo.c:4838-4891 | Appending a match to an encoded stream is exactly: patch the literal count into the last token, write a literal header only from four literals on, then the token; so the forward encoding and the back-patching encoder agree |
| LzoFormat.PatchBody | Capture/nfelastic/bin/minilzo.c:4693-4695 | The byte that is patched through `op[-2]` always belongs to the last match token, its two low bits are zero before, and the patch changes nothing but the literal count of that token |
| LzoFormat.ValidEncodable | Capture/nfelastic/bin/minilzo.c:4735-4739 | In every list of matches of length at least 4 whose offsets lie inside what was produced and are at most 0xbfff, every token is encodable |
| LzoFormat.StreamSize | Capture/nfelastic/bin/minilzo.c:4929-4959 | An encoded stream is at most n + n/16 + 4 bytes long: every literal header is charged to its run or to the match behind it |
| LzoParse.LE32Equal | Capture/nfelastic/bin/minilzo.c:4679-4684 | The 32-bit compare of the match finder succeeds exactly if the four bytes are equal |
| LzoParse.Probe | Capture/nfelastic/bin/minilzo.c:4678-4682 | The position that the dictionary proposes lies before the current one and at most 0xbfff back, as a block has at most 49152 bytes |
| LzoParse.MatchLenSame | Capture/nfelastic/bin/minilzo.c:4740-4836 | The length counted for a match is right: all the counted bytes are equal, and the count ends at the first difference or when it has reached the end limit of the scan |
| LzoParse.CopyRepeats | Capture/nfelastic/bin/minilzo.c:4838-4840 | Copying a found match byte by byte, also when source and target overlap, yields the bytes of the input at this place |
| LzoParse.ScanMeaning | Capture/nfelastic/bin/minilzo.c:4655-4892 | For every block and every dictionary content, the matches and trailing literals of the scan expand to exactly the bytes of the block |
| LzoParse.Blocks | Capture/nfelastic/bin/minilzo.c:4909-4926 | Whatever the input, the blocks together parse it into valid matches and literals that reproduce it, also where the block loop stops early |
| LzoParse.CompressedSize | Capture/nfelastic/bin/minilzo.c:4900-4963 | For every input of n bytes the compressed form has at most n + n/16 + 4 bytes |
| LzoCompress.PutLong | Capture/nfelastic/bin/minilzo.c:4718-4727 | A count beyond one byte is written as zero bytes of 255 each and a non-zero rest |
| LzoCompress.PutLiterals | Capture/nfelastic/bin/minilzo.c:4688-4738 | The literals before a match are patched into the last token, or get a one-byte or long header; what is before them stays |
| LzoCompress.PutMatch | Capture/nfelastic/bin/minilzo.c:4841-4891 | A match is written in the token form that its offset and length select |
| LzoCompress.ExtendMatch | Capture/nfelastic/bin/minilzo.c:4740-4836 | The extension loop finds the first difference behind four equal bytes, or stops near the end of the block |
| LzoCompress.DoCompress | Capture/nfelastic/bin/minilzo.c:4613-4897 | One block: the output grows by the encoding of the block's matches, and the result is the number of trailing literals |
| LzoCompress.PutTail | Capture/nfelastic/bin/minilzo.c:4929-4955 | The trailing literals are written in the short form that only the start of a stream has, by patching, or with a header |
| LzoCompress.Compress | Capture/nfelastic/bin/minilzo.c:4899-4963 | The compressor, with its dictionary and in-place patching, writes exactly the compressed form of every input |
| LzoDecode.Step | Capture/nfelastic/bin/minilzo.c:5682-6025 | Every step of the safe decoder on any input either stops or advances, never reads behind the input, and never writes behind the capacity |
| LzoDecode.DecodeM2 | Capture/nfelastic/bin/minilzo.c:5780-5830 | A short token is decoded to its offset, length and literal count |
| LzoDecode.DecodeLengthField | Capture/nfelastic/bin/minilzo.c:5833-5847 | The long length form of a token is decoded to the length it was made from |
| LzoDecode.DecodeMatch | Capture/nfelastic/bin/minilzo.c:5778-6016 | Every token form is decoded to exactly the match it was made from, and to the literal count in its low bits; so no token of a match is taken for the end marker |
| LzoDecode.DecodeEof | Capture/nfelastic/bin/minilzo.c:5899-6030 | Standing last in the input, the end marker copies nothing and ends the decoding with LZO_E_OK and the output unchanged |
| LzoDecode.DecodeSegs | Capture/nfelastic/bin/minilzo.c:5682-6025 | A whole encoded list of matches and literals is decoded to its expansion |
| LzoDecode.DecodeStream | Capture/nfelastic/bin/minilzo.c:5623-6049 | Decoding the encoding of any matches and literals gives LZO_E_OK and exactly their expansion whenever the expansion fits the capacity; the encoding is therefore unambiguous |
| LzoDecode.RoundTrip | Capture/nfelastic/bin/minilzo.c:5623-6049 | For every byte string, of any number of blocks, the safe decoder with room for it returns LZO_E_OK and exactly the original from the output of the compressor |
| LzoStatus.BytesBehind | Capture/nfelastic/bin/minilzo.c:6027-6031 | With bytes behind an input, one that was accepted gives LZO_E_INPUT_NOT_CONSUMED with the same output, and one refused for another reason than its end is refused as before |
| LzoStatus.CutShort | Capture/nfelastic/bin/minilzo.c:5551-5558 | An accepted input that is cut anywhere gives LZO_E_INPUT_OVERRUN, with a part of the output |
| LzoStatus.Room | Capture/nfelastic/bin/minilzo.c:5563-5565 | An accepted input is accepted with any room for its output, and with less gives LZO_E_OUTPUT_OVERRUN |
| LzoStatus.CompressedIsExact | Capture/nfelastic/bin/minilzo.c:5623-6049 | What the compressor writes is accepted just as it is: with anything behind it, with any bytes missing at its end, or with less room than the original, the decoder returns the status for that |
| LzoGrammar.TokenReads | Capture/nfelastic/bin/minilzo.c:5778-6016 | Every token form with a match, also those the compressor never writes, is decoded to its offset, length and literal count |
| LzoGrammar.TokenFound | Capture/nfelastic/bin/minilzo.c:5731-6030 | Where the decoder goes on from a token, a token of one of the forms stands there, and where it ends with LZO_E_OK the end marker, last in the input |
| LzoGrammar.AcceptedIsBlock | Capture/nfelastic/bin/minilzo.c:5623-6049 | Whatever the safe decoder accepts is a block of the format, written down as literals, tokens and end marker, and the output is what it stands for |
| LzoGrammar.AcceptsExactly | Capture/nfelastic/bin/minilzo.c:5623-6049 | The safe decoder returns LZO_E_OK with an output if and only if the whole input is a block of the format that stands for this output, and there is room for it |
| LzoDecompress.WideCopyIsByteCopy | Capture/nfelastic/bin/minilzo.c:5959-5984 | A chunk moved at once, from a distance of at least its own size, equals the byte-by-byte overlapping copy of as many bytes |
| LzoDecompress.WideCopy | Capture/nfelastic/bin/minilzo.c:5957-6002 | The match copy of the decoder, wide or byte by byte, leaves what the overlapping copy defines |
| LzoDecompress.ReadCount | Capture/nfelastic/bin/minilzo.c:5688-5697 | The loop over zero bytes reads the long count, stops at the end of the input, and at the overflow limit |
| LzoDecompress.DecompressSafe | Capture/nfelastic/bin/minilzo.c:5622-6049 | On any bytes, the goto-driven safe decoder terminates with the status and the bytes of the decoder's step machine |
| LzoDecompress.Decompress | Capture/nfelastic/bin/minilzo.c:5082-5508 | Whenever the safe decoder returns LZO_E_OK, the unchecked one gives the same bytes |
| Adler.NoOverflow | Capture/nfelastic/bin/minilzo.c:3977-3994 | Within one run of 5552 bytes neither sum passes 32 bits, whatever the 32-bit seed |
| Adler.DeferredModulus | Capture/nfelastic/bin/minilzo.c:3979-3993 | Reducing once at the end of a run gives the same sums as reducing at every byte |
| Adler.Adler32 | Capture/nfelastic/bin/minilzo.c:3967-3996 | The checksum is the byte-wise definition of section 2.2 of RFC 1950 for every seed and every buffer |
| Adler.Compose | Capture/nfelastic/bin/minilzo.c:3967-3996 | The checksum of a concatenation is the checksum of the second part seeded with that of the first |
| Adler.ClosedForm | Capture/nfelastic/bin/minilzo.c:3961-3996 | From seed 1 the two halves are the sums of the definition: one plus the bytes, and the bytes weighted by their distance to the end |
| IpfixElements.SupportedIff | Capture/nfelastic/bin/ipfix.c:403-426 | The search from the first row of a type finds a length exactly if the table has a row of this type and length |
| IpfixElements.RowsDiffer | Capture/nfelastic/bin/ipfix.c:197-264 | No two rows of the table are for the same type and length |
| IpfixTemplate.KnownField | Capture/nfelastic/bin/ipfix.c:403-426 | In a template of distinct types, a type is found exactly if its field has a supported length, and then with that row and the offset of that field |
| IpfixTemplate.OffsetsExact | Capture/nfelastic/bin/ipfix.c:971-976 | A field is looked for where the ones before it end if and only if those take less than 65536 bytes |
| IpfixTemplate.LongTemplateMisreads | Capture/nfelastic/bin/ipfix.c:971-976 | Behind fields of 65000 and 536 bytes, a counter is read from the start of the record |
| IpfixTemplate.ExtensionsExactly | Capture/nfelastic/bin/ipfix.c:961-970 | The extensions that a template of distinct types switches on are exactly the enabled ones that the table gives for one of its types and lengths |
| IpfixTemplate.ReadsSet | Capture/nfelastic/bin/ipfix.c:905-1061 | A set of template records of section 3.4.1 of RFC 7011, with any enterprise numbers and any padding below four bytes, is read as exactly those templates |
| IpfixDecoder.Cache.Clear | Capture/nfelastic/bin/ipfix.c:915-923 | After the reset every type has its first row and nothing is found |
| IpfixDecoder.Cache.MapElement | Capture/nfelastic/bin/ipfix.c:403-426 | The search loop notes the row, the offset and the length for the type, or leaves the cache as it is |
| IpfixDecoder.Cache.MapFields | Capture/nfelastic/bin/ipfix.c:949-977 | After the loop over all fields the cache tells for every type what the template tells, and has the extensions that IpfixTemplate.ExtensionsExactly describes |
| IpfixLayout.PlacedApart | Capture/nfelastic/bin/ipfix.c:546-577 | However a template looks, the outputs of its sequences lie one behind the other, without overlap, inside the output record |
| IpfixLayout.PlacesRise | Capture/nfelastic/bin/ipfix.c:653-838 | Every part of the output record, filled by a field or reserved, lies behind the parts before it |
| IpfixLayout.NeverFull | Capture/nfelastic/bin/ipfix.c:550-556 | No template fills the sequence table, so the guard of PushSequence never drops a sequence, and all offsets fit in 16 bits |
| IpfixDecoder.Table.PushSequence | Capture/nfelastic/bin/ipfix.c:546-577 | A sequence is appended: the found row's operation at the field's offset, or its zero operation; the offset advances by the output length |
| IpfixDecoder.Table.PushExtension | Capture/nfelastic/bin/ipfix.c:713-824 | The switch over an extension appends exactly the parts of this extension, or reserves its room |
| IpfixDecoder.Table.PushCommon | Capture/nfelastic/bin/ipfix.c:653-702 | The common part: times, flags, ports, then the addresses of one family, then total counters before delta counters; which byte each is at is in IpfixRecord.CommonRecord |
| IpfixDecoder.Table.Setup | Capture/nfelastic/bin/ipfix.c:580-880 | The compiled table is the layout of the common part and of all extensions in order, with the record sizes and the reserved places |
| IpfixDecoder.Decoder.Install | Capture/nfelastic/bin/ipfix.c:580-623 | The table of a template id is made or refreshed, and the tables of the other templates stay what they were |
| IpfixDecoder.Decoder.AddTemplates | Capture/nfelastic/bin/ipfix.c:905-1061 | After a template set, every table is compiled from the last template of its id, in every order of new and refreshed ones |
| IpfixDecoder.Decoder.ReadSpecifiers | Capture/nfelastic/bin/ipfix.c:949-994 | Field specifiers are read one after the other, with four more bytes for each with the enterprise bit; the set is given up where the data ends |
| IpfixData.StoredIsNumber | Capture/nfelastic/bin/ipfix.c:1358-1452 | What a move stores is, on a little-endian host, the big-endian number of the field, times the sampling rate modulo 2^64 for counters |
| IpfixData.StoredIsAddress | Capture/nfelastic/bin/ipfix.c:1401-1412 | An IPv6 address is stored as two 64-bit numbers |
| IpfixData.Move | Capture/nfelastic/bin/ipfix.c:1358-1471 | The switch of the interpreter stores what the operation defines, and nothing else |
| IpfixData.Apply | Capture/nfelastic/bin/ipfix.c:1351-1474 | The interpreter loop leaves the output record and the four values beside it as the list of sequences defines them |
| IpfixData.CommonPlaces | Capture/nfelastic/bin/ipfix.c:654-668 | For every template the protocol is put at byte 22 and the ports at bytes 24 and 26, where the common record has them |
| IpfixData.ReservedFree | Capture/nfelastic/bin/ipfix.c:794-821 | The room for arrival time and exporter address is inside the output record and shared with no field |
| IpfixData.FieldDecoded | Capture/nfelastic/bin/ipfix.c:1351-1474 | For every template of distinct types, every supported field is found at each part of the output record that is for its type, as the number read straight from its bytes in the data record, counters times the sampling rate; only the ports of ICMP records are excepted |
| IpfixData.AbsentIsZero | Capture/nfelastic/bin/ipfix.c:564-571 | A part of the output record without a supported field in the template is zero, with the same exception |
| IpfixData.IcmpExactly | Capture/nfelastic/bin/ipfix.c:1475-1480 | A record is treated as one of ICMP if and only if the template has a one-byte protocol that is 1 or 58 in the record, and a two-byte field for type and code that does not start at offset 0 |
| IpfixData.IcmpDecoded | Capture/nfelastic/bin/ipfix.c:1475-1480 | The output record of such a record has 0 in place of the source port, and in place of the destination port the number of the field for type and code |
| IpfixData.FirstFieldIsNoIcmp | Capture/nfelastic/bin/ipfix.c:852-854 | With the field for type and code first in the template no record is treated as one of ICMP, as offset 0 stands for no such field |
| IpfixData.ArrivalDecoded | Capture/nfelastic/bin/ipfix.c:1482-1488 | If its extension is enabled, the arrival time in milliseconds is in the place reserved for it in the output record |
| IpfixData.ExporterDecoded | Capture/nfelastic/bin/ipfix.c:1503-1521 | If its extension is enabled, the IPv4 or IPv6 address of the exporter is in the place reserved for it |
| IpfixData.TimesDecoded | Capture/nfelastic/bin/ipfix.c:1490-1495 | First and last of the output record are the seconds and milliseconds of the two time fields, and zero without them |
| IpfixData.ProcessRecord | Capture/nfelastic/bin/ipfix.c:1344-1521 | The code for one data record leaves the output record that the results on fields, times, ICMP, arrival time and exporter address are about |
| IpfixData.ProcessData | Capture/nfelastic/bin/ipfix.c:1265-1604 | Every whole record of a data set gives its output record, in order, and a rest that is too short is padding |
| IpfixData.LoopEnds | Capture/nfelastic/bin/ipfix.c:1304-1594 | The loop over the records of a set that is not empty ends if and only if the lengths of the template do not sum to a multiple of 65536 |
| IpfixSelection.FieldHasItem | Capture/nfelastic/bin/ipfix.c:653-838 | A stored field has a part in the output record if and only if it is of the common record or its extension is switched on, and it is not shadowed: by the other address family, or by a total counter |
| IpfixSelection.OwnExtension | Capture/nfelastic/bin/ipfix.c:961-970 | But for interfaces and AS numbers, an extension is switched on by a field of it if and only if this very extension is enabled |
| IpfixSelection.MixedWidths | Capture/nfelastic/bin/ipfix.c:713-721 | An interface of four bytes gets a part in the record though its extension is not enabled, because the other interface has two bytes |
| IpfixSelection.FieldReaches | Capture/nfelastic/bin/ipfix.c:580-1474 | From template to record: every stored field that is not shadowed and is switched on is decoded at a part of the output record for its type; which part that is, is in IpfixRecord.CommonRecord and IpfixRecord.ExtensionsInRecord |
| IpfixRecord.SupportedLengths | Capture/nfelastic/bin/ipfix.c:197-264 | The types and lengths that the table has rows for, as a list of numbers |
| IpfixRecord.OnExactly | Capture/nfelastic/bin/ipfix.c:961-970 | The extensions that are switched on, told from the numbers of types and lengths in the template: each enabled one with a field of it in the length it is for |
| IpfixRecord.CommonRecord | Capture/nfelastic/bin/ipfix.c:646-706 | Bytes of the finished record: flags, protocol and type of service at 21 to 23, ports at 24 and 26, source address at 32, destination address behind it, of IPv6 if only such a source is there, then packets and then octets, as totals if they are there; each is the number of its field in the data record, or zeros without one |
| IpfixRecord.ExtensionsInRecord | Capture/nfelastic/bin/ipfix.c:709-838 | Every extension that is switched on begins behind the two counters and the extensions before it, and holds its fields in the order of the record: ingress before egress, source before destination, incoming before outgoing, the labels from the top; arrival time and exporter address take the room of theirs |
| IpfixRecord.CountersLeft | Capture/nfelastic/bin/ipfix.c:692-702 | The packets and octets beside the record are those of the preferred counter fields, times the sampling rate |
| IpFrag.Node.Take | Capture/nfelastic/bin/ipfrag.c:228-272 | A fragment's bytes go to their place and its range is taken out of the hole |
| IpFrag.Node.Update | Capture/nfelastic/bin/ipfrag.c:190-301 | The walk over the holes, with the truncation of the open hole, leaves holes, bytes and size as the step function defines |
| IpFrag.WalkPasses | Capture/nfelastic/bin/ipfrag.c:222-233 | A fragment passes every hole that it does not belong to and leaves it as it is |
| IpFrag.ReceiveKeeps | Capture/nfelastic/bin/ipfrag.c:203-272 | A new fragment leaves the holes, bytes and size right for the pieces that came if and only if it neither closes the head of a longer list nor is a lone final byte; both are told from the fragment and the list before the call |
| IpFrag.DuplicateIgnored | Capture/nfelastic/bin/ipfrag.c:216-233 | An exact duplicate changes nothing |
| IpFrag.DeliversWhenComplete | Capture/nfelastic/bin/ipfrag.c:287-301 | While holes and bytes are right, data is returned exactly when all pieces came, and is the original datagram with its length |
| IpFrag.HolesAreMissingBytes | Capture/nfelastic/bin/ipfrag.c:203-272 | While holes and bytes are right, a byte position is in a hole exactly if it may still come and did not |
| IpFrag.Reassembles | Capture/nfelastic/bin/ipfrag.c:170-301 | Fragments in any order with any duplicates: as long as no wrong case is met, nothing is returned before the last missing piece, and then the original datagram |
| IpFrag.SafeExactly | Capture/nfelastic/bin/ipfrag.c:170-301 | A run of fragments meets none of the wrong cases if and only if holes, bytes and size are right after every fragment |
| IpFrag.HeadCloseDeliversEarly | Capture/nfelastic/bin/ipfrag.c:254-258 | Closing the head of a longer list drops the other holes, so the datagram is returned though pieces are missing |
| IpFrag.EarlyDelivery | Capture/nfelastic/bin/ipfrag.c:254-301 | What is returned then has the bytes of the pieces that came in their places, zeros for the others, and if the last piece came the length of the datagram |
| IpFrag.FirstMissingDelivers | Capture/nfelastic/bin/ipfrag.c:170-301 | This happens to every datagram of at least three pieces, with a last one of two bytes or more, whose pieces but the first come in order: it is returned with zeros for the first piece |
| IpFrag.NewNodeOverruns | Capture/nfelastic/bin/ipfrag.c:193-201 | The test against the largest packet refuses nothing; a new node copies a fragment behind its buffer if and only if it reaches there and says that more follow, or is final and reaches at most two bytes behind it |
| IpFrag.EmptyFirstOverruns | Capture/nfelastic/bin/ipfrag.c:193-301 | An empty fragment at offset 0 closes the hole of a new node, for a length of one byte more than the buffer |
| IpFrag.LoneByteLeavesHole | Capture/nfelastic/bin/ipfrag.c:203-214 | A final fragment of one byte at the start of the open hole does not set the end: a hole behind the datagram is left |
| IpFrag.InOrderDelivers | Capture/nfelastic/bin/ipfrag.c:170-301 | Fragments in order are reassembled if and only if the final one has at least two bytes |
| IpFrag.FragTree.Update | Capture/nfelastic/bin/ipfrag.c:170-301 | The node of a datagram is made when needed, gets the fragment, and is removed when complete; all other nodes stay. What this means for datagrams that share a key is in IpFrag.EachDelivered |
| IpFrag.TreeKeepsApart | Capture/nfelastic/bin/ipfrag.c:176-189 | Among fragments of any other datagrams, the buffer of a datagram is what its own fragments alone make it |
| IpFrag.TreeReassembles | Capture/nfelastic/bin/ipfrag.c:170-301 | In any interleaving with other datagrams, the call that makes the first datagram of a key complete returns it, and none before |
| IpFrag.KeyReused | Capture/nfelastic/bin/ipfrag.c:176-301 | Whatever comes for other keys, after any number of datagrams one after the other under one key the tree holds for the key just the buffer of the last one, or nothing when that is complete |
| IpFrag.EachDelivered | Capture/nfelastic/bin/ipfrag.c:170-301 | Any number of datagrams one after the other under the same addresses and identifier, among fragments of any others: the call that completes one returns this datagram, and every other call for the key returns nothing |
| NetflowTime.DecodeV1 | Capture/nfelastic/bin/netflow_v1.c:395-412 | The times of a v1 record in 64-bit arithmetic are the mathematical ones modulo 2^64 |
| NetflowTime.DecodeV5 | Capture/nfelastic/bin/netflow_v5_v7.c:525-559 | The times of a v5 record in 64-bit arithmetic, with the slack of 100000 ms, are the mathematical ones modulo 2^64 |
| NetflowTime.ExportMsIs | Capture/nfelastic/bin/netflow_v5_v7.c:401-406 | The time of export is the whole milliseconds of seconds and nanoseconds |
| NetflowTime.StartExact | Capture/nfelastic/bin/netflow_v5_v7.c:535-545 | The start is recovered from the end exactly if the flow is shorter than 2^32 ms |
| NetflowTime.V1Exact | Capture/nfelastic/bin/netflow_v1.c:395-412 | Across any number of uptime wraps, v1 recovers start and end exactly if the flow and the time since its end are both below 2^32 ms |
| NetflowTime.V5Exact | Capture/nfelastic/bin/netflow_v5_v7.c:525-559 | v5 recovers start and end exactly if the flow is below 2^32 ms and the end lies in the window of its wrap rule, also for ends after the export |
| NetflowTime.V5Windows | Capture/nfelastic/bin/netflow_v5_v7.c:525-545 | The window is every end less than 2^32 - 100000 ms before the export and every end up to 100000 ms after it before the next wrap |
| NetflowSequence.Sender.Add | Capture/nfelastic/bin/netflow_v5_v7.c:708-794 | The sender numbers its packets by the flows before them, thirty to a packet, whatever IPv6 records come between |
| NetflowSequence.Receiver.Check | Capture/nfelastic/bin/netflow_v5_v7.c:374-398 | The receiver counts a failure exactly where the distance modulo 2^32 differs from the last count; for packets of any counts NetflowSequence.FailuresAreLosses says where that is |
| NetflowSequence.FailuresAreGaps | Capture/nfelastic/bin/netflow_v5_v7.c:374-398 | For any in-order subsequence of the sender's packets the failures are the noticeable gaps; a gap is missed exactly if the number of dropped packets is a multiple of 2^31 |
| NetflowSequence.Lossless | Capture/nfelastic/bin/netflow_v5_v7.c:374-398 | A lossless stream of any length, across counter wraps, has no failure |
| NetflowSequence.ShortGapsCounted | Capture/nfelastic/bin/netflow_v5_v7.c:374-398 | Where fewer than 2^32 flows are missing at each gap, every gap counts once |
| NetflowSequence.FailsIfLost | Capture/nfelastic/bin/netflow_v5_v7.c:374-398 | Between two packets of a sender with any counts, the receiver sees a failure if and only if the number of flows dropped between them is not a multiple of 2^32 |
| NetflowSequence.FailuresAreLosses | Capture/nfelastic/bin/netflow_v5_v7.c:374-398 | For a sender of any counts from 1 to 30 and any first number, and any in-order subsequence of its packets, the failures are the places where the number of dropped flows is not a multiple of 2^32 |
| NetflowSequence.NoLossNoFailure | Capture/nfelastic/bin/netflow_v5_v7.c:374-398 | Such a sender without loss has no failure |
| Fts.Walker.constructor | Capture/nfelastic/bin/fts_compat.c:110-205 | The roots are linked, sorted if there is a comparison, behind a dummy entry; the order of their visits is in FtsLaws.RootsInOrder |
| Fts.Walker.Set | Capture/nfelastic/bin/fts_compat.c:487-498 | Only the known instructions are taken, for the current entry |
| Fts.Walker.List | Capture/nfelastic/bin/fts_compat.c:691-778 | Entries are linked in directory order, without the dot entries unless they are asked for |
| Fts.Walker.Build | Capture/nfelastic/bin/fts_compat.c:583-829 | The children of a directory are its entries, sorted if there is a comparison; what is visited, and in what order, is in FtsLaws.VisitedExactly and FtsLaws.SiblingsInOrder |
| Fts.Walker.Read | Capture/nfelastic/bin/fts_compat.c:295-479 | One call moves the walk as the step function defines, in the same order of tests |
| Fts.ReadGives | Capture/nfelastic/bin/fts_compat.c:295-479 | Every call gives the first of the visits still to come and leaves the others, and keeps the path buffer right |
| Fts.WalkIsTraversal | Capture/nfelastic/bin/fts_compat.c:295-479 | The calls of a whole walk give exactly the visits of the recursive traversal, which the results of FtsLaws are about, and nothing after them; in between the path buffer holds the joined names from the root |
| FtsTree.SortedIsSorted | Capture/nfelastic/bin/fts_compat.c:911-940 | Siblings are the same entries in the order of their names |
| FtsTree.OneSortedOrder | Capture/nfelastic/bin/fts_compat.c:931-933 | With distinct names there is one sorted order, so it does not matter how qsort finds it |
| FtsTree.EachPathOnce | Capture/nfelastic/bin/fts_compat.c:316-402 | In a walk every path is one entry or none: a directory once before and once after what is below it, anything else once |
| FtsTree.Nested | Capture/nfelastic/bin/fts_compat.c:332-402 | Between the two visits of a directory are only visits below it, and none if it is skipped |
| FtsLaws.VisitedExactly | Capture/nfelastic/bin/fts_compat.c:295-829 | In trees of distinct names a path is visited if and only if it leads to an entry through directories that are readable, not skipped and, if asked, on the device of the root, and no name on it is "." or ".." unless these are asked for; other names with a dot are visited. Its visits are those for its kind |
| FtsLaws.SiblingsInOrder | Capture/nfelastic/bin/fts_compat.c:826-827 | Of two entries of a directory, the one with the lesser name has all its visits first when the walk is sorted, and else the one that the directory has first |
| FtsLaws.RootsInOrder | Capture/nfelastic/bin/fts_compat.c:186-187 | Of two roots, the one with the lesser name, or without sorting the one given first, has all its visits first |
| FtsLaws.VisitsNamed | Capture/nfelastic/bin/fts_compat.c:708-778 | Every visit has the last name of its path as its name |
| FtsLaws.BasenameIs | Capture/nfelastic/bin/fts_compat.c:226-237 | A root is named by what follows the last slash of its path |
| Names.LessAtDifference | Capture/nfelastic/bin/fts_compat.c:931-933 | Names are ordered by their first difference |
| Names.LessIfShorter | Capture/nfelastic/bin/fts_compat.c:931-933 | A name is before every longer one that begins with it |
| FlowNodes.Pool.constructor | Capture/nfelastic/bin/flowtree.c:205-250 | After the setup all nodes are free and chained in order |
| FlowNodes.Pool.NewNode | Capture/nfelastic/bin/flowtree.c:107-156 | The head of the free list is taken, or the overflow counted; the number of free nodes plus those in use stays the size |
| FlowNodes.Pool.FreeNode | Capture/nfelastic/bin/flowtree.c:159-199 | A node in use becomes the head of the free list; a free one is refused and nothing changes |
| FlowNodes.Pool.CountsInUse | Capture/nfelastic/bin/flowtree.c:143-193 | The counter is the number of nodes in use |
| FlowNodes.LinkedList.Append | Capture/nfelastic/bin/flowtree.c:348-379 | The node is the last of a well-formed doubly linked list |
| FlowNodes.LinkedList.Disconnect | Capture/nfelastic/bin/flowtree.c:382-410 | The node is taken out, the others keep their order, and its links are cleared |
| FlowNodes.LinkedList.Touch | Capture/nfelastic/bin/flowtree.c:416-450 | The node moves to the tail and the others keep their order |
| FlowNodes.FlowTree.Insert | Capture/nfelastic/bin/flowtree.c:280-292 | A flow is inserted once per key; otherwise the node that is there is returned |
| FlowNodes.FlowTree.Remove | Capture/nfelastic/bin/flowtree.c:297-312 | The node leaves the tree and goes back to the pool |
| FlowNodes.FlowTree.Expire | Capture/nfelastic/bin/flowtree.c:344-360 | From the head on, the flows older than the limit leave the list, the tree and the pool's nodes in use, one record each |
| FlowNodes.FlowTree.ProcessUdp | Capture/nfelastic/bin/pcaproc.c:309-343 | A UDP packet leaves its flow as the last of the list with the packet's time, and everything else as it was |
| FlowNodes.ExpiredAreOlder | Capture/nfelastic/bin/flowtree.c:344-357 | On a list sorted by last packet, expiry from the front removes exactly the flows older than the limit |
| FlowNodes.ListIsTimerPerFlow | Capture/nfelastic/bin/flowtree.c:344-450 | For packets in order of time, in every run of packets and expiries, the list keeps exactly the flows that a timer for each flow would keep |
| NodeQueue.NodeList.Push | Capture/nfelastic/bin/flowtree.c:533-554 | Under the lock, a node becomes the last of the list |
| NodeQueue.NodeList.Take | Capture/nfelastic/bin/flowtree.c:573-598 | Under the lock, the first node leaves the list |
| NodeQueue.EveryRun | Capture/nfelastic/bin/flowtree.c:533-601 | In every interleaving of any number of threads, one thread at most is inside, nodes leave in push order, every node given to a push is in the list or was taken once, a pop returns just the node that it took, and nothing only when the run is to end and the list is empty; while a consumer waits the list is not longer than signals to come plus consumers woken |
| NodeQueue.NoLostWakeUp | Capture/nfelastic/bin/flowtree.c:551-567 | When all pushes are over and no consumer is on its way, a consumer that waits has nothing to take |
| Expire.FindOldest | Capture/nfelastic/bin/expire.c:641-663 | The search loop picks the channel that the merge order names |
| Expire.PickIsOldest | Capture/nfelastic/bin/expire.c:641-658 | It is a channel with the oldest file of all, the last such in the list |
| Expire.MergeSorted | Capture/nfelastic/bin/expire.c:637-663 | With every channel in order, the merged order is that of all files |
| Expire.MergeInterleaves | Capture/nfelastic/bin/expire.c:637-663 | The merge has the files of every channel in their own order, none lost and none twice |
| Expire.Unlink | Capture/nfelastic/bin/expire.c:676-692 | A deletion takes the file from its channel and from both totals |
| Expire.ExpireProfile | Capture/nfelastic/bin/expire.c:604-800 | The loop terminates and deletes exactly a prefix of the merged order, the one that the limits ask for as Expire.ExpiredAsAsked says in numbers; total size and number of files fall by those of the files deleted |
| Expire.SizePhaseFewest | Capture/nfelastic/bin/expire.c:673-699 | The size phase deletes the fewest files that bring the total to the low-water limit |
| Expire.TimePhaseExact | Capture/nfelastic/bin/expire.c:701-729 | The time phase deletes exactly the files that are named before the limit |
| Expire.ExpiredAsAsked | Capture/nfelastic/bin/expire.c:626-729 | In numbers, for totals that do not wrap: below the maximum nothing goes by size; from the maximum on, files go until the rest takes at most the low-water percentage of it, and not before; files go by time only if the lifetime limit is reached, and then those named before the limit |
| Expire.LeftAreYoung | Capture/nfelastic/bin/expire.c:701-729 | If the lifetime limit is reached, no file that is left is named before it |
| Expire.TotalsConserved | Capture/nfelastic/bin/expire.c:679-685 | What the profile loses, in size and in number of files, is the sum of what is deleted from the channels |
| Expire.CountFollows | Capture/nfelastic/bin/expire.c:780-790 | The count of a channel falls by the number of its deleted files if and only if it did not run empty with a count that was not the number of its files |
| Expire.ExpireDir | Capture/nfelastic/bin/expire.c:419-480 | Over one directory, the files that are deleted are the prefix that the same limits ask for |
| Expire.OneChannel | Capture/nfelastic/bin/expire.c:425-480 | The one-directory form is the profile form with one channel |
| Exporter.ExporterList.AddExporterInfo | Capture/nfelastic/bin/exporter.c:101-182 | The list, the result and the record afterwards are what the step function defines, in every case |
| Exporter.AddKeepsPermutation | Capture/nfelastic/bin/exporter.c:111-140 | A call keeps the ids a permutation of the occupied slots if and only if memory does not run out after an exporter was moved |
| Exporter.AddKeepsExporters | Capture/nfelastic/bin/exporter.c:130-149 | No registered exporter is lost or renumbered; at most the new one is added |
| Exporter.RunKeepsIdsDistinct | Capture/nfelastic/bin/exporter.c:101-182 | After any sequence of calls no two registered exporters share an id |
| Exporter.AddRegisters | Capture/nfelastic/bin/exporter.c:101-182 | A record whose slot is free, or is taken by another exporter with a free slot above, is registered, unchanged but for its id |
| Exporter.MovedExporterLeavesItsSlot | Capture/nfelastic/bin/exporter.c:129-132 | An exporter that was moved keeps its id, which then is not the number of its slot |
| Exporter.RegisteredAddsNothing | Capture/nfelastic/bin/exporter.c:111-128 | A registered record that comes again adds nothing if and only if the slot of its id has the same record but for the id, or no slot above is free |
| Exporter.MovedIsAddedAgain | Capture/nfelastic/bin/exporter.c:111-132 | So an exporter that was moved and comes again is registered twice, under two ids |
| HeapSort.SiftHeap | Capture/nfelastic/bin/heapsort_inline.c:67-91 | Sifting down restores the heap order below the node |
| HeapSort.SiftPermutes | Capture/nfelastic/bin/heapsort_inline.c:85-89 | Sifting down permutes the elements |
| HeapSort.SiftDown | Capture/nfelastic/bin/heapsort_inline.c:67-91 | The loop sifts as the recursive definition does |
| HeapSort.Sort | Capture/nfelastic/bin/heapsort_inline.c:43-65 | The array is permuted, the last topN elements are sorted, and none before them is larger |
| HeapSort.TopNAreLargest | Capture/nfelastic/bin/heapsort_inline.c:53-63 | The last topN are the largest ones in ascending order; for topN = 0 or at least n - 1 everything is sorted |
| IpConv.ParseIpv4Loop | Capture/nfelastic/bin/ipconv.c:124-160 | The character loop computes the parse function on every text, also in its failures |
| IpConv.PrintedIpv4Parses | Capture/nfelastic/bin/ipconv.c:124-160 | One to four printed bytes, in any decimal spelling, parse to those bytes and their number |
| IpConv.PrintedQuadParses | Capture/nfelastic/bin/ipconv.c:124-160 | Four bytes printed as usual, without leading zeros, parse to those bytes in this order |
| IpConv.Ipv4Exactly | Capture/nfelastic/bin/ipconv.c:124-160 | The IPv4 parser accepts the empty text and one to four decimal bytes with dots between them, and no other text |
| IpConv.ParseIpv6Loop | Capture/nfelastic/bin/ipconv.c:162-243 | The character loop with its byte buffer computes the parse function on every text |
| IpConv.ShiftToEnd | Capture/nfelastic/bin/ipconv.c:225-238 | The shift moves the bytes behind "::" to the end and clears where they were; without a gap it clears them |
| IpConv.PlainIpv6Parses | Capture/nfelastic/bin/ipconv.c:162-243 | Groups without "::", the last perhaps a dotted quad, parse to the bytes they spell, as a prefix, and to their number |
| IpConv.PrintedIpv6Parses | Capture/nfelastic/bin/ipconv.c:162-243 | Sixteen bytes printed as eight groups of hexadecimal digits, in small or capital letters, parse to those bytes in this order |
| IpConv.ShortenedIpv6Parses | Capture/nfelastic/bin/ipconv.c:162-243 | An address with one "::" that stands for at least one group, in the forms of section 2.2 of RFC 4291, parses to its 16 bytes |
| IpConv.ShortenedExactly | Capture/nfelastic/bin/ipconv.c:225-238 | With at most eight groups and one "::" the parse is right if and only if the "::" stands for a group or only zeros follow it |
| IpConv.FullyShortenedLosesTail | Capture/nfelastic/bin/ipconv.c:230-237 | With eight groups and "::" everything behind the "::" is cleared |
| IpConv.Ipv6Exactly | Capture/nfelastic/bin/ipconv.c:162-243 | The IPv6 parser accepts groups without "::" and texts with one "::", of at most eight groups in all, with or without a dotted quad of two to four parts at the end, and no other text |

## Left out

- LzoDecode.RoundTrip: inputs near the top of a 64-bit address space (above 2^64 - 511 bytes), where the counters of
  the decoder wrap, are not covered.
- LzoGrammar.AcceptsExactly: the same limit for the room.
- LZO: the bytes that 8 and 16-byte copies write behind the end of what they copy, in the compressor and for literals; the
  word-wise search for the first difference, which is modelled byte by byte; the non-deterministic configuration.
- IPFIX: the extension map that is written beside the records, the fixed head of the output record, statistics
  counters, sampling announced by the exporter, the buffer check before each record, withdrawal of templates
  (withdrawing the first one drops the whole list), option templates, the one-entry cache in front of the table list.
- IpfixData.ProcessData: starts every output record from zeros; the code leaves the forwarding status byte as the
  buffer had it. The lengths of the template sum to 1 up to 65535; beyond that the code reads fields elsewhere
  (`IpfixTemplate.OffsetsExact`) or does not end (`IpfixData.LoopEnds`).
- IpfixDecoder.Decoder.AddTemplates: needs four bytes of data; on less the code reads behind the set. Reading the
  specifiers and mapping them are one loop in the code and two in the model.
- IpfixTemplate.ReadsSet: the size of a set is not bounded by 65535 here.
- IpFrag.Node.Update: fragments that reach behind the buffer, and the empty one at offset 0, as the code then writes
  or returns bytes behind it (`IpFrag.NewNodeOverruns`, `IpFrag.EmptyFirstOverruns`); the allocation of a hole does not fail; the two addresses and the identifier that tell datagrams
  apart are any three numbers.
- IpFrag.EachDelivered: a repeated fragment that comes after its datagram was complete starts a node of its own, which
  is not covered; every datagram but the last is complete, and none meets a wrong case.
- Fts: changing directories and the errors of stat, readdir and chdir; FTS_AGAIN, FTS_FOLLOW, fts_children and
  fts_close; the link-count shortcut of FTS_NOSTAT; entries as linked nodes (they are kept in sequences); path lengths
  beyond 16 bits; empty names among the arguments.
- FtsLaws.VisitedExactly: the names below a root are distinct in each directory and have no slash, and no root's path is
  that of another or above it.
- FtsTree.SortedIsSorted: the sort is a function, as qsort is a library call; `FtsTree.OneSortedOrder` says why this is enough
  for distinct names.
- Fts.Walker.Set: gives an instruction to the entry that was read last only.
- FlowNodes.Pool.constructor: not for a cache of one node, on which the code writes behind its array.
- FlowNodes.Pool.NewNode: a call on an empty pool returns nothing where the code waits; calls are atomic, so the lost
  wake-up of a waiting allocator is not modelled.
- FlowNodes.FlowTree.ProcessUdp: counters of packets and bytes, DNS flows, TCP flows and the flush of the whole tree.
- FlowNodes.FlowTree.Insert: the red-black tree is a map from keys to nodes.
- NodeQueue.EveryRun: the flag that ends the run is only ever set, and a thread that waits when it is set stays there
  until a signal, as in the code.
- Expire.ExpiredAsAsked: totals and limits whose products reach 2^64 bytes, as the code then wraps.
- Expire.ExpireProfile: the walk to the next capture file, failing deletions, the timer, removal of empty directories,
  and the first and last times of the records; the files of a channel come in the order of their names.
- NetflowTime: the sender of v5 records writes an uptime of 0, so no round trip of times is claimed.
- NetflowSequence.Sender.Add: the fields of the records, and sending a packet that is not full.
- IpConv: host names and their lookup, and the choice between the two parsers.
- Left out because they would only add easy members: per-protocol statistics and histograms, printing and logging, the
  other exporter and sampler records.
- Left out as not self-contained: HTTP output, the database of domain names, the launcher, the frontend and the
  administration.
