# Models of the firmware's engines

A Dafny model of the parts of this firmware, and of its tools, that do real work in loops, buffers or state machines,
with proofs of what they promise. `dafny verify dfyconfig.toml` checks all of it.

| file | models | main results |
|---|---|---|
| `StreamSearch.dfy` | `Stream::findMulti`, `findUntil` | the earliest end of any target, with a linear number of fall-back steps, by the border argument |
| `NvsFormat.dfy`, `NvsImage.dfy`, `NvsWriter.dfy` | the NVS partition generator | a reference reader recovers every namespace, key and value from the image; how many pages a run needs, exactly |
| `SecureSession.dfy` | HAP framing over a socket | delivered is a prefix of sent, over whole runs with failing sends; the ends agree exactly while no frame goes out in part; nonces never repeat |
| `Srp.dfy` | the accessory's side of SRP-6a | the key equals that of the client of RFC 5054 |
| `StringReplace.dfy` | `String::replace`, `lastIndexOf` | three in-place strategies refine one replacement; for the growing one, exactly when |
| `Controllers.dfy`, `PairingState.dfy`, `Pairing.dfy` | pair setup, add and remove pairing, the controller table | runs of the accessory are runs of a machine over values, with invariants of table, keystore, sessions and setup context; which sessions are told to close, and when the server's setup pointer is good, exactly |
| `Tlv8.dfy` | the TLV8 codec | write and read back, with the exact exception |
| `Warehouse.dfy` | the current recorder in the EEPROM | a byte ring refines the last 31 dates appended, exactly when |
| `SetupPayload.dfy` | both setup payload generators, both base-36 encoders | they agree, and payloads decode |
| `Overload.dfy`, `Fuse.dfy` | current sum, margins and overload protection | margin bounds; one turn-off for each overload, exactly when |
| `Bytes.dfy`, `ByteConvert.dfy` | byte strings, `byte_convert.c` | little-endian round trips, or as addition |

Objects that the source updates in place are classes whose methods are proved against functions of the old state;
what the source promises is proved about those functions, or kept as `Valid()` by every method. Methods named `Run`
take any sequence of operations, so that their postconditions hold in every reachable state. Ghost fields record what
a run did: bytes sent and delivered, dates appended, steps of setup accepted, messages pushed.

Where the code does not do what it is meant to do, the code is modelled and the exact condition is proved:

- The growing branch of `String::replace` is left-to-right replacement on every text if and only if `find` has no
  proper border and no proper suffix of it starts the replacement (`GrowExactly`, with texts that differ otherwise).
- `get_value_from_tlv` does not find an item that is last and has a length that is a positive multiple of 255
  (`FirstItemReadBack`), and `add_tlv` checks for enough room only for values of up to 255 bytes (`RoomCheckIsExact`).
- `getDateDataLength` is wrong exactly when the ring has been overwritten in part and the last date of the turn before
  has year byte 0 (`LengthIsTold`), and hourly records overrun the dates from the 25th on (`HoursOverrunDates`).
- The two base-36 encoders differ at 0 (`BothEncoders`).
- The rows of a partition come back exactly when a namespace precedes all entries (`RowsComeBack`). No image gives back
  a key of more than 16 bytes (`KeysComeBack`), and a text comes back exactly when each character is one byte
  (`TextReadsBack`).
- An overload begins when a report takes the sum of currents over the limit. It is answered with a turn-off exactly
  when the new sum is below 65536 and no modules were removed during an overload that had been seen, with nothing
  reported since (`CrossingAnswered`, `Crossing`). `OneForEachExactly` says when a whole run has one turn-off for each
  overload and none besides. `MissedAfterLink` and `MissedByWrap` are runs in which an overload is missed.
- A session of a removed controller is told to close exactly when it found one of the eight places, or was told before
  (`SignalledExactly`, in the postcondition of `ProcessPairRemove`); all are, if a place was free at each verify.
  `NineSessions` is a run in which the ninth is not.
- The server's pointer to the setup context is not moved when setup is restarted. It is good exactly if setup was not
  restarted since it was set, or the last restart got the same block of memory (`PointerGoodExactly`). `StartTwice` is
  a run of three messages, of which the third is defined exactly then; `RestartStrands` says the same of all messages
  that follow. Where it is not, the model stops.
- The two readers of TLVs look at a length byte behind the end of memory exactly when the walk comes to a tag that ends
  it and needs its length (`Stray`).
- A report of a current divides by zero exactly when no module is linked (`CurrentReport`).

## Model

| member | source | states |
|---|---|---|
| StreamSearch.OverlapStep | arduino/cores/esp32/Stream.cpp:269-276 | A prefix of length k+1 ends the stream with c added exactly when its last byte is c and its first k bytes ended the stream before. |
| StreamSearch.OverlapIsBorder | arduino/cores/esp32/Stream.cpp:298-304 | Below an overlap of length q, the prefixes that end the stream are exactly the borders of the first q bytes: this is why comparing the target with itself is enough. |
| StreamSearch.NoOverlapAfterMismatch | arduino/cores/esp32/Stream.cpp:278-286 | After a mismatch at the longest overlap q, no prefix longer than q ends the stream. |
| StreamSearch.LongestOverlapAfterMatch | arduino/cores/esp32/Stream.cpp:269-276 | After a match the longest overlap grows by one, and the target has ended exactly when that is its whole length. |
| StreamSearch.CompareWithSelf | arduino/cores/esp32/Stream.cpp:299-308 | The inner loop decides whether a prefix of the target is a border of its first q bytes. |
| StreamSearch.FallBack | arduino/cores/esp32/Stream.cpp:285-314 | The do-while loop ends at the longest prefix of the target that ends the stream with c added; it costs at most as many decrements as the index falls, plus one. |
| StreamSearch.AdvanceOne | arduino/cores/esp32/Stream.cpp:270-314 | One target and one byte: a hit is reported exactly when the target ends here; otherwise its index is again the longest overlap. |
| StreamSearch.NoTargetEnds | arduino/cores/esp32/Stream.cpp:264-269 | While all indexes are below the lengths of their targets, no target ends at what was read. |
| StreamSearch.Stream.TimedRead | arduino/cores/esp32/Stream.cpp:31-40 | Takes the next byte of the stream, or -1 when there is none before the timeout. |
| StreamSearch.Stream.Advance | arduino/cores/esp32/Stream.cpp:269-315 | One byte for all targets, in order: the lowest-numbered target that ends here, or all indexes again at the longest overlaps, within the decrement budget of one per byte and target. |
| StreamSearch.Stream.FindMulti | arduino/cores/esp32/Stream.cpp:256-319 | Stops after exactly the shortest prefix of the stream that ends with some target and returns the lowest-numbered such target; -1 only if no prefix ends with any target, and then everything was read. Empty targets are included. |
| StreamSearch.FirstHitIsUnique | arduino/cores/esp32/Stream.cpp:256-319 | That outcome fixes both the position and the target. |
| StreamSearch.Stream.FindUntil | arduino/cores/esp32/Stream.cpp:114-123 | True exactly when the target ends no later than the terminator does; the stream is consumed up to the first end of either. |
| StreamSearch.FindUntilMeansTargetFirst | arduino/cores/esp32/Stream.cpp:114-123 | Target 0 of the two is hit first exactly when the target ends at a point before which the terminator has not ended. |
| Bytes.GetPut | arduino/libraries/Homekit/esp_hap_core/src/byte_convert.c:108-138 | Writing n bytes of a number and reading them back truncates it to n bytes. |
| Bytes.PutGet | arduino/libraries/Homekit/esp_hap_core/src/byte_convert.c:20-59 | Reading bytes and writing them back is the identity, and the number read is below 256^n. |
| ByteConvert.OrByte | arduino/libraries/Homekit/esp_hap_core/src/byte_convert.c:49-56 | Or-ing in a byte at its shift gives the little-endian value of one byte more. |
| ByteConvert.ByteAt | arduino/libraries/Homekit/esp_hap_core/src/byte_convert.c:130-137 | Byte i of the little-endian form is what shifting by 8*i and masking give. |
| ByteConvert.GetU16Le | arduino/libraries/Homekit/esp_hap_core/src/byte_convert.c:20-29 | The little-endian value of two bytes. |
| ByteConvert.GetU64Le | arduino/libraries/Homekit/esp_hap_core/src/byte_convert.c:44-59 | The little-endian value of eight bytes. |
| ByteConvert.PutU16Le | arduino/libraries/Homekit/esp_hap_core/src/byte_convert.c:108-114 | Writes the two low bytes, least significant first, and nothing else. |
| ByteConvert.PutU64Le | arduino/libraries/Homekit/esp_hap_core/src/byte_convert.c:126-138 | Writes the eight low bytes, least significant first, and nothing else. |
| ByteConvert.PutAndGet | arduino/libraries/Homekit/esp_hap_core/src/byte_convert.c:126-138 | What is put into a buffer is what is got from it, modulo 2^64. |
| NvsFormat.UnpadPadded | tools/idf_tools/nvs_partition_generator/nvs_partition_gen.py:427-430 | A key without zero bytes is recovered from its zero-padded field. |
| NvsFormat.Header | tools/idf_tools/nvs_partition_generator/nvs_partition_gen.py:232-239 | The 32 bytes of an entry header by its fields, with the CRC over all but the CRC field. |
| NvsFormat.ReadScalar | tools/idf_tools/nvs_partition_generator/nvs_partition_gen.py:416-457 | The reference reader recovers a primitive entry: namespace, key, type and number, two's complement included, with a matching CRC. |
| NvsFormat.ReadData | tools/idf_tools/nvs_partition_generator/nvs_partition_gen.py:339-355 | The reference reader recovers a string, blob or chunk entry: header, size, CRC of the data, and the bytes. |
| NvsFormat.ReadIndex | tools/idf_tools/nvs_partition_generator/nvs_partition_gen.py:310-334 | The reference reader recovers a blob index: size, chunk count and first chunk. |
| NvsFormat.ReadItemFields | tools/idf_tools/nvs_partition_generator/nvs_partition_gen.py:339-355 | Whatever the reader takes for an item has a key of at most 16 bytes without zero bytes, and data of exactly the size and CRC in its header. |
| NvsFormat.TextReadsBack | tools/idf_tools/nvs_partition_generator/nvs_partition_gen.py:339-363 | The entry written for a text, with its number of characters as the size and the CRC of its bytes, reads back as the text exactly when the numbers of characters and bytes are the same. |
| NvsFormat.ReadEncoded | tools/idf_tools/nvs_partition_generator/nvs_partition_gen.py:214-239 | Any item written at the start of an area is what the reader finds there, whatever follows. |
| NvsFormat.ScalarEncoded | tools/idf_tools/nvs_partition_generator/nvs_partition_gen.py:416-457 | A number byte by byte: type code 1, 17, 2, 4 or 20, span 1, chunk 255, CRC, key and zeros, two's complement low byte first, bytes 255. |
| NvsFormat.DataEncoded | tools/idf_tools/nvs_partition_generator/nvs_partition_gen.py:339-355 | A string, blob or chunk byte by byte: span, chunk, CRC, key, size, 255 twice, CRC of the data, the data and bytes 255 to the end of the entry. |
| NvsFormat.IndexEncoded | tools/idf_tools/nvs_partition_generator/nvs_partition_gen.py:310-334 | The index of a blob byte by byte: code 72, CRC, key, size, number of chunks, first chunk 0, 255 twice. |
| NvsFormat.Ranges | tools/idf_tools/nvs_partition_generator/nvs_partition_gen.py:434-448 | The values that each type takes, from 0 or from the negative half on. |
| NvsFormat.WalkAppend | tools/idf_tools/nvs_partition_generator/nvs_partition_gen.py:214-230 | Walking an area by spans and then one more item gives the items of the area and that item. |
| NvsFormat.WalkEncoded | tools/idf_tools/nvs_partition_generator/nvs_partition_gen.py:214-230 | Appending an encoded item to a readable area appends exactly that item to what is read. |
| NvsFormat.JoinAppend | tools/idf_tools/nvs_partition_generator/nvs_partition_gen.py:535-566 | Joining items that leave no blob open and then more items gives the records of both, in order. |
| NvsFormat.JoinChunks | tools/idf_tools/nvs_partition_generator/nvs_partition_gen.py:249-337 | From any chunk on, the rest of the chunks and the index complete the blob. |
| NvsFormat.JoinBlob | tools/idf_tools/nvs_partition_generator/nvs_partition_gen.py:241-337 | Chunks 0 to n-1 and their index are read as one blob, with the parts joined. |
| NvsFormat.RecordAdded | tools/idf_tools/nvs_partition_generator/nvs_partition_gen.py:535-566 | Items that stand for one record add exactly that record to what was readable before. |
| NvsFormat.AddsOne | tools/idf_tools/nvs_partition_generator/nvs_partition_gen.py:339-355 | A single item that completes a record is such an addition. |
| NvsFormat.AddsBlob | tools/idf_tools/nvs_partition_generator/nvs_partition_gen.py:241-337 | The chunks of a blob and its index are such an addition. |
| NvsImage.ClearPair | tools/idf_tools/nvs_partition_generator/nvs_partition_gen.py:122-127 | Clearing the low bit of one two-bit entry state marks that entry written and no other. |
| NvsImage.MarkNext | tools/idf_tools/nvs_partition_generator/nvs_partition_gen.py:122-130 | A bitmap that marks exactly entries 0 to n-1 as written then marks exactly 0 to n. |
| NvsImage.MarkedBytes | tools/idf_tools/nvs_partition_generator/nvs_partition_gen.py:122-130 | The bytes of the bitmap: 170 where four entries are written, 255 where none is, 254, 250 and 234 between. |
| NvsImage.CountMarked | tools/idf_tools/nvs_partition_generator/nvs_partition_gen.py:227-230 | Such a bitmap is counted as n entries, which is where the walk must end. |
| NvsImage.ItemsAfterNewPage | tools/idf_tools/nvs_partition_generator/nvs_partition_gen.py:501-515 | A fresh page changes nothing that is read. |
| NvsImage.ItemsAfterWrite | tools/idf_tools/nvs_partition_generator/nvs_partition_gen.py:214-230 | A write on the last page appends its item to those of all pages. |
| NvsImage.ReadOnePage | tools/idf_tools/nvs_partition_generator/nvs_partition_gen.py:95-113 | A page with a right header, bitmap and erased rest is read as a walk over its written entries. |
| NvsImage.ReadGoodPages | tools/idf_tools/nvs_partition_generator/nvs_partition_gen.py:569-573 | Reading the image page by page gives what the pages hold, in order. |
| NvsImage.ReadReserved | tools/idf_tools/nvs_partition_generator/nvs_partition_gen.py:489-494 | The reserved page at the end adds nothing. |
| NvsImage.PageHeaderBytes | tools/idf_tools/nvs_partition_generator/nvs_partition_gen.py:95-113 | The header byte by byte: FE FF FF FF, the number low byte first, the version, 19 bytes 255, and the CRC of bytes 4 to 27. |
| NvsImage.OkBytes | tools/idf_tools/nvs_partition_generator/nvs_partition_gen.py:95-130 | A page byte by byte: header, bitmap, and bytes 255 behind what is written. |
| NvsImage.ImageKeys | tools/idf_tools/nvs_partition_generator/nvs_partition_gen.py:427-430 | No image at all gives a record whose key is longer than 16 bytes or has a zero byte. |
| NvsWriter.Page.constructor | tools/idf_tools/nvs_partition_generator/nvs_partition_gen.py:84-120 | A new page is good and empty: header with number, version and CRC, all entries erased. Every byte of it is given. |
| NvsWriter.Page.WriteBitmapArray | tools/idf_tools/nvs_partition_generator/nvs_partition_gen.py:122-130 | Marks the next entry as written, in the bitmap and in its place in the page, and changes nothing else. |
| NvsWriter.Page.WriteEntryToBuf | tools/idf_tools/nvs_partition_generator/nvs_partition_gen.py:214-230 | Appends data, padded with 255 to whole entries, to the written area; header, bitmap and entry_num stay consistent. The data is where the entries go on, and those before it are untouched; header and bitmap are given byte by byte. |
| NvsWriter.Page.WriteItem | tools/idf_tools/nvs_partition_generator/nvs_partition_gen.py:339-355 | An item appends its header, data and padding to the written area, and its span to entry_num. |
| NvsWriter.Nvs.constructor | tools/idf_tools/nvs_partition_generator/nvs_partition_gen.py:471-477 | A partition starts with one page and no records. |
| NvsWriter.Nvs.CreateNewPage | tools/idf_tools/nvs_partition_generator/nvs_partition_gen.py:501-515 | Succeeds exactly while size is left, and keeps all items. |
| NvsWriter.Nvs.PutItem | tools/idf_tools/nvs_partition_generator/nvs_partition_gen.py:339-355 | Header and data together append exactly one item to what the reader finds. Its bytes are on the current page, as listed for numbers, data and indexes. |
| NvsWriter.Nvs.WritePrimitiveData | tools/idf_tools/nvs_partition_generator/nvs_partition_gen.py:416-457 | Page-full exactly at 126 entries, a range error exactly outside the field widths, and else one record and one entry more. The bytes of the entry are given. |
| NvsWriter.ChunkCountBound | tools/idf_tools/nvs_partition_generator/nvs_partition_gen.py:249-337 | From the entries of the page it starts on and its size, a blob has so many chunks; at most 1 + ceil(size / 4000), and 256 or more exactly from 4000 * 254 bytes beyond its first page. |
| NvsWriter.ChunkNext | tools/idf_tools/nvs_partition_generator/nvs_partition_gen.py:249-287 | When each chunk so far filled its page, one more is the last exactly when the rest fits the room of its page. |
| NvsWriter.BlobItemsAre | tools/idf_tools/nvs_partition_generator/nvs_partition_gen.py:241-337 | The items of a blob: chunks 0 to n-1 of type 66, and an index with the size, n and 0. |
| NvsWriter.LastChunkEntries | tools/idf_tools/nvs_partition_generator/nvs_partition_gen.py:249-287 | The entries of a page with a last chunk on it, by the room left behind it. |
| NvsWriter.Nvs.WriteVarlenBinaryData | tools/idf_tools/nvs_partition_generator/nvs_partition_gen.py:241-337 | The loop ends. It fails for want of size exactly when fewer pages are left than its chunks and its index need, and else out of range exactly from 256 chunks on. If neither, the chunks joined are the original bytes, their number is as computed from where the blob starts, the index fits its page and records size and count, and exactly those pages and entries were taken. Every chunk but the last fills what is left of its page: 32 bytes for each entry but one on the first, 4000 on the others. |
| NvsWriter.Nvs.WriteVarlenData | tools/idf_tools/nvs_partition_generator/nvs_partition_gen.py:361-413 | An input error exactly for lengths over 1984 of strings and of v1 blobs; page-full exactly when the page has not the room, never for a fresh page; a shortage of size exactly when the pages needed are not left; a range error then exactly for a namespace index or a chunk count over a byte; and else one record more. The bytes of an entry on one page are given. |
| NvsWriter.Nvs.WriteNamespace | tools/idf_tools/nvs_partition_generator/nvs_partition_gen.py:521-527 | Opens the next namespace index and adds its record; fails exactly when a page is needed and none is left, or when the index no longer fits its byte; takes a page exactly when the current one is full. |
| NvsWriter.Nvs.WriteEntry | tools/idf_tools/nvs_partition_generator/nvs_partition_gen.py:535-566 | The one retry on a fresh page never raises page-full again; each error is given exactly, a shortage of size by the number of pages the value needs from where it starts; a successful write takes exactly these pages and entries and adds exactly this key and value under the current namespace to what the reader recovers. |
| NvsWriter.Nvs.Finish | tools/idf_tools/nvs_partition_generator/nvs_partition_gen.py:482-499 | The image fills the partition, plus the reserved page, and is read as the records written. Each page is given byte by byte, up to its entries. |
| NvsWriter.Nvs.GetBinaryData | tools/idf_tools/nvs_partition_generator/nvs_partition_gen.py:569-573 | The pages one after the other are read as the items of all of them. |
| NvsWriter.GeneratePartition | tools/idf_tools/nvs_partition_generator/nvs_partition_gen.py:602-636 | For any rows, the outcome is that of the plan: success exactly when every row can be written and the pages of the plan are there, the first error in order otherwise. A run without error gives an image from which the reference reader recovers all records in order. Size never runs out if the partition has a page, one for each row, and 1 + ceil(size / 4000) for each blob of v2. Every page of the image starts with FE FF FF FF, its number, the version, bytes 255 and the CRC of all that; its bitmap marks what is written, and bytes 255 follow. The last page is blank. |
| NvsWriter.WriteRow | tools/idf_tools/nvs_partition_generator/nvs_partition_gen.py:612-635 | One row comes to what the plan says, leaves off where the plan says, and adds its record. |
| NvsWriter.NeededForRow | tools/idf_tools/nvs_partition_generator/nvs_partition_gen.py:535-566 | The pages that a row takes, wherever it starts, are no more than allowed for it, and only a blob over 4000 * 254 bytes has too many chunks on every page. |
| NvsWriter.EnoughExactly | tools/idf_tools/nvs_partition_generator/nvs_partition_gen.py:501-566 | All rows are written exactly when each can be with pages enough, and the pages that they then take are there; any other outcome is the same or a shortage of size. |
| NvsWriter.PlanBound | tools/idf_tools/nvs_partition_generator/nvs_partition_gen.py:501-566 | An upper bound for the pages that all rows take, and which rows can be at fault. |
| NvsWriter.FateStops | tools/idf_tools/nvs_partition_generator/nvs_partition_gen.py:748-758 | The first row that fails ends the run. |
| NvsWriter.KeysComeBack | tools/idf_tools/nvs_partition_generator/nvs_partition_gen.py:398-401 | If the rows are read from any image whatever, each key has at most 16 bytes and no zero byte. |
| NvsWriter.RecordAt | tools/idf_tools/nvs_partition_generator/nvs_partition_gen.py:521-566 | Record k is row k under the number of namespaces opened so far. |
| NvsWriter.NamespacesGrow | tools/idf_tools/nvs_partition_generator/nvs_partition_gen.py:521-527 | After a first namespace row the current index is never 0. |
| NvsWriter.RowsComeBack | tools/idf_tools/nvs_partition_generator/nvs_partition_gen.py:521-566 | The rows themselves, namespaces, keys and values, come back exactly when no entry precedes the first namespace. |
| SecureSession.NonceValue | arduino/libraries/Homekit/esp_hap_core/src/esp_hap_network_io.c:90-93 | The nonce bytes of frame k stand for k modulo 2^64. |
| SecureSession.NextNonceCounts | arduino/libraries/Homekit/esp_hap_core/src/esp_hap_network_io.c:90-93 | Reading the nonce, adding one and writing it back gives the nonce of the next frame. |
| SecureSession.NoncesDistinct | arduino/libraries/Homekit/esp_hap_core/src/esp_hap_network_io.c:90-93 | Frames below 2^64 have different nonces. |
| SecureSession.Incremented | arduino/libraries/Homekit/esp_hap_core/src/esp_hap_network_io.c:147-149 | Both ends advance their nonce in this way. |
| SecureSession.StreamAppend | arduino/libraries/Homekit/esp_hap_core/src/esp_hap_network_io.c:164-173 | One more frame appends its bytes to the stream of those before it. |
| SecureSession.StreamConcat | arduino/libraries/Homekit/esp_hap_core/src/esp_hap_network_io.c:164-173 | The streams of two runs of frames join into the stream of both. |
| SecureSession.Session.constructor | arduino/libraries/Homekit/esp_hap_core/src/esp_hap_pair_verify.c:410-414 | A verified session starts with both nonces at frame 0. |
| SecureSession.Session.EncryptData | arduino/libraries/Homekit/esp_hap_core/src/esp_hap_network_io.c:74-96 | Seals the text under the current nonce with its length as associated data, and advances the nonce. The frame is written out: length in two bytes, and the text sealed under four zeros and the nonce, with that length as additional data. |
| SecureSession.Session.HttpdSend | arduino/libraries/Homekit/esp_hap_core/src/esp_hap_network_io.c:157-178 | Cuts any buffer into frames of 1 to 1024 bytes whose texts joined are the buffer, or a prefix of it after a failed send. A send that takes part of a frame counts as success; the wire has all frames exactly if no send did. An unverified session sends the bytes as they are. Each frame is the length of its text and the text sealed under four zeros and then the frame number in eight bytes, low byte first; all texts but the last have 1024 bytes. |
| SecureSession.Session.SendOne | arduino/libraries/Homekit/esp_hap_core/src/esp_hap_network_io.c:164-173 | One frame: sealed, numbered, and sent whole, in part or not at all. |
| SecureSession.FrameSealed | arduino/libraries/Homekit/esp_hap_core/src/esp_hap_network_io.c:74-96 | Frame k is sealed under 12 bytes: four zeros and the eight bytes of k modulo 2^64. |
| SecureSession.StreamSealed | arduino/libraries/Homekit/esp_hap_core/src/esp_hap_network_io.c:157-178 | The stream is a frame for each text, sealed so. |
| SecureSession.Direction.AgreesAfterSend | arduino/libraries/Homekit/esp_hap_core/src/esp_hap_network_io.c:157-178 | After a send both ends still agree exactly if the wire has all its frames, lost ones aside. |
| SecureSession.Direction.AgreesAfterRead | arduino/libraries/Homekit/esp_hap_core/src/esp_hap_network_io.c:108-155 | Handing out part of a frame, or of the next one, keeps delivered, unread and in flight together what was sent. |
| SecureSession.HeaderFirst | arduino/libraries/Homekit/esp_hap_core/src/esp_hap_network_io.c:118-121 | Two bytes of the stream are the length of the text in front, and its sealed body follows. |
| SecureSession.FrontFrame | arduino/libraries/Homekit/esp_hap_core/src/esp_hap_network_io.c:117-150 | In front of the stream is the next frame, or one of another number if a frame was lost before it. |
| SecureSession.OpensOnlyNext | arduino/libraries/Homekit/esp_hap_core/src/esp_hap_network_io.c:137-142 | Under the length just read, the body of a frame opens to its text under its own nonce, and not under another. |
| SecureSession.WasOpened | arduino/libraries/Homekit/esp_hap_core/src/esp_hap_network_io.c:132-142 | What was read is the length of the text and a body that opens to it under four zeros and the nonce. |
| SecureSession.DecryptFrame.FillBody | arduino/libraries/Homekit/esp_hap_core/src/esp_hap_network_io.c:122-131 | Reads of any size bring in exactly the body, in order. |
| SecureSession.DecryptFrame.ReadFrame | arduino/libraries/Homekit/esp_hap_core/src/esp_hap_network_io.c:117-150 | Brings in exactly the next text of the sender; it fails only after a read that returned nothing or half a header, or when a frame was lost and one of another number is next. The body was opened under four zeros and the nonce, with the length read as additional data. |
| SecureSession.DecryptFrame.DecryptData | arduino/libraries/Homekit/esp_hap_core/src/esp_hap_network_io.c:108-155 | Hands out as much of the partly read frame, or of the next one, as fits the buffer, and keeps the rest; an error invalidates the session. |
| SecureSession.Link.constructor | arduino/libraries/Homekit/esp_hap_core/src/esp_hap_pair_verify.c:394-417 | Two ends with crossed keys, nothing sent, no frame lost or cut. |
| SecureSession.Link.Send | arduino/libraries/Homekit/esp_hap_core/src/esp_hap_network_io.c:157-178 | In every state, also after a send that failed: a successful send adds exactly its buffer to what was sent, a failing one a prefix of it; what is sent after a lost frame cannot be opened by the receiver; and both ends stay coupled exactly while each send takes all of its frame. |
| SecureSession.Link.Recv | arduino/libraries/Homekit/esp_hap_core/src/esp_hap_network_io.c:180-191 | Keeps the coupling: bytes delivered, the unread rest of the frame and the texts in flight are always what was sent, and the nonces differ by the frames in flight. Without a lost frame it fails only after a lapse of the network. |
| SecureSession.Link.Run | arduino/libraries/Homekit/esp_hap_core/src/esp_hap_network_io.c:157-199 | Over any interleaving of sends and receives of any sizes, failing ones included, before the counter of frames wraps at 2^64 and up to the first frame that goes out in part: what was delivered is a prefix of what was sent, and what was sent is a prefix of what was offered, all of it if no send failed. |
| SecureSession.TailGrows | arduino/libraries/Homekit/esp_hap_core/src/esp_hap_network_io.c:90-93 | Whatever goes out after a lost frame, below 2^64 frames, has in front a frame of another number than the receiver waits for. |
| SecureSession.NoNonceReused | arduino/libraries/Homekit/esp_hap_core/src/esp_hap_network_io.c:90-93 | No nonce seals two texts before the counter wraps. |
| SecureSession.CorrectAeadExists | arduino/libraries/Homekit/esp_hap_core/src/esp_hap_network_io.c:84-87 | The assumption on the AEAD, that open undoes seal, refuses another nonce of 12 bytes, and the tag has 16 bytes, can be met. |
| ModularArithmetic.CongMul | arduino/libraries/Homekit/mu_srp/mu_srp.c:404-406 | Congruences multiply, so intermediate reductions do not matter. |
| ModularArithmetic.CongPow | arduino/libraries/Homekit/mu_srp/mu_srp.c:404-406 | Congruences can be raised to a power. |
| Srp.HostPublicReduced | arduino/libraries/Homekit/mu_srp/mu_srp.c:244-246 | B computed with a reduction at each step is (k*v + g^b) mod N. |
| Srp.HostSecretReduced | arduino/libraries/Homekit/mu_srp/mu_srp.c:404-406 | S computed with a reduction at each step is (A*v^u)^b mod N. |
| Srp.SecretsAgree | arduino/libraries/Homekit/mu_srp/mu_srp.c:397-406 | The accessory's secret equals the client's (B - k*v)^(a + u*x) mod N of section 2.6 of RFC 5054, for all values of N, g, k, x, a, b and u with N > 0. |
| Srp.HighestFirst | arduino/libraries/Homekit/mu_srp/mu_srp.c:337-356 | The first byte of a string is the highest of its number. |
| Srp.ScramblerIs | arduino/libraries/Homekit/mu_srp/mu_srp.c:218-221 | u is the hash of A, padded, followed by B, padded. |
| Srp.MultiplierIs | arduino/libraries/Homekit/mu_srp/mu_srp.c:213-216 | k is the hash of N followed by g, padded. |
| Srp.HostKeyIs | arduino/libraries/Homekit/mu_srp/mu_srp.c:375-423 | The accessory's key, with powers and hash input written out. |
| Srp.ClientKeyIs | tools/srp/srp_tool.py:395-420 | The client's key, with its hash inputs written out. |
| Srp.BinBack | tools/srp/srp_tool.py:141-158 | bytes_to_long undoes long_to_bytes for every n. |
| Srp.NoLeadingZero | tools/srp/srp_tool.py:148-158 | The byte form of a number has no leading zero byte. |
| Srp.StringBack | tools/srp/srp_tool.py:141-158 | long_to_bytes undoes bytes_to_long exactly for strings without a leading zero byte. |
| Srp.BytesToLong | tools/srp/srp_tool.py:141-145 | The loop computes the big-endian value. |
| Srp.LongToBytes | tools/srp/srp_tool.py:148-158 | The loop, which stops when the or-ed bytes equal n, ends and gives the shortest big-endian form. |
| Srp.ToBinMonotone | arduino/libraries/Homekit/mu_srp/mu_srp.c:247-248 | Numbers below N are no longer than N, so padding to its length is possible. |
| Srp.MuSrp.SetVerifier | arduino/libraries/Homekit/mu_srp/mu_srp.c:337-356 | The verifier is read as a big-endian number. |
| Srp.MuSrp.CalculatePaddedHash | arduino/libraries/Homekit/mu_srp/mu_srp.c:163-206 | For inputs no longer than N, hashes exactly PAD(a) followed by PAD(b), 2 * len_n bytes, whichever of the two is shorter (section 2.1 of RFC 5054); for inputs no shorter, a and b as they are. Undefined exactly when one is shorter and the other longer. |
| Srp.MuSrp.SrvPubkey | arduino/libraries/Homekit/mu_srp/mu_srp.c:224-254 | Sets b and B = (k*v + g^b) mod N with k of section 2.5.3 of RFC 5054, and gives the bytes of B. With the hash input written out: N, and then zeros and g. |
| Srp.MuSrp.GetSessionKey | arduino/libraries/Homekit/mu_srp/mu_srp.c:375-423 | The key is the hash of the bytes of (A*v^u)^b mod N, with u from the padded A and B. With the hash input written out: zeros and A, and then zeros and B, each as long as N. |
| Srp.Exchange | arduino/libraries/Homekit/mu_srp/mu_srp.c:224-448 | A whole exchange: from the verifier alone the accessory gets the key that the client computes from the password's x. The client's hash inputs are written out too. |
| StringReplace.StrStr | arduino/cores/esp32/WString.cpp:592-592 | strstr: the least occurrence at or after a position, or -1 when there is none. |
| StringReplace.LastOccurrence | arduino/cores/esp32/WString.cpp:543-554 | The greatest occurrence at or before a position, or -1 when there is none. |
| StringReplace.String.LastIndexOf | arduino/cores/esp32/WString.cpp:543-554 | lastIndexOf finds exactly that occurrence, and -1 for an empty argument. |
| StringReplace.String.ReplaceSameSize | arduino/cores/esp32/WString.cpp:591-595 | In place, equal to left-to-right replacement. |
| StringReplace.String.ReplaceShrinking | arduino/cores/esp32/WString.cpp:596-607 | Moving left to right with two pointers, equal to left-to-right replacement, length included. |
| StringReplace.String.CountSize | arduino/cores/esp32/WString.cpp:609-613 | The size counted is the length of the left-to-right replacement. |
| StringReplace.String.ChangeBuffer | arduino/cores/esp32/WString.cpp:142-151 | The text is kept when the buffer grows. |
| StringReplace.String.MakeRoom | arduino/cores/esp32/WString.cpp:618-622 | One step of the growing branch replaces one occurrence in place. |
| StringReplace.String.ReplaceGrowing | arduino/cores/esp32/WString.cpp:608-625 | The right-to-left rewriting; it stays in the buffer exactly if the result fits the buffer there was, or the one made for the size counted. |
| StringReplace.String.Replace | arduino/cores/esp32/WString.cpp:585-626 | Equal to left-to-right replacement for every text when the replacement is no longer, and when it is longer for all finds under SafeToGrow; never outside the buffer then. The growing branch stays in the buffer exactly if the result fits the buffer there was, or the one made for the size counted. |
| StringReplace.NoGrowth | arduino/cores/esp32/WString.cpp:614-614 | When the count finds nothing to replace, returning at once is right. |
| StringReplace.SplitAtLast | arduino/cores/esp32/WString.cpp:617-624 | Under SafeToGrow, left-to-right replacement can take the last occurrence apart. |
| StringReplace.OverlapIntoRewritten | arduino/cores/esp32/WString.cpp:617-624 | An occurrence that reaches into rewritten text needs a suffix of find that starts the replacement, or a border. |
| StringReplace.GrowIsReplaceAll | arduino/cores/esp32/WString.cpp:616-624 | Under SafeToGrow, rewriting from the right below a point is left-to-right replacement of what lies before it. |
| StringReplace.AgreesWhenSafe | arduino/cores/esp32/WString.cpp:585-626 | Under SafeToGrow the growing branch is left-to-right replacement, for every text. |
| StringReplace.RewrittenTwice | arduino/cores/esp32/WString.cpp:616-624 | If a proper suffix of find starts the replacement, there is a text in which an occurrence made by rewriting is rewritten again, and the result is longer than the count. |
| StringReplace.DifferentOccurrence | arduino/cores/esp32/WString.cpp:616-624 | If find has a border, there is a text in which the two directions choose different occurrences. |
| StringReplace.GrowExactly | arduino/cores/esp32/WString.cpp:608-625 | The growing branch is left-to-right replacement on every text if and only if find has no proper border and no proper suffix of it starts the replacement. |
| Controllers.TableAfterSave | arduino/libraries/Homekit/esp_hap_core/src/esp_hap_controllers.c:106-120 | Saving a controller with a new identifier keeps the table in order and adds exactly it. |
| Controllers.TableAfterClear | arduino/libraries/Homekit/esp_hap_core/src/esp_hap_controllers.c:122-133 | Clearing a slot keeps the table in order and removes exactly it. |
| Controllers.TableAfterScribble | arduino/libraries/Homekit/esp_hap_core/src/esp_hap_pair_setup.c:395-404 | Writing in a free slot changes nothing that counts. |
| Controllers.EmptyTable | arduino/libraries/Homekit/esp_hap_core/src/esp_hap_controllers.c:86-94 | The accessory is unpaired exactly when the table stands for nothing. |
| Controllers.StepsInOrder | arduino/libraries/Homekit/esp_hap_core/src/esp_hap_pair_setup.c:491-535 | Progress 1, 2, 3 of a context means that M1, then a proof, then a signature were accepted in it, in this order. |
| Controllers.SavedOnlyAfterAllSteps | arduino/libraries/Homekit/esp_hap_core/src/esp_hap_pair_setup.c:491-535 | In a run, whenever setup saved a controller, the same context had accepted M1, then an M3 proof, then an M5 signature. |
| PairingState.FilledAt | arduino/libraries/Homekit/esp_hap_core/src/esp_hap_pair_verify.c:119-139 | A session goes to the first free place, and nowhere when there is none. |
| PairingState.State.Restarted | arduino/libraries/Homekit/esp_hap_core/src/esp_hap_pair_setup.c:502-514 | A start message in a context past M1 is accepted, counted and carried on as in a new context. |
| PairingState.RestartStrands | arduino/libraries/Homekit/esp_hap_core/src/esp_hap_pair_setup.c:429-514 | Two start messages on one connection: every setup message and pairings request on it afterwards is undefined exactly if the contexts are in different blocks. |
| PairingState.AddedIs | arduino/libraries/Homekit/esp_hap_core/src/esp_hap_pairings.c:139-162 | A controller is added exactly to its own slot with its own key, or, if it is new, to the first free one of 16. |
| PairingState.RemovedIs | arduino/libraries/Homekit/esp_hap_core/src/esp_hap_pairings.c:96-115 | Removing leaves all others if one of them has permissions, and else nothing. |
| PairingState.State.SetupMeans | arduino/libraries/Homekit/esp_hap_core/src/esp_hap_pair_setup.c:491-535 | When a setup message is accepted at each step, and what it makes of counter, flags, context and table. |
| PairingState.AttemptsCounted | arduino/libraries/Homekit/esp_hap_core/src/esp_hap_pair_setup.c:515-515 | In a run in which setup saves no controller the counter goes up by the number of proofs tried. |
| PairingState.AttemptsReset | arduino/libraries/Homekit/esp_hap_core/src/esp_hap_pair_setup.c:376-405 | When setup has saved a controller the counter is 0. |
| PairingState.OnlyAdministrators | arduino/libraries/Homekit/esp_hap_core/src/esp_hap_pairings.c:35-46 | A pairings request that changes anything comes from a verified session of a controller with permissions 1. |
| Pairing.SlotInTable | arduino/libraries/Homekit/esp_hap_core/src/esp_hap_controllers.c:135-144 | Looking an identifier up in the slots finds what looking it up in the keystore finds. |
| Pairing.AddedKnown | arduino/libraries/Homekit/esp_hap_core/src/esp_hap_pairings.c:139-148 | A known controller is added to its own slot exactly with its own key. |
| Pairing.AddedNew | arduino/libraries/Homekit/esp_hap_core/src/esp_hap_pairings.c:149-162 | A new one is added to the first free slot, and not exactly when all are taken. |
| Pairing.ClosedForExactly | arduino/libraries/Homekit/esp_hap_core/src/esp_hap_pair_verify.c:80-96 | Who is told to close is determined: the recorded sessions of the slots that are in the table before and not after. |
| Pairing.PlacesAfterRecord | arduino/libraries/Homekit/esp_hap_core/src/esp_hap_pair_verify.c:119-139 | Recording a session in a free place adds exactly its connection to those recorded, and each is still recorded once. |
| Pairing.PlacesAfterFree | arduino/libraries/Homekit/esp_hap_core/src/esp_hap_pair_verify.c:141-156 | Freeing the session of a connection takes exactly that connection from those recorded. |
| Pairing.ClosedForMore | arduino/libraries/Homekit/esp_hap_core/src/esp_hap_pair_verify.c:80-96 | Closing the recorded sessions of some slots and then of others is closing those of both. |
| Pairing.SlotsAfterClear | arduino/libraries/Homekit/esp_hap_core/src/esp_hap_controllers.c:122-133 | Removing a controller makes exactly its slot invalid. |
| Pairing.Accessory.constructor | arduino/libraries/Homekit/esp_hap_core/src/esp_hap_controllers.c:36-61 | At boot the table is that of the keystore, and everything is valid. |
| Pairing.Accessory.ControllersInit | arduino/libraries/Homekit/esp_hap_core/src/esp_hap_controllers.c:36-61 | Each slot is the stored controller of its index, or cleared. |
| Pairing.Accessory.IsAccessoryPaired | arduino/libraries/Homekit/esp_hap_core/src/esp_hap_controllers.c:86-94 | True exactly when some slot is valid. |
| Pairing.Accessory.IsAdminPaired | arduino/libraries/Homekit/esp_hap_core/src/esp_hap_controllers.c:96-104 | True exactly when some valid controller has permissions. |
| Pairing.Accessory.GetController | arduino/libraries/Homekit/esp_hap_core/src/esp_hap_controllers.c:135-144 | The slot of the valid controller with the identifier, or none if there is none. |
| Pairing.Accessory.GetEmptyLoc | arduino/libraries/Homekit/esp_hap_core/src/esp_hap_controllers.c:63-73 | The first free slot, whose index is written, or none when all are valid. |
| Pairing.Accessory.SaveController | arduino/libraries/Homekit/esp_hap_core/src/esp_hap_controllers.c:106-120 | The slot becomes valid and the keystore has it under its index. |
| Pairing.Accessory.RemoveController | arduino/libraries/Homekit/esp_hap_core/src/esp_hap_controllers.c:122-133 | The slot is cleared and its key erased. |
| Pairing.Accessory.CloseSessionsOf | arduino/libraries/Homekit/esp_hap_core/src/esp_hap_pair_verify.c:80-96 | Told to close, besides those told before, are exactly the connections of recorded sessions of the slot. |
| Pairing.Accessory.VerifyFinish | arduino/libraries/Homekit/esp_hap_core/src/esp_hap_pair_verify.c:288-423 | Undefined exactly on a connection in setup. Else a session is made exactly for a known controller with a right signature, on a connection that has none; it refers to that controller's slot, goes to the first free place, and is recorded exactly when there is one. |
| Pairing.Accessory.Record | arduino/libraries/Homekit/esp_hap_core/src/esp_hap_pair_verify.c:119-139 | The session goes to the first free place and nothing else changes; none exactly when all eight are taken. |
| Pairing.Accessory.AddSession | arduino/libraries/Homekit/esp_hap_core/src/esp_hap_pair_verify.c:119-139 | Keeps the sessions in order: a live session is recorded exactly when it found a free place. |
| Pairing.Accessory.FreeSession | arduino/libraries/Homekit/esp_hap_core/src/esp_hap_pair_verify.c:141-156 | The session's place, if it has one, is freed, and no other. |
| Pairing.Accessory.ProcessPairAdd | arduino/libraries/Homekit/esp_hap_core/src/esp_hap_pairings.c:121-177 | Succeeds exactly for a known identifier with its own key, which keeps its slot and gets the permissions, and for an unknown one with a free slot, which gets the first; too many peers exactly when all slots are taken. Failures change no pairing; table and keystore stay in order and in step. Slot, key and the new keystore are given outright. |
| Pairing.Accessory.UpdatePermissions | arduino/libraries/Homekit/esp_hap_core/src/esp_hap_pairings.c:139-148 | The slot of a known controller gets new permissions, in the keystore too, and nothing else changes. |
| Pairing.Accessory.AddNew | arduino/libraries/Homekit/esp_hap_core/src/esp_hap_pairings.c:149-162 | An unknown controller goes to the first free slot; none exactly when all are taken. |
| Pairing.Accessory.RemoveAllControllers | arduino/libraries/Homekit/esp_hap_core/src/esp_hap_pairings.c:70-79 | Table and keystore are empty, and told to close are exactly the recorded sessions of all controllers there were. |
| Pairing.Accessory.ProcessPairRemove | arduino/libraries/Homekit/esp_hap_core/src/esp_hap_pairings.c:80-119 | Afterwards some valid controller has permissions or table and keystore are empty; the identifier is unknown; a live session of a removed controller is told to close exactly when it found a place at its verify, or was told before, and no session of another is; if a place was free at each verify, all of them are. Other pairings stay while an administrator is left. |
| Pairing.Accessory.RemoveOneOrAll | arduino/libraries/Homekit/esp_hap_core/src/esp_hap_pairings.c:96-115 | The controller goes, and all others too exactly when no administrator is left. |
| Pairing.Accessory.ClosedMeansSignalled | arduino/libraries/Homekit/esp_hap_core/src/esp_hap_pair_verify.c:80-96 | When the recorded sessions of some slots are told to close, a live session of theirs is told exactly when it found a place or was told before. |
| Pairing.NineSessions | arduino/libraries/Homekit/esp_hap_core/src/esp_hap_pair_verify.c:119-139 | Nine connections verify as the one administrator, who is then removed: eight are told to close, the ninth is not, though it is live. |
| Pairing.Accessory.PairingsProcess | arduino/libraries/Homekit/esp_hap_core/src/esp_hap_pairings.c:228-255 | Only a verified session of an administrator changes anything; for it a request succeeds exactly when its parts are right, with the effect of adding or removing, sessions told to close included. An administrator is a verified session whose controller is in the keystore with permissions 1; all others get an authentication error and change nothing. |
| Pairing.Accessory.PairingsHandler | arduino/libraries/Homekit/esp_hap_core/src/esp_hap_ip_services.c:1255-1272 | Undefined exactly when the connection is in setup and its pointer is to another block than the context. A success has a verified session on the connection, whose controller is in the keystore with permissions 1; without one the answer is an authentication error and nothing changes. With one a request succeeds exactly when its parts are right; adding, removing and listing make of the keystore what is written out. |
| Pairing.Accessory.ContextInit | arduino/libraries/Homekit/esp_hap_core/src/esp_hap_pair_setup.c:429-465 | Succeeds exactly when there is no context, and then makes one, in the block that the allocator gives, for this connection; otherwise the one there is stays. |
| Pairing.Accessory.SrpStart | arduino/libraries/Homekit/esp_hap_core/src/esp_hap_pair_setup.c:60-179 | M1 is accepted exactly when nothing is paired, fewer than 100 attempts were made and the message is right; of the table only the index in the first free slot may change; the context keeps its number, block and connection. |
| Pairing.Accessory.SrpVerify | arduino/libraries/Homekit/esp_hap_core/src/esp_hap_pair_setup.c:182-247 | M3 is accepted exactly with the right state and proof, and leads to M4. |
| Pairing.Accessory.Exchange | arduino/libraries/Homekit/esp_hap_core/src/esp_hap_pair_setup.c:248-405 | M5 saves exactly the controller of the message, as administrator, and resets the attempts, exactly when it decrypts and its signature is right. |
| Pairing.Accessory.PairSetupProcess | arduino/libraries/Homekit/esp_hap_core/src/esp_hap_pair_setup.c:491-535 | Which step a message is for, exactly when it is accepted, the context, table, flags and attempts after it; a start message begins again, in another block or the same, which is noted as a move of the context. pair_attempts never exceeds 100. A proof that is tried raises the counter by 1, accepted or not; a controller saved sets it to 0; nothing else changes it. |
| Pairing.Accessory.ProcessStep | arduino/libraries/Homekit/esp_hap_core/src/esp_hap_pair_setup.c:515-535 | The step that the context is at, without a restart. The counter goes up by 1 at the proof step only, and to 0 with a controller saved. |
| Pairing.Accessory.Restart | arduino/libraries/Homekit/esp_hap_core/src/esp_hap_pair_setup.c:502-514 | The context is freed and a new one made in the block that the allocator gives, for the same connection. |
| Pairing.Accessory.PairSetupHandler | arduino/libraries/Homekit/esp_hap_core/src/esp_hap_ip_services.c:88-134 | Undefined exactly when the connection's pointer does not point to the context. Else the whole state is that of the machine: a message is accepted exactly when its step asks for it; a failure drops the context; another connection gets Busy and changes nothing; the pointer is set once and not by a restart; the keystore changes only by a full setup, which is logged, to the one new administrator. What each of the three messages needs, and what it makes of counter, flags, context and keystore, is written out. |
| Pairing.Accessory.SetupRequest | arduino/libraries/Homekit/esp_hap_core/src/esp_hap_ip_services.c:98-134 | The steps of the handler, as the machine makes them. |
| Pairing.Accessory.PointerGoodExactly | arduino/libraries/Homekit/esp_hap_core/src/esp_hap_ip_services.c:98-111 | The pointer of a connection in setup points to the context exactly if setup was not restarted since it was set, or the last restart got the same block. |
| Pairing.Accessory.ProcessOrDrop | arduino/libraries/Homekit/esp_hap_core/src/esp_hap_ip_services.c:106-133 | With a good pointer: accepted exactly when its step asks for it; after a failure or a completed setup neither context nor pointer is left; the rest as in the machine. |
| Pairing.StartTwice | arduino/libraries/Homekit/esp_hap_core/src/esp_hap_ip_services.c:88-134 | M1, M1, M3 on one connection: the third message is defined exactly if both allocations gave the same block. |
| Pairing.Accessory.SetupTimeout | arduino/libraries/Homekit/esp_hap_core/src/esp_hap_pair_setup.c:413-421 | The connection of the context is told to close. |
| Pairing.Accessory.ConnectionClosed | arduino/libraries/Homekit/esp_hap_core/src/esp_hap_pair_setup.c:468-474 | The connection's session, its place and its setup context go with it, whatever its pointer points to, and nothing of others. |
| Pairing.Accessory.Run | arduino/libraries/Homekit/esp_hap_core/src/esp_hap_pairings.c:228-255 | Over any sequence of setup messages, pairing requests, verifications, timeouts and closed connections, up to the first that is undefined and exactly to it, the whole state is that of the machine, and valid: identifiers of valid slots are distinct, indexes right, free slots without permissions, keystore and table in step; a live session is recorded exactly when it found a place; the context is where the pointer was set or where the last restart put it; past M1 only while nothing is paired, below 100 attempts in M2. While setup saves no controller the counter goes up by the number of proofs tried, and these are 100 at most; a controller saved sets it to 0. A pairings request that changes anything is of a verified session whose controller has permissions 1. |
| Pairing.Accessory.Do | arduino/libraries/Homekit/esp_hap_core/src/esp_hap_ip_services.c:88-240 | Each event is undefined exactly when it is in the machine, and else changes the whole state as it does there. |
| Pairing.RebootKeepsTable | arduino/libraries/Homekit/esp_hap_core/src/esp_hap_controllers.c:36-61 | After any run, hap_controllers_init rebuilds the same table from the keystore. |
| Tlv8.FragmentsLength | arduino/libraries/Homekit/esp_hap_core/src/esp_hap_pair_common.c:93-113 | A value takes len + 2 * max(1, ceil(len / 255)) bytes. |
| Tlv8.RoomCheckIsExact | arduino/libraries/Homekit/esp_hap_core/src/esp_hap_pair_common.c:95-96 | The room that add_tlv checks for is enough for every buffer exactly for values of at most 255 bytes. |
| Tlv8.FragmentsBytes | arduino/libraries/Homekit/esp_hap_core/src/esp_hap_pair_common.c:93-113 | Byte by byte: fragment f starts at 257 * f with the type and its length, which is 255 for all but the last, and byte j of the value is in fragment j / 255. |
| Tlv8.TlvData.AddTlv | arduino/libraries/Homekit/esp_hap_core/src/esp_hap_pair_common.c:93-113 | Appends exactly the fragments of the value and returns their length; -1 exactly without a buffer or without the checked room; past the end of the buffer exactly when the check passes and the fragments do not fit. What is written is given byte by byte. |
| Tlv8.TlvData.AddAll | arduino/libraries/Homekit/esp_hap_core/src/esp_hap_pair_common.c:93-113 | A list of items is written as its encoding whenever that fits, and whatever is written without a failure is it. |
| Tlv8.Round | arduino/libraries/Homekit/esp_hap_core/src/esp_hap_pair_common.c:40-60 | One round of the readers' loop, by cases, is one step of the reference walk, and of the search for a tag that ends the memory and whose length is needed; a tag of another type ends a value without its length being read. |
| Tlv8.GetTlvLength | arduino/libraries/Homekit/esp_hap_core/src/esp_hap_pair_common.c:36-62 | The length of what the walk finds, -1 if nothing; a byte behind the end of memory is read exactly when the walk comes to a tag that ends it and needs its length. |
| Tlv8.GetValueFromTlv | arduino/libraries/Homekit/esp_hap_core/src/esp_hap_pair_common.c:63-91 | With room for it, exactly what get_tlv_length measures, byte for byte; with less, or when nothing is found, -1. Bytes behind the given size are untouched. A byte behind the end of memory is read exactly when the walk comes to a tag that ends it and needs its length, and what it found before had room. |
| Tlv8.NothingStrays | arduino/libraries/Homekit/esp_hap_core/src/esp_hap_pair_common.c:40-60 | The readers stay inside when memory goes on behind what they read, or is well formed. |
| Tlv8.LoneByteEnds | arduino/libraries/Homekit/esp_hap_core/src/esp_hap_pair_common.c:54-55 | A full fragment and then a lone byte of another type: the value is found, and nothing is read behind the end. |
| Tlv8.ScanFragments | arduino/libraries/Homekit/esp_hap_core/src/esp_hap_pair_common.c:40-60 | The walk over an item of the type gives its value, and runs on exactly after a positive multiple of 255. |
| Tlv8.SkipFragments | arduino/libraries/Homekit/esp_hap_core/src/esp_hap_pair_common.c:40-60 | The walk passes over items of other types. |
| Tlv8.ScanEncoded | arduino/libraries/Homekit/esp_hap_core/src/esp_hap_pair_common.c:36-113 | On any list of encoded items the walk is the lookup in the list. |
| Tlv8.FirstItemReadBack | arduino/libraries/Homekit/esp_hap_core/src/esp_hap_pair_common.c:36-113 | With different types on neighbours, the first item of a type is found byte for byte, except exactly when it is the last and its length is a positive multiple of 255. |
| Tlv8.AbsentType | arduino/libraries/Homekit/esp_hap_core/src/esp_hap_pair_common.c:36-113 | A type that does not occur is not found. |
| Tlv8.CutOff | arduino/libraries/Homekit/esp_hap_core/src/esp_hap_pair_common.c:44-48 | An item of the type that does not end within what is read is not found. |
| Tlv8.EncodedIsReadable | arduino/libraries/Homekit/esp_hap_core/src/esp_hap_pair_common.c:36-91 | On what add_tlv writes the readers stay inside, even when the memory ends there. |
| Tlv8.WriteThenRead | arduino/libraries/Homekit/esp_hap_core/src/esp_hap_pair_common.c:36-113 | Writing any list of items with room and reading one back, with the exception above. |
| Warehouse.TurnGoesOn | main/CoreBridge/Warehouse.cpp:52-57 | Slot 0 is taken again exactly when the ring is full. |
| Warehouse.DatesAfterAppend | main/CoreBridge/Warehouse.cpp:52-63 | Appending to the ring is appending to the log of dates: the ring holds the last 31. |
| Warehouse.DatesAfterAverage | main/CoreBridge/Perioder.cpp:111-111 | Writing an average changes the newest date and no other. |
| Warehouse.HoursAfterAppend | main/CoreBridge/Warehouse.cpp:43-50 | Within 24 hours an hourly record is appended and the cycle counter advances by one modulo 2^24. |
| Warehouse.DatesAfterHour | main/CoreBridge/Warehouse.cpp:43-50 | Within 24 hours an hourly record leaves the dates alone. |
| Warehouse.HoursOverrunDates | main/CoreBridge/Warehouse.cpp:43-50 | An hourly record leaves the dates alone, whatever it holds, exactly when it is not the 25th to 76th since the pointer was reset. |
| Warehouse.AfterDateBytes | main/CoreBridge/Warehouse.cpp:52-63 | The bytes of a date: slot 0 after slot 30, at 77 + 5 * slot year, month, day and the average low byte first; byte 4 is the slot. |
| Warehouse.AfterHourBytes | main/CoreBridge/Warehouse.cpp:43-50 | The bytes of an hour: at 5 + 3 * slot the hour and the current low byte first; byte 3 is the slot, and bytes 0 to 2 count one more. |
| Warehouse.LengthMeans | main/CoreBridge/Warehouse.cpp:87-94 | The length by the number of dates and one year byte. |
| Warehouse.ExportedNewest | main/CoreBridge/Warehouse.cpp:118-170 | The lines of the export are the newest dates, with years from 1900 and months from 1. |
| Warehouse.LastSlot | main/CoreBridge/Warehouse.cpp:87-94 | The year byte that the length looks at is that of the last date of the turn before, or 0 before the ring was full. |
| Warehouse.YearsTellLength | main/CoreBridge/Warehouse.cpp:87-94 | Non-zero year bytes are enough for the length to be told. |
| Warehouse.LengthCanBeLost | main/CoreBridge/Warehouse.cpp:87-94 | 32 dates with year byte 0: the length is told as 1. |
| Warehouse.CyclesOr | main/CoreBridge/Warehouse.cpp:10-16 | The or-ed bytes are the 24-bit counter. |
| Warehouse.Recorder.ReadAsInt16 | main/CoreBridge/Warehouse.cpp:245-247 | The little-endian word at an address. |
| Warehouse.Recorder.WriteAsInt16 | main/CoreBridge/Warehouse.cpp:225-228 | Writes that word and nothing else. |
| Warehouse.Recorder.GetCycleRecord | main/CoreBridge/Warehouse.cpp:10-16 | The 24-bit counter. |
| Warehouse.Recorder.IncreaseCycleRecord | main/CoreBridge/Warehouse.cpp:18-24 | The counter goes up by one, modulo 2^24. |
| Warehouse.Recorder.AppendHourlyRecord | main/CoreBridge/Warehouse.cpp:43-50 | Writes exactly the bytes of the next hour, its pointer and the counter, and within 24 hours is an append to the hours. |
| Warehouse.Recorder.AppendDateRecord | main/CoreBridge/Warehouse.cpp:52-63 | An append to the log of dates; hours and counter are kept. All bytes written are given. |
| Warehouse.Recorder.FormatZero | main/CoreBridge/Warehouse.cpp:65-79 | From any contents, nothing is recorded afterwards; the counter is kept unless the format is deep. All bytes written are given. |
| Warehouse.Recorder.RestartDay | main/CoreBridge/Perioder.cpp:131-131 | The hours start again; dates and counter are kept. |
| Warehouse.Recorder.WriteAverage | main/CoreBridge/Perioder.cpp:155-155 | The newest date gets its average. The two bytes written are given. |
| Warehouse.Recorder.GetHourDataLength | main/CoreBridge/Warehouse.cpp:81-85 | The number of hours of this day. |
| Warehouse.Recorder.GetDateDataLength | main/CoreBridge/Warehouse.cpp:87-94 | min(count, 31) exactly when at most 31 dates were appended, or the ring is exactly full, or the last date of the turn before has a non-zero year byte; otherwise the dates of the current turn only. |
| Warehouse.Recorder.ExportDates | main/CoreBridge/Warehouse.cpp:118-170 | Lists exactly the last min(count, 31) dates, oldest first, under the same condition, and otherwise those of the current turn. Each line has the year plus 1900, the month plus 1, the day and the average of its date. |
| Warehouse.Recorder.ExportHours | main/CoreBridge/Warehouse.cpp:96-116 | Lists exactly the hours of this day. |
| Warehouse.Recorder.IsLastDateDataToday | main/CoreBridge/Warehouse.cpp:172-183 | True exactly when the newest date is this day. |
| Warehouse.Recorder.Run | main/CoreBridge/Warehouse.cpp:10-170 | After a format and any operations with at most 24 hours a day, the counter is the number of hourly records added to what was there, modulo 2^24, and length and export are those of all dates appended. |
| Warehouse.YearsTellLengthOfRun | main/CoreBridge/Warehouse.cpp:87-94 | A run whose dates have non-zero years is exported right, averages notwithstanding. |
| Base36.PowersAreRight | arduino/libraries/Homekit/esp_hap_core/src/priv_includes/base36.h:23-38 | The table holds the powers of 36. |
| Base36.NumeralValue | tools/setup_payload_gen/setup_payload_gen.py:19-26 | The numeral of a number has that value and no leading zero. |
| Base36.NumeralUnique | arduino/libraries/Homekit/esp_hap_core/src/priv_includes/base36.h:40-60 | There is no other numeral of that value without leading zero. |
| Base36.NumeralLength | arduino/libraries/Homekit/esp_hap_core/src/priv_includes/base36.h:40-60 | A numeral has at most k digits exactly below 36^k. |
| Base36.TakeDigit | arduino/libraries/Homekit/esp_hap_core/src/priv_includes/base36.h:50-51 | The quotient by the power is a digit, and the number stays split into what was written and what is left. |
| Base36.Base36ToStr | arduino/libraries/Homekit/esp_hap_core/src/priv_includes/base36.h:40-60 | For every signed 64-bit c >= 0 the greedy conversion gives the shortest numeral, and "0" for 0. |
| Base36.Base36Encode | tools/setup_payload_gen/setup_payload_gen.py:19-26 | The divmod loop gives the shortest numeral, and nothing for 0. |
| Base36.BothEncoders | arduino/libraries/Homekit/esp_hap_core/src/priv_includes/base36.h:40-60 | The two encoders agree exactly for c > 0. |
| SetupPayload.RemoveChars | arduino/libraries/Homekit/esp_hap_core/src/esp_hap_setup_payload.c:39-50 | Compacts the text in its buffer to the same text without c, terminated; what lies behind stays. |
| SetupPayload.CodeDigits | arduino/libraries/Homekit/esp_hap_core/src/esp_hap_setup_payload.c:65-66 | From 111-22-333 and the like the eight digits are left, a number below 10^8. |
| SetupPayload.AtoiReads | arduino/libraries/Homekit/esp_hap_core/src/esp_hap_setup_payload.c:66-66 | What is read of a code: white space and a plus sign are passed over, and the digits up to the first other character count. |
| SetupPayload.BothPackTheSame | arduino/libraries/Homekit/esp_hap_core/src/esp_hap_setup_payload.c:67-75 | Or-ing step by step and the one expression of the Python tool give the same number for every code and category. |
| SetupPayload.Fields | arduino/libraries/Homekit/esp_hap_core/src/esp_hap_setup_payload.c:67-75 | With a code of 27 bits, category, flags and code do not overlap. |
| SetupPayload.PackedIsLong | arduino/libraries/Homekit/esp_hap_core/src/esp_hap_setup_payload.c:67-76 | The payload is positive and fits a signed 64-bit integer. |
| SetupPayload.BodyDecodes | arduino/libraries/Homekit/esp_hap_core/src/esp_hap_setup_payload.c:67-76 | From the body of a payload category, flags and code are recovered. |
| SetupPayload.BodyHasSevenDigits | arduino/libraries/Homekit/esp_hap_core/src/esp_hap_setup_payload.c:67-76 | With WAC the body has exactly 7 digits for every code exactly for categories 1 to 35; without, it has 7 for 1 to 36. |
| SetupPayload.EspHapGetSetupPayload | arduino/libraries/Homekit/esp_hap_core/src/esp_hap_setup_payload.c:52-81 | Undefined exactly when both lengths are right and the code is no int. Else null exactly for missing arguments or lengths other than 10 and 4; otherwise prefix, numeral of the payload and identifier, cut to the buffer of 24. The code is what atoi reads once the dashes are gone: digits after spaces and a plus sign. For codes below 2^27 the number is category * 2^31 + flags * 2^27 + code, flags 10 with WAC and 2 without. |
| SetupPayload.SetupPayloadGen | tools/setup_payload_gen/setup_payload_gen.py:28-52 | Prefix, numeral and identifier. |
| SetupPayload.BothGenerators | arduino/libraries/Homekit/esp_hap_core/src/esp_hap_setup_payload.c:52-81 | For every code of the documented form, identifier of 4 characters and category 1 to 35, C with WAC and Python build the same text, from which all three can be read. |
| Fuse.SumAfterReport | main/CommandHandler.cpp:152-155 | A report changes the sum of currents by the change of its module. |
| Fuse.MarginBound | main/CommandHandler.cpp:161-163 | A margin is at most what is left, and 0 when nothing is. |
| Fuse.BytesOf | main/CoreBridge/CoreBridge.cpp:168-204 | The messages of a report byte by byte: 44 addr 66, or 45 62, and 55 63 00 and the margin low byte first, all in base 16. |
| Fuse.TargetMeans | main/CoreBridge/CoreBridge.cpp:246-254 | Who is turned off: with priorities in use and a module on, the last of those on with the greatest priority, and else the one recorded. |
| Fuse.TruncatedShare | main/CommandHandler.cpp:161-161 | Division towards zero: the greatest fair share of what is left, never positive when nothing is left. |
| Fuse.CoreBridge.constructor | main/CoreBridge/CoreBridge.cpp:14-16 | No modules, nothing queued, no overload seen. |
| Fuse.CoreBridge.DoModulesAction | main/CoreBridge/CoreBridge.cpp:182-204 | Queues one message with each address followed by its action. |
| Fuse.CoreBridge.UpdateModulesData | main/CoreBridge/CoreBridge.cpp:168-180 | Queues one message with type, address and the value, low byte first. |
| Fuse.CoreBridge.SelectByPriority | main/CoreBridge/CoreBridge.cpp:246-254 | The address becomes that of a switched-on module of greatest priority, the last of them, and is kept if none is on. |
| Fuse.CoreBridge.OverloadProtectionCheck | main/CoreBridge/CoreBridge.cpp:239-279 | A turn-off is queued exactly when the 16-bit sum is over the limit and the latch is clear; with the latch set a check over the limit only asks for currents, once a second. The latch says how the last check went. Who is turned off, by priority or as recorded. The message is given byte by byte. |
| Fuse.CoreBridge.SetModuleCurrent | main/CoreBridge/CoreBridge.cpp:215-221 | The current of the one module, and the sum changes by the change of it if it is linked. |
| Fuse.CoreBridge.RemoveModules | main/CoreBridge/CoreBridge.cpp:130-138 | No modules are left, and the latch stays as it is. |
| Fuse.CoreBridge.SumCurrents | main/CommandHandler.cpp:152-154 | The loop computes the sum over the linked modules. |
| Fuse.CoreBridge.CurrentReport | main/CommandHandler.cpp:140-172 | The module's current, linked or not, the sum, the check of its low 16 bits, and the margin: sum + n * mcub <= MAX_CURRENT < sum + n * (mcub + 1) when the sum is within the limit, and 0 otherwise; undefined exactly when no module is linked. Who is recorded as trigger, who is turned off, all messages queued; the history goes on with the new sum. Messages are given byte by byte. |
| Fuse.CoreBridge.SumAndCheck | main/CommandHandler.cpp:143-157 | Trigger, current, sum and check of one report. |
| Fuse.CoreBridge.ShareOut | main/CommandHandler.cpp:160-169 | The margin and its broadcast; none exactly when no module is linked. |
| Fuse.CoreBridge.Crossing | main/CommandHandler.cpp:140-172 | From any sum within the limit: a report that stays within it turns nothing off; one that crosses it queues one turn-off exactly when the latch is clear and the new sum is below 65536, and the latch is set exactly when modules were removed during an overload that had been seen, with nothing reported since. Unless priorities decide, the turn-off is for the module that reported. |
| Fuse.MissedAfterLink | main/CoreBridge/CoreBridge.cpp:239-279 | Link, a report of 4096, link, a report of 4096: two overloads, one turn-off. |
| Fuse.MissedByWrap | main/CommandHandler.cpp:152-157 | A report of 65535 takes the sum from 1 to 65536, and nothing is turned off. |
| Overload.LatchedWithinLimit | main/CoreBridge/CoreBridge.cpp:239-279 | Within the limit the latch is set exactly when modules were removed during an overload that had been seen, with nothing reported since. |
| Overload.CrossingAnswered | main/CoreBridge/CoreBridge.cpp:239-279 | In any history of sums, a crossing of the limit queues a turn-off exactly when the new sum is below 65536 and the latch is not set for that reason. |
| Overload.StepKept | main/CoreBridge/CoreBridge.cpp:239-279 | The latch goes on agreeing with the sum exactly when modules are removed within the limit, and a new sum is one that 16 bits show rightly. |
| Overload.InStepExactly | main/CoreBridge/CoreBridge.cpp:239-279 | The latch agrees with the sum exactly if every next report below 65536 queues a turn-off just when it crosses the limit. |
| Overload.OneTurnOffEach | main/CoreBridge/CoreBridge.cpp:239-279 | If modules are removed only within the limit and no sum reaches 65536, each report queues a turn-off exactly when it crosses the limit, and there are as many turn-offs as overloads. |
| Overload.DecidesExactly | main/CommandHandler.cpp:140-172 | One report queues a turn-off just when it crosses the limit, exactly under a condition on the history and the new sum that can be checked before. |
| Overload.OneForEachExactly | main/CommandHandler.cpp:140-172 | A history has one turn-off for each overload, and none besides, exactly when that condition holds at every report. |
| Overload.OneForEachCounts | main/CommandHandler.cpp:140-172 | Then there are as many turn-offs as overloads. |
| Fuse.CoreBridge.LinkModule | main/CommandHandler.cpp:76-92 | The module is set with current 0 and counted; the first to come removes all others. |
| Fuse.CoreBridge.Link | main/CommandHandler.cpp:65-113 | After linking n modules their number is n, all as announced, and the sum is 0; the latch stays as it is. |
| Fuse.CoreBridge.SetModuleSwitchState | main/CoreBridge/CoreBridge.cpp:206-213 | Sets the state only; the sum stays. |
| Fuse.CoreBridge.SetModulePriority | main/CoreBridge/CoreBridge.cpp:223-229 | Sets the priority only; the sum stays. |
| Fuse.CoreBridge.Run | main/CommandHandler.cpp:140-172 | Over any run of links, removals, reports, switches and settings, up to the first that is undefined and exactly to it: modules and history are those that the actions make of the modules there were; mcub <= max(0, MAX_CURRENT - sum); turn-offs are those of the history, one for each overload exactly when every report decides so, and as many as crossings of the limit if the history is orderly. |
| Fuse.CoreBridge.Do | main/CommandHandler.cpp:65-172 | Each action changes the modules, their number and the history as it does in the machine over values. |

## Left out

Whole parts of the repository:
- Wi-Fi, MQTT, mDNS, the HTTP server, SPI, I2C, GPIO, timers and tasks. A stream is a finite byte sequence followed by a timeout; the EEPROM is an array of bytes that answers every read; a received message is given by what its parts turn out to be.
- The cryptographic primitives. The AEAD is a pair of functions of which is assumed only that open undoes seal and refuses another nonce (section 2.8 of RFC 8439); the hash of SRP and the CRC of the partition generator are function parameters; signature and proof checks are booleans of a message.
- JSON, characteristics, services and accessories; the two tables of Apple's characteristics and services; `RingBuffer.h`, `hexbin.c`, `IPAddress.cpp` and the simple accessors of `String`, which would only add easy members.
- NVS encryption, key files and CSV parsing; the conversion of a cell to bytes or a number; the FULL state that nvs_partition_gen.py:301-304 writes to the global `page_header`, which reaches no page.
- Allocation failure, keystore failure and slots of the server that are reused by stale sockets.

Details of what is modelled:
- StreamSearch: `read` is taken to give all bytes before the timeout; the two `find` methods call `findUntil` with other arguments.
- NvsWriter: keys have at most 16 bytes and no zero byte; the tool takes longer ones too (nvs_partition_gen.py:398-401, 429-430) and writes them over the fields behind, and none of them is read back (`KeysComeBack`). Strings are bytes, as in the tool only for ASCII text; other text is not read back (`TextReadsBack`). How such entries run into those behind them is left out. Values arrive in binary form. Python's own error for a field that does not fit is `RangeError`. The page counter and the version are fields; the output file is a result.
- SecureSession: one session in one direction, since the frame buffer is dropped when the session changes. A header read of one byte counts as an error, as in the code; nothing is assumed about how reads are cut. Of the AEAD it is assumed that it refuses a frame sealed under another nonce; frames made by a third party are not part of this model.
- SecureSession.Link.Run: after a frame was lost nothing more arrives, and after an error on the receiving side nothing more is delivered; that what is sent does arrive in the end depends on the network. Runs of more than 2^64 frames are left out, since the nonces wrap.
- SecureSession.Link.Recv: when a frame was lost, requires that no more than 2^64 frames were numbered; requires that no frame was cut, since then the receiver opens bytes of two frames as one, of which nothing is assumed.
- Srp: `mu_srp_exchange_proofs`, the salt, and the random numbers, which are parameters. `k` and `u` are read as integers; the copy of `H` in srp_tool.py gives hexadecimal text where the formula needs a number, so the client here is that of section 2.6 of RFC 5054, in the shape of srp_tool.py:413.
- Srp.MuSrp.CalculatePaddedHash: when one input is shorter than N and the other longer, the source hashes a negative number of zeros; the result is None.
- StringReplace: C strings without zero bytes; `memcpy` and `strcpy` move bytes that may overlap as `memmove` does. `find` and `replace` are not the string itself. A failed reallocation, where the source gives up silently, is left out.
- StringReplace.String.ReplaceGrowing: when the rewriting would pass the end of the buffer, the model stops with `inBounds == false`; the code would write on. `GrowExactly` says when this and other disagreements cannot happen.
- Pairing: the source compares identifiers as C strings of at most 63 characters and may leave junk behind them; here an identifier is its text. Of long-term keys only equality matters.
- Pairing.Accessory.PairSetupHandler: when the server's pointer is not to the live context (`PointerGood`), the source works on freed memory and the model stops. So it does for a message to /pair-setup on a connection that is already verified, and for one to verify on a connection in setup, where the session context is of another kind; the contexts that pair verify has before it finishes are left out. MFi and software token authentication are left out, as in the build without them (`esp_mfi_dummy.c`).
- Pairing.Accessory.ProcessPairRemove: the last administrator is judged by non-zero permissions, as in the code, while a request must come from permissions equal to 1.
- Pairing.Accessory.PairingsProcess: List Pairings changes nothing and its answer is left out.
- Tlv8: where the source would write or read outside a buffer, the result is None and the model says nothing more.
- Warehouse: the text of a date and the averages over the hours. The buffer for that text is not part of this model.
- Warehouse.Recorder.AppendHourlyRecord: after more than 24 records in a day its bytes are stated and nothing else.
- Fuse: reports that come while modules are still being linked, the messages that linking queues, names and types of modules, and MQTT updates. `due` stands for the clock. Addresses behind the table of 20 modules are undefined, and runs stop there.
- Concurrency between tasks: every handler is one step.
