# Object Transfer Service client: a verified model

The repository implements a client of the Bluetooth Object Transfer Service 1.0: a byte-level codec
(`core/src/types.rs`), a client that drives a remote list of objects over two control points
(`bluez-async-ots/src/lib.rs`), and a command line tool on top (`cli/src/main.rs`). This project models
the three layers and proves what they promise each other.

| file | content |
|---|---|
| `Wrappers.dfy`, `Bytes.dfy`, `Errors.dfy` | options and results, machine words and bits, error values and length checks |
| `Utf8.dfy`, `Uuids.dfy` | well-formed UTF-8, object types |
| `ObjectMetadata.dfy` | the body of a directory record: the parser, a reference encoder, their round trip |
| `Directory.dfy` | framing of a directory, the iterator `DirEntries`, whole-buffer theorems |
| `ControlPoint.dfy` | requests and responses of both control points, with the server's side of the codec |
| `Server.dfy` | a reference server: objects, a current object, a transfer channel, a log of what it was sent |
| `Client.dfy` | feature gates, exchanges, moves, transfers; the class `OtsClient` |
| `Hex.dfy`, `Cli.dfy` | hexadecimal input, selecting, listing, writing |
| `TwoPaths.dfy` | reading the directory object and walking the list report the same |
| `KnownGaps.dfy` | a concrete input for each place where the code and its documentation part |

## Main results

* **Directories.** Iterating an encoded directory gives back its entries if and only if every entry is
  readable (`DirectoryRoundTrip`). For the parser as written, readable means at least eleven bytes and both
  timestamps or neither; the parser with the intended flag needs only the eleven bytes. For every other
  buffer, `Conservation`, `OneItemPerFrame`, `ItemsAreBounded` and `FaultsAreIsolated` say that no byte is lost, that
  each record yields one item read from its own bytes alone, that the number of items has a bound that is
  reached, and that damage inside one body changes one item.
* **Record bodies.** The result of every byte string is told by position, fault by fault and field by field
  (`MetadataByPosition`). Every verdict other than "not enough data" is final whatever bytes follow, and a body that
  parses carries its own length (`VerdictIsFinal`, `ShorterPrefixStarves`, `SelfDelimiting`).
* **Control points.** Requests are read back up to reduction modulo 2^48 and 2^32, nothing else is accepted, and two
  requests share bytes exactly when they reduce alike. Responses are characterised exactly.
* **The client over the wire.** Any run of moves simulates the same run on a plain list (`MovesSimulate`). Every
  call of the table returns the server's refusal or the reply of its kind (`ActionCallExactly`, `ListCallExactly`). Any run of
  calls shows the server exactly the permitted requests, told from their bytes alone (`TraceIsGated`). Clamped
  transfers reach the server unaltered, and what is written is read back (`ClampedIsUnaltered`, `StoreThenFetch`).
* **The tool.** Its loops are proved against list-level specifications that count requests; listing from the directory
  prints a prefix of what walking prints, and all of it exactly when every entry is accepted (`TwoPathAgreement`).

## Where the code and its documentation part

The model follows the code. Each point has its exact condition as a lemma and a concrete input in `KnownGaps.dfy`.

1. `core/src/types.rs:770` looks at the first-created flag for the last-modified field. The parser takes that flag as the
   parameter `Gate`; `AS_WRITTEN` is the code, `INTENDED` the documented format. `BodyRoundTrip`, `AsWrittenOutcome` and
   `AcceptedExactly` say what becomes of every entry.
2. `core/src/types.rs:724` and `core/src/types.rs:670` want 11 and 13 bytes; an unnamed entry with a 16-bit type and no
   optional field has 10 and 12 (`BodyRoundTrip`, `DirectoryRoundTrip`).
3. `core/src/types.rs:675` slices from index 2, so a record that states a length of 0 or 1 panics. `Crash` is an outcome of
   the framing step; `CrashExactly` says when it is met.
4. `go_to` sends the low 48 bits of a 64-bit identifier, so a wider one can select another object (`JumpIsExact`).
5. `read` without a length asks for the whole size from the offset on, which a server grants only if the offset vanishes
   modulo 2^32 (`WholeReadOnlyFromStart`).
6. `list --dir` asks only that `go_to(0)` be no error, and a missing object is none, so it can parse the contents of
   another object (`WrongDirectoryExactly`).

## Assumptions

`usize` is 64 bits wide. One exchange is atomic: the answer a client gets belongs to the request it just sent, and the
server does not change between reading the sizes and the transfer. The reference server answers a move without a current object with
"operation failed", a move in an empty list with "no object", and a range outside the contents with "invalid parameter".
Its answers to creating, deleting, checksums, execution, aborting, sorting and clearing marks are left open: any result
code and any bytes after it, chosen by a function of the request, with the list of objects left as it is.

## Model

| member | source | states |
|---|---|---|
| Errors.CheckLen | core/src/lib.rs:90-96 | passes exactly when there is enough data, and names both lengths otherwise |
| Errors.CheckLenExact | core/src/lib.rs:104-111 | passes exactly on the needed length; short and long inputs give different errors |
| Utf8.DecodeScalar | core/src/types.rs:731 | the first well-formed sequence is the encoding of one Unicode scalar value |
| Utf8.ValidExactly | core/src/types.rs:731 | a name is accepted if and only if it encodes some text |
| Bytes.LeValueOfBytes | core/src/types.rs:177-189 | a number cut to n little-endian bytes reads back as its remainder modulo 256^n |
| Bytes.LePrefix | core/src/types.rs:382 | the first m bytes of a wider word are the m-byte word |
| Bytes.LeInjective | core/src/types.rs:177-189 | two numbers share their low n bytes exactly when they agree modulo 256^n |
| Bytes.OrOfDisjoint | core/src/types.rs:139 | or-ing with a number shifted above all set bits is addition |
| Bytes.BitAt | core/src/types.rs:121-131 | the flag `1 << i` is contained exactly when bit i was set |
| Uuids.ShortUuid | core/src/types.rs:134-143 | a short type is the base UUID plus the value in its top 32 bits |
| Uuids.UuidExactly | core/src/types.rs:136-147 | every answer by width, as arithmetic on the bytes; any other width is an error naming it |
| Uuids.TypeFidelity | core/src/types.rs:136-147 | zero-extending a short type changes nothing, short types do not collide, 16 bytes sent read back as the same UUID |
| Uuids.ShortFormOf | core/src/types.rs:136-147 | 16 bytes name a short type exactly when they are its value followed by the base tail |
| ObjectMetadata.DateTimeInverse | core/src/types.rs:561-572 | the seven bytes of a timestamp read back as it |
| ObjectMetadata.ParseMetadata | core/src/types.rs:721-797 | total on all byte strings (every split is in bounds); a shortage names a length below the needed one |
| ObjectMetadata.ParseFields | core/src/types.rs:735-785 | short of data exactly when the flag-determined total is not there |
| ObjectMetadata.FieldsByPosition | core/src/types.rs:735-785 | the first field that does not fit, a property word with an unknown bit, or each field's value by its position |
| ObjectMetadata.MetadataByPosition | core/src/types.rs:721-797 | the complete result for every byte string through either gate, each fault in order and each value by position |
| ObjectMetadata.StarvedExactly | core/src/types.rs:723-785 | "not enough data" exactly when announced bytes are missing and no fault came before them |
| ObjectMetadata.VerdictIsFinal | core/src/types.rs:723-796 | any verdict but "not enough data" is unchanged by whatever bytes follow |
| ObjectMetadata.ShorterPrefixStarves | core/src/types.rs:723-796 | every prefix shorter than the announced length of an accepted body gives "not enough data" |
| ObjectMetadata.SelfDelimiting | core/src/types.rs:723-796 | the announced length of an accepted body decides the result, whatever is appended |
| ObjectMetadata.FlagsReadBack | core/src/types.rs:733-734 | the flag byte of an entry tells its layout, through the flags looked at as written and as intended |
| ObjectMetadata.BodyRoundTrip | core/src/types.rs:721-797 | an encoded entry parses to its metadata if and only if it is readable through the gate |
| ObjectMetadata.AsWrittenOutcome | core/src/types.rs:762-785 | the exact result for entries with one timestamp: refused, timestamp lost, or properties read from the timestamp |
| ObjectMetadata.AcceptedExactly | core/src/types.rs:721-797 | which entries the parser as written accepts, told from the entry |
| ObjectMetadata.AcceptedHead | core/src/types.rs:725-745 | an accepted record always has the right identifier, name and type |
| Directory.SplitDirEntry | core/src/types.rs:666-677 | a record cut off has the length its prefix states and leaves the rest of the buffer |
| Directory.SplitExactly | core/src/types.rs:666-677 | end, both shortages with their lengths, panic or record, told from the length and the two header bytes |
| Directory.Conservation | core/src/types.rs:693-716 | the records cut off and the remainder make up the buffer |
| Directory.OneItemPerFrame | core/src/types.rs:693-716 | the items are one per whole record from its own bytes, then the framing error, last and once, exactly if bytes remain and there is no panic |
| Directory.CrashExactly | core/src/types.rs:674-675 | the iterator panics exactly on a whole header stating a length below 2 |
| Directory.ItemsAreBounded | core/src/types.rs:693-719 | at most one item for n < 13 bytes, else at most (n - 13) / 2 + 2 |
| Directory.BoundIsReached | core/src/types.rs:693-719 | the bound is met at every non-empty size |
| Directory.FaultsAreIsolated | core/src/types.rs:693-716 | buffers differing only in one record's body differ only in that record's item |
| Directory.DirectoryReadBack | core/src/types.rs:666-717 | the exact items of any encoded directory, entry by entry |
| Directory.DirectoryRoundTrip | core/src/types.rs:666-797 | iterating an encoded directory gives its entries without error if and only if all are readable |
| Directory.DirEntries.constructor | core/src/types.rs:679-683 | a new iterator will yield everything the buffer holds |
| Directory.DirEntries.Next | core/src/types.rs:691-719 | yields the first pending item, keeps taken records plus remaining bytes equal to the original, ends for good after a framing error or `None` |
| ControlPoint.SortOrderOf | core/src/types.rs:271-301 | a byte is accepted exactly if it is the code of a sort order, as that order |
| ControlPoint.ListOpOf | core/src/types.rs:271-314 | a byte is accepted exactly if it is a list opcode, as that operation |
| ControlPoint.ListRcOf | core/src/types.rs:271-326 | a byte is accepted exactly if it is a list result code, as that result |
| ControlPoint.ActionOpOf | core/src/types.rs:271-338 | a byte is accepted exactly if it is an action opcode, as that operation |
| ControlPoint.ActionRcOf | core/src/types.rs:271-352 | a byte is accepted exactly if it is an action result code, as that result |
| ControlPoint.CodesOnTheWire | core/src/types.rs:287-353 | every opcode, result code and sort order as a number |
| ControlPoint.RequestLayout | core/src/types.rs:370-493 | every request byte by byte, numbers by division |
| ControlPoint.EncodeListReq | core/src/types.rs:370-393 | the buffer built is one the server decodes to the request, its identifier modulo 2^48 |
| ControlPoint.ListReqInverse | core/src/types.rs:370-393 | the server's decoder inverts every list request up to reduction |
| ControlPoint.ListReqOnly | core/src/types.rs:370-393 | nothing but an encoded list request is accepted |
| ControlPoint.SameListBytes | core/src/types.rs:370-393 | list requests share bytes exactly when they reduce to the same request |
| ControlPoint.EncodeActionReq | core/src/types.rs:453-493 | the buffer built is one the server decodes to the request, its numbers modulo 2^32 |
| ControlPoint.ActionReqInverse | core/src/types.rs:453-493 | the server's decoder inverts every action request up to reduction, parameters of any length included |
| ControlPoint.ActionReqOnly | core/src/types.rs:453-493 | nothing but an encoded action request is accepted |
| ControlPoint.SameActionBytes | core/src/types.rs:453-493 | action requests share bytes exactly when they reduce to the same request |
| ControlPoint.ListResExact | core/src/types.rs:401-425 | which byte strings give a count, a plain success, a given refusal |
| ControlPoint.ListResInverse | core/src/types.rs:401-425 | a server's list answer is read as it was meant |
| ControlPoint.ListResFaults | core/src/types.rs:407-423 | the fault of any list response, in the order they are looked for |
| ControlPoint.ActionResExact | core/src/types.rs:502-530 | which byte strings give a checksum, an execution result, a given refusal |
| ControlPoint.ActionDoneExact | core/src/types.rs:502-530 | which byte strings give a plain success |
| ControlPoint.ActionResInverse | core/src/types.rs:502-530 | a server's action answer is read as it was meant |
| ControlPoint.ActionResFaults | core/src/types.rs:508-528 | the fault of any action response, in the order they are looked for |
| Client.GateExactly | bluez-async-ots/src/lib.rs:679-690 | a call is sent exactly when its bytes are permitted, else refused as not supported |
| Client.TraceIsGated | bluez-async-ots/src/lib.rs:674-714 | over any run of calls the server is sent exactly the permitted encodings, in order |
| Client.ActionReply | bluez-async-ots/src/lib.rs:679-690 | a refusal keeps its code; a success counts only if of the kind expected, and brings the value sent |
| Client.ListReply | bluez-async-ots/src/lib.rs:679-690 | the same for list calls |
| Client.ActionCallExactly | bluez-async-ots/src/lib.rs:674-731 | the state and reply of every action call: refused unseen, the server's code, or the kind the table names |
| Client.ListCallExactly | bluez-async-ots/src/lib.rs:674-746 | the state and reply of every list call, likewise |
| Client.ListMoved | bluez-async-ots/src/lib.rs:464-492 | a move changes the current object and the log only, and nothing at all if not allowed |
| Client.MoveIsListMove | bluez-async-ots/src/lib.rs:464-492 | a move through gate, encoding, server and decoding is the move on the list |
| Client.MovesSimulate | bluez-async-ots/src/lib.rs:464-492 | any run of moves simulates the run on the list, one request per allowed move, objects untouched |
| Client.NeighboursUndo | bluez-async-ots/src/lib.rs:461-481 | moves on and back undo each other and stop exactly at the ends |
| Client.JumpIsExact | bluez-async-ots/src/lib.rs:483-492 | `go_to` finds the identifier asked for exactly unless it is wider than 48 bits and its low bits name an object |
| Client.CountIsLength | bluez-async-ots/src/lib.rs:742-743 | `number_of` returns the length of the list modulo 2^32 |
| Client.CharacteristicsAreExact | bluez-async-ots/src/lib.rs:370-404 | identifier and sizes are read as they are, a name if it is text, a type if its width is known |
| Client.NoCurrentObject | bluez-async-ots/src/lib.rs:370-404 | without a current object every read fails but that of an identifier never asked for |
| Client.FixedWidths | core/src/types.rs:156-223 | identifier and sizes of any bytes: the two width errors, or the values by position |
| Client.FetchExactly | bluez-async-ots/src/lib.rs:523-543 | the complete outcome of reading any range, truncation to 32 bits included |
| Client.FetchClamped | bluez-async-ots/src/lib.rs:571-579 | a range within the size gets its bytes wherever reading is granted |
| Client.Clamped | bluez-async-ots/src/lib.rs:552 | the clamp stays within the size and gives up nothing it could have |
| Client.ClampedIsUnaltered | bluez-async-ots/src/lib.rs:546-618 | the server decodes exactly the offset and length of a range within a 32-bit size |
| Client.WholeReadOnlyFromStart | bluez-async-ots/src/lib.rs:523-530 | reading without a length succeeds exactly when the offset vanishes modulo 2^32 |
| Client.StoreExactly | bluez-async-ots/src/lib.rs:582-618 | the complete outcome of writing a range: one object patched, all others as before |
| Client.StoreThenFetch | bluez-async-ots/src/lib.rs:523-618 | bytes written are the bytes read back |
| Client.OtsClient.Invoke | bluez-async-ots/src/lib.rs:668-693 | one generated function: the server state and reply of the gated exchange |
| Client.OtsClient.First | bluez-async-ots/src/lib.rs:733-734 | selects the first object, or reports the refusal |
| Client.OtsClient.Last | bluez-async-ots/src/lib.rs:735-736 | selects the last object, or reports the refusal |
| Client.OtsClient.Previous | bluez-async-ots/src/lib.rs:464-470 | steps back; `false` exactly at the first object |
| Client.OtsClient.Next | bluez-async-ots/src/lib.rs:475-481 | steps on; `false` exactly at the last object |
| Client.OtsClient.GoTo | bluez-async-ots/src/lib.rs:486-492 | selects by identifier; `false` exactly if its low 48 bits are unknown |
| Client.OtsClient.Read | bluez-async-ots/src/lib.rs:523-543 | the bytes of the range asked for, or of the current size's length |
| Client.OtsClient.ReadTo | bluez-async-ots/src/lib.rs:546-559 | fills the front of the buffer with the clamped range and leaves the rest alone |
| Client.OtsClient.ReadStream | bluez-async-ots/src/lib.rs:562-569 | announces the clamped range, which the server then offers |
| Client.OtsClient.Write | bluez-async-ots/src/lib.rs:582-595 | stores the clamped front of the data and announces exactly its length |
| Client.OtsClient.WriteStream | bluez-async-ots/src/lib.rs:598-610 | announces the clamped range, which the server then expects |
| Hex.Decode | cli/src/main.rs:395-418 | the loop with the pending half byte computes the decoding of the digits |
| Hex.DigitExactly | cli/src/main.rs:406 | a digit has the value of its place in the lower- or upper-case table, and nothing else is a digit |
| Hex.SpaceExactly | cli/src/main.rs:402 | white space is exactly the listed code points |
| Hex.HalfOrDigit | cli/src/main.rs:408-411 | or-ing the shifted half and the digit gives the byte |
| Hex.WhitespaceIsFree | cli/src/main.rs:402-405 | inserting or deleting white space anywhere changes nothing |
| Hex.DecodedExactly | cli/src/main.rs:401-417 | fails exactly on a visible character that is no digit, else one byte per two digits, an odd one dropped |
| Hex.SpellingDecodes | cli/src/main.rs:398-417 | any two-digit spelling of bytes, in either case, decodes to them, an odd digit after it is dropped |
| Hex.RenderedSpells | cli/src/main.rs:398-417 | rendering bytes in any mixture of cases and decoding gives them back |
| Cli.FirstStop | cli/src/main.rs:462-470 | the smallest index at which a search by name stops |
| Cli.Select | cli/src/main.rs:448-474 | the object selected, the outcome and the number of requests, for every way of selecting |
| Cli.SelectIndex | cli/src/main.rs:449-455 | succeeds exactly below the list's length and stands at the index |
| Cli.SelectName | cli/src/main.rs:460-469 | stops at the smallest matching index, or reports no object after visiting all |
| Cli.IndexIsWalk | cli/src/main.rs:449-455 | selecting by index is the run of `first` and index many `next`; it succeeds exactly below the list's length, standing at the index |
| Cli.SelectionBranches | cli/src/main.rs:456-474 | selecting by identifier is one jump, by name the walk to the first match or the end, without a criterion an error |
| Cli.ReportIs | cli/src/main.rs:307-308 | rows are printed up to the first error and no further |
| Cli.RowExactly | cli/src/main.rs:247-258 | a row, or the fault of the first column that cannot be read |
| Cli.WalkedExactly | cli/src/main.rs:244-298 | the walk prints the objects before the first unprintable one and fails with its fault, or prints all |
| Cli.ParsedExactly | cli/src/main.rs:307-338 | the entries before the first error are printed, and that error is returned as it was found |
| Cli.PrintDirectoryIter | cli/src/main.rs:244-298 | prints every object in list order up to the first error, with one request per step |
| Cli.PrintDirectoryData | cli/src/main.rs:300-361 | prints every entry of the buffer up to the first error |
| Cli.RunList | cli/src/main.rs:184-201 | prints the directory source if asked for and readable, else walks |
| Cli.SourceIsWhatIsRead | cli/src/main.rs:188-192 | the directory source is there exactly when going to 0 and reading the whole object succeed, and is that object |
| Cli.WrittenLength | cli/src/main.rs:420-441 | bounded by data, length argument and room, and equal to one of them |
| Cli.RunWrite | cli/src/main.rs:380-445 | the bytes written are that prefix of the decoded input, its length is the one announced, and a refusal is returned as it came |
| TwoPaths.WalkPrintsAll | cli/src/main.rs:244-298 | a walk prints every described object |
| TwoPaths.DirectoryPrintsPrefix | cli/src/main.rs:300-361 | the directory prints a prefix of its entries, all of them exactly when the parser accepts each |
| TwoPaths.TwoPathAgreement | bluez-async-ots/README.md:38-59 | the directory listing is a prefix of the walk, and equal to it exactly when the parser accepts every entry |
| TwoPaths.ListCommandAgrees | cli/src/main.rs:184-201 | the list command agrees with and without `--dir` on a server that has a directory object |
| TwoPaths.IdentifierFidelity | core/src/types.rs:725-726 | the six identifier bytes of a record reappear unchanged in a `go_to` request |
| TwoPaths.WrongDirectoryExactly | cli/src/main.rs:188-192 | when `--dir` parses an object that is not the directory |
| KnownGaps.CreationTimeAlone | core/src/types.rs:770 | a record the intended parser accepts and the code refuses |
| KnownGaps.UnnamedEntryAlone | core/src/types.rs:670 | a directory of one unnamed object is refused |
| KnownGaps.ZeroLengthRecord | core/src/types.rs:675 | thirteen zero bytes crash the iterator |
| KnownGaps.WideIdentifier | core/src/types.rs:382 | an identifier beyond 48 bits selects another object |
| KnownGaps.ReadFromSecondByte | bluez-async-ots/src/lib.rs:526-530 | reading from offset 1 without a length is refused |
| KnownGaps.MissingDirectory | cli/src/main.rs:188-192 | without a directory object `--dir` prints nothing where a walk prints one row |

## Left out

- Directory.DirEntries.Next: requires that the record at hand does not state a length below 2, where the code panics; `CrashExactly` says when that is. `Cli.PrintDirectoryData` and `Cli.RunList` require the same of the bytes they read.
- Client.OtsClient.ReadTo: requires the offset to be at most the reported size, since `size - offset` overflows beyond it; so do `ReadStream`, `Write`, `WriteStream` and `Cli.RunWrite`.
- Cli.PrintDirectoryIter: prints identifier, name and type; the size, time and property columns and the choice of columns are not modelled.
- Cli.PrintDirectoryData: the same columns.
- `OtsClient::new`, D-Bus sessions, notification streams, timeouts and discovery: library plumbing.
- L2CAP sockets, their options and addresses: foreign calls; a channel that opens is assumed.
- `OtsClient::metadata` and the timestamp and property characteristics: they only collect single reads.
- The read command and the object's dump: selecting and reading one after the other adds nothing to `Cli.Select` and `Client.FetchExactly`.
- Decoding the feature words at connection time: the client starts from a given configuration.
- The echoed opcode of an answer: neither the client nor the model compares it with the request.
- The position of a UTF-8 error: only that decoding failed is kept.
- Decoding standard input to characters before the hexadecimal loop: the loop starts from characters.
- The 128-bit UUID byte order of the standard: the code's own order is kept on both sides.
- Contents of the extended flags: the bit is carried and ignored, as in the code.
- Argument parsing, table printing, logging, serialisation, `Display`, and the `time` and `chrono` conversions: user interface and unseen libraries.
