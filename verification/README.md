# ssrJSON: a verified model of its encoder, decoder, hash set and hashing

This project models the parts of ssrJSON whose correctness depends on more than one function at a time, and
proves what they are for. Each part has a simple specification that the code must refine:

| part | files | what is proved |
|---|---|---|
| the encoder machine | `Printer.dfy`, `EncoderSteps.dfy`, `Encoder.dfy`, `Nesting.dfy` | `dumps` ends on every object graph, cyclic ones included, and returns exactly the text of a five-line recursive printer, as one array of cells of the smallest kind that holds it, or that printer's error; an error has its reason in the graph; no container stays locked; both builds succeed on the same graphs |
| its text | `JsonReader.dfy`, `PrintedJson.dfy` | a JSON reader that does not know the printer reads the text, to its last character and in just the layout asked for, as the tree of the object graph |
| the output buffer | `Memory.dfy`, `UnicodeBuffer.dfy`, `Writers.dfy`, `Integers.dfy` | four segments of different widths live in one byte buffer and are widened in place, a vector at a time, without losing a character; every store, over-long ones included, is inside the reservation; integers are printed as their numerals |
| the pointer set | `Probing.dfy`, `KHash.dfy`, `LockSet.dfy` | open addressing with tombstones and the in-place rehash keep a mathematical set; each macro on the packed flag words is the update or test of one flag of the set's table; the probe visits every bucket; exactly one kind of table refuses a key; the lock set is the lockable containers on the path |
| hashing | `Xxh3.dfy`, `Xxh3Calls.dfy`, `Xxh32.dfy`, `Limbs.dfy` | every way of cutting an input into updates gives the one-shot hash, by the same calls of the arithmetic on the same bytes, which are written out |
| strings | `Utf8.dfy`, `Utf8Writers.dfy`, `JsonString.dfy`, `JsonEscapes.dfy`, `Utf8Blocks.dfy`, `BlockLoop.dfy`, `StringDecoder.dfy` | the three-width decoder with its sixteen-byte blocks reads what one-at-a-time reading gives, in the smallest kind, and fails exactly when that fails; on which inputs the error differs; what a string and each error mean is said of the bytes, by the two RFCs; what the encoder writes, by single characters or by vectors, is valid and reads back |
| decoded objects | `PyHeap.dfy`, `DictPairs.dfy`, `ValueStack.dfy`, `KeyCache.dfy`, `LoadedStrings.dfy`, `DecodeStream.dfy`, `DecodeBuffers.dfy` | a key loaded from bytes is a string of just its characters that knows its hash; the value stack and the key cache make the objects of the document, each key of a dict once, in order of first occurrence, with its last value; each reference is handed on or released once, also when a dict insertion fails, and objects held elsewhere keep their values; nested calls use different buffers |

`Remainders.dfy` holds arithmetic, `Common.dfy` an option type and the concatenation of pieces.

## How to read it

- Code that updates state in place is a class with the source's fields; its methods are proved against functions
  and predicates on sequences. The container stack, the hash arrays, the byte buffers, the value stack, the cache
  slots, the XXH buffers and the linked list of decode buffers are arrays or objects that change in place.
- `Encoder.Dumps`, `StringDecoder.LoadsBytes`, `StringDecoder.SameAnswer`, `StringRoundTrip.WriteThenLoad`,
  `LoadedStrings.LoadString`, `DecodeStream.Decode`,
  `KHash.PtrSet.Put`, `Xxh3.HashChunks` and `Xxh32.HashChunks` state the main results.
- Where a result is stated through a function (the printer, the reading of one item, the dict of some pairs, the hash),
  a lemma says what that function gives without naming it: `PrintedJson.DumpsReads`, `JsonEscapes.StringMeans` and
  `JsonEscapes.FailureMeans`, `DictPairs.DictHolds` and `DecodeStream.ValueRepresents`, `LoadedStrings.StringObject`,
  `Xxh3Calls.OneShotCalls`, `Xxh3Calls.ChunksCalls`, `Xxh32.Hash32` and `Xxh32.Hash64`.
- Foreign code is a parameter: the hash function of the pointer set and of the key cache, the lane arithmetic of
  XXH, the batch size of the vector loops, which class of characters a vector loop tries, what a conversion makes of
  the characters it is not meant for, which dict insertions and which allocations of the pointer set fail. Nothing
  else is assumed about them. Where the
  allocator puts the output buffer is chosen freely. The block loop of the string decoder is not a parameter: its
  tests, patterns, budgets and lookup tables are written out.
- A Python object graph is a finite map from addresses to objects, frozen while it is encoded. An address outside
  the map stands for an object that cannot be encoded. What is assumed about one object is `PyObjects.ObjOk`:
  a string's characters fit its kind and one of them needs it, printed floats have at most 24 ASCII characters,
  sizes are below 2^61.
- Masks with a power of two minus one are remainders; shifts and disjoint ors are quotients, remainders and sums.
  `Utf8Bits` shows on 32-bit words, through the numbers their bytes are, that the UTF-8 macros compute just that;
  `PackedFlags` shows that each macro on the flag words is one update, or one test, of the sequence of flags that
  `PtrSet` works on.

## Findings

- `kh_put` cannot take a key that is not in the set if the table has 2^31 buckets and all are live: the doubled size
  wraps to 0 in 32 bits, so `kh_put` asks for one bucket less, which is rounded back to 2^31 and is too small for the
  keys. The table stays as it is, the search comes back to its start, and the key is reported as present in a bucket
  that holds another one. `KHash.PtrSet.Put` proves that this is the only such case (`KHash.PtrSet.Refuses`): in every
  other one, a table of 2^31 buckets with one unused or one deleted bucket included, the key is in the set afterwards,
  at the bucket returned, unless memory is short (`KHash.PtrSet.Denied`), and then nothing has changed.
  `KHash.PtrSet.Refused` builds a table that fails and makes the failing call. At 2^31 buckets with 2^30 keys or more,
  but not all live, the request for one more wraps to 0 and becomes 4; that is refused as well, harmlessly.
- A vector block of the string decoder may answer "invalid UTF-8" where reading one character at a time answers
  "unexpected end". `BlockLoop.LoadRejects` says of the input alone whether the loader ends at a rejected block: it
  walks the block tests, the scalar stretches with their budgets, the promotions and the escapes.
  `StringDecoder.SameAnswer` proves that loading answers what reading gives if and only if the input is not rejected
  with the bad sequence cut short by the end of the source. `StringDecoder.LoadsCutLetters` loads an input on which
  they differ: D0 96 seven times, then E1 80 and the end. Whether loading fails, and everything about a string that is
  read, never differs.
- In `kh_resize` a request that is too small for the elements leaves the table as it is (`KHash.PtrSet.Resize`).
  `KHash.PtrSet.MakeRoom` proves that `kh_put` gains an unused bucket below 2^31 buckets all the same: it doubles a
  table that is at least half full of elements and otherwise rehashes it, which drops the tombstones.
- The exit `i == last` of the probe is taken only after 2n - 1 steps, so it never ends a search early
  (`Probing.FirstReturn`), although the start bucket is also the only one it is compared with.
- The locking and the non-locking encoder accept exactly the same graphs (`Nesting.DumpsSucceeds`): a cycle also
  contains chains of any length. Only the error differs.
- In the free-threaded build the head node of the buffer list stays behind after the outermost call. From then on
  live calls have levels 1, 2, 3, ..., so one level of nesting less is available than on a thread's first call
  (`DecodeBuffers.Tls.Enter`, `DecodeBuffers.LiveApart`). The branch that would use an existing next node, and the
  one that would free it, are never reached in that build.
- `xxhash.h` is compiled with `XXH_NO_STREAM` here (src/ssrjson.h:419), so its streaming half is modelled from the
  file although this build does not contain it.

## Model

| member | source | states |
|---|---|---|
| Encoder.Dumps | src/encode/_encode_impl.inl.h:776-1170 | for every graph, indentation and build: the run ends; no mutex stays locked; a string of the length the writer tells, in the smallest kind, least significant byte first, holds JSON that a reader reads to its last character, in exactly the layout asked for, as the tree of the root: bool, null and numbers by their tokens, list and tuple as arrays, dict members in entry order; an error has its reason in the graph; text and error are the printer's |
| PrintedJson.DumpsReads | src/encode/_encode_impl.inl.h:429-749 | what the printer gives for a root reads back, to the end, as the tree of the root, both by a reader that allows white space between all tokens and by one that allows only the line breaks and spaces of the indentation |
| PrintedJson.ValueReads | src/encode/_encode_impl.inl.h:429-749 | the same for every value, wherever it stands in a text and at any depth |
| PrintedJson.ItemsRead | src/encode/_encode_impl.inl.h:1018-1114 | the elements read back in order, each once, up to the closing bracket |
| PrintedJson.MembersRead | src/encode/_encode_impl.inl.h:894-1014 | the entries read back in order, each key as its characters, up to the closing brace |
| PrintedJson.ScalarReads | src/encode/_sw_writers.inl.h:36-121 | true, false, null, ints, floats, strings and the two empty brackets read as what they are |
| PrintedJson.NumberToken | src/encode/_encode_impl.inl.h:495-501 | the text of an int is a JSON number without leading zeros, whose value is the int |
| PrintedJson.ReadsString | src/utils/float_tables.c:748-1129 | an escaped string up to its quote reads, by the escapes of section 7 of RFC 8259, as its characters |
| Encoder.CellsAre | src/encode/encode_shared.h:439-453 | the finished cells, as bytes: address, width and kind in numbers |
| Encoder.Run.DumpsObj | src/encode/_encode_impl.inl.h:776-873 | from the empty buffer, only a container may be the root, and the run ends as the printer's result says |
| Encoder.Run.Begin | src/encode/_encode_impl.inl.h:818-873 | after opening the root, what is pending is the whole document |
| Encoder.Run.OpenRoot | src/encode/_encode_impl.inl.h:824-855 | the opening bracket is written and the root is the one container locked, if it has a lock |
| Encoder.Run.StartAt | src/encode/_encode_impl.inl.h:835-873 | the fields describe one open container at its first member; stack slot 0 stays unused |
| Encoder.Run.Instance | src/encode/_encode_impl.inl.h:877-1168 | from any label and at any width, with any tail calls to wider instances, the run ends with the text or error that was pending when it was entered, and nothing is locked |
| Encoder.Run.Resume | src/encode/_encode_impl.inl.h:877-891 | the switch of a wider instance lands in the state the narrower one left, and finds out again whether the current array is a tuple |
| Encoder.Run.TurnDict | src/encode/_encode_impl.inl.h:894-925 | a turn at the dict label neither skips nor repeats an entry: what is pending stays the same, and less is left to do |
| Encoder.Run.TurnKeyDone | src/encode/_encode_impl.inl.h:926-971 | the same for the value whose key was just written, also when it is entered in a wider instance |
| Encoder.Run.TurnArr | src/encode/_encode_impl.inl.h:1018-1114 | the same for array elements |
| Encoder.Run.TurnValue | src/encode/_encode_impl.inl.h:928-971 | after the value, control is at the label, or in the wider instance, that continues the pending text |
| Encoder.Run.AfterValue | src/encode/_encode_impl.inl.h:935-971 | each jump flag leads to the label that fits the container on top; a wider string leads to the resume flag of that label |
| Encoder.Run.TurnLeave | src/encode/_encode_impl.inl.h:972-1014 | closing a container continues in the one below, or ends the run with the whole text |
| Encoder.Run.Leave | src/encode/_encode_impl.inl.h:1073-1114 | the closed container leaves the path and the pointer set; the pending text is the same; the fields are again those of the container below |
| Encoder.Run.CloseText | src/encode/_encode_impl.inl.h:413-427 | the comma behind the last member goes, the closing bracket and a comma come, at the indentation of the level outside |
| Encoder.Run.Unlock | src/encode/_encode_impl.inl.h:1082-1089 | a lockable container is taken out of the set and unlocked, nothing else changes |
| Encoder.Run.Restore | src/encode/_encode_impl.inl.h:991-1013 | the suspended container, its index and its type come back unchanged from the packed stack entry |
| Encoder.Run.BeginPair | src/encode/_encode_impl.inl.h:894-925 | the next entry is fetched and its key written at a sufficient width; a key that is no string is the printer's error |
| Encoder.Run.WriteKey | src/encode/_encode_impl.inl.h:162-196 | indentation, quoted key, colon and, when indenting, a space; the width rises only for a wider key |
| Encoder.Run.BeginElement | src/encode/_encode_impl.inl.h:1021-1027 | the next element of the current list or tuple is in hand |
| Encoder.Run.Advance | src/encode/_encode_impl.inl.h:1021-1027 | only the position of the current container moves, by one; path and stack stay |
| Encoder.Run.ProcessVal | src/encode/_encode_impl.inl.h:429-749 | a value is written whole or its container is opened, and then the pending text is the same; a failure is the printer's error; the jump flag tells the container's type or a width change |
| Encoder.Run.ProcessScalar | src/encode/_encode_impl.inl.h:454-548 | a scalar or empty container continues the pending text; a width change is reported exactly when the level rose |
| Encoder.Run.ProcessContainer | src/encode/_encode_impl.inl.h:539-625 | a non-empty container is opened, locked and on the path, and what is pending stays the same |
| Encoder.Run.TryOpen | src/encode/_encode_impl.inl.h:546-561 | opening fails exactly on a container already on the path, or at the nesting limit, as the printer does |
| Encoder.Run.OpenContainer | src/encode/_encode_impl.inl.h:546-560 | a container is refused if and only if the build locks, it has a lock, and it is on the path; otherwise it joins the set |
| Encoder.Run.Push | src/encode/_encode_impl.inl.h:561-570 | the current container is suspended with its index and type, and the new one is current at index 0, inside the stack's bound |
| Encoder.Run.WriteScalar | src/encode/_encode_impl.inl.h:456-545 | succeeds exactly when the printer can print the value, and appends that text and a comma |
| Encoder.Run.WriteLeaf | src/encode/_encode_impl.inl.h:353-411 | literals, numbers and empty containers are the printer's text, which reads back as the value (`PrintedJson.ScalarReads`), and the width stays |
| Encoder.Run.WriteStr | src/encode/_encode_impl.inl.h:245-281 | a string is quoted and escaped at the wider of its width and the current one |
| Encoder.Run.PrepareLevel | src/encode/_encode_impl.inl.h:65-120 | the level rises to that of a wider string and never falls |
| Encoder.Run.Succeed | src/encode/_encode_impl.inl.h:1116-1147 | the last comma goes, all segments become one array of the final width, and the root is unlocked |
| Encoder.PackRoundTrip | src/encode/encode_shared.h:211-222 | the packed word gives back index and type, and fits 64 bits for indices below 2^62 |
| Encoder.Run.ScalarKept | src/encode/_encode_impl.inl.h:456-545 | writing the next value leaves the result of the run what it was, with less work left |
| Encoder.Run.EnterKept | src/encode/_encode_impl.inl.h:546-571 | so does opening the next value |
| Encoder.Run.LeaveKept | src/encode/_encode_impl.inl.h:972-1013 | so does closing, and exactly the closed container leaves the set of locked ones |
| Encoder.PathEnters | src/encode/_encode_impl.inl.h:549-560 | a container that is not on the path joins it, and the path still has no repetition |
| Encoder.PathLeaves | src/encode/_encode_impl.inl.h:982-989 | the container left is on the path and no other occurrence of it is |
| Encoder.PathSize | src/encode/_encode_impl.inl.h:549-560 | the set never holds more than the nesting limit |
| EncoderSteps.TakenBack | src/encode/_encode_impl.inl.h:413-427 | members with a comma behind each, the last one taken back, are members with commas between them |
| EncoderSteps.MembersPrinted | src/encode/_encode_impl.inl.h:894-1119 | the members as the machine writes them are the printer's members, each once and in order |
| EncoderSteps.StepValue | src/encode/_encode_impl.inl.h:926-938 | writing a member in full does not change the result of the run |
| EncoderSteps.StepEnter | src/encode/_encode_impl.inl.h:546-571 | entering a member that is a container does not change it |
| EncoderSteps.StepLeave | src/encode/_encode_impl.inl.h:972-1014 | leaving a finished container does not change it |
| EncoderSteps.StepFail | src/encode/_encode_impl.inl.h:1148-1168 | a member that cannot be written is the result of the run |
| EncoderSteps.StepRoot | src/encode/_encode_impl.inl.h:818-873 | at the start the result of the run is the printed document |
| EncoderSteps.WorkAdvances | src/encode/_encode_impl.inl.h:894-1119 | passing a member lowers the finite amount of work by that member's |
| EncoderSteps.WorkEnters | src/encode/_encode_impl.inl.h:561-570 | entering a container lowers it too, on cyclic graphs as well, because the nesting is limited |
| Nesting.DumpsSucceeds | src/encode/_encode_impl.inl.h:438-445 | for encodable objects and string keys, in both builds: encoding succeeds if and only if no chain of 1025 non-empty nested containers begins at the root |
| Nesting.PrintSucceeds | src/encode/_encode_impl.inl.h:561-570 | the same for a value at any depth |
| Nesting.DumpsBlames | src/encode/_encode_impl.inl.h:1148-1168 | no error without its reason: a container reached from the root that is in a cycle, a chain of 1025 non-empty containers, an object of another type, a key that is no string, an int outside -2^63 to 2^64 - 1 |
| Nesting.PrintBlames | src/encode/_encode_impl.inl.h:546-561 | the same for a value at any depth |
| Nesting.CycleDeep | src/encode/_encode_impl.inl.h:549-560 | a container that contains itself has chains of every length |
| LockSet.Locks.Acquire | src/encode/_encode_impl.inl.h:549-560 | a container is locked and joins the set, or is reported as being in it, and then nothing changes |
| LockSet.Locks.Release | src/encode/_encode_impl.inl.h:982-989 | a held container leaves the set and is unlocked |
| LockSet.Locks.ReleaseAll | src/encode/_encode_impl.inl.h:1148-1158 | after a failure nothing is locked |
| JsonText.EscapeRow | src/utils/float_tables.c:748-1129 | a row of the escape table has 8 units, ASCII but for the character itself |
| JsonText.EscapeBounds | src/utils/encode_utils.c:120-131 | an escaped string needs at most six units a character and stays in its kind |
| JsonText.EscapeAppend | src/utils/encode_utils.c:120-131 | escaping goes character by character |
| JsonText.EscapeNeeds | src/utils/encode_utils.c:120-131 | the character that needs a kind is not escaped away |
| JsonText.StringNeeds | src/encode/_encode_impl.inl.h:65-120 | written at the wider of two levels, the text stays at the level it needs |
| Memory.BackConvert | src/simd/long_cvt/_srw_long_cvt.inl.h:67-99 | for every vector width and every address of the buffer: the few cells behind the last aligned address, then whole vectors, four or one at a time, then the rest; every cell is widened, and none is overwritten before it is read, however far source and destination overlap |
| Memory.SmallBackConvert | src/simd/long_cvt/_srw_long_cvt.inl.h:41-51 | one piece for each bit of the number of cells; together they are all of them |
| Memory.StoreAll | src/encode/_sw_writers.inl.h:36-121 | consecutive cells are stored and no other byte changes |
| Memory.Store | src/encode/_sw_writers.inl.h:36-121 | a stored cell loads as the same value and no other byte changes |
| Memory.MoveBatch | src/simd/long_cvt/_srw_long_cvt.inl.h:82-97 | a batch is read whole, then stored whole; all cells behind it stay widened |
| Memory.WidenBatch | src/simd/long_cvt/_srw_long_cvt.inl.h:82-97 | the store of a batch covers neither a cell still to be read nor a cell widened so far |
| Segments.NeededIsSmallest | src/encode/_encode_impl.inl.h:1121-1136 | the level that a character needs is not above any level that fits |
| BufferContents.PutHolds | src/encode/_sw_writers.inl.h:36-121 | a copy of more units than are kept extends the text by those kept, in the current segment |
| BufferContents.TakenBackHolds | src/encode/_encode_impl.inl.h:413-427 | stepping the writer back by one cell drops exactly the last character |
| BufferContents.GrownHolds | src/_reserve.inl.h:30-42 | a longer buffer with the same written bytes holds the same text |
| BufferContents.Memorized | src/encode/states.h:29-105 | all recorded lengths add up to the elements written |
| BufferContents.MemorizedHolds | src/encode/states.h:29-105 | recording a segment and continuing at the same element index of the wider view keeps the text |
| BufferContents.LastInBounds | src/encode/_encode_impl.inl.h:413-427 | behind a character of the current segment the writer is inside the buffer |
| BufferContents.WriterTells | src/encode/encode_shared.h:439-453 | the distance of the writer from its start tells the number of characters at every level |
| Elevation.MovedReads | src/encode/encode_cvt.h:32-67 | after one widening, each element reads as before, moved or not |
| Elevation.Ucs2Moves | src/encode/encode_cvt.h:58-63 | widening the two-byte segment to four bytes touches no other segment |
| Elevation.Ucs1Moves | src/encode/encode_cvt.h:44-56 | the same for the one-byte segment |
| Elevation.AsciiMoves | src/encode/encode_cvt.h:32-42 | the same for the ASCII segment, which begins at another place |
| UnicodeBuffer.Buffer.Reserve | src/_reserve.inl.h:30-42 | afterwards there is room for that many units; the text and the writer's place in it are the same |
| UnicodeBuffer.Buffer.Grown | src/utils/encode_utils.c:31-63 | doubling reaches the target and keeps the old bytes |
| UnicodeBuffer.Buffer.Put | src/encode/_sw_writers.inl.h:36-121 | stores inside the reservation, of which only a prefix is kept, append that prefix |
| UnicodeBuffer.Buffer.TakeBack | src/encode/_encode_impl.inl.h:413-427 | the last character goes, and a store in its place is inside the buffer |
| UnicodeBuffer.Buffer.Memorize | src/encode/states.h:29-105 | the text is the same and the writer is at the same element of the wider view |
| UnicodeBuffer.Buffer.Total | src/encode/states.h:29-39 | the pointer difference is the number of characters written |
| UnicodeBuffer.Buffer.Ucs2Elevate4 | src/encode/encode_cvt.h:58-63 | the two-byte segment becomes four bytes wide in place |
| UnicodeBuffer.Buffer.Ucs1Elevate | src/encode/encode_cvt.h:44-56 | the one-byte segment becomes as wide as the final level in place |
| UnicodeBuffer.Buffer.AsciiElevate | src/encode/encode_cvt.h:32-67 | the ASCII segment becomes as wide as the final level in place |
| UnicodeBuffer.Buffer.Finish | src/encode/_encode_impl.inl.h:1121-1136 | on every path through the four levels the buffer ends as one array of final-width cells, equal to all characters written |
| UnicodeBuffer.Buffer.OneArray | src/encode/_encode_impl.inl.h:1121-1136 | when no segment is narrower than the level, element i is cell i |
| Writers.WriteIndent | src/encode/_indent.inl.h:30-45 | the loop writes exactly the units that were counted for the reservation |
| Writers.ReserveAndIndent | src/encode/_indent.inl.h:49-62 | after the indentation the additional units still have room |
| Writers.AppendRow | src/encode/_sw_writers.inl.h:36-121 | an over-long literal copy is inside the reservation and advances by the literal's length |
| Writers.AppendBool | src/encode/_encode_impl.inl.h:353-357 | the right literal and a comma |
| Writers.AppendNull | src/encode/_encode_impl.inl.h:359-363 | the literal and a comma |
| Writers.AppendEmpty | src/encode/_encode_impl.inl.h:389-405 | the bracket pair of the container's type and a comma |
| Writers.AppendOpening | src/encode/_encode_impl.inl.h:395-411 | the opening bracket of the container's type |
| Writers.AppendClosing | src/encode/_encode_impl.inl.h:413-427 | the last unit is replaced by indentation, bracket and comma |
| Writers.AppendLong | src/encode/_encode_impl.inl.h:485-503 | an int in range is its numeral and a comma; zero stays inside two units, every other one inside 32 |
| Writers.AppendFloat | src/encode/_encode_impl.inl.h:365-375 | the digits and a comma; the stores of 34 bytes in place, or of 32 wide cells, stay inside the 64 units reserved |
| Integers.U64ToText | src/encode/_encode_utils_impl.inl.h:99-117 | a minus sign for a negative number only, then the numeral |
| Integers.WriteU64 | src/encode/encode_shared.h:655-680 | for every 64-bit number: the numeral without leading zeros, in at most twenty bytes, and no other byte is touched |
| Integers.WriteLen1To8 | src/encode/encode_shared.h:521-568 | the numeral of a number below 10^8 |
| Integers.WriteLen5To8 | src/encode/encode_shared.h:622-652 | the numeral of a number from 10^4 to 10^8 |
| Integers.WriteLen8 | src/encode/encode_shared.h:497-510 | exactly eight digits, leading zeros included |
| Integers.CopyLead | src/encode/encode_shared.h:524-528 | one or two leading digits; the copy of a single one begins at the second digit of its pair |
| Integers.By100 | src/encode/encode_shared.h:514 | the multiplication and shift is the division by 100, in 32 bits |
| Integers.By10000 | src/encode/encode_shared.h:540 | the same for 10000 below 10^6 |
| Integers.By10000Wide | src/encode/encode_shared.h:499 | the same for 10000 below 10^8, in 64 bits |
| Integers.DecimalSplit | src/encode/encode_shared.h:663-679 | a numeral in two parts, the second padded with zeros |
| Integers.DecimalValue | src/encode/encode_shared.h:655-680 | the numeral has the value of the number, and no leading zero |
| Integers.IntTextValue | src/encode/_encode_impl.inl.h:495-501 | the text of an int reads back as the int |
| Integers.ToU64 | src/encode/encode_shared.h:280-304 | succeeds exactly from -2^63 to 2^64 - 1, with sign and magnitude |
| Writers.EncodeBlocks | src/simd/neon/encode/_srw_loop.inl.h:46-105 | whole-batch stores that advance by less never leave six units a character and the stated slack, for every batch size |
| Writers.EncodeBlock | src/simd/neon/encode/_srw_loop.inl.h:46-105 | one batch ends at its first special character, which is escaped |
| Writers.EncodeScalar | src/utils/encode_utils.c:120-163 | the table loop escapes a short string inside the same reservation |
| Writers.PutQuoted | src/encode/_rw_encode_unicode_impl.inl.h:46-71 | quote, escaped body, quote, by either loop |
| Writers.AppendStr | src/encode/_sirw_encode_unicode_impl.inl.h:81-121 | the reservation of a string value covers all its stores; the text is indentation, quoted string, comma |
| Writers.AppendKey | src/encode/_sirw_encode_unicode_impl.inl.h:45-79 | the same for a key with its colon, space and trailing zero |
| Probing.EveryBucketOnce | src/khash.h:51-53 | in a table of 2^m buckets the first 2^m probe positions are all buckets, each once |
| Probing.FirstReturn | src/khash.h:233-240 | the probe is back at its start for the first time after 2n - 1 steps |
| Probing.MeetingSteps | src/khash.h:51-53 | two steps meet only if their distance, or their sum plus one, is a multiple of 2n |
| Probing.StepsDistinct | src/khash.h:51-53 | the first n steps look at different buckets |
| Probing.OddFactorDrops | src/khash.h:51-53 | a power of two that divides a product divides the even factor |
| Probing.NextPos | src/khash.h:238 | adding the step number to the bucket is the next triangular position |
| HashTable.EmptyStep | src/khash.h:233-240 | a table with an unused bucket has one on every probe path |
| HashTable.StopAtEmpty | src/khash.h:237-241 | a search that stops at an empty bucket has not missed its key |
| HashTable.StopAtReturn | src/khash.h:239 | nor has one that stops where it began, and then it has made 2n - 1 steps |
| HashTable.Inserted | src/khash.h:336-345 | filling a reachable bucket adds one key and keeps every key reachable |
| HashTable.Removed | src/khash.h:349-355 | a tombstone removes one key and keeps the others reachable |
| HashTable.LiveCounted | src/khash.h:349-355 | live buckets and elements are equally many |
| Rehashing.Begin | src/khash.h:252-265 | at the start all keys are held under the old flags |
| Rehashing.TakeUp | src/khash.h:270-276 | a key in hand and the keys held are still the original set |
| Rehashing.Kick | src/khash.h:282-286 | exchanging the key in hand with a resident loses and doubles nothing |
| Rehashing.Settle | src/khash.h:282-291 | placing the key in hand loses and doubles nothing |
| Rehashing.RoomLeft | src/khash.h:281 | while a key is in hand the new table has an empty bucket |
| Rehashing.Done | src/khash.h:295-304 | when no old flag is live the new flags alone hold the original set |
| KHash.PtrSet.Get | src/khash.h:230-243 | returns the key's bucket if and only if the key is in the set, and nBuckets otherwise |
| KHash.PtrSet.Del | src/khash.h:349-355 | exactly the key of a live bucket leaves the set |
| KHash.PtrSet.PlaceOne | src/khash.h:277-292 | one turn of the kick-out loop keeps the set and shrinks the old live buckets when it kicks |
| KHash.PtrSet.PlaceAll | src/khash.h:277-292 | the kick-out loop ends with no key in hand |
| KHash.PtrSet.FirstEmpty | src/khash.h:279-281 | the inner probe ends at an empty bucket reachable from the key's hash |
| KHash.PtrSet.Move | src/khash.h:270-293 | one live old bucket is emptied and its key placed |
| KHash.PtrSet.Rebuild | src/khash.h:268-294 | after the loop no old bucket is live and the set is unchanged |
| KHash.PtrSet.Rebuilt | src/khash.h:252-305 | growing, shrinking or same-size arrays hold the same set without tombstones |
| KHash.PtrSet.Resize | src/khash.h:244-306 | the set stays; the table is rebuilt exactly when the size is below the new load bound and memory suffices; -1 exactly when it does not, with the table as it was |
| KHash.PtrSet.BucketsFor | src/khash.h:249-250 | the bucket count is a power of two from 4 to 2^31, and below twice the request unless it is 4 |
| KHash.PtrSet.MakeRoom | src/khash.h:310-317 | unless memory is short, the resize before an insertion always gains an unused bucket below 2^31 buckets, never grows a table past four times its size, and leaves a full table of 2^31 buckets full |
| KHash.PtrSet.RoomMade | src/khash.h:310-317 | few keys: a rehash makes room; many: the table doubles; only at 2^31 buckets neither happens |
| KHash.PtrSet.SameBuckets | src/khash.h:310-314 | requesting one bucket less is a rehash at the same size |
| KHash.PtrSet.MoreBuckets | src/khash.h:314-316 | requesting one more doubles the table, until 2^31 |
| KHash.PtrSet.FindSite | src/khash.h:318-335 | the key's own bucket, or a reusable one on its probe path; if every bucket has another key, a live one |
| KHash.PtrSet.Searched | src/khash.h:324-335 | what the bucket chosen is, however the search ended |
| HashTable.Reached | src/khash.h:324-330 | a bucket passed by a search is within reach of its key, also on the way back to the start |
| HashTable.AllLive | src/khash.h:326-330 | a search that is back at the start without a deleted bucket has seen only live ones |
| KHash.PtrSet.Store | src/khash.h:336-347 | the return code tells present, new or reused bucket, and the counters follow; the key is in the bucket unless the table refuses it |
| KHash.PtrSet.Occupy | src/khash.h:336-345 | the key is in the set and every key stays reachable |
| KHash.PtrSet.Put | src/khash.h:307-348 | the set gains exactly this key, at the bucket returned, whatever resizes happen, if and only if memory suffices for a resize that is called for and the table is not one of 2^31 live buckets without the key; in that last case nothing changes and another key's bucket is returned as if the key were present; -1 exactly when memory is short |
| KHash.PtrSet.Refused | src/khash.h:307-348 | there is such a table: the keys 0 to 2^31 - 1, and the key 2^31 |
| HashTable.FullTable | src/khash.h:307-348 | keys that each stand in the bucket they hash to, in all buckets, are a valid table |
| KHash.PtrSet.SizeCounts | src/khash.h:349-355 | the size field is the cardinality of the set |
| PackedFlags.AllEmpty | src/khash.h:255 | words of 0xaa bytes are a sequence of empty flags |
| PackedFlags.Tested | src/khash.h:165-167 | the three test macros tell the flag of a bucket |
| PackedFlags.EnoughWords | src/khash.h:173 | the words of __ac_fsize hold all flags of a table |
| PackedFlags.SetDeleted | src/khash.h:171 | on the words of a sequence of flags, the macro updates one live flag to deleted |
| PackedFlags.ClearEmpty | src/khash.h:169 | the macro updates one empty flag to live |
| PackedFlags.ClearBoth | src/khash.h:170 | the macro updates one flag, whatever it is, to live |
| Xxh3.HashChunks | src/xxhash.h:6298-6439 | for every input and every way of cutting it, the streaming digest is the one-shot hash; which calls that are is `Xxh3Calls.ChunksCalls` |
| Xxh3.OneShot | src/xxhash.h:6001-6024 | short inputs and long ones, one hash function; which calls that are is `Xxh3Calls.OneShotCalls` |
| Xxh3Calls.OneShotCalls | src/xxhash.h:6001-6024 | run on a kernel that records its calls, the one-shot code hashes up to 240 bytes in one call on exactly the input; above that, call for stripe i has bytes 64 i to 64 i + 64 and the secret from 8 (i mod n), a scramble with the secret's last 64 bytes follows each n-th one, then the last 64 bytes under the secret 7 bytes earlier, then the length; no other call is made |
| Xxh3Calls.ChunksCalls | src/xxhash.h:6298-6439 | the streaming code makes the same calls, however the input is cut |
| Xxh3Calls.HashRecorded | src/xxhash.h:5836-5923 | the reference makes those calls |
| Xxh3Calls.ConsumedCalls | src/xxhash.h:6254-6288 | the calls for the first n stripes, and how many they are |
| Xxh3Calls.HashReplays | src/xxhash.h:5836-5923 | for any lane arithmetic the hash is what the recorded calls give with it |
| Xxh3.HashLong | src/xxhash.h:5836-5923 | the loop over blocks consumes the stripes one by one with a scramble every nbStripesPerBlock, then the last 64 bytes |
| Xxh3.Accumulate | src/xxhash.h:4814-4830 | n stripes with the secret moving on by 8 bytes each |
| Xxh3.ConsumeStripes | src/xxhash.h:6254-6288 | starting and ending anywhere inside a block, the result is that of consuming the stripes one by one |
| Xxh3.FinishBlock | src/xxhash.h:6266-6276 | the rest of a block is followed by exactly one scramble |
| Xxh3.StripesSinceScramble | src/xxhash.h:6254-6288 | the stripe counter is the number of stripes so far modulo the block, however the input was cut |
| Xxh3.ConsumedTwice | src/xxhash.h:6254-6288 | consuming in two goes is consuming in one |
| Xxh3.ReachedFurther | src/xxhash.h:6298-6375 | stripes read from the buffer or the input continue the stripes of all data |
| Xxh3.State.constructor | src/xxhash.h:6166-6191 | a reset state has hashed nothing |
| Xxh3.State.Update | src/xxhash.h:6298-6375 | the state stands for the old data followed by the input; at least one byte stays unconsumed |
| Xxh3.State.Append | src/xxhash.h:6325-6330 | a small input only joins the buffer |
| Xxh3.State.Complete | src/xxhash.h:6336-6350 | the filled buffer is consumed and its last stripe stays readable |
| Xxh3.State.Bulk | src/xxhash.h:6352-6361 | all stripes but those of the last 1 to 64 bytes are consumed and the last one is kept behind |
| Xxh3.State.Buffer | src/xxhash.h:6362-6367 | the remaining input is buffered |
| Xxh3.LastStripe | src/xxhash.h:6386-6421 | the 64 bytes taken from buffer and kept tail are the last 64 bytes of the data |
| Xxh3.State.DigestLong | src/xxhash.h:6386-6421 | the digest is taken on a copy and equals the one-shot accumulators |
| Xxh3.State.Digest | src/xxhash.h:6424-6439 | the digest is the one-shot hash of all data so far, below 2^64 bytes |
| Xxh32.HashChunks | src/xxhash.h:3135-3219 | for XXH32 and XXH64, every way of cutting an input gives the one-shot hash |
| Xxh32.Hash32 | src/xxhash.h:3060-3091 | XXH32, in numbers: each of four lanes starts from the seed and its primes and takes its 4 bytes of every 16-byte block in order; the final mix gets the length modulo 2^32 and the bytes behind the blocks |
| Xxh32.Hash64 | src/xxhash.h:3504-3537 | XXH64 likewise, with 8 bytes of every 32-byte block |
| Xxh32.LaneByLane | src/xxhash.h:3504-3537 | block by block for four lanes is lane by lane over all blocks |
| Xxh32.LeftBehind | src/xxhash.h:3060-3091 | what is left over stands behind the last whole block |
| Xxh32.OneShot | src/xxhash.h:3060-3091 | the one-shot loop over blocks and the rest |
| Xxh32.Consume | src/xxhash.h:3504-3537 | the loop takes all whole blocks and leaves the rest |
| Xxh32.State.constructor | src/xxhash.h:3135-3144 | a reset state has hashed nothing |
| Xxh32.State.Update | src/xxhash.h:3148-3199 | the state stands for the old data followed by the input; the internal buffer holds the length modulo the block |
| Xxh32.State.Absorb | src/xxhash.h:3168-3196 | the buffered bytes are the head of the first block |
| Xxh32.State.Digest | src/xxhash.h:3203-3219 | the digest is the one-shot hash of all data so far; lane 3 gives back the seed when no block was seen |
| Xxh32.RoundsFurther | src/xxhash.h:3581-3662 | only the lanes and the bytes left over matter for later input |
| Xxh32.LeftLength | src/xxhash.h:3581-3662 | what is left over has the length modulo the block |
| Xxh32.CountedMore | src/xxhash.h:3159-3160 | the wrapping total and the flag for a first block stay right |
| Xxh32.CountedLength | src/xxhash.h:3203-3219 | flag or total tell whether there was a block, and the wrapped total adds like the length |
| Limbs.U128Mul | src/ssrjson.h:450-473 | the limb form is the exact 128-bit product; no 64-bit sum wraps |
| Limbs.U128MulAdd | src/ssrjson.h:477-490 | the exact sum; the carry comes from the wrapped comparison |
| Limbs.Mult64To128 | src/xxhash.h:4351-4473 | the exact 128-bit product with the cross terms added at once |
| Utf8.SeqIsGrammar2 | src/decode/bytes/utf8_shared.h:60 | the mask test accepts exactly the two-byte sequences of section 4 of RFC 3629 |
| Utf8.SeqIsGrammar3 | src/decode/bytes/utf8_shared.h:61-62 | the same for three bytes: no overlong form, no surrogate |
| Utf8.SeqIsGrammar4 | src/decode/bytes/utf8_shared.h:63-65 | the same for four bytes: no overlong form, nothing above 10FFFF |
| Utf8.Decoded2 | src/decode/decode_shared.h:302 | an accepted sequence decodes to the code point that encodes to it; it is below 0x100 exactly when the lead is below C4 |
| Utf8.Decoded3 | src/decode/decode_shared.h:304-306 | the same; the code point is no surrogate |
| Utf8.Decoded4 | src/decode/decode_shared.h:308-310 | the same; the code point is at most 10FFFF |
| Utf8.Encoded2 | src/encode/encode_utf8_shared.h:98-101 | what is written for a code point is accepted and decodes to it |
| Utf8.Encoded3 | src/encode/encode_utf8_shared.h:102-111 | the same for three bytes |
| Utf8.Encoded4 | src/encode/encode_utf8_shared.h:160-168 | the same for four bytes |
| Utf8.GrammarIsScalar | src/encode/encode_utf8_shared.h:104-107 | the bytes of a code point are well formed if and only if it is no surrogate |
| Utf8Bits.Seq2 | src/decode/bytes/utf8_shared.h:60 | the mask on the loaded word is the test on the numbers its bytes are |
| Utf8Bits.Seq3 | src/decode/bytes/utf8_shared.h:61-62 | the same |
| Utf8Bits.Seq4 | src/decode/bytes/utf8_shared.h:63-65 | the same |
| Utf8Bits.ToB2 | src/decode/decode_shared.h:302 | shifts and masks on the loaded word give a word whose value is the number made of the bytes' payloads |
| Utf8Bits.ToB3 | src/decode/decode_shared.h:304-306 | the same |
| Utf8Bits.ToB4 | src/decode/decode_shared.h:308-310 | the same |
| Utf8Bits.Put2 | src/encode/encode_utf8_shared.h:98-101 | the shifted and marked words, stored as bytes, are the UTF-8 form of the code point |
| Utf8Bits.Put3 | src/encode/encode_utf8_shared.h:108-110 | the same for three bytes |
| Utf8Bits.Put4 | src/encode/encode_utf8_shared.h:163-167 | the same for four bytes |
| Utf8Bits.Loaded | src/decode/bytes/_w_utf8_block.inl.h:82 | a word loaded from memory has the bytes that stand there |
| Utf8Writers.EncodeOneUcs1 | src/encode/encode_utf8_shared.h:41-61 | the bytes for a code point, the same ones as from the other kinds, inside 8 reserved bytes |
| Utf8Writers.EncodeOneUcs2 | src/encode/encode_utf8_shared.h:87-114 | the same; it fails exactly on a surrogate |
| Utf8Writers.EncodeOneUcs4 | src/encode/encode_utf8_shared.h:143-171 | the same; it fails exactly on a surrogate |
| Utf8Writers.EncodeString | src/encode/bytes/encode_utf8.h:248-254 | a string of any kind becomes the same bytes, a valid JSON string body, by either loop and for every vector width; it is refused exactly if it has a surrogate |
| Utf8Writers.EncodeBytesVector | src/encode/bytes/encode_utf8.h:560-606 | by vectors, whatever class is tried where: over-long stores stay inside six bytes a character and the stated excess, and what is written is what single characters give |
| Utf8Writers.EncodeVector | src/encode/bytes/encode_utf8.h:445-484 | a vector is stored whole and the writer goes behind the run of its class, whatever the conversion makes of the others |
| Utf8Writers.EncodeBytes | src/utils/encode_utils.c:168-200 | by single characters, within six bytes a character and two more |
| Utf8Writers.ValidBody | src/encode/encode_utf8_shared.h:41-171 | a string without surrogates becomes a concatenation of characters and escapes that section 7 of RFC 8259 allows, in well-formed UTF-8 |
| Utf8Writers.ValidOutput | src/encode/encode_utf8_shared.h:41-171 | each character becomes one such piece |
| JsonString.ItemAt | src/decode/bytes/_w_utf8_block.inl.h:48-149 | an item never reaches past the end of the source, and only a quote closes the string |
| JsonString.EscapeItem | src/decode/str/decoder_impl/_sr_impls.inl.h:35-91 | an escape gives a scalar value and lies inside the source; lone surrogates are errors |
| JsonEscapes.HexReads | src/decode/str/tools/_r_tools.inl.h:77-91 | four digits, in upper or lower case, read as v if and only if they spell v, most significant digit first |
| JsonEscapes.HexFails | src/decode/str/tools/_r_tools.inl.h:77-91 | nothing is read if and only if one of the four is no hexadecimal digit |
| JsonEscapes.EscapeMeans | src/decode/str/decoder_impl/_sr_impls.inl.h:35-91 | an escape reads as a character if and only if it is one of the eight two-character escapes of it, its code unit in hexadecimal, or the two code units of its surrogate pair |
| JsonEscapes.ItemMeans | src/decode/bytes/_w_utf8_block.inl.h:48-149 | an item is a character of n bytes if and only if the n bytes are the character in well-formed UTF-8 or an escape of it |
| JsonEscapes.ErrorMeans | src/decode/str/decoder_impl/_sr_impls.inl.h:35-91 | an item is an error if and only if that is what is wrong with the bytes: each of the nine errors has its condition |
| JsonEscapes.StringMeans | src/decode/decode_bytes_str_wrap.h:263-302 | a string is read if and only if its characters, plain or escaped, stand one behind the other up to a quote |
| JsonEscapes.FailureMeans | src/decode/decode_bytes_str_wrap.h:263-302 | reading fails with an error if and only if that is what is wrong behind characters that can be read |
| JsonString.OnlyScalars | src/decode/decode_bytes_str_wrap.h:90-261 | a string that is read has only scalar values, and no more of them than bytes |
| JsonString.PaddingIgnored | src/decode/decode_bytes.h:190-200 | bytes behind the terminating zero never matter |
| JsonString.ReadsOne | src/encode/encode_utf8_shared.h:41-171 | one written character reads as itself and nothing more |
| JsonString.RoundTrip | src/decode/decode_bytes_str_wrap.h:263-302 | a written body closed by a quote reads as the same characters, and reading ends just behind the quote |
| Utf8Blocks.ComposedReads | src/decode/bytes/_w_utf8_block.inl.h:176-247 | the code points that a block takes are those that reading item by item gives, and they fit the view; a block that is rejected has a bad sequence in it |
| Utf8Blocks.Checked2x8 | src/decode/bytes/utf8_simd128.h:175-182 | the range test rejects exactly the blocks of the pattern that are not eight two-byte sequences |
| Utf8Blocks.Checked3x4 | src/decode/bytes/utf8_simd128.h:185-193 | the test on lead bytes and code points rejects exactly those that are not four three-byte sequences |
| Utf8Blocks.Checked4x4 | src/decode/bytes/utf8_simd128.h:196-203 | the same for four four-byte sequences |
| Utf8Blocks.LaneErrorIsPair | src/decode/bytes/utf8_simd128.h:115-169 | without bytes above DF the three lookup tables find exactly the pairs of neighbours that cannot be |
| Utf8Blocks.MixedRead | src/decode/bytes/_w_utf8_block.inl.h:225-244 | a mixed block that passes gives the next six characters |
| Utf8Blocks.MixedBad | src/decode/bytes/_w_utf8_block.inl.h:230 | a mixed block that fails has a bad sequence in it |
| Utf8Blocks.PatternTailed | src/decode/bytes/utf8_simd128.h:87-107 | the bits for the ends of code points show which bytes continue a sequence |
| Utf8Blocks.GroupsBad | src/decode/bytes/_w_utf8_block.inl.h:180-221 | a sequence that does not have the length of the pattern leaves a bad item in the block |
| Utf8Blocks.WindowInside | src/decode/bytes/_w_utf8_block.inl.h:159-161 | sixteen bytes without a stop lie before the terminating zero |
| Utf8Blocks.RejectedError | src/decode/bytes/utf8_shared.h:67-75 | item by item, the bad sequence of a rejected block is "invalid UTF-8" if and only if the end does not cut it short |
| Utf8Blocks.RejectedEarly | src/decode/bytes/_w_utf8_block.inl.h:180-183 | the block test of the two-byte view rejects an input that, item by item, just ends |
| BlockLoop.EarlyRejects | src/decode/bytes/_w_utf8_block.inl.h:152-183 | the loader gets to that test: the one-byte view stops at the first letter |
| BlockLoop.LoadRejectsWrong | src/decode/bytes/_w_utf8_block.inl.h:152-268 | whatever the input, a load that ends at a rejected block is one where reading ends at a bad sequence: "unexpected end" if and only if the end cuts it short |
| BlockLoop.BlockReads | src/decode/bytes/_w_utf8_block.inl.h:152-268 | the block loop passes over whole items only; a rejected block has a bad sequence within sixteen bytes |
| BlockLoop.ScalarReads | src/decode/bytes/_w_utf8_block.inl.h:48-149 | so does the scalar form, wherever its limit lies |
| BlockLoop.RejectsBad | src/decode/decode_bytes_str_wrap.h:114-232 | across promotions and escapes, a rejection means a bad sequence further on |
| StringSegments.ShowsMore | src/decode/bytes/utf8_shared.h:85-109 | a store behind all elements, in a view at least as wide, changes none of them |
| StringSegments.ShowsMany | src/decode/bytes/_w_utf8_block.inl.h:164-166 | the same for a store of several cells of which the first ones count |
| StringDecoder.LoadsBytes | src/decode/decode_bytes_str_wrap.h:263-302 | for every batch size and processor: if the input is rejected, "invalid UTF-8"; if not, what one-at-a-time reading gives, and `JsonEscapes.StringMeans` says of the bytes: the characters in the smallest kind and the position behind the quote, or the error |
| StringDecoder.SameAnswer | src/decode/decode_bytes_str_wrap.h:263-302 | the answer is that of reading if and only if the input is not rejected with its bad sequence cut short by the end |
| StringDecoder.ReadIsLoaded | src/decode/decode_bytes_str_wrap.h:263-302 | a string that can be read is never rejected |
| StringDecoder.LoadsCutLetters | src/decode/decode_bytes_str_wrap.h:263-302 | on a given input the loader answers "invalid UTF-8" and reading "unexpected end" |
| StringDecoder.Scan | src/decode/decode_bytes_str_wrap.h:267-280 | the batched scan finds the first stop byte and never passes the terminating zero |
| StringDecoder.ScanLoop | src/decode/decode_bytes_str_wrap.h:63-88 | a batch is clean, or its first stop byte is found |
| StringDecoder.DecodeBytesUtf8 | src/decode/decode_bytes_str_wrap.h:90-261 | from a plain prefix on, the same |
| StringDecoder.Decoder.Run | src/decode/decode_bytes_str_wrap.h:114-232 | the three loops reject exactly the inputs that are rejected; otherwise they end at the closing quote or at the first bad item; what was read is in the buffer, in the narrowest view that was needed |
| StringDecoder.Decoder.Block | src/decode/bytes/_w_utf8_block.inl.h:152-268 | blocks of sixteen bytes by pattern, scalar stretches with their budgets, and the scalar form for the rest: it stops exactly where, and rejects exactly when, the input says; the reason for stopping is true |
| StringDecoder.Decoder.Pattern | src/decode/bytes/_w_utf8_block.inl.h:167-247 | one pattern takes its characters, or rejects, or leaves everything as it is, as the sixteen bytes say |
| StringDecoder.Decoder.StoreBlock | src/decode/bytes/_w_utf8_block.inl.h:164-244 | the cells of a block are stored at once, inside the buffer, and those kept are the next characters |
| StringDecoder.AsciiSettled | src/decode/bytes/_w_utf8_block.inl.h:173-175 | the flag that is cleared before a byte is read says at a quote or an escape what the text is |
| StringDecoder.Decoder.BlockScalar | src/decode/bytes/_w_utf8_block.inl.h:48-149 | whole items are taken up to the limit, which a run of multi-byte sequences may pass; the place is that of the input, and the reason for stopping is true: quote, escape, an item too wide for the view, or an error |
| StringDecoder.Decoder.MultiByteRun | src/decode/bytes/_w_utf8_block.inl.h:81-128 | the loops over multi-byte sequences, in their order, leave nothing that fits the view |
| StringDecoder.Decoder.Take | src/decode/bytes/_w_utf8_block.inl.h:85-91 | one item goes to the next element of the view and the source position moves past it |
| StringDecoder.Decoder.Widen | src/decode/bytes/utf8_shared.h:85-109 | the writer goes to the same element of the wider view; what was written stays |
| StringDecoder.Decoder.ProcessEscape | src/decode/str/ascii.h:259-385 | an escaped character is stored in a view that holds it, and the view widens only for a character that needs it |
| StringDecoder.Decoder.PromoteFor | src/decode/decode_bytes_str_wrap.h:146-153 | the lead byte selects the view that the next character needs |
| StringDecoder.LeadLevel | src/decode/bytes/utf8_shared.h:77-82 | the lead byte tells the width of the character |
| StringDecoder.Decoder.CopyPrefix | src/decode/decode_bytes_str_wrap.h:102-106 | the scanned prefix is taken over whole |
| StringDecoder.Decoder.MakeUnicode | src/decode/str/ascii.h:66-127 | segments of up to three widths become one object that holds all characters in the smallest kind |
| StringDecoder.Decoder.CopySegments | src/pyutils.c:31-64 | each segment goes to its place at the object's width |
| StringDecoder.Decoder.CopySegment | src/pyutils.c:31-64 | a segment is copied cell by cell and nothing else changes |
| StringDecoder.AsciiObject | src/decode/str/ascii.h:40-65 | an ASCII string object with these bytes |
| StringRoundTrip.WriteThenLoad | src/decode/decode_bytes_str_wrap.h:263-302 | encoder, then loader: every surrogate-free string comes back, in its smallest kind, and loading ends behind the quote |
| LoadedStrings.LoadString | src/decode/str/ascii.h:40-127 | the object for a string or key that can be read has its characters in the smallest kind; a key knows its hash, whatever was cached; an error leaves no reference |
| LoadedStrings.StringObject | src/decode/str/ascii.h:40-127 | kind 0 if and only if all characters are below 0x80, otherwise the smallest of 1, 2 and 4 bytes that holds them; the bytes are so many cells, least significant byte first |
| LoadedStrings.SameCharacters | src/decode/str/ascii.h:40-127 | string objects of the same characters have the same kind and bytes |
| LoadedStrings.LoadedAsRead | src/decode/decode_bytes_str_wrap.h:263-302 | what is loaded is what is read, or the error with the rejected blocks' answer |
| PyHeap.Heap.New | src/decode/decode.c:165-176 | a new object takes over the references it owns; all counts stay exact |
| PyHeap.Heap.DecRef | src/decode/decode.c:201-216 | one reference goes; the last one frees the object and, in turn, what only it held; every other object keeps its value |
| PyHeap.Heap.SetItem | src/decode/decode.c:200-200 | the dict object gets key and value behind all others, or, if a key has the same text, the value in the place of that key's; it takes its own references, a replaced value is released, the first key object stays |
| PyHeap.Heap.MoveIn | src/decode/decode.c:195-203 | the pair is in the dict and the stack's references to it are gone |
| DictPairs.DictHolds | src/decode/decode.c:195-219 | the dict of some pairs has, in order of first occurrence, each key once, with the value of the last pair that has the key |
| DictPairs.DictKeys | src/decode/decode.c:195-219 | its keys are pairwise different and exactly those of the pairs |
| References.LastDecrefed | src/decode/decode.c:207-210 | freeing an object leaves exactly its references owed |
| References.Moved | src/decode/decode.c:200-200 | when an object exchanges what it owns, all counts stay exact |
| Values.SameValue | src/decode/decode.c:188-228 | what is still referred to keeps its value when other objects are freed |
| ValueStack.Stack.Push | src/decode/decode.c:152-163 | the value is on top; a full stack doubles and keeps its contents |
| ValueStack.Stack.DecodeArr | src/decode/decode.c:165-186 | the last n values are the items of a new list, in order, which now owns their references |
| ValueStack.Stack.InsertPairs | src/decode/decode.c:195-219 | the pairs inserted so far are the dict, the references of the others are still owed, and the loop stops at the first failure |
| ValueStack.Stack.BuildDict | src/decode/decode.c:188-219 | succeeds exactly if no insertion fails; then the dict is the pairs with later duplicates winning; otherwise every reference is released |
| ValueStack.Stack.Abandon | src/decode/decode.c:206-216 | the half-filled dict and the pairs left are released, each reference once |
| ValueStack.Stack.DecodeObj | src/decode/decode.c:188-228 | the pairs become one dict on the stack, or the stack ends before them; all counts are exact either way |
| KeyCache.HintInjective | src/decode/decode_shared.h:101-104 | equal hints mean equal length and kind |
| KeyCache.Cache.Get | src/decode/decode_shared.h:136-158 | a hit is a new reference to a string of exactly this kind and text that knows its hash |
| KeyCache.Cache.Add | src/decode/decode_shared.h:116-134 | the slot's old key loses one reference and the new one gains one |
| KeyCache.Cache.MakeString | src/decode/decode.c:63-130 | whatever was cached and however hashes collide, a string of exactly this kind and text; a key knows its hash; each slot owns one reference |
| KeyCache.Cache.Make | src/decode/str/ascii.h:68-127 | the same with or without the cache |
| DecodeStream.ExecStream | src/decode/decode.c:152-228 | a document's postorder stream leaves its value on top of whatever was there |
| DecodeStream.Builder.PushStr | src/decode/decode.c:63-130 | the stack gains the string, through the cache |
| DecodeStream.Builder.MakeArr | src/decode/decode.c:165-186 | the stack of objects follows the stack of values |
| DecodeStream.Builder.MakeObj | src/decode/decode.c:188-228 | the same, or the pairs are gone and nothing else has changed |
| DecodeStream.Builder.Run | src/decode/decode.c:152-228 | any mix of pushes and reductions does on objects what it does on values; it stops if and only if an insertion of some object fails |
| DecodeStream.Builder.Finish | src/decode/bytes/_decode_bytes_root.inl.h:414-481 | the one object left goes to the caller, or everything left is released |
| DecodeStream.Decode | src/decode/decode.c:63-228 | one new reference to the document's object, if and only if no insertion fails; the objects are what the document says: a list has the items in order, a dict each key where it stands first with the value that stands last, a string its text; otherwise no reference is left or lost; objects held elsewhere keep their values |
| DecodeStream.ValueRepresents | src/decode/decode.c:152-228 | an object with the value of a document is, object by object, what the document says |
| DecodeStream.EntriesOf | src/decode/decode.c:195-219 | where the keys and values of an object's dict stand in the document |
| DecodeStream.ElsewhereKept | src/decode/decode.c:63-228 | an object referred to from elsewhere before and after has the same value |
| ContainerCounter.SetRoundTrip | src/decode/decode_shared.h:340-347 | the packed counter gives back length and kind |
| ContainerCounter.Incremented | src/decode/decode_shared.h:349-352 | counting a member adds one to the length and keeps the kind |
| DecodeBuffers.Tls.Enter | src/decode/decode.c:394-435 | a call gets a buffer that no live call uses, or fails exactly at 32 nodes and changes nothing |
| DecodeBuffers.Tls.Exit | src/decode/decode.c:496-518 | the list is what it was before the call, but for the head, which is kept |
| DecodeBuffers.Tls.Run | src/decode/decode.c:388-518 | over every nesting of calls the list comes back to what it was |
| DecodeBuffers.LiveApart | src/decode/decode.c:394-435 | live calls have different buffers and consecutive levels below the limit |

## Left out

- Vector code: SIMD intrinsics and the per-instruction-set variants are represented by their element-wise meaning, with vector width or batch size as a parameter; the shuffle tables of the mixed block by the code points they gather.
- PrintedJson.DumpsReads: what the float printer writes is assumed to be a number with a fraction or an exponent, or NaN, Infinity or -Infinity (`PrintedJson.FloatsReadable`); the tree has its characters, not its value.
- Encoder.Run.WriteLeaf: the digits of a float are given with the object; NumPy scalars, which have smaller reservations, are not modelled.
- Writers.AppendFloat: float printing (xjb) is not modelled; what it stores behind the digits is written as zeros.
- Encoder.Run.ProcessVal: ndarrays, dataclass-like and non-compact string subclasses are outside the object model; a string's `compact` flag only selects the loop that writes it.
- Encoder.Run.BeginPair: `PyDict_Next` is an index into a sequence of entries; holes in the dict's table are not modelled.
- Encoder.Dumps: one thread over a frozen graph; concurrent mutation and lock order between threads are outside the program's contract.
- UnicodeBuffer.Buffer.Grown: allocation always succeeds; the limit on doubling at half the address space is not modelled.
- UnicodeBuffer.Buffer.Finish: the final shrinking reallocation and the object header, but for the length that is written into it (`Encoder.FinalLen`), are outside the model.
- KHash.PtrSet.Rebuilt: the reallocation that shrinks the key array, whose failure the code does not check, succeeds.
- LockSet.Locks.Acquire: allocations of the pointer set succeed; the code's caller does not look at the return code -1.
- KHash.PtrSet.Get: the hash function is arbitrary and `hash & mask` is written as a remainder by the power-of-two bucket count.
- Xxh3.HashChunks: inputs below 2^64 bytes; the 128-bit variant, the short-key mixes and the secret's derivation from a seed are parameters.
- Xxh32.HashChunks: the same bound; the round of a lane, the merging of the lanes and the final mix are parameters; alignment variants and byte order are not modelled.
- Utf8Writers.EncodeString: the forms that write UTF-8 without escapes, and the reuse of a string's cached UTF-8, are not modelled.
- StringDecoder.LoadsBytes: the error's position in the source is not part of the result.
- StringDecoder.Decoder.MakeUnicode: the same.
- StringDecoder.AsciiObject: the object is its kind and cells; key cache and hash come with `LoadedStrings.LoadString`.
- KeyCache.Cache.MakeString: the hash value itself is represented by whether it is known.
- DecodeStream.Decode: the parser that produces the stream (tokens, numbers, container counters) is not modelled, nor object_hook and array_hook, which run arbitrary Python code.
- ValueStack.Stack.DecodeArr: the call of array_hook, which runs arbitrary Python code, is not modelled.
- ValueStack.Stack.DecodeObj: the call of object_hook is not modelled, for the same reason.
- DecodeStream.Builder.Finish: only the objects are released; freeing the string buffer and a grown stack is not modelled.
- PyHeap.Heap.DecRef: finalizers and immortal objects are not modelled; None and the booleans are objects like others.
- DecodeBuffers.Tls.Enter: the free-threaded build only; the build with the interpreter lock reuses an existing next node in another way and is not modelled.
- The decoder for `str` input (src/decode/str) is not modelled beyond the escape, hexadecimal and assembly functions it shares with the `bytes` decoder.
- Float parsing and printing tables, the root parsers, argument parsing, module setup and CPU detection are not modelled.
