# A model of the AppView library's core, in Dafny

AppView is a C library that is loaded into a process and reports what the process does. This project models
the parts of it in which most can go wrong and states, for all inputs, all runs or all reachable states,
what they guarantee. One module stands for one source file, or for one half of it:

- `LinkList`, `LinkHistory`, `LinkAlone` and `LinkExample` (src/linklist.c): the lock-free ordered list, as a step
  machine over any number of threads; the sequential history of a run; a call that runs alone; a run that frees the
  wrong node.
- `DbgTable`, `DbgStrings` and `DbgAlone` (src/dbg.c): the debug line table, likewise; where its strings go; a call
  that runs alone.
- `StackPool` and `StackAlone` (src/com.c): the pool of stacks, likewise; calls that run alone.
- `CircBuf` and `CircAlone` (src/circbuf.c): the ring buffer, as a queue and as a step machine; why a put fails, and
  calls that run alone.
- `Http2` and `Http1` (src/httpstate.c): reassembly of frames and of headers from a chunked stream.
- `ClassFormat` and `JavaClass` (src/javabci.c): the class-file format and edits on values, and the reader,
  writer and edit functions on tables.
- `StrSearch` (src/strsearch.c): Horspool search against naive search. `Http1` uses it.
- `Ipc` (src/ipc.c): fragmentation of responses and reassembly of requests.
- `EnvSubst` (src/cfgutils.c): substitution of environment variables.
- `HttpMatch` and `HttpStore` (src/httpmatch.c): the request store as sequences, and in memory with its links.
- `LogAgg` (src/ctl.c): aggregation of log data.
- `UrlCodec` (src/mtcformat.c): percent-encoding.
- `Bytes` and `Wrappers`: bytes and big-endian words; a value that may be missing.

`dafny verify dfyconfig.toml` checks all of it.

A step machine takes one shared load, store or compare-and-swap at a time; in `DbgTable` two loads of a key that
must give the same value are one step (`DbgTable.KeysStay`). A schedule is a sequence of labels that say which
thread makes which call or takes its next step, and `At(schedule, k)` is the state after k of them; a statement
about every schedule and every k is a statement about every run.

Where a promise does not hold of the code, the code is modelled as it is, an input or a run shows the
failure, and the condition under which the promise holds is stated:

- The HTTP/2 preface is looked for at the start of the chunk on every pass of the loop
  (src/httpstate.c:656), so that frames can be dropped for it: `Http2.PrefaceSkippedOnce`.
- An HTTP/1 header is missed when a chunk ends inside one of its last two line breaks:
  `Http1.HeaderReported`. A Content-Length with a leading zero is read as octal: `Http1.LengthIsDecimal`.
  What follows a body inside the header's own buffer is dropped (src/httpstate.c:434-439):
  `Http1.PipelinedHeaderLost`, with the condition in `Http1.NextMessage`.
- A delete whose C4 fails frees what its second search came back with (src/linklist.c:179-188), which can be
  a node of the list or NULL: `LinkExample.LiveNodeFreed`, with the condition in `LinkList.FreesVictimIffCut`.
- A constant-pool entry's length is computed in 16 bits: `ClassFormat.TagLengthExact`. javaAddStringTag
  counts three bytes too few: `JavaClass.StringTagGrowth`. A Code attribute of 4 GB wraps its length:
  `ClassFormat.CodeMember`. The counts of fields and methods are 16 bits wide and wrap:
  `JavaClass.SlotInside`, with the condition for whole sequences of edits in `ClassFormat.EditsFit`.
- The ring can be overfilled by a producer that is a full lap late: `CircBuf.LateSwapOverfills`, with the
  condition in `CircBuf.OccupancyExact`. A get can read a slot before the put that won it has written:
  `CircBuf.GetCanOutrunPut`, with the condition in `CircBuf.FirstInFirstOut`.
- Expiry loses just those entries that should stay and behind which two neighbours expire
  (src/httpmatch.c:290): `HttpMatch.LiveEntryLost`, with the condition in `HttpMatch.WhichGo` and, for a whole
  chain, in `HttpMatch.ExpiryExact`.
- The comparison of a request frame's `remain` with the previous frame's (src/ipc.c:227) never takes place,
  because the previous value is set to SIZE_MAX anew for every frame (src/ipc.c:320): only a remain of -1
  is refused. `Ipc.RemainNotCompared`, with the condition in `Ipc.ComparisonMatters`.

## Model

| member | source | states |
|---|---|---|
| LinkList.ReachableStates | src/linklist.c:65-191 | In every state that any interleaving of any number of inserts, deletes and finds can reach, keys strictly increase along every link, every linked node that is not marked is reached from the head, the `next` of a marked node is frozen, and each thread's remembered nodes are still what its program point relies on |
| LinkList.NoStrayDereference | src/linklist.c:65-206 | No thread ever follows a stray pointer: each step touches only linked nodes and the caller's own new node. With a delete_fn set, NULL is followed if and only if the step is the end of a delete whose C4 has failed and whose second search came back with nothing |
| LinkList.ChainStrictlyIncreasing | src/linklist.c:65-115 | In every reachable state the nodes met from the head have strictly increasing keys, so the chain is acyclic |
| LinkList.ContentsChangeAtC2C3 | src/linklist.c:132-191 | Over every run the set of held (key, data) pairs changes only at a successful C2 swap, which adds its pair, and at a successful C3 swap, which removes its key; the C1 and C4 swaps and all other steps change nothing |
| LinkList.BypassKeepsHeap | src/linklist.c:104-112 | Swinging an unmarked node past a run of marked nodes (C1, C4) keeps order and reachability and the held pairs |
| LinkList.LinkKeepsHeap | src/linklist.c:150-153 | The C2 swap puts the new node between its neighbours: order and reachability are kept and exactly its pair is added |
| LinkList.MarkKeepsHeap | src/linklist.c:171-177 | The C3 swap takes exactly the victim's pair out at the instant its mark is set, before any unlinking |
| LinkList.KeysUnique | src/linklist.c:132-157 | Two held nodes with the same key are the same node |
| LinkList.GapHasNoKey | src/linklist.c:65-115 | A key that falls between an unmarked node and its successor is not in the list |
| LinkList.MembershipIsBalance | src/linklist.c:132-191 | For each key and every run, completed inserts minus completed deletes is 0 or 1 and is its current membership |
| LinkList.PresenceWitnessed | src/linklist.c:65-115 | A search that comes back with the key's node had, at a step of its own inside the call, the key in the list |
| LinkList.AbsenceWitnessed | src/linklist.c:65-115 | A search that comes back without it had, at a step of its own inside the call, the key not in the list |
| LinkList.Linearizable | src/linklist.c:132-206 | Every completed call, successful or failed, took effect at one step inside the call: its answer and its change are the sequential set's there, and its other steps changed nothing |
| LinkList.FreesVictimIffCut | src/linklist.c:179-188 | The node a delete hands to delete_fn and free is the one this call has marked if and only if the step is C4 and the predecessor it found still leads to that node; else it is nothing, or another node that was in the list at a step of the call |
| LinkAlone.CutExact | src/linklist.c:179 | In every run C4 returns if and only if the predecessor still leads to the node this call has marked; that node is then the one freed, and it can no longer be reached from the head |
| LinkAlone.CutSucceeds | src/linklist.c:179 | The same of one step: the predecessor leads past the marked node afterwards, and what the list holds is unchanged |
| LinkAlone.CallAlone | src/linklist.c:65-206 | After any run, a call that is made and let run alone returns, answers what the sequential list answers and leaves what that leaves; a delete that took its key out frees the node that held it, which is off the list by then |
| LinkAlone.ReturnsAlone | src/linklist.c:65-206 | After any run, a thread anywhere in a call returns if it is let run alone for long enough, whatever the others have left undone |
| LinkAlone.SearchAlone | src/linklist.c:65-115 | A search that is not disturbed ends with two adjacent nodes around the key, the second of them unmarked, and changes nothing the list holds |
| LinkHistory.Linearized | src/linklist.c:132-206 | For every run there is one sequence of calls that were made, each at a step of its own inside the call and none twice, that a sequential set of pairs answers just as the callers were answered and that leaves what the list holds, at the end and at every step before |
| LinkHistory.CallsMade | src/linklist.c:132-206 | In every state the call a thread is in, or was last in, is one the run made: the label in front of its first step is that call |
| LinkHistory.ReturnedIsRecorded | src/linklist.c:132-206 | Every call that returns is in that sequence, with its answer, at a step between its call and its return |
| LinkHistory.RealTimeOrder | src/linklist.c:132-206 | A call that returned before another began comes before it in that sequence |
| LinkHistory.UndecidedIsQuiet | src/linklist.c:132-191 | A step that changes what the list holds is the step that settles the answer of its own call |
| LinkExample.LiveNodeFreed | src/linklist.c:159-191 | For all keys m < k < n there is a run in which the delete of k is about to free the node of n, which is in the list |
| Http2.FramesSplit | src/httpstate.c:480-567 | A stream may be cut anywhere: the frames of the front, then those of its leftover followed by the back, are the frames of the whole |
| Http2.FramesCoverStream | src/httpstate.c:640-711 | Frames and leftover put together are the stream, byte for byte, and the leftover is a strict prefix of one frame |
| Http2.ScanIsFrames | src/httpstate.c:640-711 | On a chunk that does not begin with the preface the loop finds exactly the frames of stash and chunk together and leaves exactly their leftover, and it ends behind a frame exactly when there is none |
| Http2.ChunkingIrrelevant | src/httpstate.c:640-711 | However a stream is cut, as long as no chunk begins with the preface, the frames posted are the type 1, 5 and 9 frames of the concatenated stream, byte for byte and in order |
| Http2.FramePrinted | src/httpstate.c:509-567 | A frame printed as section 4.1 of RFC 7540 has it, with the three bytes of its length most significant first, is measured at its own length; its kind and its END_HEADERS flag are read back |
| Http2.FramesReadBack | src/httpstate.c:509-567 | A stream of printed frames is parted into just those frames, and nothing is left over |
| Http2.PrintedFramesPosted | src/httpstate.c:640-711 | Any frames, printed one behind the other and cut anywhere: posted are those of kind HEADERS, PUSH_PROMISE and CONTINUATION, byte for byte and in order |
| Http2.PrefaceSkippedOnce | src/httpstate.c:656-661 | The preface is skipped just once if and only if fewer than 24 bytes follow the first frame behind it; the code compares the start of the chunk, not the read position, on every pass |
| Http2.PrefaceEatsFrame | src/httpstate.c:656-661 | A family of chunks for which a HEADERS frame is dropped as if it were the preface |
| Http2.ScanWeight | src/httpstate.c:656-661 | A scan never accounts for more bytes than it was given, and for fewer once a chunk that begins with the preface is long enough |
| Http2.Parser.StashFrame | src/httpstate.c:480-507 | The stash grows by exactly the data, in a buffer enlarged only when needed and then in whole kilobytes |
| Http2.Parser.FrameLength | src/httpstate.c:509-543 | The length field is read right even when some of its bytes are stashed and some are not; `Http2.FramePrinted` says what it is |
| Http2.Parser.FrameType | src/httpstate.c:545-567 | The type byte is the fourth of stash and buffer put together |
| Http2.Parser.Report | src/httpstate.c:278-338 | What is posted is the first bytes of stash and buffer put together |
| Http2.Parser.TakeFrame | src/httpstate.c:663-706 | One turn either stashes all it has or takes one whole frame, posts it if it is of interest, and empties the stash |
| Http2.Parser.Pass | src/httpstate.c:655-707 | Every pass that does not return takes one frame off the scan and leaves fewer bytes unread; a pass that returns leaves what the scan leaves |
| Http2.Parser.ParseHttp2 | src/httpstate.c:640-711 | Posts the interesting frames of the scan in order and keeps its leftover as the stash, which is always a strict prefix of one frame within the buffer; the answer, preface or not, is whether a posted frame ended a header block and the chunk ended behind a frame |
| Http1.HeaderReported | src/httpstate.c:376-440 | For any chunks of a header block of at most 16384 bytes with its NUL, the first of which holds HTTP/ and the last of which completes the blank line: exactly the stream through the first CRLF of the first CRLFCRLF, plus a NUL, is posted if and only if no chunk ends between the CR and the LF of either of those two line breaks |
| Http1.ChunkingIrrelevant | src/httpstate.c:376-440 | Under that condition the outcome, next state included, is that of the stream in one piece |
| Http1.NoHeaderWithoutStart | src/httpstate.c:376-380 | Buffers none of which has HTTP/ in it are passed over: nothing is held, posted or found |
| Http1.PostedWasCaptured | src/httpstate.c:353-440 | In every run from HTTP_NONE a header is posted only from a capture that began in a buffer with HTTP/ in it, behind any body: it is the stream since, up to a blank line behind a line break, within the limit and with a NUL; what is held is the stream since such a beginning |
| Http1.HeaderTooLong | src/httpstate.c:78-113 | A header block that leaves no room for its NUL within 16384 bytes, fed in any chunks, is dropped unposted with the chunk that takes it over the limit |
| Http1.OtherKindIgnored | src/httpstate.c:358-365 | While a header is captured or a body skipped, buffers with the other isSsl flag are passed over and change nothing |
| Http1.Gathering | src/httpstate.c:376-413 | Until the blank line is complete all of the stream is held, nothing is posted, and the state is HTTP_HDREND exactly when the last non-empty chunk ends in a line break |
| Http1.BodySkipped | src/httpstate.c:183-201 | While a body is skipped, what is left to skip is the length minus the bytes seen, whatever the chunks, and nothing is posted |
| Http1.NextHeaderBehindBody | src/httpstate.c:367-374 | While a body is skipped, the search for the next header begins with the very byte behind the body, however the rest of the body is cut |
| Http1.NextMessage | src/httpstate.c:367-440 | From the first byte of a header, over any chunks behind it: when its Content-Length reaches to the end of the buffer that completes the header or beyond, the next header is looked for from the very byte behind the body, in whichever chunk that is, and then in the chunks after it; when it does not, or there is none, the rest of that buffer is dropped and the next header is looked for from the next buffer on |
| Http1.BodyEndsInside | src/httpstate.c:183-374 | A body that ends anywhere in the chunks: the outcome is that of the search from the byte behind it, followed by the other chunks |
| Http1.PipelinedHeaderLost | src/httpstate.c:434-439 | A second message behind the body in the buffer of the first, its header complete and within the limit, is lost: that header is posted when it comes on its own, and only the first is posted when they come together |
| Http1.LengthIsDecimal | src/httpstate.c:117-145 | The length taken from a Content-Length of digits is the decimal one if and only if the digits do not start with 0 or stand for less than 8, since the number is converted with base 0 |
| Http1.OctalBelowDecimal | src/httpstate.c:136-139 | Digits read with base 8 never give more than with base 10, and the same only below 8 |
| Http1.NumberPlaces | src/httpstate.c:136-139 | Each further digit moves the others up one place, and the number ends at the first byte that is no digit of the base |
| Http1.NoLength | src/httpstate.c:136-139 | A length of zero, or one that does not fit 64 bits, is no length to skip |
| Http1.Parser.Reset | src/httpstate.c:44-75 | Going back to HTTP_NONE drops the header and everything known about it |
| Http1.Parser.AppendHeader | src/httpstate.c:78-113 | Appends exactly the data within an allocation of 4096 or 16384 bytes, or drops the whole header when it would not fit; it is never entered with a missing buffer that has an allocation recorded |
| Http1.Parser.Report | src/httpstate.c:219-276 | Posts the header text and hands its buffer over; without text nothing is posted |
| Http1.Parser.GetContentLength | src/httpstate.c:117-145 | The number is -1 or positive and below ULLONG_MAX; it is -1 without a header or without a digit at the front of the field; for a field of digits that stand for a number in that range it is that number if and only if they do not start with 0 or stand for less than 8 |
| Http1.Parser.BytesToSkip | src/httpstate.c:183-201 | Skips the smaller of what is left and what there is, and takes it off what is left |
| Http1.Parser.FindBreak | src/httpstate.c:392-393 | The first line break at or behind the position, found through the Horspool search |
| Http1.Parser.FindStart | src/httpstate.c:379 | Whether HTTP/ occurs anywhere in the buffer |
| Http1.Parser.ScanHeaders | src/httpstate.c:385-413 | The loop over lines stops at the first blank line, at the end of the buffer with everything appended, or with the header dropped when it outgrows 16384 bytes |
| Http1.Parser.FinishHeader | src/httpstate.c:415-440 | Posts the header with its NUL and leaves Content-Length minus the body bytes in this buffer to skip; a header of exactly 16384 bytes leaves no room for the NUL and is dropped unposted |
| Http1.Parser.ParseHttp1 | src/httpstate.c:353-443 | For every state, buffer and isSsl flag the new state, the posts and the answer are those of the step function on values, and in every run hdrlen <= hdralloc with hdralloc 0, 4096 or 16384, a buffer of that size while a header is captured, and none otherwise |
| ClassFormat.TagLengthExact | src/javabci.c:54-65 | The 16-bit length of a constant-pool entry is right if and only if it is not a Utf8 entry of 65533 bytes of text or more |
| ClassFormat.ConstantMeasured | src/javabci.c:16-65 | Every constant of section 4.4 of the JVM Specification SE14, printed item by item, is measured at its own length whatever follows it, and just Long and Double take two slots |
| ClassFormat.PrintSize | src/javabci.c:349-402 | The size of the written file as the sum of its parts |
| ClassFormat.EditKeeps | src/javabci.c:70-338 | Every edit leaves a file of the right shape, keeps every earlier constant-pool index standing for the same entry (two-slot entries included) and everything it does not edit, adds exactly its cost in entries to each table, and grows the file by exactly what it adds to info->length |
| ClassFormat.EditMeans | src/javabci.c:70-338 | What each edit adds reads, in the edited file, as what it was asked to add: the texts behind every name and descriptor index, the flags, the attribute count, and for code the stack, the locals, both lengths, the code and the two empty tables |
| ClassFormat.AddedText | src/javabci.c:83-94 | The index an added Utf8 entry gets stands for the text that was added |
| ClassFormat.CodeHeadWords | src/javabci.c:304-316 | The items of a Code attribute in front of the code are name index, length, max_stack, max_locals and code length, in that order |
| ClassFormat.EditsKeep | src/javabci.c:70-338 | The same over any sequence of edits |
| ClassFormat.EditsFit | src/javabci.c:70-338 | Any sequence of edits of a well-formed file leaves a well-formed file if and only if the counts of pool, fields and methods stay inside 16 bits and the size inside 32 |
| ClassFormat.CodeMember | src/javabci.c:263-319 | A new method with code can be read again if and only if the length of its Code attribute fits its 32-bit field |
| ClassFormat.CopyThenConvert | src/javabci.c:229-261 | Copying a method and making the original native leaves a new-named copy with the original flags, descriptor and attribute bytes, the original name and descriptor now native with no attributes, and everything else as it was; the copy's name index stands for the new name |
| ClassFormat.CopyThenConvertWellFormed | src/javabci.c:229-261 | And what it leaves is again a well-formed class file |
| ClassFormat.RenamedMember | src/javabci.c:229-240 | A copied method under another name index is still a method with the same flags, descriptor and attributes |
| ClassFormat.NativeNames | src/javabci.c:242-261 | Making a method native keeps its name and descriptor |
| ClassFormat.PoolOkAppend | src/javabci.c:70-95 | Entries added at the end keep every two-slot entry followed by its unusable slot |
| JavaClass.ReadPool | src/javabci.c:419-434 | The constant-pool loop recovers every entry, leaving the slot behind a Long or Double empty |
| JavaClass.ReadMembers | src/javabci.c:443-460 | The field and method loops recover every entry and leave the rest |
| JavaClass.ReadAttributes | src/javabci.c:461-469 | The attribute loop recovers every attribute and leaves the rest |
| JavaClass.ReadClass | src/javabci.c:404-472 | Of the bytes of a well-formed class file exactly that file is recovered, with room for 100 more entries in each table and length the number of bytes; data without the magic number is refused |
| JavaClass.WritePool | src/javabci.c:357-371 | The pool loop writes the entries, skipping unusable slots, and leaves the rest of the buffer alone |
| JavaClass.WriteMembers | src/javabci.c:377-392 | The field and method loops write the entries |
| JavaClass.WriteAttributes | src/javabci.c:393-401 | The attribute loop writes the attributes |
| JavaClass.WriteClass | src/javabci.c:349-402 | The bytes written are the class file the tables stand for, whose counts fit their 16 bits |
| JavaClass.ReadThenWrite | src/javabci.c:349-472 | Reading a well-formed class file and writing it back returns the same bytes |
| JavaClass.PrintInjective | src/javabci.c:349-402 | Two well-formed class files with the same bytes are the same file, so re-reading the output gives what was written |
| JavaClass.Instrument | src/javaagent.c:274-290 | Finding the first method with a name and descriptor, copying it under a new name and making it native writes, in a buffer of info->length bytes, a well-formed class file that is the instrumented one, in which a reader finds the copy under the new name and the stub under the old one; without such a method nothing is written |
| JavaClass.FoundAgain | src/javabci.c:206-240 | In the instrumented file every name still resolves, the stub carries the old name and descriptor, and the copy carries the new name and the old descriptor |
| JavaClass.FindMethodIndex | src/javabci.c:206-227 | The first method whose name and descriptor resolve to the given texts, or -1 and there is none |
| JavaClass.GetUtf8String | src/javabci.c:43-52 | The text of a Utf8 entry as a C string |
| JavaClass.Info.constructor | src/javabci.c:404-417 | The tables stand for the given class file |
| JavaClass.Info.AddTag | src/javabci.c:70-78 | The entry gets the next index and no other index changes |
| JavaClass.Info.AddUtf8Tag | src/javabci.c:83-94 | As AddTag for a text, with length grown by what is added; the index stands for the text |
| JavaClass.Info.AddNameAndTypeTag | src/javabci.c:100-112 | Two texts and the entry that refers to them |
| JavaClass.Info.AddMethodRefTag | src/javabci.c:118-128 | The entry that refers to a class and a name and type |
| JavaClass.Info.CopyMethod | src/javabci.c:229-240 | Appends the method under the new name, in a slot inside the allocation; the 16-bit count and the 32-bit length are those of the new file |
| JavaClass.Info.ConvertMethodToNative | src/javabci.c:242-261 | Sets ACC_NATIVE and drops the attributes of one method, and takes their bytes off the 32-bit length |
| JavaClass.Info.AddMethod | src/javabci.c:263-319 | Appends a method, with a Code attribute when code of any size is given, in a slot inside the allocation; the 16-bit counts and the 32-bit length are those of what is added; the tables stand for a class file if and only if the length of the attribute fits 32 bits, and then its last method reads as the one asked for |
| JavaClass.Info.AddField | src/javabci.c:321-338 | Appends a field, likewise |
| JavaClass.SlotInside | src/javabci.c:237-238 | The slot that the 16-bit count, gone up by one, points to is inside an allocation with room if and only if the count does not wrap, and then it is the next one |
| JavaClass.Info.AddStringTag | src/javabci.c:134-142 | The entries are added, but the three bytes of the String entry are missing from info->length, in 32 bits |
| JavaClass.StringTagGrowth | src/javabci.c:134-142 | After javaAddStringTag the file is three bytes longer than info->length says |
| JavaClass.StringTagMeans | src/javabci.c:134-142 | The String entry that is added stands for the text |
| JavaClass.Perform | src/javabci.c:100-338 | Each edit function, where the edit fits the room in each table it adds to, does to the tables what the edit does to the class file, and keeps counts and length exact |
| JavaClass.PerformAll | src/javabci.c:100-338 | Any sequence of edits whose additions fit the room in each table keeps every index inside its allocation, the counts inside 16 bits, length the number of bytes written modulo 2^32, and all earlier pool entries |
| JavaClass.EditThenReread | src/javabci.c:70-472 | Read, edit, write and read again: any sequence of edits that adds at most 100 entries to each table, with counts inside 16 bits and size inside 32, comes out of the written bytes as it went in |
| StrSearch.LongestSafeShift | src/strsearch.c:36-40 | The move in the table is the longest that can skip no match |
| StrSearch.NothingSkipped | src/strsearch.c:70-84 | No match begins at an offset that a safe move passes over |
| StrSearch.LastByteThenRest | src/strsearch.c:77-81 | Comparing the last byte and then the others is comparing the needle |
| StrSearch.SearchComp | src/strsearch.c:24-47 | The table holds for each of the 256 bytes its longest safe move; an empty needle gets no handle |
| StrSearch.SearchExec | src/strsearch.c:66-87 | Horspool search answers what naive search answers: the least offset of the needle within the length, or -1 exactly when it does not occur |
| DbgTable.KeysAlways | src/dbg.c:199-241 | In every interleaving the keys fill the table from the front, none takes two lines, and a line once taken keeps its key; a thread still searching has passed only other keys, and a thread with a line has its own |
| DbgTable.KeysStay | src/dbg.c:199-241 | A line's key, once set, is the same in every later state, so that the two loads of one turn of the search agree |
| DbgTable.KeyInvKept | src/dbg.c:199-241 | Every step keeps that, and a line once taken keeps its key |
| DbgTable.CountIsExact | src/dbg.c:65-76 | In every interleaving the count of a line is the number of calls for its key whose count swap has succeeded, and calls for a key are refused only when it has no line and all lines are taken: no increment is lost |
| DbgTable.CallsForKey | src/dbg.c:65-241 | In every interleaving the calls made for a key are those its line has counted and those still under way; for a key without a line, those refused and those still under way |
| DbgTable.CallsAddUp | src/dbg.c:65-241 | Every call made is pending, counted or refused |
| DbgTable.StringsAlways | src/dbg.c:52-92 | In every interleaving each string handed in is in flight with one thread, or held in one slot, or has been freed exactly once |
| DbgTable.FirstMessageStays | src/dbg.c:78-92 | The first string recorded for a line is never replaced |
| DbgStrings.MessagesRecorded | src/dbg.c:65-92 | In every interleaving a line that has been counted on, with no call between its count swap and its string swap, shows in slot 0 the string of the first call counted for its key and in slot 1, from the second call on, that of the last call to put one there; every counted call has put its string in |
| DbgStrings.FreedWhy | src/dbg.c:88-92 | In every interleaving a string is freed only by its own call, when the table is full and has no line for its key, or by a counted call for the same key whose string has taken its place in its slot |
| DbgStrings.StoryAlways | src/dbg.c:65-92 | In every interleaving each counted call for a key is still to write its string or has written it, no two have the same number, and the two slots show the strings written last to them |
| DbgAlone.CallAlone | src/dbg.c:199-241 | After any run, a call that is made and let run alone returns: its string is then in the line for its key, or in the first free line, counted once more; or, with neither, the table is as it was and the string is freed |
| DbgAlone.ReturnsAlone | src/dbg.c:52-241 | After any run, a thread anywhere in a call returns if it is let run alone for long enough |
| StackPool.InvAlways | src/com.c:311-371 | In every interleaving of get_stack and free_stack, malloc failures included, the pool and the threads agree on who owns what |
| StackPool.StacksAreExclusive | src/com.c:319-348 | No two threads ever have the same stack |
| StackPool.UsedIffOwned | src/com.c:311-371 | A pool entry is marked used exactly when one thread owns it |
| StackPool.GiveBackNeverFails | src/com.c:335-364 | The swap that gives an entry back never fails |
| StackPool.PoolAddressesStay | src/com.c:319-371 | An address once stored in a pool entry stays there and is never freed |
| StackPool.OnlyFallbackStacksFreed | src/com.c:350-371 | What reaches free was allocated outside the pool, and is in no pool entry |
| StackPool.FallbackStaysOutside | src/com.c:319-371 | In every state a stack allocated outside the pool is in no pool entry and never reaches the release of one; a stack of the pool is that of its entry and never reaches free |
| StackPool.NoLeak | src/com.c:319-371 | Every live block is in a pool entry or with a thread |
| StackAlone.GetAlone | src/com.c:311-348 | After any run, a get_stack that is let run alone takes the first unused entry, with its stack or with a new one, and puts it back if malloc fails; without such an entry it has a stack from outside the pool, or none |
| StackAlone.GiveAlone | src/com.c:350-371 | After any run, a free_stack that is let run alone makes the entry its stack came from unused again, or frees a stack from outside; nothing else changes |
| StackAlone.ReturnsAlone | src/com.c:311-371 | After any run, and even if malloc fails, either of them returns from anywhere in its code if it is let run alone |
| CircBuf.Ring.constructor | src/circbuf.c:10-30 | An empty ring with room for size items, all slots zero |
| CircBuf.Ring.Empty | src/circbuf.c:124-129 | True exactly when nothing is held |
| CircBuf.Ring.Put | src/circbuf.c:51-84 | Fails exactly when size items are held and then only counts the drop; otherwise the item is the newest; slots outside the live range stay zero |
| CircBuf.Ring.Get | src/circbuf.c:86-115 | Fails exactly when empty; otherwise gives the oldest item and zeroes its slot |
| CircBuf.InvAlways | src/circbuf.c:51-115 | In every run, with no assumption on its timing, the i-th successful get empties the slot that the i-th successful put won, and head and tail are the numbers of puts and gets, modulo the length |
| CircBuf.SwapIsCurrent | src/circbuf.c:58-71 | A head swap less than a lap late succeeds exactly when no claim was made since the load |
| CircBuf.OccupancyExact | src/circbuf.c:51-115 | For every run, with load, check and swap as separate steps, many producers and one consumer: at most size claims wait in all its states if and only if every head swap that succeeded found the test of line 62 still true |
| CircBuf.WindowsAreRoomy | src/circbuf.c:58-71 | That is so in every run in which head advances fewer than maxlen times between a load and its swap |
| CircBuf.Occupancy | src/circbuf.c:51-115 | In every such run at most size claims wait and no two of them share a slot |
| CircBuf.WritersApart | src/circbuf.c:73-80 | In every such run two producers between swap and write hold different slots unless one was already emptied |
| CircBuf.FirstInFirstOut | src/circbuf.c:51-115 | In every such run, if every read so far found its slot written, the gets have read, in order, the first of the values that won a slot, and no put that wins a slot fails; of nonzero values they have done so only if every read so far found its slot written |
| CircBuf.EarlyReadSpoils | src/circbuf.c:70-115 | Once a get has read a slot before it was written, what the gets have read is never again the first of the values |
| CircBuf.WonSlotZero | src/circbuf.c:58-79 | The slot a head swap wins is zero, not waiting, and not the one being read |
| CircBuf.ValuesAlways | src/circbuf.c:51-115 | In every such run whose reads find their slots written, each waiting slot has its value, or zero while it is still to be written, and every other slot but the one being read is zero |
| CircBuf.LateSwapOverfills | src/circbuf.c:58-71 | For every size but zero there is a run in which a producer a full lap late takes the ring over its size |
| CircBuf.GetCanOutrunPut | src/circbuf.c:70-115 | For every size but zero there is a run, within the window, in which a get succeeds with 0 when the only value put is another: head moves before the slot is written. What was read is a prefix of what was put only if 0 was put |
| CircAlone.PutEndsWhy | src/circbuf.c:51-84 | In every run a put fails only because the ring was full by the head it loaded, or at the swap it loses after having lost as many as the ring has slots, or because the slot it won is not empty; and it succeeds only by writing its value |
| CircAlone.PutAlone | src/circbuf.c:51-84 | After any run, a put that is let run alone fails and changes nothing if the ring is full; otherwise it claims the slot behind head and, if that is empty, puts its value there |
| CircAlone.GetAlone | src/circbuf.c:86-115 | After any run, a get that is let run alone fails if the ring is empty, and else gives what is in the slot behind tail and empties it |
| CircAlone.PutReturns | src/circbuf.c:51-84 | From anywhere in its code a put that runs alone is over after at most seven steps |
| CircAlone.GetReturns | src/circbuf.c:86-115 | From anywhere in its code a get that runs alone is over after at most seven steps |
| Ipc.StatusPatched | src/ipc.c:552-558 | The search finds the status behind the brace, and one digit makes the partial status of it |
| Ipc.MetaShrinks | src/ipc.c:375-398 | The metadata of a shorter rest is no longer |
| Ipc.Lossless | src/ipc.c:513-575 | The payloads concatenate to the response if and only if the first frame's metadata fits; if it does, every later frame's does |
| Ipc.FragmentsOk | src/ipc.c:513-575 | Every frame is within msgBufSize and carries something, every frame but the last is full, its remain is the number of unsent bytes including its own, and its status is 200 on the last frame and 206 on the others |
| Ipc.FrameReadBack | src/ipc.c:375-398 | From the bytes of a frame its receiver reads back the status, the id, what remains and the payload |
| Ipc.RemainDecreases | src/ipc.c:513-575 | What a frame says remains goes down by what the frame carried |
| Ipc.Queue.SendWithRetry | src/ipc.c:93-113 | Gives up at the first failure other than a full queue or after 500 of those, and adds the frame exactly when it answers OK |
| Ipc.Pack | src/ipc.c:523-565 | One frame is laid out byte for byte in the buffer, exactly when its metadata leaves room |
| Ipc.SendResponse | src/ipc.c:513-575 | What goes out is always a prefix of the fragments, all of them unless a send fails; OK means that the payloads are the response, and the answer is the buffer error exactly when the first metadata does not fit |
| Ipc.MsgAppend | src/ipc.c:279-297 | The frame goes over the last byte of the message, within the 1 MB limit |
| Ipc.AssembledGrows | src/ipc.c:279-297 | More frames never make a shorter message |
| Ipc.Reassembled | src/ipc.c:279-297 | A request cut up in any way, every piece ended by a NUL, comes out as the whole text and one NUL |
| Ipc.RequestHandler | src/ipc.c:303-368 | There is a message exactly when the frames begin with a whole request within the limit, and it is that request |
| Ipc.RemainNotCompared | src/ipc.c:227-320 | Any two good frames with the same remain are delivered although a handler that carries remain from frame to frame refuses them |
| Ipc.ComparisonMatters | src/ipc.c:227-320 | A handler that carries remain from frame to frame answers as the code does if and only if remain strictly falls over the frames the code looks at, or is -1 in the last of them |
| Ipc.RemainError | src/ipc.c:227-320 | The code answers with the error for remain exactly when the last frame it looks at has a remain of -1 |
| EnvSubst.VarIsMaximal | src/cfgutils.c:325 | A match is a $ and all the name characters behind it, at least one |
| EnvSubst.EscapeThenSubst | src/cfgutils.c:344-413 | Substitution undoes escaping for every text and every environment |
| EnvSubst.FirstVariable | src/cfgutils.c:362-407 | What the first match does to the rewrite: with a backslash before it, the backslash goes and the name stays; else its value or, without one, its name takes its place; the rest is rewritten on its own and values are not rescanned |
| EnvSubst.NothingToDo | src/cfgutils.c:410 | A text without variables is unchanged |
| EnvSubst.MatchedFacts | src/cfgutils.c:362-407 | As FirstVariable at any point of the scan; the character before a match at the read position is never a backslash |
| EnvSubst.Put | src/cfgutils.c:366-406 | One match is written out within the buffer, which grows by just what a longer value needs; output, rest and NUL always fit |
| EnvSubst.Regexec | src/cfgutils.c:362 | The leftmost and longest match, or none anywhere |
| EnvSubst.EnvVariableSubstitution | src/cfgutils.c:344-413 | The result is the recursive single-pass rewrite ended by a NUL, with every write inside the buffer |
| HttpMatch.StoreIsMap | src/httpmatch.c:139-302 | In every run of saves, deletes and expiries the store answers every get as a finite map keyed by sockid that takes a key only once and from which an expiry takes the keys whose entries expire or have two neighbours behind them that do |
| HttpMatch.LookupSaved | src/httpmatch.c:139-181 | A save changes the answer for its own socket only, and only if there was none |
| HttpMatch.LookupDeleted | src/httpmatch.c:206-232 | A delete takes away the answer for its own socket only |
| HttpMatch.LookupExpired | src/httpmatch.c:234-302 | After an expiry a get finds what it found before, unless that entry expired or two neighbours behind it did: then nothing |
| HttpMatch.WhichGo | src/httpmatch.c:234-302 | An entry is freed or lost by an expiry if and only if it expires or two neighbours somewhere behind it in the chain do |
| HttpMatch.ExpiryExact | src/httpmatch.c:234-302 | One expire pass leaves in a chain just what should stay if and only if no two neighbours expire behind an entry that stays; otherwise a front part of what should stay is neither freed nor to be found, because the pass forgets the previous entry after unlinking one |
| HttpMatch.LiveEntryLost | src/httpmatch.c:139-302 | For any three sockets of one chain there is a run of three saves and two expiries after which nothing is found for the first, although its socket is never found gone and its entry is not freed |
| HttpMatch.KeptWasThere | src/httpmatch.c:255-288 | Every entry that should stay was there before, did not expire, and is as it was but for a stamp |
| HttpMatch.ExpiryJustified | src/httpmatch.c:250-288 | Over any run, an entry is freed by expiry only if an earlier call found its socket gone and stamped it with a nonzero count, and the freeing call saw the queue emptied or past the stamp by more than cbufSize |
| HttpMatch.WhenFreed | src/httpmatch.c:250-266 | Over any run, an expiry frees an entry of the store if and only if it has a stamp and the queue has been emptied or has moved on by more than cbufSize events since, as far as 64-bit arithmetic goes |
| HttpMatch.GoneIsStamped | src/httpmatch.c:268-288 | An expiry that finds the socket of an entry gone stamps the entry, if it has no stamp yet, and leaves it as it is otherwise; this goes for every entry that stays |
| HttpMatch.FreedOnce | src/httpmatch.c:139-302 | Over any run of saves, deletes and expiries no entry is freed by two calls or from two chains |
| HttpMatch.NothingFreedTwice | src/httpmatch.c:139-302 | Over any run, on all chains together, the entries freed are all different |
| HttpMatch.FreedOnceInCall | src/httpmatch.c:234-302 | And none twice by one call |
| HttpMatch.NeverBack | src/httpmatch.c:139-302 | An entry that has left its chain never comes back |
| HttpStore.Store.constructor | src/httpmatch.c:36-66 | An empty table |
| HttpStore.Store.Walk | src/httpmatch.c:183-193 | The walk along the links ends at the first entry for the socket, with the entry before it, or at the end |
| HttpStore.Store.Get | src/httpmatch.c:195-204 | The data for the socket, or 0 |
| HttpStore.Store.AddToList | src/httpmatch.c:139-158 | Relinks the end of the chain to the new entry unless there is one for the socket; no other chain changes |
| HttpStore.Store.Save | src/httpmatch.c:160-181 | Every chain is as the save on values leaves it, and the answer is whether there was no entry yet |
| HttpStore.Store.UnlinkAt | src/httpmatch.c:216-225 | Relinks around one entry and frees it; no other chain changes |
| HttpStore.Store.Delete | src/httpmatch.c:206-232 | Every chain is as the delete on values leaves it, and exactly its entry is freed |
| HttpStore.Store.Unhook | src/httpmatch.c:260-266 | The previous entry, or the head when none is remembered, is linked past the expired one, which is freed |
| HttpStore.Store.ExpireChain | src/httpmatch.c:243-297 | The relinking pass over one chain leaves what the sweep on values leaves and frees exactly the expired entries; it follows no freed pointer |
| HttpStore.Store.Expire | src/httpmatch.c:234-302 | All 257 chains are swept, with sockets looked up by descriptor or, out of range, by id |
| HttpStore.RunCalls | src/httpmatch.c:139-302 | Any sequence of calls on a new store leaves in memory the chains, and frees the addresses, that the operations on values do: nothing is freed twice, and every get answers as the map does |
| HttpStore.OnlyUnusedExpire | src/httpmatch.c:268-288 | Over any calls, an entry is freed by expiry only if an earlier expiry found its socket not in use, by its descriptor or, out of range, by its id |
| HttpStore.Do | src/httpmatch.c:139-302 | One call on a store that follows a run of the operations follows that run and the operation |
| HttpStore.Unlinked | src/httpmatch.c:216-225 | Unlinking an entry by its neighbour's link leaves a chain of the others in order |
| HttpStore.Appended | src/httpmatch.c:139-158 | Linking an entry to the last one leaves a chain with it at the end |
| LogAgg.BatchesConserve | src/ctl.c:1055-1108 | Batches that account for events carry the data of those events, in order, and nothing else |
| LogAgg.Aggregator.Conserved | src/ctl.c:1055-1108 | For each descriptor in range, the batches handed to send, then the open buffer, are the data queued for it in queue order |
| LogAgg.Aggregator.constructor | src/ctl.c:600-606 | Nothing taken, held or sent |
| LogAgg.Aggregator.SendAggregated | src/ctl.c:1011-1031 | The stream's data goes out as one batch under its uid and the stream is closed |
| LogAgg.Aggregator.Take | src/ctl.c:1063-1105 | A batch goes out exactly when the uid changes or the event would take it over max_agg_bytes; every batch is of one descriptor and uid, and is over the limit only if it is a single event |
| LogAgg.Aggregator.FlushLog | src/ctl.c:1055-1108 | Every event drained is accounted for, in order |
| LogAgg.Aggregator.SendAll | src/ctl.c:1033-1053 | When it is time everything held goes out; otherwise nothing changes |
| UrlCodec.SignedDigits | src/mtcformat.c:582-586 | The signed shift and mask give the hex digits of the byte, for bytes above 127 too |
| UrlCodec.RoundTrip | src/mtcformat.c:599-651 | Decoding undoes encoding for every text |
| UrlCodec.EncodeIsCanonical | src/mtcformat.c:599-622 | Encoded output has only unreserved characters and %XX with capital digits, the latter only where needed and never for NUL |
| UrlCodec.EncodeDecode | src/mtcformat.c:599-651 | Encoding undoes decoding exactly on those texts |
| UrlCodec.DecodeAnyCase | src/mtcformat.c:571-579 | The two digits behind a % decode to their byte whether they are capital or small |
| UrlCodec.DecodeStops | src/mtcformat.c:624-651 | Text without a % is copied, and ends at a % without two hex digits behind it |
| UrlCodec.UnreservedChars | src/mtcformat.c:588-597 | The characters left as they are are the unreserved ones of section 2.3 of RFC 3986 |
| UrlCodec.UrlEncode | src/mtcformat.c:599-622 | The output is the standard's encoding ended by a NUL, within 3n+1 bytes |
| UrlCodec.UrlDecode | src/mtcformat.c:624-651 | The output is the decoding, which stops at a % without two hex digits, ended by a NUL, within n+1 bytes |

## Left out

- Memory reclamation in the list: lstDestroy, and the freeing of a deleted node (src/linklist.c:188), which is not safe against concurrent readers. Nodes are never reused in the model, and a mark is part of a reference rather than a bit of an address.
- Memory order: steps of a step machine are sequentially consistent.
- Failing allocations, except in the pool of stacks, where malloc may fail at every call.
- LinkList.NoStrayDereference: a delete_fn is taken to be set; without one the data of right_node is not read at the end of a delete.
- DbgTable.KeysAlways: keys are not NULL; the time and errno stored beside each string are not modelled, nor are dbgDestroy and the dump functions.
- DbgTable.CountIsExact: 64-bit wrap-around of counts is not modelled.
- CircBuf.FirstInFirstOut: the only-if is for nonzero values, since a zero is what an early read gives too; the library puts pointers.
- CircBuf.Ring.Put: the retry loop runs once when calls do not overlap; the step machine has the loop.
- cbufReset, which does not clear the slots, other than at initialisation.
- Http2.Parser.Report: ids, sockets and times in the posted event are not modelled, nor is HPACK.
- Http1.Parser.ParseHttp1: the regular expression for Content-Length is a parameter that gives the digits it captures; upgrade detection, the HTTP/2 stash cleared with the state, and the connection data in the posted event are not modelled.
- JavaClass.ReadClass: stated for data that is a well-formed class file under 4 GB with no Utf8 entry above 65532 bytes; the code checks nothing beyond the magic number.
- JavaClass.PerformAll: javaAddStringTag is apart, since it does not keep the length; an edit that would wrap a 16-bit count stores outside its table (`JavaClass.SlotInside`) and is not performed, and neither is javaAddMethod with code of 2^32 - 12 bytes or more, whose attribute length wraps (`ClassFormat.CodeMember`); `JavaClass.Info.AddMethod` is stated for it.
- javaInjectCode, javaFindClassIndex, getCodeAttributeAddress and javaDestroy.
- StrSearch.SearchExec: null pointers other than a missing handle.
- Ipc.RequestHandler: frames are given as parsed; the JSON parser and printer, the unique id and the kinds of metadata error are not modelled. A failing createMetaResp is not either.
- Ipc.FragmentsOk: for responses up to INT_MAX bytes; beyond, the int in the metadata wraps.
- EnvSubst.Regexec: the regular expression is modelled as its leftmost and longest match; a missing value gives NULL in the code.
- HttpStore.RunCalls: an address is used up by every operation, and never reused.
- LogAgg.Aggregator.SendAggregated: the value filter and the JSON of the event are not modelled; a write to the memory stream is complete.
- UrlCodec.UrlDecode: a %00 puts a NUL in the output, at which the caller's string ends.
- Configuration, transports, metrics formatting, reports, interposition and the command-line tools, which would add many easy members.
