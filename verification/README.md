# Framed buffers and the readers-writer lock of iow

This project models how iow moves messages over byte streams, and its
readers-writer lock, and proves what they are for.

* **Framing** (`Framing.dfy`) is the reference: a byte stream is cut behind each
  first occurrence of a separator.
* **Read buffer** (`Chunks`, `Snapshots`, `Transitions`, `Searching`, `ReadSteps`,
  `ReadMachine`, `ReadBuffering`, `ReadRuns`). Bytes arrive through `Next`/`Confirm` into a list
  of chunks; `Detach` cuts off the next frame, also while a read is in flight.
  The class has the source's fields. Its const helpers, which search, work on its
  state as a value (`Snapshot`); its other methods say what they do to that value,
  and `Transitions` and `ReadSteps` prove what that means for the flat stream of
  unread bytes and for the history of the run. The history (all bytes received,
  all frames cut off, all bytes looked at) is a ghost field tied to the chunks by
  `Valid`, which every operation keeps, so the lemmas of `ReadRuns` hold in every
  reachable state. `ReadMachine` has the same buffer as a step relation with runs
  from the empty state, which the object follows call by call (`ReadRuns.Perform`);
  there it is shown which awkward states are reached.
* **Write buffer** (`WriteQueue`, `WriteBuffering`, `WriteRuns`). A queue of
  messages with small ones merged, offered in bounded regions. Its history (all
  messages attached, all bytes sent, which messages each chunk holds) is kept in
  ghost fields in the same way.
* **Loops** (`ReaderLoop`, `WriterLoop`). One asynchronous operation at a time; its
  completion is a method that is told how many bytes, or which, were transferred.
* **Round trip** (`RoundTrip`): writer and reader over a channel that keeps the
  order of bytes.
* **Lock** (`RwLocking`): threads as steps of a state machine, one step for each
  critical section, and the lock object with these sections as methods.

Sizes are unbounded natural numbers; the all-ones index that stands for "no read
in flight" is -1. Asynchronous operations, the scheduler and the network are
parameters: which bytes arrive, how many are sent, which thread steps next.

Where the code does something its names do not suggest, the model follows the
code and says exactly when:

* A confirmation of zero bytes into a fresh chunk can leave the search cursor
  beyond the chunk list (`ReadMachine.CursorBeyondReachable`); a search with a
  separator would then start outside it. `Confirm` says exactly when, `Detach`
  excludes the state, `Next` repairs it, and the reader loop never meets it.
* Without a separator, `Detach` can return null once although bytes are unread:
  exactly when the cursor stands on the start of the unread bytes inside a partly
  read chunk (`ReadBuffer.Detach`). Such a state is reached exactly with options
  that let a chunk be extended in place by a second read
  (`ReadMachine.SkipsExactly`). The reader then keeps these bytes, but only
  until its next read completes (`Reader.Complete`).
* `write_buffer::rollback` changes nothing, so a write that would block is not
  issued again and the writer stays stalled (`Writer.WouldBlock`, `Writer.Output`).
* `write_buffer::confirm` checks its argument only against the total; the queue
  stays consistent exactly when it is within the first chunk
  (`WriteQueue.SentWithinChunk`).
* The lock is not fair to writers: a sleeping writer is woken exactly when the lock
  becomes free (`RwLocking.WriterSleepsWhileHeld`), and readers can pass the lock
  between them for ever (`RwLocking.WriterMayStarve`).

## Model

| member | source | states |
|---|---|---|
| `Framing.FirstEnd` | iow/io/aux/read_buffer.cpp:371-418 | The reference for the search: the end of the first separator, that is, the length of the shortest prefix ending in it; none exactly when the separator does not occur |
| `Framing.FirstEndUnique` | iow/io/aux/read_buffer.cpp:390-416 | A position where the separator ends and before which none ends is the one the reference names |
| `Framing.MatchBack` | iow/io/aux/read_buffer.cpp:331-341 | Matching backwards, one more byte decides: either the match grows by that byte or no separator ends here |
| `Framing.FramesComplete` | iow/io/aux/read_buffer.cpp:127-159 | Cutting a stream loses no byte, yields only frames (separator at the end and nowhere before), and leaves no separator in the remainder |
| `Framing.FramesUnique` | iow/io/aux/read_buffer.cpp:127-159 | Any list of frames followed by any remainder is cut back into exactly these frames; there is no other way to cut a stream |
| `Framing.FramesOfConcat` | iow/io/aux/read_buffer.cpp:127-159 | The frames of a longer stream are those of its beginning followed by those of the carried-over remainder plus the new bytes |
| `Framing.FramableFrames` | iow/io/aux/write_buffer.cpp:76 | Messages in which the appended separator is the first one come back one by one with nothing left over |
| `Framing.RoundTripIff` | iow/io/aux/write_buffer.cpp:68-78 | Terminating messages, cutting and trimming gives the messages back if and only if in each of them the appended separator is the first one |
| `Framing.TrimmedBack` | iow/io/aux/read_buffer.cpp:150-158 | What is handed out, then the separator where it is trimmed, then what stays: together the bytes before the cut; without trimming nothing is cut off a frame |
| `Snapshots.PosByte` | iow/io/aux/read_buffer.cpp:251-285 | A byte of a chunk is the byte of the flat unread stream at its flat position |
| `Snapshots.PosPlace` | iow/io/aux/read_buffer.cpp:490-504 | A place in the chunk list splits the flat unread bytes into what lies before it and what lies behind it |
| `Snapshots.UnreadEmpty` | iow/io/aux/read_buffer.cpp:344-369 | Nothing is unread exactly when the first chunk is used up to its end |
| `Transitions.ExtendedShape` | iow/io/aux/read_buffer.cpp:70-79 | Growing the last chunk for a read keeps all structural conditions on chunks and cursors |
| `Transitions.ExtendedBytes` | iow/io/aux/read_buffer.cpp:70-79 | The tail offered for reading is not data: unread bytes and search cursor do not move |
| `Transitions.CreatedShape` | iow/io/aux/read_buffer.cpp:223-245 | Appending a fresh chunk keeps the structure and brings a cursor that was left beyond the list back inside |
| `Transitions.CreatedBytes` | iow/io/aux/read_buffer.cpp:230-242 | A fresh chunk adds no unread byte, and moving the cursor onto it does not change its flat position |
| `Transitions.ConfirmedShape` | iow/io/aux/read_buffer.cpp:114-123 | Confirming received bytes keeps the structure and leaves the cursor usable |
| `Transitions.ConfirmedBytes` | iow/io/aux/read_buffer.cpp:104-114 | Exactly the confirmed bytes are appended to the unread ones; the cursor keeps its flat position |
| `Transitions.GivenBackShape` | iow/io/aux/read_buffer.cpp:115-123 | Removing an unused fresh chunk keeps the structure; the cursor ends up outside exactly when it was on that chunk |
| `Transitions.GivenBackBytes` | iow/io/aux/read_buffer.cpp:115-123 | Removing an unused fresh chunk changes no unread byte |
| `Transitions.AtEndBytes` | iow/io/aux/read_buffer.cpp:135-146 | The saved cursor is the end of the received bytes |
| `Transitions.DroppedShape` | iow/io/aux/read_buffer.cpp:421-468 | Removing everything before a place keeps the structure: what remains starts with a chunk that has bytes left, or with the growing one |
| `Transitions.DroppedBytes` | iow/io/aux/read_buffer.cpp:421-468 | Exactly the bytes before the place are removed, and the cursor stands on the first unread byte |
| `Searching.NoSepSkip` | iow/io/aux/read_buffer.cpp:403-408 | Bytes other than the last separator byte can be skipped: no separator ends among them |
| `Searching.Dec` | iow/io/aux/read_buffer.cpp:287-306 | Moves the flat position back by exactly one across chunk boundaries, or reports the start of the unread bytes, never looking below the offset |
| `Searching.CheckHead` | iow/io/aux/read_buffer.cpp:331-341 | The backward loop decides whether the separator ends at the given position |
| `Searching.CheckSep` | iow/io/aux/read_buffer.cpp:308-342 | Holds exactly when the flat unread bytes up to and including the given one end with the separator, wherever the chunk boundaries are |
| `Searching.Find` | iow/io/aux/read_buffer.cpp:405 | Stops at the next candidate byte, skips no separator, and looks at each byte once |
| `Searching.SearchChunk` | iow/io/aux/read_buffer.cpp:390-416 | Within one chunk: finds the end of the first separator that ends there, or shows that none does; bytes looked at equal the distance moved |
| `Searching.SepSearch` | iow/io/aux/read_buffer.cpp:387-417 | Resuming at the cursor finds the first separator of all unread bytes, and looks at each byte from the cursor on once |
| `Searching.NosepSearch` | iow/io/aux/read_buffer.cpp:344-369 | Without a separator the frame is all that was received; nothing is found exactly when nothing is unread or the cursor hides it |
| `Searching.Search` | iow/io/aux/read_buffer.cpp:371-418 | Equals the reference search from the start of the unread bytes, early returns included, in both modes |
| `Searching.Gather` | iow/io/aux/read_buffer.cpp:489-504 | The copy over several chunks is exactly the unread bytes before the place |
| `ReadSteps.ExtendedStep` | iow/io/aux/read_buffer.cpp:70-79 | The invariant over whole runs survives extending the last chunk |
| `ReadSteps.CreatedStep` | iow/io/aux/read_buffer.cpp:223-245 | The invariant over whole runs survives a fresh chunk |
| `ReadSteps.ArrivedStep` | iow/io/aux/read_buffer.cpp:76-78 | The invariant does not depend on what the system writes into the offered region |
| `ReadSteps.ConfirmedStep` | iow/io/aux/read_buffer.cpp:94-125 | The invariant survives a confirmation, the received stream growing by the confirmed bytes |
| `ReadSteps.GivenBackStep` | iow/io/aux/read_buffer.cpp:114-123 | The invariant survives an empty confirmation of a fresh chunk |
| `ReadSteps.AtEndStep` | iow/io/aux/read_buffer.cpp:134-148 | The invariant survives a fruitless search: the cursor goes to the end and no separator lies before it |
| `ReadSteps.CutStep` | iow/io/aux/read_buffer.cpp:150-153 | The invariant survives cutting a frame off: no byte is lost, the frame is minimal, the scan account is kept |
| `ReadBuffering.Normalize` | iow/io/aux/read_buffer.hpp:167-194 | The options of a run: chunk size at least 1, minbuf <= bufsize <= maxbuf, and a minbuf not given comes from maxbuf before that is raised |
| `ReadBuffering.NormalizedAgain` | iow/io/aux/read_buffer.hpp:152-217 | Options that are read back and set again change only when no lower limit was wanted, and then chunks are extended no more than before |
| `ReadBuffering.NormalizedZero` | iow/io/aux/read_buffer.hpp:176-194 | Options left at zero give chunks of 4096 bytes that are never extended |
| `ReadBuffering.ReadBuffer.SetOptions` | iow/io/aux/read_buffer.hpp:152-196 | Normalized options at any time; on an empty buffer a run starts; in the middle of one it goes on with every chunk and cursor as before, provided separator, chunk size and lower limit stay the same |
| `ReadBuffering.ReadBuffer.Clear` | iow/io/aux/read_buffer.cpp:17-26 | Back to the empty state |
| `ReadBuffering.ReadBuffer.Capacity` | iow/io/aux/read_buffer.cpp:38-45 | All chunks have the same capacity, so the total is their number times the chunk size |
| `ReadBuffering.ReadBuffer.Overflow` | iow/io/aux/read_buffer.cpp:52-55 | Reports exactly when a limit is set and the chunks exceed it |
| `ReadBuffering.ReadBuffer.CreateForNext` | iow/io/aux/read_buffer.cpp:223-245 | Offers all of a fresh chunk, leaves the other chunks alone, moves a cursor at the very end along |
| `ReadBuffering.ReadBuffer.Next` | iow/io/aux/read_buffer.cpp:57-86 | Offers a non-empty region at the end of the last chunk: exactly when its room exceeds minbuf all of that room, else all of a fresh chunk; a second call without confirmation changes nothing; unread bytes stay; a stray cursor is restored |
| `ReadBuffering.ReadBuffer.Confirm` | iow/io/aux/read_buffer.cpp:94-125 | A length above zero is accepted exactly for the chunk and the position in flight and within the region, any other handle being refused; length zero for any handle while a read is in flight; then exactly these bytes become unread; otherwise nothing changes; says exactly when the cursor is left beyond the list |
| `ReadBuffering.ReadBuffer.Rollback` | iow/io/aux/read_buffer.cpp:88-92 | Takes the region back without a byte |
| `ReadBuffering.ReadBuffer.MakeResultIfFirst` | iow/io/aux/read_buffer.cpp:509-541 | The bytes of a frame inside the first chunk; the chunk itself is handed out exactly when the frame ends with it |
| `ReadBuffering.ReadBuffer.MakeResult` | iow/io/aux/read_buffer.cpp:470-507 | The result holds exactly the unread bytes before the place |
| `ReadBuffering.ReadBuffer.Prepare` | iow/io/aux/read_buffer.cpp:421-468 | Removes the used-up chunks and renumbers the one being read into; neither abort branch is taken |
| `ReadBuffering.ReadBuffer.GiveUp` | iow/io/aux/read_buffer.cpp:135-147 | A fruitless search moves the cursor to the end and nothing else |
| `ReadBuffering.ReadBuffer.CutOff` | iow/io/aux/read_buffer.cpp:150-158 | Returns the frame and removes exactly its bytes; what is returned, the separator if and only if it is trimmed, and what stays are the bytes before |
| `ReadBuffering.ReadBuffer.Detach` | iow/io/aux/read_buffer.cpp:127-159 | With a separator: null exactly when it does not occur, else the shortest prefix ending in it, with exactly these bytes removed. Without: null exactly when nothing is unread or the cursor hides it, and then not twice. Either way what is returned, the separator if and only if it is trimmed, and what stays are the bytes before. A region in flight stays the same chunk, unmoved and unresized |
| `ReadRuns.FramesSoFar` | iow/io/aux/read_buffer.cpp:127-159 | In every reachable state the frames detached so far are the first frames of everything received |
| `ReadRuns.DrainedIsComplete` | iow/io/aux/read_buffer.cpp:127-159 | Once detach would return null, all frames of the received stream were delivered and exactly its remainder is kept |
| `ReadRuns.ChunkingIndependence` | iow/io/aux/read_buffer.cpp:57-86 | Two buffers that received the same bytes deliver the same frames, whatever their chunk sizes, read sizes and detach times |
| `ReadRuns.CursorSound` | iow/io/aux/read_buffer.cpp:134-148 | The first separator always ends beyond the saved cursor, also when it straddles it |
| `ReadRuns.LinearScan` | iow/io/aux/read_buffer.cpp:390-416 | Bytes looked at equal bytes detached plus the cursor position: no byte is forward-scanned twice |
| `ReadRuns.RegionAccepted` | iow/io/aux/read_buffer.cpp:104-110 | The region in flight is accepted with any length up to the one offered |
| `ReadRuns.Structure` | iow/io/aux/read_buffer.hpp:137-144 | The chunk in flight is last, no chunk is empty, and every chunk before the last is full enough and not parsed to its end |
| `ReadRuns.UsedUpChunk` | iow/io/aux/read_buffer.cpp:70-83 | A first chunk with nothing left is the only one and will be extended rather than followed |
| `ReadRuns.NeverSkips` | iow/io/aux/read_buffer.cpp:346-349 | When chunks are never extended in place, the first null without a separator proves the buffer empty |
| `ReadRuns.ChunkCount` | iow/io/aux/read_buffer.cpp:57-86 | Every chunk beyond the first stands for bytes held: (chunks - 1) * (bufsize - minbuf) is at most the unread bytes plus those detached from the first chunk |
| `ReadRuns.OverflowMeansBytes` | iow/io/aux/read_buffer.cpp:38-55 | The capacity exceeds a limit only when a proportionate number of bytes is held |
| `ReadRuns.NextMeansBytes` | iow/io/aux/read_buffer.cpp:52-86 | The next region takes the capacity over a limit only when a proportionate number of bytes is held |
| `Transitions.SettledCount` | iow/io/aux/read_buffer.cpp:94-125 | Reading on takes one chunk more exactly when the chunk just read into received bytes and is left with too little room |
| `ReadRuns.Perform` | iow/io/aux/read_buffer.cpp:57-159 | Every call on the object is a step of the state machine, or is refused and changes nothing |
| `ReadRuns.PerformDetach` | iow/io/aux/read_buffer.cpp:127-159 | A fruitless detach is the machine's step that moves the cursor to the end, a fruitful one the step that cuts at the end of the next frame |
| `ReadMachine.StepKeeps` | iow/io/aux/read_buffer.cpp:57-159 | Every step of the machine keeps the invariant, whatever the system writes and confirms |
| `ReadMachine.ReachableSound` | iow/io/aux/read_buffer.cpp:57-159 | In every state reached from the empty buffer nothing is lost, reordered or passed over |
| `ReadMachine.SkipsReachable` | iow/io/aux/read_buffer.cpp:346-349 | For all options with 0 < minbuf and minbuf + 1 < bufsize: a state reached from the empty buffer in which detach without a separator would return null although a byte is unread |
| `ReadMachine.SkipsExactly` | iow/io/aux/read_buffer.cpp:346-349 | Such a state can be reached if and only if 0 < minbuf and minbuf + 1 < bufsize |
| `ReadMachine.CursorBeyondReachable` | iow/io/aux/read_buffer.cpp:114-118 | For all options: a state reached from the empty buffer whose cursor is outside the chunk list, and every next region offered brings it back |
| `ReadMachine.ChunkBound` | iow/io/aux/read_buffer.cpp:57-86 | The bound on the number of chunks, from the structure alone |
| `ReadMachine.ChunkBoundAttained` | iow/io/aux/read_buffer.cpp:57-86 | For all options and every number of chunks a reachable state meets the bound with equality |
| `ReaderLoop.Reader.More` | iow/io/reader/ad_more.hpp:10-17 | A running reader goes on exactly when the chunks stay within the limit, and then has exactly one read outstanding and may call detach; after an overflow the read is issued all the same |
| `ReaderLoop.Reader.NextRegion` | iow/io/reader/data/ad_next.hpp:14-33 | Offers a region unless one is in flight; empties the buffer and stops exactly when the chunks then exceed the limit, which takes a proportionate number of bytes held; returns the region all the same |
| `ReaderLoop.Reader.Stop` | iow/io/basic/ad_stop.hpp:11-17 | Afterwards nothing is buffered; a read that is outstanding stays so |
| `ReaderLoop.Reader.Complete` | iow/io/reader/ad_complete.hpp:10-16 | One whole step: the bytes join the stream, the next read is started, everything deliverable is delivered; the reader stops exactly when that read takes the memory over the limit, and only with a proportionate number of bytes held; without a separator bytes stay behind exactly when the cursor hid them before, and never in two steps in a row; after a stop nothing happens |
| `ReaderLoop.Reader.Take` | iow/io/reader/ad_complete.hpp:13 | The confirmation: exactly the bytes that arrived become unread, and how many chunks the next read will take follows from where they end |
| `ReaderLoop.Reader.WouldBlock` | iow/io/reader/asio/ad_error_handler.hpp:19-25 | Taking a read back and issuing it anew loses nothing, delivers nothing and never exceeds the limit |
| `ReaderLoop.Reader.Handler` | iow/io/reader/data/ad_handler.hpp:11-20 | The drain loop ends, delivers every non-empty frame, and without a separator leaves bytes behind exactly when the cursor hid them |
| `ReaderLoop.DeliveredExactly` | iow/io/reader/ad_complete.hpp:12-15 | Between steps the user has exactly the non-empty frames of the stream received so far, and the buffer exactly its remainder |
| `ReaderLoop.DeliveredUntrimmed` | iow/io/reader/data/ad_handler.hpp:14-19 | When separators are not trimmed, the messages handed on and the bytes in the buffer are the stream, and every message is one frame |
| `ReaderLoop.DeliveredTrimmed` | iow/io/reader/data/ad_handler.hpp:14-19 | When they are, the stream is a list of terminated messages and the bytes in the buffer, and the user has the non-empty ones of that list |
| `ReaderLoop.NonEmptyDrops` | iow/io/reader/data/ad_handler.hpp:16-17 | An empty message makes no difference to what the user gets |
| `ReaderLoop.NonEmptyKeeps` | iow/io/reader/data/ad_handler.hpp:16-17 | Messages that are not empty are all handed on as they are |
| `ReaderLoop.DeliveredUnframed` | iow/io/reader/data/ad_handler.hpp:14-19 | Without a separator the pieces delivered and the unread bytes are the stream, no piece is empty, and nothing is held back when chunks are never extended |
| `ReaderLoop.ReadersAgree` | iow/io/reader/ad_complete.hpp:12-15 | Two readers of the same stream deliver the same messages whatever their options and reads |
| `WriteQueue.PushedKeeps` | iow/io/aux/write_buffer.cpp:86-90 | A chunk of its own keeps the structure, appends exactly its bytes and leaves the region in flight alone |
| `WriteQueue.MergedKeeps` | iow/io/aux/write_buffer.cpp:92-101 | Merging into the last chunk does the same, also when that chunk is in flight |
| `WriteQueue.SentKeeps` | iow/io/aux/write_buffer.cpp:125-146 | Confirming within the first chunk keeps the structure and removes exactly that many bytes |
| `WriteQueue.PushedGrouped` | iow/io/aux/write_buffer.cpp:82-106 | A message that may not join the last chunk starts one: every chunk still holds whole messages, and a message starts a chunk exactly when it could not join the one before |
| `WriteQueue.MergedGrouped` | iow/io/aux/write_buffer.cpp:92-101 | The same when the message joins the last chunk |
| `WriteQueue.GroupedUnique` | iow/io/aux/write_buffer.cpp:80-108 | How messages are put into chunks depends on nothing but the messages and where the first chunk starts |
| `WriteQueue.SentWithinChunk` | iow/io/aux/write_buffer.cpp:122-129 | Confirming keeps the queue consistent if and only if the number is within the first chunk; the source checks it only against the total |
| `WriteRuns.OverConfirm` | iow/io/aux/write_buffer.cpp:120-129 | Two messages in chunks of their own: confirming both after the first was offered is accepted and breaks the queue |
| `WriteQueue.CountBound` | iow/io/aux/write_buffer.cpp:92-106 | The merging rule bounds the chunk count: count * minbuf <= 2 * bytes + minbuf |
| `WriteQueue.CeilStep` | iow/io/aux/write_buffer.cpp:209-218 | A rounded-up quotient drops by one when a full piece is taken |
| `WriteQueue.WritesStep` | iow/io/aux/write_buffer.cpp:110-148 | A full write brings the number of writes still needed down by exactly one |
| `WriteQueue.WritesAsIs` | iow/io/aux/write_buffer.cpp:212 | With untouched chunks sent as they are, one write each |
| `WriteBuffering.Normalize` | iow/io/aux/write_buffer.hpp:121-148 | 1 <= minbuf <= bufsize <= maxbuf, each as asked for unless clamped |
| `WriteBuffering.NormalizedAgain` | iow/io/aux/write_buffer.hpp:106-151 | Options that went through once do not change again |
| `WriteBuffering.NormalizedZero` | iow/io/aux/write_buffer.hpp:130-148 | Options left at zero: chunks of fewer than 128 bytes are added to, and writes are of at most 4096 |
| `WriteBuffering.WriteBuffer.SetOptions` | iow/io/aux/write_buffer.hpp:106-151 | Normalized options at any time; on an empty buffer a run starts; in the middle of one it goes on with the queue as before, provided separator, lower and upper limit stay the same |
| `WriteBuffering.WriteBuffer.AddSep` | iow/io/aux/write_buffer.cpp:68-78 | The separator goes behind the bytes and is counted |
| `WriteBuffering.WriteBuffer.Merge` | iow/io/aux/write_buffer.cpp:97-100 | The last chunk grows by message and separator; pending bytes grow by exactly these |
| `WriteBuffering.WriteBuffer.Push` | iow/io/aux/write_buffer.cpp:104-105 | A chunk with message and separator at the end |
| `WriteBuffering.WriteBuffer.Attach` | iow/io/aux/write_buffer.cpp:80-108 | Pending bytes grow by message and separator; no chunk is added exactly when the last has fewer than minbuf bytes and the sum is below maxbuf; a chunk of at least minbuf bytes is never changed; the bytes offered do not change; null and pointless messages change nothing |
| `WriteBuffering.WriteBuffer.CurSizeOf` | iow/io/aux/write_buffer.cpp:209-218 | The size of the next write: within the first chunk, at most maxbuf unless an untouched chunk goes as it is, and as much as that allows |
| `WriteBuffering.WriteBuffer.Next` | iow/io/aux/write_buffer.cpp:110-118 | Exactly when none is in flight and there is a chunk, offers a non-empty prefix of the pending bytes: at most maxbuf of them unless an untouched chunk goes as it is, which then goes whole; never less than maxbuf unless the chunk ends |
| `WriteBuffering.WriteBuffer.Confirm` | iow/io/aux/write_buffer.cpp:120-148 | Accepted exactly while a write is outstanding and for at most the pending bytes; then that prefix is counted as sent, and the queue stays consistent if and only if it ends within the first chunk |
| `WriteBuffering.WriteBuffer.Rebuild` | iow/io/aux/write_buffer.cpp:139-143 | Moving the chunks to a fresh list and back neither loses, nor reorders, nor nulls any of them |
| `WriteBuffering.WriteBuffer.Rollback` | iow/io/aux/write_buffer.cpp:150-155 | As the code is written it changes nothing: an offered region stays offered |
| `WriteRuns.SentInOrder` | iow/io/aux/write_buffer.cpp:80-148 | What was sent is a prefix of everything attached, all of it once the queue is empty |
| `WriteRuns.WholeMessages` | iow/io/aux/write_buffer.cpp:80-108 | In every reachable state a chunk holds whole messages in order, and one that reaches maxbuf a single message |
| `WriteRuns.SentMessages` | iow/io/aux/write_buffer.cpp:80-148 | What was sent is exactly the messages before the first chunk and as much of that chunk as the offset says |
| `WriteRuns.ChunksDetermined` | iow/io/aux/write_buffer.cpp:80-148 | Buffers with the same messages, starting their first chunk at the same one, hold the same chunks however the writes were cut |
| `WriteRuns.SizeOfChunks` | iow/io/aux/write_buffer.cpp:85-129 | The byte count plus the offset is the total of the chunk sizes |
| `WriteRuns.ChunkCount` | iow/io/aux/write_buffer.cpp:92-106 | In every reachable state count * minbuf <= 2 * (size + offset) + minbuf |
| `WriteRuns.DrainFully` | tests/aux/write_buffer_test.cpp:126-143 | With full confirmations the queue empties in exactly the predicted number of writes |
| `WriteRuns.DrainPartly` | tests/aux/write_buffer_test.cpp:303-318 | With any non-empty part of each write confirmed, chosen anew each time, draining ends and the bytes sent are the pending ones in order |
| `WriterLoop.Writer.More` | iow/io/writer/ad_more.hpp:11-21 | Starts a write when the buffer waits for none and bytes are pending; else changes nothing |
| `WriterLoop.Writer.AttachMessage` | iow/io/writer/data/ad_attach.hpp:9-23 | The message joins the pending bytes; if these then exceed the limit, and only then, all are dropped and the writer stops |
| `WriterLoop.Writer.Output` | iow/io/writer/ad_output.hpp:8-13 | Appends the message, or stops exactly when it does not fit; one write is outstanding if and only if bytes are pending; an outstanding write is not disturbed; a stalled writer stays stalled |
| `WriterLoop.Writer.Complete` | iow/io/writer/ad_complete.hpp:11-16 | Exactly the bytes sent leave the queue, and one write is outstanding if and only if bytes are pending; after a stop nothing is sent |
| `WriterLoop.Writer.WouldBlock` | iow/io/writer/asio/ad_error_handler.hpp:16-22 | A write that would block leaves the writer waiting for a write that is not outstanding |
| `WriterLoop.Writer.Retry` | iow/io/aux/write_buffer.cpp:120-127 | Completing with zero bytes, by contrast, offers the same bytes again |
| `RoundTrip.MessagesInOrder` | iow/io/aux/read_buffer.cpp:94-159 | At any moment the trimmed frames detached are exactly the first messages attached |
| `RoundTrip.AllMessages` | iow/io/aux/write_buffer.cpp:80-148 | Once all is sent, received and detached, the frames are the messages if and only if each message can be framed |
| `RoundTrip.LoopsInOrder` | iow/io/reader/data/ad_handler.hpp:14-19 | For the two loops: the user gets the non-empty ones among the first messages, and all of them in the end |
| `RoundTrip.Pump` | iow/io/writer/ad_complete.hpp:11-16 | Writes sent in any parts and reads of any parts of what is on its way, in any order of the two, end with nothing pending, nothing on its way and every non-empty message delivered in order |
| `RwLocking.StepKeeps` | iow/mutex/rwlock.hpp:46-84 | No critical section of a matched call aborts, and each keeps counters, exclusion and the reasons for sleeping |
| `RwLocking.RunKeeps` | iow/mutex/rwlock.hpp:46-84 | The same over every interleaving of matched calls, notifications and spurious wake-ups |
| `RwLocking.Exclusion` | iow/mutex/rwlock.hpp:46-84 | At most one writer, no reader beside it, counters equal to the numbers of holders, no abort |
| `RwLocking.NoLostWakeup` | iow/mutex/rwlock.hpp:49-83 | A sleeping writer implies a holder, a sleeping reader implies a writer |
| `RwLocking.Progress` | iow/mutex/rwlock.hpp:46-84 | While some thread is inside a call, a holder can release or a thread gets the lock at its next check |
| `RwLocking.AbortsExactly` | iow/mutex/rwlock.hpp:60-80 | Without matching, unlock aborts exactly when nobody writes and unlock_r exactly when nobody reads |
| `RwLocking.SideKept` | iow/mutex/rwlock.hpp:46-84 | Only its own lock, lock_r, unlock and unlock_r change what a thread holds or waits for; a thread that waits for reading is never woken or entered as a writer; a woken thread checks again |
| `RwLocking.SidesOverRuns` | iow/mutex/rwlock.hpp:46-84 | Over every run, what a thread holds or waits for is what it last called for |
| `RwLocking.WriterWoken` | iow/mutex/rwlock.hpp:57-84 | A step of another thread wakes a sleeping writer exactly when it leaves the lock free |
| `RwLocking.ReaderWoken` | iow/mutex/rwlock.hpp:57-74 | A step of another thread wakes a sleeping reader exactly when it leaves the lock without a writer |
| `RwLocking.WriterSleepsWhileHeld` | iow/mutex/rwlock.hpp:46-84 | Over any run in which it takes no step, a sleeping writer is still asleep in the end if and only if the lock was free at no moment; else it is about to check again |
| `RwLocking.WriterMayStarve` | iow/mutex/rwlock.hpp:67-84 | Two readers taking turns, each releasing the lock once the other has it, keep a writer asleep for any number of turns |
| `RwLocking.TurnsAlternate` | iow/mutex/rwlock.hpp:67-84 | That run is what it says: turn j is a lock_r of the one and an unlock_r of the other, changing places with each j |
| `RwLocking.StarvationReachable` | iow/mutex/rwlock.hpp:46-84 | The state in which that starts is reachable |
| `RwLocking.RwLock.CheckWrite` | iow/mutex/rwlock.hpp:46-55 | Enters exactly when nobody holds the lock, and is then the only writer; else sleeps among the writers; nobody else moves |
| `RwLocking.RwLock.Unlock` | iow/mutex/rwlock.hpp:57-65 | Nobody writes and nobody sleeps afterwards; the sleepers check again on their own side and nobody else moves |
| `RwLocking.RwLock.CheckRead` | iow/mutex/rwlock.hpp:67-74 | Enters exactly when nobody writes; else sleeps among the readers; nobody else moves |
| `RwLocking.RwLock.UnlockR` | iow/mutex/rwlock.hpp:76-84 | One reader fewer; after the last one no writer sleeps; nobody else moves |

## Left out

- ReadBuffering.ReadBuffer.SetOptions: when the separator, the chunk size or the lower limit changes in the middle of a run, nothing is promised about what follows.
- WriteBuffering.WriteBuffer.SetOptions: likewise when the separator or a size limit changes.
- ReadBuffering.ReadBuffer.Detach: with a separator, not called while the cursor is beyond the chunk list; what the source would read there is undefined.
- WriterLoop.Writer.Output: called on a running writer; stopping also releases the owner (iow/io/basic/ad_reset.hpp), which is not part of this model.
- ReaderLoop.Reader.Complete: after an overflow the read is outstanding in a region already freed; what the system writes there is not modelled. User handlers that unlock the mutex or call back into the reader are not modelled.
- Chunks are values with a number and a capacity instead of heap vectors: each has one owner, and the pointer of a region is the number of its chunk and a position. Aliasing through that pointer, reallocation and address stability are not modelled; writing into the region is a method of its own (`Arrive`).
- Capacities of result buffers, `shrink_to_fit` and the growth of the chunk vector.
- Custom `create`/`free` callbacks and failing allocation: connections reset both callbacks.
- Statistics, logging, JSON descriptions of options, and the dispatch of aspects: calls are written out directly.
- Sockets, resolvers, timers, threads, shutdown and other error branches.
- Reads and writes of the lock's counters outside the mutex, and threads that take a read lock twice: each acquisition counts as a thread of its own.
- `wflow::owner` is not part of this model.
