# java.nio buffers and file channels, as exercised by the nio demonstration tests

The repository is a pair of JUnit demonstrations of `java.nio`:

- `BufferTest` walks a `ByteBuffer` through allocate, put, flip, get, rewind, clear, mark and reset. Comments record the cursor values expected after each step.
- `ChannelTest` copies files through `FileChannel`s in three ways: a read/flip/write/clear loop over one heap buffer, `transferFrom`, and a get/put between two memory-mapped regions. It also runs a scatter read into two buffers and a gather write of them back.

The library code is not part of the repository. The model therefore follows the documented `java.nio` behaviour these tests rely on and, where the documentation leaves a case unspecified (mapping past the end of a file), OpenJDK's `FileChannelImpl`. Files are in-memory byte sequences, and each channel has its own position.

- `nio_result.dfy` (module `NioResult`): the exceptions as values (`Error`), `Result` and `Outcome`.
- `buffer_state.dfy` (module `BufferState`): a buffer as a value, `State(content, limit, position, mark)`, with an unset mark kept as -1 as Java does.
  - One function per buffer call, with its exception cases.
  - `Step`/`Run` over any sequence of calls.
  - Lemmas for the round trips the tests print.
- `byte_buffer.dfy` (module `NioBuffer`): the class `ByteBuffer`, with a fixed `array<bv8>` written in place and `limit`/`position`/`mark` fields.
  - Every method is proved to move the object exactly as the matching `BufferState` function moves its value (`View()`).
  - The three buffer tests are replayed as methods whose postconditions are the printed values.
- `channel_state.dfy` (module `ChannelState`): what channels do, stated on values:
  - positional writes (`Overwrite`) and the count a read reports (`ReadCount`);
  - how a scatter read spreads bytes over an array of buffers (`Scatter`);
  - how a gather write collects them (`Gathered`).
  - Lemmas relate all of these.
- `file_channel.dfy` (module `NioChannel`): the class `FileChannel` (file bytes and position, updated in place) with read, write, scatter read, gather write, `transferFrom` and `map`. It also holds the test bodies of `ChannelTest` as methods:
  - the heap-buffer copy loop, proved to leave the destination equal to the source;
  - scatter/gather, proved to fill the buffers in order and to write the file back unchanged;
  - the two whole-range copies.

Where the tests print a value, the corresponding method ensures that value.

## Model

| member | source | states |
|---|---|---|
| BufferState.Valid | src/main/java/com/wcx/nio/buffer/BufferTest.java:34-40 | the header invariant 0 <= mark <= position <= limit <= capacity, with mark -1 standing for "no mark" |
| BufferState.Allocate | src/main/java/com/wcx/nio/buffer/BufferTest.java:96-105 | allocate(c) fails with IllegalArgument exactly when c < 0; otherwise position 0, limit = capacity = c, no mark, every byte zero, and the cursor invariant holds |
| BufferState.Remaining | src/main/java/com/wcx/nio/buffer/BufferTest.java:83-86 | remaining() is the distance from position to limit for a valid buffer |
| BufferState.HasRemaining | src/main/java/com/wcx/nio/buffer/BufferTest.java:84 | hasRemaining() holds exactly when remaining() is positive |
| BufferState.Pending | src/main/java/com/wcx/nio/buffer/BufferTest.java:127-129 | the bytes a get would see are the remaining() bytes stored from position on |
| BufferState.Advance | src/main/java/com/wcx/nio/buffer/BufferTest.java:68-76 | moving position forward within the limit keeps the invariant, the bytes, the limit and the mark |
| BufferState.Fill | src/main/java/com/wcx/nio/buffer/BufferTest.java:107-115 | a put that fits stores src at position, advances position by its length, and changes no other byte, the limit, the mark or the capacity |
| BufferState.Put | src/main/java/com/wcx/nio/buffer/BufferTest.java:107-115 | put(src) succeeds exactly when src fits in remaining(), and then leaves src at the old position, moves position past it and keeps the limit, the mark, the capacity and every other byte; otherwise BufferOverflow |
| BufferState.Get | src/main/java/com/wcx/nio/buffer/BufferTest.java:68-76 | get(dst, off, len) succeeds exactly when the bounds fit dst and len <= remaining(); the error is IndexOutOfBounds for bad bounds, else BufferUnderflow; on success dst[off..off+len] receives the bytes from position, the rest of dst is unchanged, and position moves by len |
| BufferState.GetByte | src/main/java/com/wcx/nio/buffer/BufferTest.java:158 | get() returns the byte at position and moves on by one, or BufferUnderflow when nothing remains |
| BufferState.Flip | src/main/java/com/wcx/nio/buffer/BufferTest.java:117-125 | flip() sets the limit to the old position, leaves position 0 and no mark, and makes readable exactly the bytes written before position |
| BufferState.Rewind | src/main/java/com/wcx/nio/buffer/BufferTest.java:139-147 | rewind() leaves position 0, limit unchanged and no mark; the readable bytes are those up to the limit |
| BufferState.Clear | src/main/java/com/wcx/nio/buffer/BufferTest.java:149-157 | clear() makes the whole capacity writable, drops the mark and keeps the stored bytes |
| BufferState.Mark | src/main/java/com/wcx/nio/buffer/BufferTest.java:72-73 | mark() records the position and keeps the invariant |
| BufferState.Reset | src/main/java/com/wcx/nio/buffer/BufferTest.java:78-81 | reset() returns position to the mark, or fails with InvalidMark when no mark is set |
| BufferState.Step | src/main/java/com/wcx/nio/buffer/BufferTest.java:34-40 | every buffer call, including one that throws, keeps 0 <= mark <= position <= limit <= capacity and keeps the capacity |
| BufferState.Run | src/main/java/com/wcx/nio/buffer/BufferTest.java:34-40 | any sequence of calls keeps the invariant and the capacity |
| BufferState.PutFlipGet | src/main/java/com/wcx/nio/buffer/BufferTest.java:107-137 | put(src), flip(), then a get of limit() bytes returns exactly src, with position and limit both at the length of src |
| BufferState.MarkGetReset | src/main/java/com/wcx/nio/buffer/BufferTest.java:72-86 | mark(), a get of len bytes, then reset() puts position back where it was, with remaining() as before |
| BufferState.ClearKeepsBytes | src/main/java/com/wcx/nio/buffer/BufferTest.java:149-158 | after clear(), get() returns the first byte stored |
| BufferState.ResetNeedsMark | src/main/java/com/wcx/nio/buffer/BufferTest.java:38 | reset() right after flip(), rewind() or clear() throws InvalidMark |
| NioBuffer.ByteBuffer.Valid | src/main/java/com/wcx/nio/buffer/BufferTest.java:34-40 | the same invariant on the object's fields, with the capacity being the length of the backing array |
| NioBuffer.ByteBuffer.Capacity | src/main/java/com/wcx/nio/buffer/BufferTest.java:103 | capacity() is the length of the fixed backing array, which no call can change |
| NioBuffer.ByteBuffer.Allocated | src/main/java/com/wcx/nio/buffer/BufferTest.java:96-105 | a new buffer over a fresh zero-filled array of the given capacity, in BufferState.Allocate's state |
| NioBuffer.ByteBuffer.Mapped | src/main/java/com/wcx/nio/channel/ChannelTest.java:144-145 | a mapped region is a fresh direct buffer holding the region's bytes, position 0, limit at its end, no mark |
| NioBuffer.ByteBuffer.Allocate | src/main/java/com/wcx/nio/buffer/BufferTest.java:96 | a fresh, non-direct buffer object whose state is BufferState.Allocate's, or IllegalArgument for a negative capacity |
| NioBuffer.ByteBuffer.AllocateDirect | src/main/java/com/wcx/nio/buffer/BufferTest.java:51-55 | the same buffer as allocate, with the direct flag set |
| NioBuffer.ByteBuffer.Remaining | src/main/java/com/wcx/nio/buffer/BufferTest.java:85 | the object's remaining() is limit minus position |
| NioBuffer.ByteBuffer.HasRemaining | src/main/java/com/wcx/nio/buffer/BufferTest.java:84 | the object's hasRemaining() holds exactly when position < limit |
| NioBuffer.ByteBuffer.Put | src/main/java/com/wcx/nio/buffer/BufferTest.java:64 | writes into the backing array in place and leaves the object in BufferState.Put's state, or unchanged with its error |
| NioBuffer.ByteBuffer.Get | src/main/java/com/wcx/nio/buffer/BufferTest.java:68-74 | fills the caller's array in place and moves the object exactly as BufferState.Get says, or changes nothing and reports its error |
| NioBuffer.ByteBuffer.GetAll | src/main/java/com/wcx/nio/buffer/BufferTest.java:128-129 | get(dst) is get(dst, 0, dst.length) |
| NioBuffer.ByteBuffer.GetByte | src/main/java/com/wcx/nio/buffer/BufferTest.java:158 | returns the byte BufferState.GetByte returns and moves the object as it says |
| NioBuffer.ByteBuffer.Flip | src/main/java/com/wcx/nio/buffer/BufferTest.java:118 | the fields end as BufferState.Flip says, invariant kept |
| NioBuffer.ByteBuffer.Rewind | src/main/java/com/wcx/nio/buffer/BufferTest.java:140 | the fields end as BufferState.Rewind says, invariant kept |
| NioBuffer.ByteBuffer.Clear | src/main/java/com/wcx/nio/buffer/BufferTest.java:150 | the fields end as BufferState.Clear says, invariant kept |
| NioBuffer.ByteBuffer.Mark | src/main/java/com/wcx/nio/buffer/BufferTest.java:73 | the fields end as BufferState.Mark says, invariant kept |
| NioBuffer.ByteBuffer.Reset | src/main/java/com/wcx/nio/buffer/BufferTest.java:79 | the fields end as BufferState.Reset says, or InvalidMark with nothing changed |
| NioBuffer.DirectScenario | src/main/java/com/wcx/nio/buffer/BufferTest.java:51-55 | allocateDirect(1024) yields a buffer that reports isDirect() and capacity 1024 |
| NioBuffer.MarkScenario | src/main/java/com/wcx/nio/buffer/BufferTest.java:60-87 | the positions printed are 2, 4 and 2; hasRemaining() is true and remaining() is 3; dst holds "abcd" |
| NioBuffer.CursorScenario | src/main/java/com/wcx/nio/buffer/BufferTest.java:92-159 | (position, capacity, limit) after each step is (0,1024,1024), (5,1024,1024), (0,1024,5), (5,1024,5), (0,1024,5), (0,1024,1024); get returns "abcde"; get() after clear() returns 'a' |
| ChannelState.Overwrite | src/main/java/com/wcx/nio/channel/ChannelTest.java:192 | bytes written at an offset replace what was there, leave the bytes before and after alone, and extend the file when they run past its end |
| ChannelState.OverwriteAtEnd | src/main/java/com/wcx/nio/channel/ChannelTest.java:192 | a write at the end of the file appends |
| ChannelState.OverwriteSame | src/main/java/com/wcx/nio/channel/ChannelTest.java:108-111 | writing back the bytes already at an offset leaves the file unchanged |
| ChannelState.OverwriteTwice | src/main/java/com/wcx/nio/channel/ChannelTest.java:111 | two writes, each starting where the previous one ended, equal one write of both byte strings |
| ChannelState.Extend | src/main/java/com/wcx/nio/channel/ChannelTest.java:145 | mapping a region past the end grows the file to the region's end with zero bytes and keeps its old bytes, as OpenJDK's FileChannelImpl.map does on a writable channel |
| ChannelState.ReadCount | src/main/java/com/wcx/nio/channel/ChannelTest.java:188 | read reports -1 exactly when the buffer has room and the file has nothing left, 0 when the buffer has no room, and otherwise a positive count that is the room or the bytes left, whichever is smaller |
| ChannelState.Scatter | src/main/java/com/wcx/nio/channel/ChannelTest.java:97 | a scatter read returns one valid buffer per buffer given |
| ChannelState.ScatterNothing | src/main/java/com/wcx/nio/channel/ChannelTest.java:97 | scattering no bytes changes no buffer |
| ChannelState.ScatterFillsInOrder | src/main/java/com/wcx/nio/channel/ChannelTest.java:92-97 | once a buffer is left with room, no later buffer of the array takes any byte: bufs[0] is filled before bufs[1] |
| ChannelState.ScatterPair | src/main/java/com/wcx/nio/channel/ChannelTest.java:92-97 | scattering into two buffers: the first takes min(room, available) bytes from the start, the second takes what it has room for of the rest |
| ChannelState.ScatterPairFlipped | src/main/java/com/wcx/nio/channel/ChannelTest.java:92-105 | after the scatter and the flips, each buffer's limit is the count it took and its bytes up to the limit are its slice of the file |
| ChannelState.FlipAll | src/main/java/com/wcx/nio/channel/ChannelTest.java:99-101 | the for loop leaves every buffer flipped |
| ChannelState.Gathered | src/main/java/com/wcx/nio/channel/ChannelTest.java:111 | a gather write writes as many bytes as all the buffers have remaining |
| ChannelState.GatheredSplit | src/main/java/com/wcx/nio/channel/ChannelTest.java:111 | the bytes of earlier buffers of the array come before those of later ones |
| ChannelState.GatheredSnoc | src/main/java/com/wcx/nio/channel/ChannelTest.java:111 | gathering one more buffer appends exactly its bytes from position to limit |
| ChannelState.Drained | src/main/java/com/wcx/nio/channel/ChannelTest.java:107-111 | a written buffer has position at limit and nothing remaining, with its bytes, limit and mark kept |
| ChannelState.ScatterFlipGather | src/main/java/com/wcx/nio/channel/ChannelTest.java:92-111 | scatter into empty buffers, flip each, then gather: the bytes come out exactly as the first min(file size, total room) bytes of the file |
| NioChannel.Views | src/main/java/com/wcx/nio/channel/ChannelTest.java:96 | the array of buffers as values, one per buffer, in order |
| NioChannel.PutAt | src/main/java/com/wcx/nio/channel/ChannelTest.java:97 | a put into one buffer of the array changes that buffer as BufferState.Fill says and no other buffer |
| NioChannel.ScatterRound | src/main/java/com/wcx/nio/channel/ChannelTest.java:97 | one step of a scatter read keeps the invariant "buffers before i hold their share, the rest are untouched" |
| NioChannel.ScatterInto | src/main/java/com/wcx/nio/channel/ChannelTest.java:97 | the buffer side of a scatter read leaves the array as ChannelState.Scatter says |
| NioChannel.FileChannel.Open | src/main/java/com/wcx/nio/channel/ChannelTest.java:89 | a channel on the file's bytes at position 0 |
| NioChannel.FileChannel.Read | src/main/java/com/wcx/nio/channel/ChannelTest.java:188 | read(buf) reports ChannelState.ReadCount, moves that many file bytes into the buffer at its position, and advances the channel by as many; at -1 or 0 the buffer is unchanged |
| NioChannel.FileChannel.Write | src/main/java/com/wcx/nio/channel/ChannelTest.java:192 | write(buf) writes exactly the buffer's bytes from position to limit at the channel position, advances the channel by their number, and drains the buffer |
| NioChannel.FileChannel.ReadScatter | src/main/java/com/wcx/nio/channel/ChannelTest.java:97 | read(bufs) reports the count of a read whose room is that of all the buffers together, advances the channel by the bytes moved, and leaves the buffers as ChannelState.Scatter says |
| NioChannel.FileChannel.WriteAt | src/main/java/com/wcx/nio/channel/ChannelTest.java:111 | writing one buffer of the array drains it and changes no other buffer |
| NioChannel.FileChannel.GatherRound | src/main/java/com/wcx/nio/channel/ChannelTest.java:111 | one step of a gather write keeps the invariant "buffers before i are written, in order, and drained" |
| NioChannel.FileChannel.WriteGather | src/main/java/com/wcx/nio/channel/ChannelTest.java:111 | write(bufs) writes the buffers' bytes in array order at the channel position, reports their total, and drains every buffer |
| NioChannel.FileChannel.TransferFrom | src/main/java/com/wcx/nio/channel/ChannelTest.java:124 | transferFrom(src, position, count): IllegalArgument for a negative position or count; 0 and nothing changed when position is past the end; otherwise min(count, bytes left in src) bytes from src's position written at position; this channel's own position unchanged |
| NioChannel.FileChannel.Map | src/main/java/com/wcx/nio/channel/ChannelTest.java:144-145 | map(position, size): IllegalArgument for a negative argument or a size above Integer.MAX_VALUE; otherwise the file is extended to position + size and a fresh direct buffer holds exactly that region |
| NioChannel.FileChannel.Unmap | src/main/java/com/wcx/nio/channel/ChannelTest.java:150-154 | the region's bytes become the file's bytes at the region's offset (when that happens is not modelled) |
| NioChannel.CopyRound | src/main/java/com/wcx/nio/channel/ChannelTest.java:189-194 | one flip/write/clear/read round keeps "destination = source up to what was written, and the buffer holds the next bytes read" and strictly advances the destination |
| NioChannel.CopyThroughHeapBuffer | src/main/java/com/wcx/nio/channel/ChannelTest.java:184-195 | the loop stops only when read reports -1, and the destination then equals the source byte for byte |
| NioChannel.FlipAt | src/main/java/com/wcx/nio/channel/ChannelTest.java:100 | flipping one buffer of the array keeps "buffers before i flipped, the rest untouched" |
| NioChannel.FlipEach | src/main/java/com/wcx/nio/channel/ChannelTest.java:99-101 | the for loop leaves the array as ChannelState.FlipAll of its old state |
| NioChannel.EmptyPair | src/main/java/com/wcx/nio/channel/ChannelTest.java:92-93 | the two allocated buffers as values: valid, at position 0, with 1124 bytes of room together |
| NioChannel.AllocatePair | src/main/java/com/wcx/nio/channel/ChannelTest.java:92-96 | allocate(100) and allocate(1024) give two distinct fresh buffers whose states are EmptyPair |
| NioChannel.ScatterAndFlip | src/main/java/com/wcx/nio/channel/ChannelTest.java:86-101 | the scatter read reports -1 for an empty file and min(file size, 1124) otherwise; the buffers end as the flipped scatter of the file |
| NioChannel.GatherBack | src/main/java/com/wcx/nio/channel/ChannelTest.java:107-111 | the gather write through a second channel on the same file leaves the file unchanged |
| NioChannel.ScatterGather | src/main/java/com/wcx/nio/channel/ChannelTest.java:85-112 | read reports -1 or min(size, 1124); the first buffer shows the first min(size, 100) bytes and the second the next bytes up to 1124; the file is unchanged afterwards |
| NioChannel.TransferCopy | src/main/java/com/wcx/nio/channel/ChannelTest.java:118-127 | as written: the source lands at offset 0 of the destination, but a longer existing destination keeps its tail, so the copy differs from the source |
| NioChannel.TransferCopyTruncating | src/main/java/com/wcx/nio/channel/ChannelTest.java:118-127 | into an empty destination, the transfer makes the copy equal to the source |
| NioChannel.MappedCopy | src/main/java/com/wcx/nio/channel/ChannelTest.java:138-154 | as written: IllegalArgument exactly when the source is too large to map; otherwise the source lands at offset 0, but a longer existing destination keeps its tail |
| NioChannel.MappedCopyTruncating | src/main/java/com/wcx/nio/channel/ChannelTest.java:138-154 | into an empty destination, the mapped get/put copy equals the source, or IllegalArgument when the source is too large to map |
| NioChannel.GetRegion | src/main/java/com/wcx/nio/channel/ChannelTest.java:147-149 | get(bytes) into an array sized to the region's limit copies the whole region into a new array |
| NioChannel.PutRegion | src/main/java/com/wcx/nio/channel/ChannelTest.java:150 | put(bytes) of as many bytes as the region holds leaves the region holding exactly those bytes |
| NioChannel.CopyMapped | src/main/java/com/wcx/nio/channel/ChannelTest.java:144-150 | the get of the whole source region and its put into the destination region leave the destination as the source written over the extended old file at offset 0 |

## Left out

- The JDK library code is not in the repository. Buffer and channel calls follow the documented `java.nio` contracts, and OpenJDK where those leave a case open. `allocate(0)` is accepted, since only a negative capacity throws.
- Charsets, encoders and decoders, and the charset listing (`ChannelTest.java` lines 34-79): JDK codec tables whose output is only printed.
- Opening files on fixed paths, `RandomAccessFile`/`FileInputStream`/`FileOutputStream`, `close`, and the try/catch/finally cleanup. Files are byte sequences handed to `FileChannel.Open`. Closing and I/O failures are not modelled.
- Timing with `System.currentTimeMillis` and every `println`. The printed values become postconditions. `new String(bytes)` becomes the bytes themselves, and "abcde" becomes its ASCII bytes.
- Off-heap allocation, zero-copy transfer and memory mapping:
  - `isDirect` is a flag set at construction.
  - A mapped region is a fresh buffer holding a copy of the file's bytes.
  - `FileChannel.Unmap` stands for the write-back of a READ_WRITE region: the region's bytes become the file's bytes at its offset. When the platform does this is left out; it is not tied to closing the channel, which does not affect the mapping.
- Map modes and channel access modes: the tests open channels with READ, WRITE and CREATE (ChannelTest.java lines 120-121, 141-142) and map READ_ONLY and READ_WRITE (lines 144-145), but only in ways that cannot throw. The model has no modes. `FileChannel.Map` acts as a READ_WRITE map, and `FileChannel.Unmap` stands for that region's write-back. The READ_ONLY source region is read only by `get`, so it is modelled as an ordinary buffer. The NonReadableChannel, NonWritableChannel and ReadOnlyBuffer exceptions, and a READ_ONLY map that would have to grow the file, are not modelled.
- Slices, duplicates, `compact`, byte order, and element types other than bytes: none of these tests exercises them.
- NioChannel.FileChannel.Map: mapping past the end of the file (which MappedCopyTruncating relies on, with an empty destination) follows OpenJDK's FileChannelImpl.map, which grows the file with zero bytes to position + size; the `java.nio` documentation leaves this case unspecified.
- `long` positions and counts are unbounded integers. Only `map`'s Integer.MAX_VALUE size bound is modelled.
- NioBuffer.ByteBuffer.Get: requires `dst` to be a different array from the buffer's own. A get into its own backing array is not modelled.
- NioBuffer.ByteBuffer.GetAll: requires `dst` to be a different array from the buffer's own, like `Get`.
- NioChannel.FileChannel.ReadScatter: requires the buffers of the array to be distinct objects over distinct arrays. The same buffer twice in one array is not modelled.
- NioChannel.FileChannel.WriteGather: requires the buffers of the array to be distinct, like `ReadScatter`.
- NioChannel.FileChannel.TransferFrom: requires the source to be a different channel. A transfer from a channel into itself is not modelled.
- NioChannel.FileChannel.Read: the in-memory read moves min(room, bytes left). A real channel may return fewer bytes; the copy loop's proof does not depend on the count.

## Findings

| source | as written | input that shows it | evidently intended | confidence | as-written member | corrected member |
|---|---|---|---|---|---|---|
| src/main/java/com/wcx/nio/channel/ChannelTest.java:121 | the destination of `transferFrom` is opened with WRITE, READ and CREATE, without TRUNCATE_EXISTING | d:/2.exe already holds 10 bytes and d:/1.exe holds 4: after the transfer, d:/2.exe holds the 4 source bytes followed by the old file's last 6 | the copy equals the source (open with TRUNCATE_EXISTING, or CREATE_NEW) | medium, not executed | NioChannel.TransferCopy | NioChannel.TransferCopyTruncating |
| src/main/java/com/wcx/nio/channel/ChannelTest.java:142 | the destination of the mapped copy is opened with WRITE, READ and CREATE, without TRUNCATE_EXISTING, and mapped over only [0, source size) | d:/2.exe already holds 10 bytes and d:/1.exe holds 4: after the put, d:/2.exe holds the 4 source bytes followed by the old file's last 6 | the copy equals the source | medium, not executed | NioChannel.MappedCopy | NioChannel.MappedCopyTruncating |
