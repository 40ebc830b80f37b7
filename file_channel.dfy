/** A file channel over an in-memory file: the file's bytes and the
    channel's own position, both updated in place by reads and writes, and
    the copy loops that drive buffers through it. */
module NioChannel {
  import opened NioResult
  import S = BufferState
  import C = ChannelState
  import opened NioBuffer

  /** The largest region FileChannel.map accepts (Integer.MAX_VALUE). */
  const MaxMapSize: int := 0x7fff_ffff

  /** The backing arrays of the buffers; with the buffers themselves, they
      are what a call on an array of buffers may change. */
  ghost function Arrays(bufs: seq<ByteBuffer>): (r: set<array<bv8>>)
    ensures forall b | b in bufs :: b.hb in r
  {
    set b | b in bufs :: b.hb
  }

  /** No buffer, and no backing array, occurs twice. */
  predicate Separate(bufs: seq<ByteBuffer>) {
    forall i, j | 0 <= i < |bufs| && 0 <= j < |bufs| && i != j ::
      bufs[i] != bufs[j] && bufs[i].hb != bufs[j].hb
  }

  ghost predicate AllValid(bufs: seq<ByteBuffer>)
    reads bufs
  {
    forall i | 0 <= i < |bufs| :: bufs[i].Valid()
  }

  /** The buffers as values. */
  function Views(bufs: seq<ByteBuffer>): (r: seq<S.State>)
    reads bufs, Arrays(bufs)
    ensures |r| == |bufs| && forall i | 0 <= i < |bufs| :: r[i] == bufs[i].View()
  {
    if bufs == [] then [] else [bufs[0].View()] + Views(bufs[1..])
  }

  /** put(bytes) on bufs[i], which leaves every other buffer of the array alone. */
  method PutAt(bufs: seq<ByteBuffer>, i: nat, bytes: seq<bv8>)
    requires i < |bufs| && Separate(bufs) && AllValid(bufs)
    requires |bytes| <= S.Remaining(bufs[i].View())
    modifies bufs[i], bufs[i].hb
    ensures AllValid(bufs)
    ensures Views(bufs) == old(Views(bufs))[i := S.Fill(old(bufs[i].View()), bytes)]
  {
    ghost var before := Views(bufs);
    var r := bufs[i].Put(bytes);
    forall j | 0 <= j < |bufs| && j != i
      ensures bufs[j].View() == before[j] && bufs[j].Valid()
    {
      assert bufs[j] != bufs[i] && bufs[j].hb != bufs[i].hb;
    }
  }

  /** A scatter read of src into bufs, which held `before`, part-way done:
      buffers 0 to i-1 hold their share, the rest are untouched, and
      `consumed` bytes of src are placed. */
  ghost predicate Scattered(bufs: seq<ByteBuffer>, before: seq<S.State>, src: seq<bv8>, i: nat, consumed: nat)
    reads bufs, Arrays(bufs)
  {
    |bufs| == |before| && AllValid(bufs) && C.ScatterProgress(before, src, i, consumed)
    && Views(bufs) == C.Scatter(before, src)[..i] + before[i..]
  }

  /** One round of the scatter loop: buffer i takes as much of what is left
      of src as it has room for. */
  method ScatterRound(bufs: seq<ByteBuffer>, ghost before: seq<S.State>, src: seq<bv8>, i: nat, consumed: nat)
    returns (next: nat)
    requires Separate(bufs) && Scattered(bufs, before, src, i, consumed) && i < |bufs|
    modifies bufs[i], bufs[i].hb
    ensures Scattered(bufs, before, src, i + 1, next)
  {
    ghost var after := C.Scatter(before, src);
    ghost var views := Views(bufs);
    assert bufs[i].View() == views[i] == before[i];
    var k := C.Min(bufs[i].Remaining(), |src| - consumed);
    C.ScatterProgressStep(before, src, i, consumed);
    PutAt(bufs, i, src[consumed..consumed + k]);
    C.SpliceStep(after, before, i);
    next := consumed + k;
  }

  /** The buffer side of a scatter read: each buffer in array order takes
      as much of what is left of src as it has room for. */
  method ScatterInto(bufs: seq<ByteBuffer>, src: seq<bv8>)
    requires Separate(bufs) && AllValid(bufs)
    modifies bufs, Arrays(bufs)
    ensures AllValid(bufs) && Views(bufs) == C.Scatter(old(Views(bufs)), src)
  {
    ghost var before := Views(bufs);
    var consumed := 0;
    var i := 0;
    C.ScatterProgressStart(before, src);
    C.SpliceEnds(C.Scatter(before, src), before);
    while i < |bufs|
      invariant Scattered(bufs, before, src, i, consumed)
    {
      consumed := ScatterRound(bufs, before, src, i, consumed);
      i := i + 1;
    }
  }

  class FileChannel {
    /** The bytes of the file the channel is open on. */
    var data: seq<bv8>
    /** The channel's position: where its next read or write starts. */
    var pos: nat

    ghost predicate Valid()
      reads this
    {
      pos <= |data|
    }

    /** A channel on a file holding `contents`, at position 0. */
    constructor Open(contents: seq<bv8>)
      ensures Valid() && data == contents && pos == 0
    {
      data, pos := contents, 0;
    }

    /** read(ByteBuffer): fills the buffer's room from the channel position;
        0 if the buffer has no room, -1 at the end of the file. */
    method Read(buf: ByteBuffer) returns (n: int)
      requires Valid() && buf.Valid()
      modifies this, buf, buf.hb
      ensures Valid() && buf.Valid() && data == old(data)
      ensures n == C.ReadCount(S.Remaining(old(buf.View())), |data| - old(pos))
      ensures pos == old(pos) + (if n > 0 then n else 0)
      ensures n > 0 ==> buf.View() == S.Fill(old(buf.View()), data[old(pos)..pos])
      ensures n <= 0 ==> buf.View() == old(buf.View())
    {
      n := C.ReadCount(buf.Remaining(), |data| - pos);
      if n > 0 {
        var r := buf.Put(data[pos..pos + n]);
        pos := pos + n;
      }
    }

    /** write(ByteBuffer): writes all of the buffer's bytes from position to
        limit at the channel position and drains the buffer. */
    method Write(buf: ByteBuffer) returns (n: int)
      requires Valid() && buf.Valid()
      modifies this, buf
      ensures Valid() && buf.Valid()
      ensures n == S.Remaining(old(buf.View()))
      ensures data == C.Overwrite(old(data), old(pos), S.Pending(old(buf.View())))
      ensures pos == old(pos) + n
      ensures buf.View() == C.Drained(old(buf.View()))
    {
      var staging := new bv8[buf.Remaining()];
      var r := buf.GetAll(staging);
      data := C.Overwrite(data, pos, staging[..]);
      pos := pos + staging.Length;
      n := staging.Length;
    }

    /** read(ByteBuffer[]): a scatter read. The buffers are filled in array
        order from the channel position; the count is as for a single read,
        taken over the room of all the buffers together. */
    method ReadScatter(bufs: seq<ByteBuffer>) returns (n: int)
      requires Valid() && Separate(bufs) && AllValid(bufs)
      modifies this, bufs, Arrays(bufs)
      ensures Valid() && AllValid(bufs) && data == old(data)
      ensures n == C.ReadCount(C.TotalRemaining(old(Views(bufs))), |data| - old(pos))
      ensures pos == old(pos) + C.Min(C.TotalRemaining(old(Views(bufs))), |data| - old(pos))
      ensures Views(bufs) == C.Scatter(old(Views(bufs)), data[old(pos)..])
    {
      ghost var before := Views(bufs);
      var src := data[pos..];
      var total := C.TotalRemaining(Views(bufs));
      n := C.ReadCount(total, |src|);
      pos := pos + C.Min(total, |src|);
      assert Views(bufs) == before && AllValid(bufs);
      ScatterInto(bufs, src);
    }

    /** A gather write of bufs, which held `before`, onto a file that held
        data0 at position pos0, part-way done: buffers 0 to i-1 are written
        and drained, the rest are untouched. */
    ghost predicate Gathering(bufs: seq<ByteBuffer>, before: seq<S.State>, data0: seq<bv8>, pos0: nat, i: nat)
      reads this, bufs, Arrays(bufs)
    {
      Valid() && i <= |bufs| == |before| && C.AllValid(before) && AllValid(bufs) && pos0 <= |data0|
      && (forall j | 0 <= j < i :: Views(bufs)[j] == C.Drained(before[j]))
      && Views(bufs)[i..] == before[i..]
      && data == C.Overwrite(data0, pos0, C.Gathered(before[..i]))
      && pos == pos0 + |C.Gathered(before[..i])|
    }

    /** write(bufs[i]), which leaves every other buffer of the array alone. */
    method WriteAt(bufs: seq<ByteBuffer>, i: nat) returns (n: int)
      requires Valid() && i < |bufs| && Separate(bufs) && AllValid(bufs)
      modifies this, bufs[i]
      ensures Valid() && AllValid(bufs)
      ensures data == C.Overwrite(old(data), old(pos), S.Pending(old(bufs[i].View())))
      ensures n == S.Remaining(old(bufs[i].View())) && pos == old(pos) + n
      ensures Views(bufs) == old(Views(bufs))[i := C.Drained(old(bufs[i].View()))]
    {
      ghost var before := Views(bufs);
      n := Write(bufs[i]);
      forall j | 0 <= j < |bufs| && j != i
        ensures bufs[j].View() == before[j] && bufs[j].Valid()
      {
        assert bufs[j] != bufs[i];
      }
    }

    /** One round of the gather loop: buffer i is written and drained. */
    method GatherRound(bufs: seq<ByteBuffer>, ghost before: seq<S.State>, ghost data0: seq<bv8>,
                       ghost pos0: nat, i: nat) returns (n: int)
      requires Separate(bufs) && Gathering(bufs, before, data0, pos0, i) && i < |bufs|
      modifies this, bufs[i]
      ensures Gathering(bufs, before, data0, pos0, i + 1)
      ensures n == pos - old(pos)
    {
      ghost var views := Views(bufs);
      assert bufs[i].View() == views[i] == views[i..][0] == before[i];
      ghost var chunk := S.Pending(before[i]);
      ghost var done := C.Gathered(before[..i]);
      C.OverwriteTwice(data0, pos0, done, chunk);
      C.GatheredSnoc(before, i);
      C.DrainedStep(views, before, i);
      n := WriteAt(bufs, i);
      assert data == C.Overwrite(data0, pos0, done + chunk);
      assert Views(bufs) == views[i := C.Drained(before[i])];
    }

    /** write(ByteBuffer[]): a gather write. Each buffer in array order is
        written from position to limit and drained. */
    method WriteGather(bufs: seq<ByteBuffer>) returns (n: int)
      requires Valid() && Separate(bufs) && AllValid(bufs)
      modifies this, bufs
      ensures Valid() && AllValid(bufs)
      ensures n == C.TotalRemaining(old(Views(bufs)))
      ensures data == C.Overwrite(old(data), old(pos), C.Gathered(old(Views(bufs))))
      ensures pos == old(pos) + n
      ensures forall j | 0 <= j < |bufs| :: bufs[j].View() == C.Drained(old(bufs[j].View()))
    {
      ghost var before := Views(bufs);
      n := 0;
      var i := 0;
      assert before[..0] == [] && before[0..] == before;
      while i < |bufs|
        invariant Gathering(bufs, before, old(data), old(pos), i)
        invariant n == pos - old(pos)
        modifies this, bufs
      {
        var w := GatherRound(bufs, before, old(data), old(pos), i);
        n := n + w;
        i := i + 1;
      }
      assert before[..|bufs|] == before;
    }

    /** transferFrom(src, position, count): moves up to count bytes from the
        source channel's position into this file at `position`, leaving this
        channel's own position alone; nothing when `position` is past the
        end of this file. */
    method TransferFrom(src: FileChannel, position: int, count: int) returns (r: Result<int>)
      requires Valid() && src.Valid() && src != this
      modifies this, src
      ensures Valid() && src.Valid() && pos == old(pos) && src.data == old(src.data)
      ensures r.Ok? <==> position >= 0 && count >= 0
      ensures r.Err? ==> r.error == IllegalArgument && data == old(data) && src.pos == old(src.pos)
      ensures r.Ok? && position > |old(data)| ==> r.value == 0 && data == old(data) && src.pos == old(src.pos)
      ensures r.Ok? && position <= |old(data)| ==>
                r.value == C.Min(count, |src.data| - old(src.pos))
                && src.pos == old(src.pos) + r.value
                && data == C.Overwrite(old(data), position, src.data[old(src.pos)..src.pos])
    {
      if position < 0 || count < 0 {
        return Err(IllegalArgument);
      }
      if position > |data| {
        return Ok(0);
      }
      var n := C.Min(count, |src.data| - src.pos);
      data := C.Overwrite(data, position, src.data[src.pos..src.pos + n]);
      src.pos := src.pos + n;
      r := Ok(n);
    }

    /** map(mode, position, size): a direct buffer over bytes
        [position, position + size) of the file, which is first extended with
        zero bytes if it is shorter than position + size. */
    method Map(position: int, size: int) returns (r: Result<ByteBuffer>)
      requires Valid()
      modifies this
      ensures Valid() && pos == old(pos)
      ensures r.Ok? <==> 0 <= position && 0 <= size <= MaxMapSize
      ensures r.Err? ==> r.error == IllegalArgument && data == old(data)
      ensures r.Ok? ==> data == C.Extend(old(data), position + size)
      ensures r.Ok? ==> fresh(r.value) && fresh(r.value.hb) && r.value.Valid() && r.value.isDirect
      ensures r.Ok? ==> r.value.View() == S.State(data[position..position + size], size, 0, S.NoMark)
    {
      if position < 0 || size < 0 || size > MaxMapSize {
        return Err(IllegalArgument);
      }
      data := C.Extend(data, position + size);
      var region := new ByteBuffer.Mapped(data[position..position + size]);
      r := Ok(region);
    }

    /** The platform's write-back of a mapped region: by the time the region
        is released, the file holds the region's bytes at its offset. */
    method Unmap(region: ByteBuffer, position: int)
      requires Valid() && 0 <= position && position + region.Capacity() <= |data|
      modifies this
      ensures Valid() && pos == old(pos)
      ensures data == C.Overwrite(old(data), position, region.hb[..])
    {
      data := C.Overwrite(data, position, region.hb[..]);
    }
  }

  /** The state of the heap-buffer copy between rounds: everything read
      so far is either in the destination or still in the buffer, and the
      last read reported n. */
  ghost predicate Copying(source: seq<bv8>, inChannel: FileChannel, outChannel: FileChannel,
                          buf: ByteBuffer, n: int)
    reads inChannel, outChannel, buf, buf.hb
  {
    inChannel.Valid() && outChannel.Valid() && buf.Valid()
    && inChannel.data == source && buf.Capacity() == 1024 && buf.limit == 1024
    && outChannel.pos + buf.position == inChannel.pos
    && outChannel.data == source[..outChannel.pos]
    && buf.View().content[..buf.position] == source[outChannel.pos..inChannel.pos]
    && (n == -1 ==> inChannel.pos == |source| && buf.position == 0)
    && (n != -1 ==> n == buf.position > 0)
  }

  /** One round of the copy loop: flip, write, clear, read. */
  method CopyRound(ghost source: seq<bv8>, inChannel: FileChannel, outChannel: FileChannel,
                   buf: ByteBuffer, n0: int) returns (n: int)
    requires inChannel != outChannel && Copying(source, inChannel, outChannel, buf, n0) && n0 != -1
    modifies inChannel, outChannel, buf, buf.hb
    ensures Copying(source, inChannel, outChannel, buf, n)
    ensures old(outChannel.pos) < outChannel.pos
  {
    buf.Flip();
    ghost var chunk := S.Pending(buf.View());
    assert chunk == source[outChannel.pos..inChannel.pos];
    var written := outChannel.Write(buf);
    assert outChannel.data == source[..outChannel.pos] by {
      C.OverwriteAtEnd(source[..outChannel.pos - written], chunk);
    }
    buf.Clear();
    n := inChannel.Read(buf);
  }

  /** The copy through one heap buffer of 1024 bytes: read, flip, write,
      clear, until read reports -1. The destination file, opened empty,
      ends up byte for byte equal to the source. */
  method CopyThroughHeapBuffer(source: seq<bv8>) returns (copy: seq<bv8>)
    ensures copy == source
  {
    var inChannel := new FileChannel.Open(source);
    var outChannel := new FileChannel.Open([]);
    var a := ByteBuffer.Allocate(1024);
    var buf := a.value;
    var n := inChannel.Read(buf);
    while n != -1
      invariant Copying(source, inChannel, outChannel, buf, n)
      invariant fresh(buf.hb)
      decreases |source| - outChannel.pos
    {
      n := CopyRound(source, inChannel, outChannel, buf, n);
    }
    copy := outChannel.data;
  }

  /** flip() applied to each buffer of an array that held `before`,
      part-way done: buffers 0 to i-1 are flipped, the rest are untouched. */
  ghost predicate Flipped(bufs: seq<ByteBuffer>, before: seq<S.State>, i: nat)
    reads bufs, Arrays(bufs)
  {
    i <= |bufs| == |before| && AllValid(bufs)
    && Views(bufs) == C.FlipAll(before)[..i] + before[i..]
  }

  /** flip() on bufs[i], which leaves every other buffer of the array alone. */
  method FlipAt(bufs: seq<ByteBuffer>, ghost before: seq<S.State>, i: nat)
    requires Separate(bufs) && Flipped(bufs, before, i) && i < |bufs|
    modifies bufs[i]
    ensures Flipped(bufs, before, i + 1)
  {
    ghost var views := Views(bufs);
    ghost var flipped := C.FlipAll(before);
    assert bufs[i].View() == views[i] == before[i];
    bufs[i].Flip();
    forall j | 0 <= j < |bufs| && j != i
      ensures bufs[j].View() == views[j] && bufs[j].Valid()
    {
      assert bufs[j] != bufs[i];
    }
    assert Views(bufs) == views[i := flipped[i]];
    C.SpliceStep(flipped, before, i);
  }

  /** flip() on each buffer of the array in turn. */
  method FlipEach(bufs: seq<ByteBuffer>)
    requires Separate(bufs) && AllValid(bufs)
    modifies bufs
    ensures AllValid(bufs) && Views(bufs) == C.FlipAll(old(Views(bufs)))
  {
    ghost var before := Views(bufs);
    C.SpliceEnds(C.FlipAll(before), before);
    for i := 0 to |bufs|
      invariant Flipped(bufs, before, i)
    {
      FlipAt(bufs, before, i);
    }
  }

  /** The two buffers of the scatter/gather test as allocated, empty. */
  function EmptyPair(): (r: seq<S.State>)
    ensures |r| == 2 && C.AllValid(r) && C.TotalRemaining(r) == 1124
    ensures forall i | 0 <= i < 2 :: r[i].position == 0
  {
    var r := [S.Allocate(100).value, S.Allocate(1024).value];
    assert r[1..] == [r[1]] && r[1..][1..] == [];
    r
  }

  /** The buffers of the scatter/gather test: allocate(100) and allocate(1024). */
  method AllocatePair() returns (buf1: ByteBuffer, buf2: ByteBuffer)
    ensures fresh(buf1) && fresh(buf2) && fresh(buf1.hb) && fresh(buf2.hb)
    ensures Separate([buf1, buf2]) && AllValid([buf1, buf2])
    ensures Views([buf1, buf2]) == EmptyPair()
  {
    var a1 := ByteBuffer.Allocate(100);
    var a2 := ByteBuffer.Allocate(1024);
    buf1, buf2 := a1.value, a2.value;
  }

  /** The first half of the scatter/gather test: allocate buffers of 100 and
      1024 bytes, scatter-read the file into them, flip each. */
  method ScatterAndFlip(file: seq<bv8>) returns (n: int, buf1: ByteBuffer, buf2: ByteBuffer)
    ensures fresh(buf1) && fresh(buf2)
    ensures Separate([buf1, buf2]) && AllValid([buf1, buf2])
    ensures n == C.ReadCount(1124, |file|)
    ensures Views([buf1, buf2]) == C.FlipAll(C.Scatter(EmptyPair(), file))
  {
    var channel1 := new FileChannel.Open(file);
    buf1, buf2 := AllocatePair();
    var bufs := [buf1, buf2];
    assert Arrays(bufs) == {buf1.hb, buf2.hb};
    n := channel1.ReadScatter(bufs);
    assert file[0..] == file;
    FlipEach(bufs);
  }

  /** The second half of the scatter/gather test: the buffers hold what a
      scatter read of the file put into them, flipped. A gather write of
      them through a fresh channel on the same file puts back exactly the
      bytes that were read, so the file is unchanged. */
  method GatherBack(file: seq<bv8>, bufs: seq<ByteBuffer>, ghost empty: seq<S.State>) returns (after: seq<bv8>)
    requires Separate(bufs) && AllValid(bufs) && C.AllValid(empty)
    requires forall i | 0 <= i < |empty| :: empty[i].position == 0
    requires Views(bufs) == C.FlipAll(C.Scatter(empty, file))
    modifies bufs
    ensures after == file
  {
    C.ScatterFlipGather(empty, file);
    ghost var m := C.Min(|file|, C.TotalRemaining(empty));
    var channel2 := new FileChannel.Open(file);
    assert Views(bufs) == C.FlipAll(C.Scatter(empty, file));
    var written := channel2.WriteGather(bufs);
    assert channel2.data == C.Overwrite(file, 0, file[..m]);
    C.OverwriteSame(file, 0, m);
    assert file[0..m] == file[..m];
    after := channel2.data;
  }

  /** Scatter read of a file into buffers of 100 and 1024 bytes, flip each,
      then gather write of the same array through a second channel on the
      same file. Returns what read reported, the bytes each buffer holds up
      to its limit, and the file afterwards. */
  method ScatterGather(file: seq<bv8>) returns (n: int, first: seq<bv8>, second: seq<bv8>, after: seq<bv8>)
    ensures n == if |file| == 0 then -1 else C.Min(|file|, 1124)
    ensures first == file[..C.Min(|file|, 100)]
    ensures second == file[C.Min(|file|, 100)..C.Min(|file|, 1124)]
    ensures after == file
  {
    var buf1, buf2;
    n, buf1, buf2 := ScatterAndFlip(file);
    ghost var empty := EmptyPair();
    C.ScatterPairFlipped(empty[0], empty[1], file);
    ghost var views := Views([buf1, buf2]);
    assert buf1.View() == views[0] && buf2.View() == views[1];
    first := buf1.hb[..buf1.limit];
    second := buf2.hb[..buf2.limit];
    after := GatherBack(file, [buf1, buf2], empty);
  }

  /** transferFrom(in, 0, in.size()) into a channel opened with CREATE but
      not TRUNCATE_EXISTING on a file that held `existing`: the source bytes
      land at offset 0, and a longer old file keeps its tail. */
  method TransferCopy(source: seq<bv8>, existing: seq<bv8>) returns (copy: seq<bv8>)
    ensures copy[..C.Min(|copy|, |source|)] == source
    ensures copy == if |existing| <= |source| then source else source + existing[|source|..]
    ensures |existing| > |source| ==> copy != source
  {
    var inChannel := new FileChannel.Open(source);
    var outChannel := new FileChannel.Open(existing);
    var r := outChannel.TransferFrom(inChannel, 0, |inChannel.data|);
    copy := outChannel.data;
  }

  /** The same transfer into a file opened empty (TRUNCATE_EXISTING, or a
      file that did not exist): the copy equals the source. */
  method TransferCopyTruncating(source: seq<bv8>) returns (copy: seq<bv8>)
    ensures copy == source
  {
    var inChannel := new FileChannel.Open(source);
    var outChannel := new FileChannel.Open([]);
    var r := outChannel.TransferFrom(inChannel, 0, |inChannel.data|);
    assert r.value == |source|;
    copy := outChannel.data;
  }

  /** The copy through two mapped regions: map the source READ_ONLY and the
      destination READ_WRITE over [0, size), get the whole source region
      into a byte array, put it into the destination region. As opened
      (CREATE without TRUNCATE_EXISTING), a longer old file keeps its tail.
      A source too large to map makes map throw IllegalArgumentException. */
  method MappedCopy(source: seq<bv8>, existing: seq<bv8>) returns (r: Result<seq<bv8>>)
    ensures r.Err? <==> |source| > MaxMapSize
    ensures r.Err? ==> r.error == IllegalArgument
    ensures r.Ok? ==> r.value[..C.Min(|r.value|, |source|)] == source
    ensures r.Ok? ==> r.value == if |existing| <= |source| then source else source + existing[|source|..]
    ensures r.Ok? && |existing| > |source| ==> r.value != source
  {
    var inChannel := new FileChannel.Open(source);
    var outChannel := new FileChannel.Open(existing);
    r := CopyMapped(inChannel, outChannel);
  }

  /** The mapped copy into a file opened empty: the copy equals the source. */
  method MappedCopyTruncating(source: seq<bv8>) returns (r: Result<seq<bv8>>)
    ensures r.Err? <==> |source| > MaxMapSize
    ensures r.Err? ==> r.error == IllegalArgument
    ensures r.Ok? ==> r.value == source
  {
    var inChannel := new FileChannel.Open(source);
    var outChannel := new FileChannel.Open([]);
    r := CopyMapped(inChannel, outChannel);
  }

  /** inMapped.get(bytes) with bytes sized to the region's limit: the
      whole region, from position 0, into a new byte array. */
  method GetRegion(region: ByteBuffer) returns (bytes: array<bv8>)
    requires region.Valid() && region.position == 0 && region.limit == region.Capacity()
    modifies region
    ensures fresh(bytes) && bytes[..] == region.hb[..]
  {
    bytes := new bv8[region.limit];
    var ok := region.GetAll(bytes);
    assert bytes[..] == region.hb[..] by {
      assert bytes[..][0..region.limit] == region.hb[0..region.limit];
    }
  }

  /** outMapped.put(bytes) with bytes as long as the region: the region
      then holds exactly those bytes. */
  method PutRegion(region: ByteBuffer, bytes: seq<bv8>)
    requires region.Valid() && region.position == 0 && region.limit == region.Capacity() == |bytes|
    modifies region, region.hb
    ensures region.hb[..] == bytes
  {
    var ok := region.Put(bytes);
    assert region.hb[..] == bytes by {
      assert region.hb[..][0..|bytes|] == bytes;
    }
  }

  /** The steps shared by both mapped copies. */
  method CopyMapped(inChannel: FileChannel, outChannel: FileChannel) returns (r: Result<seq<bv8>>)
    requires inChannel.Valid() && outChannel.Valid() && inChannel != outChannel
    modifies inChannel, outChannel
    ensures inChannel.data == old(inChannel.data)
    ensures r.Err? <==> |inChannel.data| > MaxMapSize
    ensures r.Err? ==> r.error == IllegalArgument
    ensures r.Ok? ==> r.value == C.Overwrite(C.Extend(old(outChannel.data), |inChannel.data|), 0, inChannel.data)
  {
    var size := |inChannel.data|;
    var inMap := inChannel.Map(0, size);
    if inMap.Err? {
      return Err(inMap.error);
    }
    var outMap := outChannel.Map(0, size);
    var inMapped, outMapped := inMap.value, outMap.value;
    assert inMapped.hb[..] == inChannel.data[0..size] == inChannel.data;
    assert outMapped.hb[..] == outChannel.data[0..size];
    assert outMapped.Capacity() == size;
    assert size <= |outChannel.data|;
    var bytes := GetRegion(inMapped);
    PutRegion(outMapped, bytes[..]);
    outChannel.Unmap(outMapped, 0);
    r := Ok(outChannel.data);
  }
}
