/** The cursor state machine of a java.nio byte buffer, stated on values.
    Each function is one buffer call; the class in module NioBuffer is
    proved to update its fields exactly as these functions say. */
module BufferState {
  import opened NioResult

  /** The value Java keeps in `mark` while no mark is set. */
  const NoMark: int := -1

  /** A buffer at one instant: the backing bytes (their number is the
      capacity, which no call changes) and the three movable cursors. */
  datatype State = State(content: seq<bv8>, limit: int, position: int, mark: int)

  function Capacity(b: State): nat { |b.content| }

  /** 0 <= mark <= position <= limit <= capacity, an unset mark being NoMark. */
  predicate Valid(b: State) {
    NoMark <= b.mark <= b.position && 0 <= b.position <= b.limit <= |b.content|
  }

  /** ByteBuffer.allocate: a zero-filled buffer ready to be written. */
  function Allocate(capacity: int): (r: Result<State>)
    ensures r.Ok? <==> capacity >= 0
    ensures r.Err? ==> r.error == IllegalArgument
    ensures r.Ok? ==> Valid(r.value) && Capacity(r.value) == capacity
    ensures r.Ok? ==> r.value.position == 0 && r.value.limit == capacity && r.value.mark == NoMark
    ensures r.Ok? ==> forall i | 0 <= i < capacity :: r.value.content[i] == 0
  {
    if capacity < 0 then Err(IllegalArgument)
    else Ok(State(seq(capacity, _ => 0), capacity, 0, NoMark))
  }

  /** remaining(): the number of elements between position and limit. */
  function Remaining(b: State): (r: nat)
    ensures Valid(b) ==> b.position + r == b.limit
  {
    var rem := b.limit - b.position;
    if rem > 0 then rem else 0
  }

  /** hasRemaining(). */
  function HasRemaining(b: State): (r: bool)
    ensures r <==> Remaining(b) > 0
  {
    b.position < b.limit
  }

  /** The bytes a relative get would see next: those from position up to limit. */
  function Pending(b: State): (r: seq<bv8>)
    requires Valid(b)
    ensures |r| == Remaining(b)
    ensures forall i | 0 <= i < |r| :: r[i] == b.content[b.position + i]
  {
    b.content[b.position..b.limit]
  }

  /** Moves position forward by n; a forward move never discards the mark. */
  function Advance(b: State, n: int): (r: State)
    requires Valid(b) && 0 <= n <= Remaining(b)
    ensures Valid(r) && r.content == b.content && r.limit == b.limit && r.mark == b.mark
    ensures r.position == b.position + n
  {
    b.(position := b.position + n)
  }

  /** The effect of a bulk put that fits: src lands at position and position
      moves past it; no other byte and no other cursor changes. */
  function Fill(b: State, src: seq<bv8>): (r: State)
    requires Valid(b) && |src| <= Remaining(b)
    ensures Valid(r) && Capacity(r) == Capacity(b)
    ensures r.limit == b.limit && r.mark == b.mark && r.position == b.position + |src|
    ensures r.content[b.position..r.position] == src
    ensures forall i | 0 <= i < |b.content| && !(b.position <= i < r.position) :: r.content[i] == b.content[i]
  {
    var p := b.position;
    b.(content := b.content[..p] + src + b.content[p + |src|..], position := p + |src|)
  }

  /** put(byte[] src): all of src or, when it does not fit, nothing. */
  function Put(b: State, src: seq<bv8>): (r: Result<State>)
    requires Valid(b)
    ensures r.Ok? <==> |src| <= Remaining(b)
    ensures r.Err? ==> r.error == BufferOverflow
    ensures r.Ok? ==> Valid(r.value) && r.value.position == b.position + |src|
    ensures r.Ok? ==> r.value.content[b.position..r.value.position] == src
    ensures r.Ok? ==> r.value.limit == b.limit && r.value.mark == b.mark && Capacity(r.value) == Capacity(b)
    ensures r.Ok? ==> forall i | 0 <= i < |b.content| && !(b.position <= i < r.value.position) ::
                        r.value.content[i] == b.content[i]
  {
    if |src| > Remaining(b) then Err(BufferOverflow) else Ok(Fill(b, src))
  }

  /** get(byte[] dst, int offset, int length): the bounds of dst are checked
      first, then that length elements remain; on success they are copied
      into dst[offset..offset+length] and position moves past them. */
  function Get(b: State, dst: seq<bv8>, offset: int, length: int): (r: Result<(State, seq<bv8>)>)
    requires Valid(b)
    ensures r.Ok? <==> 0 <= offset && 0 <= length && offset + length <= |dst| && length <= Remaining(b)
    ensures r.Err? ==> r.error == if offset < 0 || length < 0 || offset + length > |dst|
                                  then IndexOutOfBounds else BufferUnderflow
    ensures r.Ok? ==> r.value.0 == Advance(b, length) && |r.value.1| == |dst|
    ensures r.Ok? ==> r.value.1[offset..offset + length] == b.content[b.position..b.position + length]
    ensures r.Ok? ==> forall i | 0 <= i < |dst| && !(offset <= i < offset + length) :: r.value.1[i] == dst[i]
  {
    if offset < 0 || length < 0 || offset + length > |dst| then Err(IndexOutOfBounds)
    else if length > Remaining(b) then Err(BufferUnderflow)
    else
      var taken := b.content[b.position..b.position + length];
      Ok((Advance(b, length), dst[..offset] + taken + dst[offset + length..]))
  }

  /** get(): the byte at position, which then moves on by one. */
  function GetByte(b: State): (r: Result<(State, bv8)>)
    requires Valid(b)
    ensures r.Ok? <==> HasRemaining(b)
    ensures r.Err? ==> r.error == BufferUnderflow
    ensures r.Ok? ==> r.value.0 == Advance(b, 1) && r.value.1 == b.content[b.position]
  {
    if b.position >= b.limit then Err(BufferUnderflow)
    else Ok((Advance(b, 1), b.content[b.position]))
  }

  /** flip(): what was written becomes what can be read. */
  function Flip(b: State): (r: State)
    ensures r.content == b.content && r.mark == NoMark && r.position == 0 && r.limit == b.position
    ensures Valid(b) ==> Valid(r) && Pending(r) == b.content[..b.position]
  {
    State(b.content, b.position, 0, NoMark)
  }

  /** rewind(): the readable region can be read again from its start. */
  function Rewind(b: State): (r: State)
    ensures r.content == b.content && r.limit == b.limit && r.mark == NoMark && r.position == 0
    ensures Valid(b) ==> Valid(r) && Pending(r) == b.content[..b.limit]
  {
    b.(position := 0, mark := NoMark)
  }

  /** clear(): ready for a fresh write pass over the whole capacity; the
      stored bytes stay where they are. */
  function Clear(b: State): (r: State)
    ensures Valid(r) && r.content == b.content && r.position == 0 && r.mark == NoMark
    ensures Remaining(r) == Capacity(b)
  {
    State(b.content, |b.content|, 0, NoMark)
  }

  /** mark(): remembers the current position. */
  function Mark(b: State): (r: State)
    ensures r.content == b.content && r.limit == b.limit && r.position == b.position
    ensures r.mark == b.position
    ensures Valid(b) ==> Valid(r)
  {
    b.(mark := b.position)
  }

  /** reset(): back to the remembered position, or InvalidMark if none. */
  function Reset(b: State): (r: Result<State>)
    ensures r.Ok? <==> b.mark >= 0  // a mark is set
    ensures r.Err? ==> r.error == InvalidMark
    ensures r.Ok? ==> r.value.position == b.mark && r.value.content == b.content
    ensures r.Ok? ==> r.value.limit == b.limit && r.value.mark == b.mark
    ensures r.Ok? && Valid(b) ==> Valid(r.value)
  {
    if b.mark < 0 then Err(InvalidMark) else Ok(b.(position := b.mark))
  }

  /** The calls a client makes on a buffer. */
  datatype Op =
    | PutOp(src: seq<bv8>)
    | GetOp(dst: seq<bv8>, offset: int, length: int)
    | GetByteOp
    | FlipOp
    | RewindOp
    | ClearOp
    | MarkOp
    | ResetOp

  /** One call; a call that throws leaves the buffer exactly as it was. */
  function Step(b: State, op: Op): (r: State)
    requires Valid(b)
    ensures Valid(r) && Capacity(r) == Capacity(b)
  {
    match op
    case PutOp(src) => var p := Put(b, src); if p.Ok? then p.value else b
    case GetOp(dst, offset, length) =>
      var g := Get(b, dst, offset, length); if g.Ok? then g.value.0 else b
    case GetByteOp => var g := GetByte(b); if g.Ok? then g.value.0 else b
    case FlipOp => Flip(b)
    case RewindOp => Rewind(b)
    case ClearOp => Clear(b)
    case MarkOp => Mark(b)
    case ResetOp => var r := Reset(b); if r.Ok? then r.value else b
  }

  /** Any sequence of calls keeps 0 <= mark <= position <= limit <= capacity
      and never changes the capacity. */
  function Run(b: State, ops: seq<Op>): (r: State)
    requires Valid(b)
    ensures Valid(r) && Capacity(r) == Capacity(b)
    decreases |ops|
  {
    if ops == [] then b else Run(Step(b, ops[0]), ops[1..])
  }

  /** put(src); flip(); get(dst) with |dst| == |src| gives back exactly src,
      leaving position and limit at |src|. */
  lemma PutFlipGet(b: State, src: seq<bv8>, dst: seq<bv8>)
    requires Valid(b) && b.position == 0 && |src| <= b.limit && |dst| == |src|
    ensures Put(b, src).Ok?
    ensures var f := Flip(Put(b, src).value);
            var g := Get(f, dst, 0, |dst|);
            f.limit == |src| && g.Ok? && g.value.1 == src
            && g.value.0.position == |src| && g.value.0.limit == |src|
  {
    var f := Flip(Put(b, src).value);
    assert f.content[0..|src|] == src;
  }

  /** mark(); get(dst, offset, length); reset() returns position (and so
      what remains) to where it was before the get. */
  lemma MarkGetReset(b: State, dst: seq<bv8>, offset: int, length: int)
    requires Valid(b) && Get(Mark(b), dst, offset, length).Ok?
    ensures var after := Get(Mark(b), dst, offset, length).value.0;
            after.position == b.position + length
            && Reset(after).Ok? && Reset(after).value.position == b.position
            && Remaining(Reset(after).value) == Remaining(b)
  {
  }

  /** clear() forgets the cursors, not the bytes: a following get() returns
      the first byte that was stored. */
  lemma ClearKeepsBytes(b: State)
    requires Valid(b) && Capacity(b) > 0
    ensures GetByte(Clear(b)).Ok? && GetByte(Clear(b)).value.1 == b.content[0]
  {
  }

  /** flip(), rewind() and clear() all discard the mark, so a reset() right
      after any of them throws InvalidMark. */
  lemma ResetNeedsMark(b: State)
    ensures Reset(Flip(b)) == Err(InvalidMark)
    ensures Reset(Rewind(b)) == Err(InvalidMark)
    ensures Reset(Clear(b)) == Err(InvalidMark)
  {
  }
}
