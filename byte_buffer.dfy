/** A java.nio byte buffer as an object: a fixed array written in place and
    three cursor fields that every call updates. Each method is proved to
    move the buffer exactly as the matching function of BufferState says. */
module NioBuffer {
  import opened NioResult
  import S = BufferState

  class ByteBuffer {
    /** The backing store; its length is the capacity, fixed for good. */
    const hb: array<bv8>
    /** allocateDirect rather than allocate; no call depends on it. */
    const isDirect: bool
    var limit: int
    var position: int
    var mark: int

    ghost predicate Valid()
      reads this
    {
      S.NoMark <= mark <= position && 0 <= position <= limit <= hb.Length
    }

    function Capacity(): nat { hb.Length }

    /** The buffer as a value. */
    function View(): S.State
      reads this, hb
    {
      S.State(hb[..], limit, position, mark)
    }

    constructor Allocated(capacity: nat, direct: bool)
      ensures Valid() && fresh(hb) && isDirect == direct
      ensures S.Allocate(capacity).Ok? && View() == S.Allocate(capacity).value
    {
      hb := new bv8[capacity](_ => 0);
      isDirect := direct;
      limit, position, mark := capacity, 0, S.NoMark;
      new;
      assert hb[..] == seq(capacity, _ => 0);
    }

    /** The buffer a mapping yields over a region of a file: direct, holding
        the region's bytes, positioned at 0 with the limit at its end. */
    constructor Mapped(region: seq<bv8>)
      ensures Valid() && fresh(hb) && isDirect
      ensures View() == S.State(region, |region|, 0, S.NoMark)
    {
      hb := new bv8[|region|](i requires 0 <= i < |region| => region[i]);
      isDirect := true;
      limit, position, mark := |region|, 0, S.NoMark;
      new;
      assert hb[..] == region;
    }

    /** ByteBuffer.allocate(capacity). */
    static method Allocate(capacity: int) returns (r: Result<ByteBuffer>)
      ensures r.Ok? <==> capacity >= 0
      ensures r.Err? ==> r.error == IllegalArgument
      ensures r.Ok? ==> fresh(r.value) && fresh(r.value.hb) && r.value.Valid() && !r.value.isDirect
      ensures r.Ok? ==> r.value.View() == S.Allocate(capacity).value
    {
      if capacity < 0 {
        r := Err(IllegalArgument);
      } else {
        var b := new ByteBuffer.Allocated(capacity, false);
        r := Ok(b);
      }
    }

    /** ByteBuffer.allocateDirect(capacity): the same buffer, flagged direct. */
    static method AllocateDirect(capacity: int) returns (r: Result<ByteBuffer>)
      ensures r.Ok? <==> capacity >= 0
      ensures r.Err? ==> r.error == IllegalArgument
      ensures r.Ok? ==> fresh(r.value) && fresh(r.value.hb) && r.value.Valid() && r.value.isDirect
      ensures r.Ok? ==> r.value.View() == S.Allocate(capacity).value
    {
      if capacity < 0 {
        r := Err(IllegalArgument);
      } else {
        var b := new ByteBuffer.Allocated(capacity, true);
        r := Ok(b);
      }
    }

    /** remaining(). */
    function Remaining(): (r: nat)
      reads this, hb
      ensures Valid() ==> position + r == limit
    {
      S.Remaining(View())
    }

    /** hasRemaining(). */
    function HasRemaining(): (r: bool)
      reads this, hb
      ensures r <==> position < limit
    {
      S.HasRemaining(View())
    }

    /** put(byte[] src): writes src into the array at position, or throws
        BufferOverflowException and changes nothing. */
    method Put(src: seq<bv8>) returns (r: Outcome)
      requires Valid()
      modifies this, hb
      ensures Valid()
      ensures var p := S.Put(old(View()), src);
              (r.Pass? <==> p.Ok?) && (r.Fail? ==> r.error == p.error)
              && View() == if p.Ok? then p.value else old(View())
    {
      if |src| > limit - position {
        return Fail(BufferOverflow);
      }
      ghost var before := View();
      forall i | 0 <= i < |src| {
        hb[position + i] := src[i];
      }
      position := position + |src|;
      assert hb[..] == before.content[..before.position] + src + before.content[before.position + |src|..];
      r := Pass;
    }

    /** get(byte[] dst, int offset, int length). */
    method Get(dst: array<bv8>, offset: int, length: int) returns (r: Outcome)
      requires Valid() && dst != hb
      modifies this, dst
      ensures Valid()
      ensures var g := S.Get(old(View()), old(dst[..]), offset, length);
              (r.Pass? <==> g.Ok?) && (r.Fail? ==> r.error == g.error)
              && View() == (if g.Ok? then g.value.0 else old(View()))
              && dst[..] == (if g.Ok? then g.value.1 else old(dst[..]))
    {
      if offset < 0 || length < 0 || offset + length > dst.Length {
        return Fail(IndexOutOfBounds);
      }
      if length > limit - position {
        return Fail(BufferUnderflow);
      }
      ghost var before := dst[..];
      forall i | 0 <= i < length {
        dst[offset + i] := hb[position + i];
      }
      assert dst[..] == before[..offset] + hb[position..position + length] + before[offset + length..];
      position := position + length;
      r := Pass;
    }

    /** get(byte[] dst): fills the whole of dst. */
    method GetAll(dst: array<bv8>) returns (r: Outcome)
      requires Valid() && dst != hb
      modifies this, dst
      ensures Valid()
      ensures var g := S.Get(old(View()), old(dst[..]), 0, dst.Length);
              (r.Pass? <==> g.Ok?) && (r.Fail? ==> r.error == g.error)
              && View() == (if g.Ok? then g.value.0 else old(View()))
              && dst[..] == (if g.Ok? then g.value.1 else old(dst[..]))
    {
      r := Get(dst, 0, dst.Length);
    }

    /** get(): one byte. */
    method GetByte() returns (r: Result<bv8>)
      requires Valid()
      modifies this
      ensures Valid()
      ensures var g := S.GetByte(old(View()));
              (r.Ok? <==> g.Ok?) && (r.Err? ==> r.error == g.error)
              && (r.Ok? ==> r.value == g.value.1)
              && View() == (if g.Ok? then g.value.0 else old(View()))
    {
      if position >= limit {
        return Err(BufferUnderflow);
      }
      r := Ok(hb[position]);
      position := position + 1;
    }

    /** flip(). */
    method Flip()
      requires Valid()
      modifies this
      ensures Valid() && View() == S.Flip(old(View()))
    {
      limit := position;
      position := 0;
      mark := S.NoMark;
    }

    /** rewind(). */
    method Rewind()
      requires Valid()
      modifies this
      ensures Valid() && View() == S.Rewind(old(View()))
    {
      position := 0;
      mark := S.NoMark;
    }

    /** clear(). */
    method Clear()
      requires Valid()
      modifies this
      ensures Valid() && View() == S.Clear(old(View()))
    {
      position := 0;
      limit := hb.Length;
      mark := S.NoMark;
    }

    /** mark(). */
    method Mark()
      requires Valid()
      modifies this
      ensures Valid() && View() == S.Mark(old(View()))
    {
      mark := position;
    }

    /** reset(): throws InvalidMarkException when no mark is set. */
    method Reset() returns (r: Outcome)
      requires Valid()
      modifies this
      ensures Valid()
      ensures var m := S.Reset(old(View()));
              (r.Pass? <==> m.Ok?) && (r.Fail? ==> r.error == m.error)
              && View() == if m.Ok? then m.value else old(View())
    {
      if mark < 0 {
        return Fail(InvalidMark);
      }
      position := mark;
      r := Pass;
    }
  }

  /** The bytes String.getBytes() gives for the ASCII text "abcde". */
  const Abcde: seq<bv8> := [0x61, 0x62, 0x63, 0x64, 0x65]

  /** allocateDirect(1024) yields a buffer whose isDirect() is true. */
  method DirectScenario() returns (direct: bool, capacity: int)
    ensures direct && capacity == 1024
  {
    var a := ByteBuffer.AllocateDirect(1024);
    var buf := a.value;
    direct := buf.isDirect;
    capacity := buf.Capacity();
  }

  /** Put "abcde", flip, get two bytes, mark, get two more, reset: the
      position goes 2, 4, back to 2, and three bytes remain. */
  method MarkScenario() returns (first: int, second: int, afterReset: int,
                                 hasRemaining: bool, remaining: int, read: seq<bv8>)
    ensures first == 2 && second == 4 && afterReset == 2
    ensures hasRemaining && remaining == 3
    ensures read == Abcde[..4]
  {
    var a := ByteBuffer.Allocate(1024);
    var buf := a.value;
    var ok := buf.Put(Abcde);
    var dst := new bv8[buf.limit];
    buf.Flip();
    ok := buf.Get(dst, 0, 2);
    first := buf.position;
    buf.Mark();
    ok := buf.Get(dst, 2, 2);
    second := buf.position;
    ok := buf.Reset();
    afterReset := buf.position;
    hasRemaining := buf.HasRemaining();
    remaining := buf.Remaining();
    read := dst[..4];
    assert buf.hb[..5] == Abcde;
  }

  /** (position, capacity, limit) after each step of allocate(1024),
      put("abcde"), flip(), get(bytes), rewind(), clear(); the bytes that
      get returned; and the byte get() returns after clear(). */
  method CursorScenario() returns (trace: seq<(int, int, int)>, text: seq<bv8>, afterClear: bv8)
    ensures trace == [(0, 1024, 1024), (5, 1024, 1024), (0, 1024, 5),
                      (5, 1024, 5), (0, 1024, 5), (0, 1024, 1024)]
    ensures text == Abcde
    ensures afterClear == 0x61  // 'a'
  {
    var a := ByteBuffer.Allocate(1024);
    var buf := a.value;
    trace := [(buf.position, buf.Capacity(), buf.limit)];
    var ok := buf.Put(Abcde);
    trace := trace + [(buf.position, buf.Capacity(), buf.limit)];
    buf.Flip();
    trace := trace + [(buf.position, buf.Capacity(), buf.limit)];
    var bytes := new bv8[buf.limit];
    ok := buf.GetAll(bytes);
    trace := trace + [(buf.position, buf.Capacity(), buf.limit)];
    text := bytes[..];
    buf.Rewind();
    trace := trace + [(buf.position, buf.Capacity(), buf.limit)];
    buf.Clear();
    trace := trace + [(buf.position, buf.Capacity(), buf.limit)];
    var g := buf.GetByte();
    afterClear := g.value;
  }
}
