/** What a file channel does to file bytes and to buffers, stated on values:
    positional writes, the count a read reports, and how a scatter read
    spreads bytes over an array of buffers and a gather write collects them. */
module ChannelState {
  import opened NioResult
  import opened BufferState

  /** The smaller of two counts. */
  function Min(a: int, b: int): int { if a <= b then a else b }

  /** Bytes written at offset `at` of a file: they replace what was there
      and extend the file when they run past its end. */
  function Overwrite(data: seq<bv8>, at: nat, bytes: seq<bv8>): (r: seq<bv8>)
    requires at <= |data|
    ensures |r| == if at + |bytes| > |data| then at + |bytes| else |data|
    ensures r[..at] == data[..at] && r[at..at + |bytes|] == bytes
    ensures forall i | at + |bytes| <= i < |data| :: r[i] == data[i]
  {
    data[..at] + bytes + (if at + |bytes| < |data| then data[at + |bytes|..] else [])
  }

  /** A write at the end of a file appends. */
  lemma OverwriteAtEnd(data: seq<bv8>, bytes: seq<bv8>)
    ensures Overwrite(data, |data|, bytes) == data + bytes
  {
    assert data[..|data|] == data;
  }

  /** Writing back, at offset `at`, the bytes that are already there changes nothing. */
  lemma OverwriteSame(data: seq<bv8>, at: nat, n: nat)
    requires at + n <= |data|
    ensures Overwrite(data, at, data[at..at + n]) == data
  {
    var r := Overwrite(data, at, data[at..at + n]);
    assert forall i | 0 <= i < |data| :: r[i] == data[i] by {
      forall i | 0 <= i < |data| ensures r[i] == data[i] {
        if i < at { assert r[..at][i] == data[..at][i]; }
        else if i < at + n { assert r[at..at + n][i - at] == data[at..at + n][i - at]; }
      }
    }
  }

  /** Two writes, the second starting where the first ended, are one write
      of both byte strings. */
  lemma {:induction false} OverwriteTwice(data: seq<bv8>, at: nat, a: seq<bv8>, b: seq<bv8>)
    requires at <= |data|
    ensures at + |a| <= |Overwrite(data, at, a)|
    ensures Overwrite(Overwrite(data, at, a), at + |a|, b) == Overwrite(data, at, a + b)
  {
    var once := Overwrite(data, at, a);
    var lhs := Overwrite(once, at + |a|, b);
    var rhs := Overwrite(data, at, a + b);
    assert |lhs| == |rhs|;
    forall i | 0 <= i < |lhs| ensures lhs[i] == rhs[i] {
      if i < at {
        assert lhs[..at + |a|][i] == once[..at + |a|][i];
        assert once[..at][i] == data[..at][i];
        assert rhs[..at][i] == data[..at][i];
      } else if i < at + |a| {
        assert lhs[..at + |a|][i] == once[..at + |a|][i];
        assert once[at..at + |a|][i - at] == a[i - at];
        assert rhs[at..at + |a| + |b|][i - at] == (a + b)[i - at];
      } else if i < at + |a| + |b| {
        assert lhs[at + |a|..at + |a| + |b|][i - at - |a|] == b[i - at - |a|];
        assert rhs[at..at + |a| + |b|][i - at] == (a + b)[i - at];
      }
    }
  }

  /** A file of `size` bytes: data, extended with zero bytes if it is shorter. */
  function Extend(data: seq<bv8>, size: int): (r: seq<bv8>)
    ensures |r| == if size > |data| then size else |data|
    ensures r[..|data|] == data
    ensures forall i | |data| <= i < |r| :: r[i] == 0
  {
    if size <= |data| then data else data + seq(size - |data|, _ => 0)
  }

  /** What FileChannel.read reports: 0 when the buffer has no room, -1 at
      the end of the file, otherwise how many bytes it moved, which is as
      many as fit and are left. */
  function ReadCount(room: nat, available: int): (n: int)
    ensures n == -1 <==> room > 0 && available <= 0
    ensures room == 0 ==> n == 0
    ensures n > 0 ==> n <= room && n <= available
    ensures room > 0 && available > 0 ==> n > 0 && (n == room || n == available)
  {
    if room == 0 then 0 else if available <= 0 then -1 else Min(room, available)
  }

  predicate AllValid(bufs: seq<State>) {
    forall i | 0 <= i < |bufs| :: Valid(bufs[i])
  }

  /** The room left in all the buffers together. */
  function TotalRemaining(bufs: seq<State>): (r: nat)
  {
    if bufs == [] then 0 else Remaining(bufs[0]) + TotalRemaining(bufs[1..])
  }

  /** A scatter read of src: each buffer in turn takes as much of what is
      left as it has room for. */
  function Scatter(bufs: seq<State>, src: seq<bv8>): (r: seq<State>)
    requires AllValid(bufs)
    ensures |r| == |bufs| && AllValid(r)
    decreases |bufs|
  {
    if bufs == [] then []
    else
      var k := Min(Remaining(bufs[0]), |src|);
      [Fill(bufs[0], src[..k])] + Scatter(bufs[1..], src[k..])
  }

  /** A scatter of src over bufs that has reached buffer i with `consumed`
      bytes placed: what is left to do is the scatter of the rest of src
      over the rest of the buffers. */
  predicate ScatterProgress(bufs: seq<State>, src: seq<bv8>, i: nat, consumed: nat) {
    AllValid(bufs) && i <= |bufs| && consumed <= |src|
    && Scatter(bufs, src)[i..] == Scatter(bufs[i..], src[consumed..])
    && consumed + Min(|src| - consumed, TotalRemaining(bufs[i..])) == Min(|src|, TotalRemaining(bufs))
  }

  lemma ScatterProgressStart(bufs: seq<State>, src: seq<bv8>)
    requires AllValid(bufs)
    ensures ScatterProgress(bufs, src, 0, 0)
  {
    assert bufs[0..] == bufs && src[0..] == src;
  }

  /** Buffer i takes as much of what is left as it has room for, and the
      scatter moves on to buffer i + 1. */
  lemma ScatterProgressStep(bufs: seq<State>, src: seq<bv8>, i: nat, consumed: nat)
    requires ScatterProgress(bufs, src, i, consumed) && i < |bufs|
    ensures var k := Min(Remaining(bufs[i]), |src| - consumed);
            Scatter(bufs, src)[i] == Fill(bufs[i], src[consumed..consumed + k])
            && ScatterProgress(bufs, src, i + 1, consumed + k)
  {
    var k := Min(Remaining(bufs[i]), |src| - consumed);
    ScatterUnfold(bufs, src, i, consumed);
    var after := Scatter(bufs, src);
    assert after[i..][0] == after[i] && after[i..][1..] == after[i + 1..];
  }

  /** The scatter over bufs[i..] is buffer i taking its share, then the
      scatter of what is left over the buffers after it; the bytes taken
      overall add up the same way. */
  lemma ScatterUnfold(bufs: seq<State>, src: seq<bv8>, i: nat, consumed: nat)
    requires AllValid(bufs) && i < |bufs| && consumed <= |src|
    ensures var k := Min(Remaining(bufs[i]), |src| - consumed);
            Scatter(bufs[i..], src[consumed..])
              == [Fill(bufs[i], src[consumed..consumed + k])] + Scatter(bufs[i + 1..], src[consumed + k..])
            && consumed + Min(|src| - consumed, TotalRemaining(bufs[i..]))
              == consumed + k + Min(|src| - consumed - k, TotalRemaining(bufs[i + 1..]))
  {
    var k := Min(Remaining(bufs[i]), |src| - consumed);
    assert bufs[i..][0] == bufs[i] && bufs[i..][1..] == bufs[i + 1..];
    assert src[consumed..][..k] == src[consumed..consumed + k];
    assert src[consumed..][k..] == src[consumed + k..];
  }

  /** Replacing element i of after[..i] + before[i..] by after[i] moves the
      boundary between the two one place on. */
  lemma SpliceStep<T>(after: seq<T>, before: seq<T>, i: nat)
    requires i < |after| == |before|
    ensures (after[..i] + before[i..])[i := after[i]] == after[..i + 1] + before[i + 1..]
  {
  }

  /** The first k elements, then the m after them, are the first k + m. */
  lemma TakeSplit<T>(s: seq<T>, k: nat, m: nat)
    requires k + m <= |s|
    ensures s[..k] + s[k..][..m] == s[..k + m]
  {
  }

  /** Before the first step the splice is all `before`; after the last it is
      all `after`. */
  lemma SpliceEnds<T>(after: seq<T>, before: seq<T>)
    requires |after| == |before|
    ensures after[..0] + before[0..] == before
    ensures after[..|after|] + before[|before|..] == after
  {
  }

  /** Scattering nothing moves no buffer. */
  lemma {:induction false} ScatterNothing(bufs: seq<State>)
    requires AllValid(bufs)
    ensures Scatter(bufs, []) == bufs
    decreases |bufs|
  {
    if bufs != [] {
      ScatterNothing(bufs[1..]);
      assert Fill(bufs[0], []).content == bufs[0].content;
    }
  }

  /** A scatter read fills the buffers in array order: once a buffer is
      left with room, no later buffer takes any byte. */
  lemma {:induction false} ScatterFillsInOrder(bufs: seq<State>, src: seq<bv8>, i: nat, j: nat)
    requires AllValid(bufs) && i < j < |bufs|
    requires Remaining(Scatter(bufs, src)[i]) > 0
    ensures Scatter(bufs, src)[j] == bufs[j]
    decreases |bufs|
  {
    var k := Min(Remaining(bufs[0]), |src|);
    var all := Scatter(bufs, src);
    var rest := Scatter(bufs[1..], src[k..]);
    assert all[0] == Fill(bufs[0], src[..k]) && all[j] == rest[j - 1];
    assert bufs[1..][j - 1] == bufs[j];
    if i == 0 {
      assert k == |src|;
      assert src[k..] == [];
      ScatterNothing(bufs[1..]);
      assert rest == bufs[1..];
      assert all[j] == bufs[j];
    } else {
      assert all[i] == rest[i - 1];
      ScatterFillsInOrder(bufs[1..], src[k..], i - 1, j - 1);
      assert all[j] == bufs[j];
    }
  }

  /** A scatter over two buffers: the first takes what it has room
      for, the second takes its share of the rest. */
  lemma {:induction false} ScatterPair(b1: State, b2: State, src: seq<bv8>)
    requires Valid(b1) && Valid(b2)
    ensures var k1 := Min(Remaining(b1), |src|);
            var k2 := Min(Remaining(b2), |src| - k1);
            Scatter([b1, b2], src) == [Fill(b1, src[..k1]), Fill(b2, src[k1..k1 + k2])]
  {
    var k1 := Min(Remaining(b1), |src|);
    var k2 := Min(Remaining(b2), |src| - k1);
    var bufs := [b1, b2];
    ScatterUnfold(bufs, src, 0, 0);
    ScatterUnfold(bufs, src, 1, k1);
    assert bufs[0..] == bufs && src[0..] == src && bufs[2..] == [];
    assert src[0..k1] == src[..k1];
  }

  /** flip() applied to each buffer. */
  function FlipAll(bufs: seq<State>): (r: seq<State>)
    ensures |r| == |bufs|
    ensures forall i | 0 <= i < |r| :: r[i] == Flip(bufs[i])
  {
    if bufs == [] then [] else [Flip(bufs[0])] + FlipAll(bufs[1..])
  }

  /** Scatter into two empty buffers, then flip both: each buffer's limit
      is the number of bytes it took, and below its limit it holds exactly
      those bytes, in file order. */
  lemma {:induction false} ScatterPairFlipped(b1: State, b2: State, src: seq<bv8>)
    requires Valid(b1) && Valid(b2) && b1.position == 0 && b2.position == 0
    ensures var r := FlipAll(Scatter([b1, b2], src));
            var k1 := Min(Remaining(b1), |src|);
            var k2 := Min(Remaining(b2), |src| - k1);
            |r| == 2 && r[0].limit == k1 && r[1].limit == k2
            && r[0].content[..k1] == src[..k1] && r[1].content[..k2] == src[k1..k1 + k2]
  {
    ScatterPair(b1, b2, src);
    var k1 := Min(Remaining(b1), |src|);
    var k2 := Min(Remaining(b2), |src| - k1);
    var f1 := Fill(b1, src[..k1]);
    var f2 := Fill(b2, src[k1..k1 + k2]);
    assert f1.content[..k1] == f1.content[0..k1];
    assert f2.content[..k2] == f2.content[0..k2];
  }

  /** A gather write's bytes: each buffer's bytes from position to limit,
      buffer after buffer in array order. */
  function Gathered(bufs: seq<State>): (r: seq<bv8>)
    requires AllValid(bufs)
    ensures |r| == TotalRemaining(bufs)
  {
    if bufs == [] then [] else Pending(bufs[0]) + Gathered(bufs[1..])
  }

  /** The bytes of buffers placed earlier in the array come first. */
  lemma {:induction false} GatheredSplit(bufs: seq<State>, i: nat)
    requires AllValid(bufs) && i <= |bufs|
    ensures Gathered(bufs) == Gathered(bufs[..i]) + Gathered(bufs[i..])
    decreases i
  {
    if i > 0 {
      GatheredSplit(bufs[1..], i - 1);
      assert bufs[..i][1..] == bufs[1..][..i - 1];
      assert bufs[1..][i - 1..] == bufs[i..];
    } else {
      assert bufs[..0] == [];
    }
  }

  /** Gathering one buffer more appends that buffer's bytes. */
  lemma GatheredSnoc(bufs: seq<State>, i: nat)
    requires AllValid(bufs) && i < |bufs|
    ensures Gathered(bufs[..i + 1]) == Gathered(bufs[..i]) + Pending(bufs[i])
  {
    GatheredSplit(bufs[..i + 1], i);
    assert bufs[..i + 1][..i] == bufs[..i];
    assert bufs[..i + 1][i..] == [bufs[i]];
  }

  /** A buffer after a write has drained it: position has reached limit. */
  function Drained(b: State): (r: State)
    requires Valid(b)
    ensures Valid(r) && r.position == r.limit && Remaining(r) == 0
    ensures r.content == b.content && r.limit == b.limit && r.mark == b.mark
  {
    Advance(b, Remaining(b))
  }

  /** Draining buffer i of an array whose first i buffers are drained and
      whose others are untouched extends the drained part by one. */
  lemma DrainedStep(views: seq<State>, before: seq<State>, i: nat)
    requires i < |views| == |before| && AllValid(before)
    requires forall j | 0 <= j < i :: views[j] == Drained(before[j])
    requires views[i..] == before[i..]
    ensures var next := views[i := Drained(before[i])];
            (forall j | 0 <= j < i + 1 :: next[j] == Drained(before[j]))
            && next[i + 1..] == before[i + 1..]
  {
    var next := views[i := Drained(before[i])];
    assert next[i + 1..] == views[i + 1..] == views[i..][1..];
  }

  /** Scatter-read into fresh buffers (position 0), flip each, then gather:
      the bytes come out exactly as they were read, and the buffers' limits
      add up to the number read, min(|src|, total capacity). */
  lemma {:induction false} ScatterFlipGather(bufs: seq<State>, src: seq<bv8>)
    requires AllValid(bufs)
    requires forall i | 0 <= i < |bufs| :: bufs[i].position == 0
    ensures AllValid(FlipAll(Scatter(bufs, src)))
    ensures Gathered(FlipAll(Scatter(bufs, src))) == src[..Min(|src|, TotalRemaining(bufs))]
    decreases |bufs|
  {
    var scattered := Scatter(bufs, src);
    var after := FlipAll(scattered);
    assert AllValid(after) by {
      forall i | 0 <= i < |after| ensures Valid(after[i]) {
        assert Valid(scattered[i]);
      }
    }
    if bufs != [] {
      var k := Min(Remaining(bufs[0]), |src|);
      var filled := Fill(bufs[0], src[..k]);
      var rest := Scatter(bufs[1..], src[k..]);
      assert scattered[0] == filled && scattered[1..] == rest;
      assert after[0] == Flip(filled) && after[1..] == FlipAll(rest);
      assert Gathered(after) == Pending(Flip(filled)) + Gathered(FlipAll(rest));
      ScatterFlipGather(bufs[1..], src[k..]);
      assert Pending(Flip(filled)) == src[..k];
      var m := Min(|src| - k, TotalRemaining(bufs[1..]));
      TakeSplit(src, k, m);
      assert k + m == Min(|src|, TotalRemaining(bufs));
    }
  }
}
