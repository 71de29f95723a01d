/** pb_ostream_t: a writing stream over a memory buffer, or a sizing stream that only counts. */
module OutStream {
  import opened Bits

  /** What a stream and its buffer hold at one moment. */
  datatype Snapshot = Snapshot(state: nat, written: nat, max: nat, contents: seq<byte>)

  /** From `a` to `b` exactly the bytes `bs` were written, and nothing else in the buffer changed. */
  ghost predicate Follows(a: Snapshot, b: Snapshot, bs: seq<byte>, sizing: bool) {
    && b.max == a.max
    && b.written == a.written + |bs|
    && (!sizing ==>
          && b.state == a.state + |bs| <= |a.contents|
          && b.contents == a.contents[..a.state] + bs + a.contents[a.state + |bs|..])
  }

  /** `n` more bytes are allowed. */
  ghost predicate Fits(a: Snapshot, n: nat, sizing: bool) {
    sizing || a.written + n <= a.max
  }

  lemma FollowsTrans(a: Snapshot, b: Snapshot, c: Snapshot, x: seq<byte>, y: seq<byte>, sizing: bool)
    requires Follows(a, b, x, sizing) && Follows(b, c, y, sizing)
    ensures Follows(a, c, x + y, sizing)
  {
    if !sizing {
      var pre := a.contents[..a.state];
      assert b.contents[..b.state] == pre + x;
      assert b.contents[b.state + |y|..] == a.contents[a.state + |x + y|..];
      assert c.contents == pre + (x + y) + a.contents[a.state + |x + y|..];
    }
  }

  class Stream {
    const buf: array<byte>
    const sizing: bool
    var state: nat
    var maxSize: nat
    var bytesWritten: nat

    ghost predicate Valid()
      reads this
    {
      !sizing ==> bytesWritten <= maxSize && state + (maxSize - bytesWritten) <= buf.Length
    }

    ghost function Now(): Snapshot
      reads this, buf
    {
      Snapshot(state, bytesWritten, maxSize, buf[..])
    }

    /** pb_ostream_from_buffer, on a part of a buffer. */
    constructor Buffer(buf: array<byte>, state: nat, maxSize: nat)
      requires state + maxSize <= buf.Length
      ensures this.buf == buf && !sizing && this.state == state && this.maxSize == maxSize && bytesWritten == 0
      ensures Valid()
    {
      this.buf := buf;
      this.sizing := false;
      this.state := state;
      this.maxSize := maxSize;
      this.bytesWritten := 0;
    }

    /** PB_OSTREAM_SIZING. */
    constructor Sizing()
      ensures sizing && fresh(buf) && bytesWritten == 0 && Valid()
    {
      this.buf := new byte[0];
      this.sizing := true;
      this.state := 0;
      this.maxSize := 0;
      this.bytesWritten := 0;
    }

    /** pb_write, with buf_write. */
    method Write(data: seq<byte>) returns (ok: bool)
      requires Valid()
      modifies this, buf
      ensures ok <==> Fits(old(Now()), |data|, sizing)
      ensures ok ==> Valid() && Follows(old(Now()), Now(), data, sizing)
      ensures !ok ==> unchanged(this) && unchanged(buf)
    {
      hide Follows;
      ghost var a := Now();
      if |data| > 0 && !sizing {
        if bytesWritten + |data| > maxSize { return false; }
        CopyIn(data);
        state := state + |data|;
      }
      bytesWritten := bytesWritten + |data|;
      Appended(a, Now(), data, sizing);
      return true;
    }

    /** The copy of buf_write: the bytes go to the cursor, which does not move yet. */
    method CopyIn(data: seq<byte>)
      requires state + |data| <= buf.Length
      modifies buf
      ensures buf[..] == old(buf[..state]) + data + old(buf[state + |data|..])
    {
      ghost var before := buf[..];
      for i := 0 to |data|
        invariant buf[..] == before[..state] + data[..i] + before[state + i..]
      {
        buf[state + i] := data[i];
        CopyOne(before, state, data, i, buf[..]);
      }
      assert data[..|data|] == data;
    }

    /** pb_write with a null buffer on a sizing stream. */
    method Count(count: nat)
      requires Valid() && sizing
      modifies this
      ensures Valid() && bytesWritten == old(bytesWritten) + count && maxSize == old(maxSize) && state == old(state)
    {
      bytesWritten := bytesWritten + count;
    }
  }

  /** What a write leaves follows what it found. */
  lemma Appended(a: Snapshot, b: Snapshot, data: seq<byte>, sizing: bool)
    requires b.max == a.max && b.written == a.written + |data|
    requires !sizing && data == [] ==> b.state == a.state <= |a.contents| && b.contents == a.contents
    requires !sizing && data != [] ==>
               && b.state == a.state + |data| <= |a.contents|
               && b.contents == a.contents[..a.state] + data + a.contents[a.state + |data|..]
    ensures Follows(a, b, data, sizing)
  {
    if !sizing && data == [] { assert a.contents == a.contents[..a.state] + [] + a.contents[a.state..]; }
  }

  lemma CopyOne(before: seq<byte>, at: nat, data: seq<byte>, i: nat, after: seq<byte>)
    requires i < |data| && at + |data| <= |before| && |after| == |before|
    requires after == (before[..at] + data[..i] + before[at + i..])[at + i := data[i]]
    ensures after == before[..at] + data[..i + 1] + before[at + i + 1..]
  {}
}
