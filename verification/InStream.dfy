/** pb_istream_t over a memory buffer: a cursor and a count of the bytes it may still deliver. Each operation is
    proved against the function of the unread bytes that specifies it. */
module InStream {
  import opened Bits
  import opened Varint
  import Encode
  import opened Decode

  class Stream {
    const source: seq<byte>
    var state: nat
    var bytesLeft: nat

    ghost predicate Valid()
      reads this
    {
      state + bytesLeft <= |source|
    }

    /** The bytes the stream may still deliver. */
    ghost function Rest(): seq<byte>
      requires Valid()
      reads this
    {
      source[state..state + bytesLeft]
    }

    /** Where the stream ends in the buffer; reading does not move it. */
    ghost function End(): nat
      reads this
    {
      state + bytesLeft
    }

    /** pb_istream_from_buffer, on a part of a buffer. */
    constructor (source: seq<byte>, state: nat, bytesLeft: nat)
      requires state + bytesLeft <= |source|
      ensures this.source == source && this.state == state && this.bytesLeft == bytesLeft
      ensures Valid()
    {
      this.source := source;
      this.state := state;
      this.bytesLeft := bytesLeft;
    }

    /** pb_read. */
    method Read(count: nat) returns (ok: bool, data: seq<byte>)
      requires Valid()
      modifies this
      ensures Valid() && End() == old(End())
      ensures ok <==> Take(old(Rest()), count).Got?
      ensures ok ==> Got(data, Rest()) == Take(old(Rest()), count)
      ensures !ok ==> unchanged(this)
    {
      if count == 0 { return true, []; }
      if bytesLeft < count { return false, []; }
      data := source[state..state + count];
      state := state + count;
      bytesLeft := bytesLeft - count;
      assert data == old(Rest())[..count] && Rest() == old(Rest())[count..];
      return true, data;
    }

    /** pb_readbyte. */
    method ReadByte() returns (ok: bool, b: byte)
      requires Valid()
      modifies this
      ensures Valid() && End() == old(End())
      ensures ok <==> old(Rest()) != []
      ensures ok ==> b == old(Rest())[0] && Rest() == old(Rest())[1..] && bytesLeft == old(bytesLeft) - 1
      ensures !ok ==> unchanged(this)
    {
      if bytesLeft == 0 { return false, 0; }
      b := source[state];
      state := state + 1;
      bytesLeft := bytesLeft - 1;
      return true, b;
    }

    /** pb_decode_varint32_eof. */
    method DecodeVarint32() returns (ok: bool, value: nat, eof: bool)
      requires Valid()
      modifies this
      ensures Valid() && End() == old(End())
      ensures ok <==> Decode32(old(Rest())).Got?
      ensures ok ==> Got(value, Rest()) == Decode32(old(Rest())) && !eof
      ensures !ok ==> (eof <==> old(bytesLeft) == 0)
    {
      hide BitOr, Shl;
      eof := false;
      value := 0;
      var b: byte;
      ok, b := ReadByte();
      if !ok {
        eof := bytesLeft == 0;
        return;
      }
      var result: nat := b;
      if b >= 128 {
        var bitpos: nat := 7;
        result := b % 128;
        while b >= 128
          invariant Valid() && End() == old(End())
          invariant Decode32(old(Rest())) ==
                    if b >= 128 then Decode32From(Rest(), bitpos, result)
                    else if bitpos == 35 && (b / 16) % 8 != 0 then Bad else Got(result, Rest())
          decreases bytesLeft
        {
          ok, b := ReadByte();
          if !ok { return; }
          if bitpos >= 32 {
            var signExtension := if bitpos < 63 then 0xFF else 0x01;
            if b % 128 != 0 && (result / 0x8000_0000 == 0 || b != signExtension) {
              return false, 0, false;
            }
          } else {
            result := BitOr(result, Shl(b % 128, bitpos, 32));
          }
          bitpos := (bitpos + 7) % 256;
        }
        if bitpos == 35 && (b / 16) % 8 != 0 {
          return false, 0, false;
        }
      }
      return true, result, false;
    }

    /** pb_decode_varint. */
    method DecodeVarint64() returns (ok: bool, value: nat)
      requires Valid()
      modifies this
      ensures Valid() && End() == old(End())
      ensures ok <==> Decode64(old(Rest())).Got?
      ensures ok ==> Got(value, Rest()) == Decode64(old(Rest()))
    {
      hide BitOr, Shl;
      var bitpos: nat := 0;
      value := 0;
      var more := true;
      while more
        invariant Valid() && End() == old(End())
        invariant Decode64(old(Rest())) == if more then Decode64From(Rest(), bitpos, value) else Got(value, Rest())
        decreases more, bytesLeft
      {
        if bitpos >= 64 { return false, 0; }
        var b: byte;
        ok, b := ReadByte();
        if !ok { return; }
        value := BitOr(value, Shl(b % 128, bitpos, 64));
        bitpos := bitpos + 7;
        more := b >= 128;
      }
      ok := true;
    }

    /** pb_decode_tag: `eof` tells the end of the message, by input or by a zero tag, from an error. */
    method DecodeTag() returns (ok: bool, wire: nat, tag: nat, eof: bool)
      requires Valid()
      modifies this
      ensures Valid() && End() == old(End())
      ensures ok <==> Decode32(old(Rest())).Got? && Decode32(old(Rest())).v != 0
      ensures ok ==> Got(tag * 8 + wire, Rest()) == Decode32(old(Rest())) && wire < 8
      ensures !ok && eof ==> old(bytesLeft) == 0 || Got(0, Rest()) == Decode32(old(Rest()))
      ensures !ok && !eof ==> Decode32(old(Rest())).Bad?
    {
      var temp: nat;
      ok, temp, eof := DecodeVarint32();
      wire, tag := 0, 0;
      if !ok { return; }
      if temp == 0 { return false, 0, 0, true; }
      tag := temp / 8;
      wire := temp % 8;
    }

    /** pb_skip_varint. */
    method SkipVarintBytes() returns (ok: bool)
      requires Valid()
      modifies this
      ensures Valid() && End() == old(End())
      ensures ok <==> SkipVarint(old(Rest())).Got?
      ensures ok ==> Rest() == SkipVarint(old(Rest())).rest
    {
      var more := true;
      while more
        invariant Valid() && End() == old(End())
        invariant SkipVarint(old(Rest())) == if more then SkipVarint(Rest()) else Got((), Rest())
        decreases more, bytesLeft
      {
        var data;
        ok, data := Read(1);
        if !ok { return; }
        more := data[0] >= 128;
      }
      ok := true;
    }

    /** pb_skip_field, with pb_skip_string. */
    method SkipField(wire: nat) returns (ok: bool)
      requires Valid()
      modifies this
      ensures Valid() && End() == old(End())
      ensures ok <==> Skip(wire, old(Rest())).Got?
      ensures ok ==> Rest() == Skip(wire, old(Rest())).rest
    {
      hide Decode32, SkipVarint;
      var skipped: seq<byte>;
      if wire == Encode.WT_VARINT { ok := SkipVarintBytes(); }
      else if wire == Encode.WT_64BIT { ok, skipped := Read(8); }
      else if wire == Encode.WT_STRING {
        var length, eof;
        ok, length, eof := DecodeVarint32();
        if ok { ok, skipped := Read(length); }
      }
      else if wire == Encode.WT_32BIT { ok, skipped := Read(4); }
      else { ok := false; }
    }

    /** pb_make_string_substream: a stream limited to the declared length. Until it is closed the parent's cursor
        stays at the start of that run, while its byte count is already what will be left after it. */
    method MakeSubstream() returns (ok: bool, sub: Stream)
      requires Valid()
      modifies this
      ensures fresh(sub) && Valid() && sub.Valid() && sub.source == source && End() <= old(End())
      ensures ok <==> TakePrefixed(old(Rest())).Got?
      ensures ok ==> sub.Rest() == TakePrefixed(old(Rest())).v
      ensures ok ==> sub.End() + bytesLeft == old(End())
      ensures ok ==> source[sub.End()..sub.End() + bytesLeft] == TakePrefixed(old(Rest())).rest
    {
      hide Decode32;
      var size, eof;
      ok, size, eof := DecodeVarint32();
      sub := new Stream(source, state, bytesLeft);
      if !ok || sub.bytesLeft < size { return false, sub; }
      ghost var after := Rest();
      sub.bytesLeft := size;
      bytesLeft := bytesLeft - size;
      assert sub.Rest() == after[..size];
      assert source[sub.End()..sub.End() + bytesLeft] == after[size..];
    }

    /** pb_close_string_substream: however much of the substream was read, the parent moves to its end. */
    method CloseSubstream(sub: Stream) returns (ok: bool)
      requires sub != this && sub.Valid() && sub.source == source && sub.End() + bytesLeft <= |source|
      modifies this, sub
      ensures ok && Valid() && state == old(sub.End()) && bytesLeft == old(bytesLeft)
      ensures Rest() == source[old(sub.End())..old(sub.End()) + bytesLeft]
    {
      if sub.bytesLeft > 0 {
        var done, _ := sub.Read(sub.bytesLeft);
        if !done { return false; }
      }
      state := sub.state;
      return true;
    }
  }
}
