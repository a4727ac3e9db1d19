/** Forward cursors over byte buffers: reader and writer. */
module Cursor {
  import opened Common

  /** Little-endian encoding of a 32-bit value. */
  function Le32(v: nat): (b: bytes)
    requires v < U32
    ensures |b| == 4
  {
    [v % 256, v / 256 % 256, v / 65536 % 256, v / 16777216]
  }

  function FromLe32(b: bytes): (v: nat)
    requires |b| == 4
    ensures v < U32
  {
    b[0] as int + 256 * (b[1] as int) + 65536 * (b[2] as int) + 16777216 * (b[3] as int)
  }

  lemma LowByte(low: nat, high: nat)
    requires low < 256
    ensures (low + 256 * high) / 256 == high && (low + 256 * high) % 256 == low
  {
  }

  lemma ByteByByte(v: nat)
    ensures v / 65536 == v / 256 / 256 && v / 16777216 == v / 65536 / 256
  {
  }

  lemma Le32RoundTrip(v: nat)
    requires v < U32
    ensures FromLe32(Le32(v)) == v
    ensures var b := Le32(v); v == b[0] as int + 0x100 * b[1] as int + 0x1_0000 * b[2] as int + 0x100_0000 * b[3] as int
  {
    ByteByByte(v);
  }

  lemma FromLe32RoundTrip(b: bytes)
    requires |b| == 4
    ensures Le32(FromLe32(b)) == b
  {
    var v := FromLe32(b);
    var h2 := b[2] as int + 256 * (b[3] as int);
    var h1 := b[1] as int + 256 * h2;
    ByteByByte(v);
    LowByte(b[0], h1);
    LowByte(b[1], h2);
    LowByte(b[2], b[3]);
  }

  class Reader {
    const data: bytes
    var pos: nat

    ghost predicate Valid()
      reads this
    {
      pos <= |data|
    }

    /** What has not been read. */
    function Rest(): bytes
      reads this
      requires Valid()
    {
      data[pos..]
    }

    constructor (data: bytes)
      ensures Valid() && this.data == data && pos == 0
    {
      this.data := data;
      pos := 0;
    }

    method RemainingLength() returns (n: nat)
      requires Valid()
      ensures n == |Rest()|
    {
      n := |data| - pos;
    }

    /** Reads exactly `length` bytes or nothing. */
    method ReadBytes(length: nat) returns (r: Option<bytes>)
      requires Valid()
      modifies this
      ensures Valid()
      ensures r.Some? <==> length <= |old(Rest())|
      ensures r.Some? ==> r.value == old(Rest())[..length] && Rest() == old(Rest())[length..]
      ensures r.None? ==> Rest() == old(Rest())
    {
      if pos + length > |data| {
        return None;
      }
      r := Some(data[pos..pos + length]);
      pos := pos + length;
    }

    method ReadU8() returns (r: Option<byte>)
      requires Valid()
      modifies this
      ensures Valid()
      ensures r.Some? <==> |old(Rest())| >= 1
      ensures r.Some? ==> r.value == old(Rest())[0] && Rest() == old(Rest())[1..]
      ensures r.None? ==> Rest() == old(Rest())
    {
      if pos + 1 > |data| {
        return None;
      }
      r := Some(data[pos]);
      pos := pos + 1;
    }

    method ReadU32() returns (r: Option<nat>)
      requires Valid()
      modifies this
      ensures Valid()
      ensures r.Some? <==> |old(Rest())| >= 4
      ensures r.Some? ==> r.value == FromLe32(old(Rest())[..4]) && Rest() == old(Rest())[4..]
      ensures r.None? ==> Rest() == old(Rest())
    {
      if pos + 4 > |data| {
        return None;
      }
      r := Some(FromLe32(data[pos..pos + 4]));
      pos := pos + 4;
    }
  }

  class Writer {
    const buf: array<byte>
    var pos: nat

    ghost predicate Valid()
      reads this
    {
      pos <= buf.Length
    }

    ghost function Written(): bytes
      reads this, buf
      requires Valid()
    {
      buf[..pos]
    }

    constructor (buf: array<byte>)
      ensures Valid() && this.buf == buf && Written() == []
    {
      this.buf := buf;
      pos := 0;
    }

    /** Writes the first `length` bytes of the source, or nothing when the source or the space left is
        too short. */
    method WriteBuffer(source: bytes, length: nat) returns (ok: bool)
      requires Valid()
      modifies this`pos, buf
      ensures Valid()
      ensures ok <==> length <= |source| && length <= buf.Length - |old(Written())|
      ensures ok ==> Written() == old(Written()) + source[..length]
      ensures !ok ==> Written() == old(Written())
    {
      if length > |source| || length > buf.Length - pos {
        return false;
      }
      ghost var before := Written();
      forall i | 0 <= i < length {
        buf[pos + i] := source[i];
      }
      pos := pos + length;
      assert Written() == before + source[..length];
      ok := true;
    }

    method WriteU8(v: byte) returns (ok: bool)
      requires Valid()
      modifies this`pos, buf
      ensures Valid()
      ensures ok <==> 1 <= buf.Length - |old(Written())|
      ensures ok ==> Written() == old(Written()) + [v]
      ensures !ok ==> Written() == old(Written())
    {
      ok := WriteBuffer([v], 1);
    }

    method WriteU32(v: nat) returns (ok: bool)
      requires Valid() && v < U32
      modifies this`pos, buf
      ensures Valid()
      ensures ok <==> 4 <= buf.Length - |old(Written())|
      ensures ok ==> Written() == old(Written()) + Le32(v)
      ensures !ok ==> Written() == old(Written())
    {
      ok := WriteBuffer(Le32(v), 4);
    }
  }
}
