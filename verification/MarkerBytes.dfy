// The bytes of marker segments: written to a growing buffer, read from a source of which a part has arrived.
module MarkerBytes {
  import opened Numbers

  // A two-byte integer, most significant byte first.
  function Word(high: Byte, low: Byte): (v: nat)
    ensures v < 0x10000
  {
    var h: nat := high;
    0x100 * h + low
  }

  // The two halves of a byte.
  function High(b: Byte): (h: nat)
    ensures h < 0x10
  {
    b / 0x10
  }

  function Low(b: Byte): (l: nat)
    ensures l < 0x10
  {
    b % 0x10
  }

  function Both(high: nat, low: nat): (b: Byte)
    requires high < 0x10 && low < 0x10
    ensures High(b) == high && Low(b) == low
  {
    0x10 * high + low
  }

  function Two(v: nat): (b: seq<Byte>)
    requires v < 0x10000
    ensures |b| == 2 && Word(b[0], b[1]) == v
  {
    [v / 0x100, v % 0x100]
  }

  class MarkerWriter {
    var out: seq<Byte>

    constructor ()
      ensures out == []
    {
      out := [];
    }

    // emit_byte: the value is cut to a byte.
    method EmitByte(val: nat)
      modifies this
      ensures out == old(out) + [val % 0x100]
    {
      out := out + [val % 0x100];
    }

    method EmitMarker(mark: Byte)
      modifies this
      ensures out == old(out) + [0xFF, mark]
    {
      EmitByte(0xFF);
      EmitByte(mark);
    }

    method Emit2Bytes(value: nat)
      requires value < 0x10000
      modifies this
      ensures out == old(out) + Two(value)
    {
      EmitByte(value / 0x100 % 0x100);
      EmitByte(value % 0x100);
    }

    method EmitBytes(bytes: seq<Byte>)
      modifies this
      ensures out == old(out) + bytes
    {
      var i := 0;
      while i < |bytes|
        invariant 0 <= i <= |bytes| && out == old(out) + bytes[..i]
      {
        EmitByte(bytes[i]);
        assert bytes[..i] + [bytes[i]] == bytes[..i + 1];
        i := i + 1;
      }
      assert bytes[..i] == bytes;
    }
  }

  // What a marker routine reports: done, out of bytes for now, or an error.
  datatype Got = Done | Suspended | Failed

  // The source; pos is the restart point, which moves only when a whole segment has been read.
  class MarkerSource {
    const data: seq<Byte>
    var pos: nat
    var avail: nat

    constructor (data: seq<Byte>, avail: nat)
      requires avail <= |data|
      ensures Valid() && this.data == data && pos == 0 && this.avail == avail
    {
      this.data, pos, this.avail := data, 0, avail;
    }

    predicate Valid()
      reads this
    {
      pos <= avail <= |data|
    }

    // INPUT_BYTE
    method InputByte(at: nat) returns (ok: bool, b: Byte, next: nat)
      requires Valid() && pos <= at <= avail
      ensures ok <==> at < avail
      ensures if ok then b == data[at] && next == at + 1 else next == at
    {
      ok, b, next := at < avail, 0, at;
      if ok { b, next := data[at], at + 1; }
    }

    // INPUT_2BYTES
    method Input2Bytes(at: nat) returns (ok: bool, v: nat, next: nat)
      requires Valid() && pos <= at <= avail
      ensures ok <==> at + 1 < avail
      ensures v < 0x10000 && (ok ==> v == Word(data[at], data[at + 1]) && next == at + 2)
    {
      var b, c;
      v := 0;
      ok, b, next := InputByte(at);
      if ok {
        ok, c, next := InputByte(next);
        v := Word(b, c);
      }
    }

    // n bytes in a row.
    method InputBytes(at: nat, n: nat) returns (ok: bool, bytes: seq<Byte>, next: nat)
      requires Valid() && pos <= at <= avail
      ensures ok <==> at + n <= avail
      ensures ok ==> bytes == data[at..at + n] && next == at + n
    {
      bytes, next, ok := [], at, true;
      while |bytes| < n
        invariant ok && |bytes| <= n && next == at + |bytes| <= avail && bytes == data[at..next]
      {
        var b;
        ok, b, next := InputByte(next);
        if !ok {
          return;
        }
        bytes := bytes + [b];
      }
    }

    // These are the bytes from here to the end of the segment.
    ghost predicate Ahead(at: nat, end: nat, rest: seq<Byte>) {
      at + |rest| == end <= |data| && data[at..end] == rest
    }

    lemma AheadPart(at: nat, end: nat, a: seq<Byte>, b: seq<Byte>)
      requires Ahead(at, end, a + b)
      ensures data[at..at + |a|] == a && Ahead(at + |a|, end, b)
    {
      assert data[at..end][..|a|] == a && data[at..end][|a|..] == b;
    }
  }

  // What is sent moves on by one part.
  lemma MovesOn(before: seq<Byte>, sent: seq<Byte>, part: seq<Byte>, rest: seq<Byte>)
    ensures before + sent + part == before + (sent + part) && sent + (part + rest) == sent + part + rest
  {
  }
}
