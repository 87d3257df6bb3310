/** byte_cursor.h: numbers of a given width from a buffer that may end too early. */
module ByteCursors {
  type Byte = b: int | 0 <= b < 256 witness 0

  /** The first byte weighs least. */
  function LittleEndian(bytes: seq<Byte>): nat {
    if bytes == [] then 0 else bytes[0] + 256 * LittleEndian(bytes[1..])
  }

  /** The last byte weighs least. */
  function BigEndian(bytes: seq<Byte>): nat {
    if bytes == [] then 0 else 256 * BigEndian(bytes[..|bytes| - 1]) + bytes[|bytes| - 1]
  }

  function Number(bigEndian: bool, bytes: seq<Byte>): nat {
    if bigEndian then BigEndian(bytes) else LittleEndian(bytes)
  }

  function Capacity(size: nat): nat {
    if size == 0 then 1 else 256 * Capacity(size - 1)
  }

  lemma {:induction false} NumberFits(bigEndian: bool, bytes: seq<Byte>)
    ensures Number(bigEndian, bytes) < Capacity(|bytes|)
    decreases |bytes|
  {
    if bytes != [] {
      NumberFits(bigEndian, if bigEndian then bytes[..|bytes| - 1] else bytes[1..]);
    }
  }

  /** Two and four digits to the base 256, the heaviest first. */
  function Two(a: int, b: int): int {
    0x100 * a + b
  }

  function Four(a: int, b: int, c: int, d: int): int {
    0x100_0000 * a + 0x1_0000 * b + 0x100 * c + d
  }

  lemma NumberOfOne(b: Byte)
    ensures Number(true, [b]) == b && Number(false, [b]) == b
  {
    assert [b][1..] == [] && [b][..0] == [];
    assert LittleEndian([b]) == b && BigEndian([b]) == b;
  }

  lemma NumberOfTwo(a: Byte, b: Byte)
    ensures Number(true, [a, b]) == Two(a, b) && Number(false, [a, b]) == Two(b, a)
  {
    NumberOfOne(a);
    NumberOfOne(b);
    assert [a, b][1..] == [b] && [a, b][..1] == [a];
  }

  lemma NumberOfFour(a: Byte, b: Byte, c: Byte, d: Byte)
    ensures Number(true, [a, b, c, d]) == Four(a, b, c, d) && Number(false, [a, b, c, d]) == Four(d, c, b, a)
  {
    NumberOfTwo(a, b);
    NumberOfTwo(c, d);
    assert [a, b, c, d][..3] == [a, b, c] && [a, b, c][..2] == [a, b];
    assert [a, b, c, d][1..] == [b, c, d] && [b, c, d][1..] == [c, d];
    assert LittleEndian([b, c, d]) == b + 0x100 * LittleEndian([c, d]);
    assert BigEndian([a, b, c]) == 0x100 * BigEndian([a, b]) + c;
  }

  lemma BigEndianNext(buffer: seq<Byte>, from: nat, to: nat)
    requires from <= to < |buffer|
    ensures BigEndian(buffer[from..to + 1]) == 256 * BigEndian(buffer[from..to]) + buffer[to]
  {
    assert buffer[from..to + 1][..to - from] == buffer[from..to];
  }

  lemma LittleEndianNext(buffer: seq<Byte>, from: nat, to: nat)
    requires from < to <= |buffer|
    ensures LittleEndian(buffer[from..to]) == buffer[from] + 256 * LittleEndian(buffer[from + 1..to])
  {
    assert buffer[from..to][1..] == buffer[from + 1..to];
  }

  /** What a read that runs off the end of the buffer answers. */
  const DUMMY: nat := 0xdeadbeef

  class ByteCursor {
    const buffer: seq<Byte>
    const bigEndian: bool
    var here: nat
    var complete: bool

    predicate Valid()
      reads this
    {
      here <= |buffer|
    }

    constructor (buffer: seq<Byte>, bigEndian: bool)
      ensures this.buffer == buffer && this.bigEndian == bigEndian && here == 0 && complete && Valid()
    {
      this.buffer, this.bigEndian, here, complete := buffer, bigEndian, 0, true;
    }

    method CheckAvailable(size: nat) returns (available: bool)
      requires Valid()
      modifies this
      ensures Valid() && (available <==> old(here) + size <= |buffer|)
      ensures here == if available then old(here) else |buffer|
      ensures complete == (old(complete) && available)
    {
      if |buffer| - here >= size {
        return true;
      } else {
        here := |buffer|;
        complete := false;
        return false;
      }
    }

    /** An unsigned number of this many bytes. */
    method Read(size: nat) returns (result: nat)
      requires Valid()
      modifies this
      ensures Valid()
      ensures if old(here) + size <= |buffer| then
                && here == old(here) + size && complete == old(complete)
                && result == Number(bigEndian, buffer[old(here)..here])
              else here == |buffer| && !complete && result == 0xdeadbeef
    {
      var available := CheckAvailable(size);
      if available {
        var v: nat, from := 0, here;
        if bigEndian {
          for i := 0 to size
            invariant here == from && complete == old(complete)
            invariant v == BigEndian(buffer[from..from + i])
          {
            BigEndianNext(buffer, from, from + i);
            v := 256 * v + buffer[from + i];
          }
        } else {
          var i := size;
          while i > 0
            invariant 0 <= i <= size
            invariant here == from && complete == old(complete)
            invariant v == LittleEndian(buffer[from + i..from + size])
          {
            i := i - 1;
            LittleEndianNext(buffer, from + i, from + size);
            v := 256 * v + buffer[from + i];
          }
        }
        here := here + size;
        return v;
      } else {
        return DUMMY;
      }
    }
  }
}
