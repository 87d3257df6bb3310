/** The .stab section as entries, and the iterator that walks it. */
module StabsEntries {
  import opened ByteCursors

  datatype Entry = Entry(nameOffset: nat, kind: int, other: int, descriptor: int, value: nat)

  predicate IsValueSize(valueSize: nat) {
    valueSize == 4 || valueSize == 8
  }

  /** The layout of a section: how wide entries' values are, and in what order bytes come. */
  datatype Layout = Layout(valueSize: nat, bigEndian: bool) {
    predicate Valid() {
      IsValueSize(valueSize)
    }

    function Size(): nat {
      8 + valueSize
    }

    /** The 16-bit field as the signed number it is stored in. */
    function AsShort(n: nat): int {
      if n < 0x8000 then n else n - 0x10000
    }

    /** The entry whose bytes start here. */
    function EntryAt(bytes: seq<Byte>, at: nat): Entry
      requires at + Size() <= |bytes|
    {
      Entry(Number(bigEndian, bytes[at..at + 4]),
            Number(bigEndian, bytes[at + 4..at + 5]),
            Number(bigEndian, bytes[at + 5..at + 6]),
            AsShort(Number(bigEndian, bytes[at + 6..at + 8])),
            Number(bigEndian, bytes[at + 8..at + 8 + valueSize]))
    }

    /** The complete entries from here on. */
    function EntriesFrom(bytes: seq<Byte>, at: nat): seq<Entry>
      requires at <= |bytes|
      decreases |bytes| - at
    {
      if at + Size() > |bytes| then [] else [EntryAt(bytes, at)] + EntriesFrom(bytes, at + Size())
    }
  }

  lemma ShortOf(layout: Layout, n: nat)
    requires n < 0x1_0000
    ensures -0x8000 <= layout.AsShort(n) < 0x8000 && layout.AsShort(n) % 0x1_0000 == n
  {
  }

  /** The fields of an entry by their places: four bytes of name, one of type, one of no use,
      two of descriptor, and the value. */
  lemma FieldsOfEntry(b: seq<Byte>)
    requires |b| == 12
    ensures var e := Layout(4, true).EntryAt(b, 0);
            && e.nameOffset == Four(b[0], b[1], b[2], b[3]) && e.kind == b[4] && e.other == b[5]
            && -0x8000 <= e.descriptor < 0x8000 && e.descriptor % 0x1_0000 == Two(b[6], b[7])
            && e.value == Four(b[8], b[9], b[10], b[11])
  {
    assert b[0..4] == [b[0], b[1], b[2], b[3]] && b[8..12] == [b[8], b[9], b[10], b[11]];
    assert b[6..8] == [b[6], b[7]] && b[4..5] == [b[4]] && b[5..6] == [b[5]];
    NumberOfFour(b[0], b[1], b[2], b[3]);
    NumberOfFour(b[8], b[9], b[10], b[11]);
    NumberOfTwo(b[6], b[7]);
    ShortOf(Layout(4, true), Two(b[6], b[7]));
    NumberOfOne(b[4]);
    NumberOfOne(b[5]);
  }

  /** The same bytes the other way round, and eight bytes of value. */
  lemma FieldsOfWideEntry(b: seq<Byte>)
    requires |b| == 16
    ensures Layout(8, false).Size() == 16 && Layout(4, false).Size() == 12
    ensures var e := Layout(8, false).EntryAt(b, 0);
            && e.nameOffset == Four(b[3], b[2], b[1], b[0]) && e.kind == b[4] && e.other == b[5]
            && -0x8000 <= e.descriptor < 0x8000 && e.descriptor % 0x1_0000 == Two(b[7], b[6])
            && e.value == Number(false, b[8..16])
  {
    assert b[0..4] == [b[0], b[1], b[2], b[3]];
    assert b[6..8] == [b[6], b[7]] && b[4..5] == [b[4]] && b[5..6] == [b[5]];
    NumberOfFour(b[0], b[1], b[2], b[3]);
    NumberOfTwo(b[6], b[7]);
    ShortOf(Layout(8, false), Two(b[7], b[6]));
    NumberOfOne(b[4]);
    NumberOfOne(b[5]);
  }

  /** There are as many entries as fit. */
  lemma {:induction false} EntryCount(layout: Layout, bytes: seq<Byte>, at: nat)
    requires layout.Valid() && at <= |bytes|
    ensures |layout.EntriesFrom(bytes, at)| == (|bytes| - at) / layout.Size()
    decreases |bytes| - at
  {
    OneMore(|bytes| - at, layout.Size());
    if at + layout.Size() <= |bytes| {
      EntryCount(layout, bytes, at + layout.Size());
    }
  }

  lemma OneMore(n: nat, size: nat)
    requires size == 12 || size == 16
    ensures if n < size then n / size == 0 else n / size == (n - size) / size + 1
  {
    if size == 12 {
      assert n >= 12 ==> n / 12 == (n - 12) / 12 + 1;
    }
  }

  /** Each stands at its multiple of the size. */
  lemma {:induction false} EntryPlaces(layout: Layout, bytes: seq<Byte>, at: nat, k: nat)
    requires layout.Valid() && at <= |bytes| && k < |layout.EntriesFrom(bytes, at)|
    ensures at + layout.Size() * (k + 1) <= |bytes|
    ensures layout.EntriesFrom(bytes, at)[k] == layout.EntryAt(bytes, at + layout.Size() * k)
    decreases k
  {
    NextPlace(at, layout.Size(), k);
    if k > 0 {
      EntryPlaces(layout, bytes, at + layout.Size(), k - 1);
    }
  }

  lemma NextPlace(at: nat, size: nat, k: nat)
    ensures at + size + size * (k - 1) == at + size * k
    ensures at + size + size * k == at + size * (k + 1)
  {
  }

  class EntryIterator {
    const layout: Layout
    const cursor: ByteCursor
    ghost const entries: seq<Entry>
    var entry: Entry
    var atEnd: bool
    var index: nat

    /** The iterator is at the entry of its index, or past the last of them. */
    ghost predicate Valid()
      reads this, cursor
    {
      && layout.Valid() && cursor.Valid() && layout.bigEndian == cursor.bigEndian
      && entries == layout.EntriesFrom(cursor.buffer, 0)
      && cursor.complete == !atEnd
      && index <= |entries|
      && (if atEnd then index == |entries|
          else entries[index..] == [entry] + layout.EntriesFrom(cursor.buffer, cursor.here))
    }

    lemma Current()
      requires Valid()
      ensures atEnd <==> index == |entries|
      ensures !atEnd ==> entry == entries[index]
    {
      if !atEnd {
        assert entries[index] == entries[index..][0];
      }
    }

    constructor (bytes: seq<Byte>, bigEndian: bool, valueSize: nat)
      requires IsValueSize(valueSize)
      ensures Valid() && fresh(cursor) && index == 0
      ensures layout == Layout(valueSize, bigEndian) && entries == layout.EntriesFrom(bytes, 0)
    {
      layout := Layout(valueSize, bigEndian);
      cursor := new ByteCursor(bytes, bigEndian);
      entries := Layout(valueSize, bigEndian).EntriesFrom(bytes, 0);
      entry, atEnd, index := Entry(0, 0, 0, 0, 0), false, 0;
      new;
      Fetch();
      assert entries[0..] == entries;
    }

    /** Read the entry at the cursor; a section that ends within it has ended. */
    method Fetch()
      requires layout.Valid() && cursor.Valid() && layout.bigEndian == cursor.bigEndian && cursor.complete
      modifies this`entry, this`atEnd, cursor
      ensures cursor.Valid() && cursor.complete == !atEnd
      ensures if old(cursor.here) + layout.Size() > |cursor.buffer| then atEnd
              else
                && !atEnd && entry == layout.EntryAt(cursor.buffer, old(cursor.here))
                && cursor.here == old(cursor.here) + layout.Size()
    {
      var nameOffset := cursor.Read(4);
      var kind := cursor.Read(1);
      var other := cursor.Read(1);
      var descriptor := cursor.Read(2);
      var value := cursor.Read(layout.valueSize);
      entry := Entry(nameOffset, kind, other, layout.AsShort(descriptor), value);
      atEnd := !cursor.complete;
    }

    /** operator++ */
    method Advance()
      requires Valid() && !atEnd
      modifies this`entry, this`atEnd, this`index, cursor
      ensures Valid() && index == old(index) + 1
    {
      ghost var here := cursor.here;
      assert entries[index + 1..] == entries[index..][1..] == layout.EntriesFrom(cursor.buffer, here);
      Fetch();
      index := index + 1;
    }
  }
}
