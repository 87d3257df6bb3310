/** Collecting a line program's records as lines that the assignment pass accepts. */
module DwarfLines {
  import opened Addresses
  import opened LineCoverage
  import opened LineSweep

  /** One non-empty record of a line program. */
  datatype LineRecord = LineRecord(address: Address, length: Address, file: int, number: int) {
    /** The bytes the record covers, up to the end of the address space at most. */
    predicate HasByte(b: int) {
      address <= b < address + length && b < ADDRESS_SPACE
    }

    /** Where the record ends, as a 64-bit address. */
    function End(): Address {
      if ADDRESS_SPACE <= address + length then 0 else address + length
    }
  }

  /** The last record belongs to a dropped section: it starts at address zero, or
      right where a dropped record just before it ends. */
  ghost predicate Dropped(records: seq<LineRecord>)
    requires records != []
  {
    var n := |records| - 1;
    records[n].address == 0 || (n > 0 && Dropped(records[..n]) && records[n].address == records[n - 1].End())
  }

  /** The record at `m` starts at address zero, and each one behind it where the one before
      it ends. */
  ghost predicate ChainFrom(records: seq<LineRecord>, m: nat) {
    && m < |records| && records[m].address == 0
    && forall k | m < k < |records| :: records[k].address == records[k - 1].address + records[k - 1].length
  }

  /** Exactly the records in such a chain are dropped. */
  lemma {:induction false} DroppedIffChained(records: seq<LineRecord>)
    requires records != []
    ensures Dropped(records) <==> exists m :: ChainFrom(records, m)
    decreases |records|
  {
    var n := |records| - 1;
    if records[n].address == 0 {
      assert ChainFrom(records, n);
    } else if n > 0 {
      DroppedIffChained(records[..n]);
      if Dropped(records) {
        var m :| ChainFrom(records[..n], m);
        ChainNext(records, m);
      }
      if m :| ChainFrom(records, m) {
        ChainNext(records, m);
      }
    }
  }

  lemma ChainNext(records: seq<LineRecord>, m: nat)
    requires |records| > 1 && m < |records| - 1
    ensures var n := |records| - 1;
            ChainFrom(records, m) <==>
            ChainFrom(records[..n], m) && records[n].address == records[n - 1].address + records[n - 1].length
  {
    var n := |records| - 1;
    assert forall k | 0 <= k < n :: records[..n][k] == records[k];
  }

  /** The line is the record, clipped to the address space. */
  ghost predicate Renders(l: Line, r: LineRecord) {
    && l.extent.Proper() && (forall b :: l.extent.Covers(b) <==> r.HasByte(b))
    && l.file == r.file && l.number == r.number
  }

  /** Each line renders one of the records that are not dropped and name a file,
      in order and without omission. */
  ghost predicate Collects(lines: seq<Line>, records: seq<LineRecord>, files: set<int>)
    decreases |records|
  {
    if records == [] then lines == []
    else
      var n := |records| - 1;
      if Dropped(records) || records[n].file !in files then Collects(lines, records[..n], files)
      else lines != [] && Renders(lines[|lines| - 1], records[n]) && Collects(lines[..|lines| - 1], records[..n], files)
  }

  /** The collected lines meet what the assignment pass requires of lines. */
  lemma {:induction false} CollectedProper(lines: seq<Line>, records: seq<LineRecord>, files: set<int>)
    requires Collects(lines, records, files)
    ensures forall l | l in lines :: l.extent.Proper()
    decreases |records|
  {
    if records != [] {
      var n := |records| - 1;
      if Dropped(records) || records[n].file !in files {
        CollectedProper(lines, records[..n], files);
      } else {
        CollectedProper(lines[..|lines| - 1], records[..n], files);
        assert lines == lines[..|lines| - 1] + [lines[|lines| - 1]];
      }
    }
  }

  class DwarfLineToModule {
    const files: set<int>
    var lines: seq<Line>
    var omittedLineEnd: Address
    var warnedBadFileNumber: bool
    ghost var records: seq<LineRecord>

    ghost predicate Valid()
      reads this
    {
      && Collects(lines, records, files)
      && omittedLineEnd == if records != [] && Dropped(records) then records[|records| - 1].End() else 0
    }

    constructor (files: set<int>)
      ensures Valid() && records == [] && lines == [] && this.files == files
    {
      this.files := files;
      lines, omittedLineEnd, warnedBadFileNumber, records := [], 0, false, [];
    }

    /** Adds one record's line, clipped to the address space, unless it is empty,
        belongs to a dropped section or names no file. */
    method AddLine(address: Address, length: Address, file: int, number: int)
      requires Valid()
      modifies this
      ensures Valid()
      ensures records == old(records) + if length == 0 then [] else [LineRecord(address, length, file, number)]
      ensures length == 0 || file !in files || (exists m :: ChainFrom(records, m)) ==> lines == old(lines)
      ensures length != 0 && file in files && !(exists m :: ChainFrom(records, m)) ==>
                var size := if address + length <= ADDRESS_SPACE then length else ADDRESS_SPACE - address;
                lines == old(lines) + [Line(Extent(address, size), file, number)]
    {
      if length == 0 {
        return;
      }
      ghost var record := LineRecord(address, length, file, number);
      ghost var before := records;
      records := records + [record];
      assert records[..|records| - 1] == before;
      DroppedIffChained(records);
      var clipped := Clip(address, length, record);
      if address == 0 || address == omittedLineEnd {
        omittedLineEnd := (address + clipped) % ADDRESS_SPACE;
        return;
      }
      omittedLineEnd := 0;
      if file !in files {
        warnedBadFileNumber := true;
        return;
      }
      CollectsOne(lines, Line(Extent(address, clipped), file, number), records, files);
      lines := lines + [Line(Extent(address, clipped), file, number)];
    }
  }

  lemma CollectsOne(lines: seq<Line>, l: Line, records: seq<LineRecord>, files: set<int>)
    requires records != [] && Collects(lines, records[..|records| - 1], files) && Renders(l, records[|records| - 1])
    requires !Dropped(records) && records[|records| - 1].file in files
    ensures Collects(lines + [l], records, files)
  {
    assert (lines + [l])[..|lines|] == lines;
  }

  /** The length up to the end of the address space at most. */
  method Clip(address: Address, length: Address, ghost record: LineRecord) returns (clipped: Address)
    requires length != 0 && record.address == address && record.length == length
    ensures clipped == if address + length <= ADDRESS_SPACE then length else ADDRESS_SPACE - address
    ensures (address + clipped) % ADDRESS_SPACE == record.End()
    ensures Renders(Line(Extent(address, clipped), record.file, record.number), record)
  {
    Wraps(address, length);
    clipped := length;
    if (address + length) % ADDRESS_SPACE < address {
      clipped := (0 - address) % ADDRESS_SPACE;
    }
  }

  lemma Wraps(address: Address, length: Address)
    requires length != 0
    ensures (address + length) % ADDRESS_SPACE < address <==> ADDRESS_SPACE <= address + length
    ensures ADDRESS_SPACE <= address + length ==> (0 - address) % ADDRESS_SPACE == ADDRESS_SPACE - address
  {
    if ADDRESS_SPACE <= address + length {
      assert (address + length) % ADDRESS_SPACE == address + length - ADDRESS_SPACE;
      assert (0 - address) % ADDRESS_SPACE == ADDRESS_SPACE - address;
    }
  }
}
