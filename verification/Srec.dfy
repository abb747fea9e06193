/** The Motorola S-record reader (runtime/src/load/mod.rs) against a printer for the records
    of Appendix C of the M68000 Family Programmer's Reference Manual. */
module Srec {
  import opened Common
  import opened Hex
  import opened TextLines
  import opened Checksums
  import opened Flash

  /** A record is its type digit and its encoded bytes: count, address, data, checksum. */
  datatype Line = Line(recordType: char, bytes: seq<Byte>)

  function AddressLength(recordType: char): Option<nat> {
    match recordType
    case '0' => Some(2)
    case '1' => Some(2)
    case '2' => Some(3)
    case '3' => Some(4)
    case '5' => Some(2)
    case '6' => Some(3)
    case '7' => Some(4)
    case '8' => Some(3)
    case '9' => Some(2)
    case _ => None
  }

  predicate CarriesData(recordType: char) {
    recordType == '1' || recordType == '2' || recordType == '3'
  }

  /** Most significant byte first. */
  function Number(bytes: seq<Byte>): nat
    decreases |bytes|
  {
    if bytes == [] then 0 else 256 * Number(bytes[..|bytes| - 1]) + bytes[|bytes| - 1]
  }

  /** The type and bytes of a trimmed, non-empty line. */
  function Encoded(line: string): Option<Line> {
    if |line| < 4 || line[0] != 'S' then None
    else if |line[2..]| % 2 != 0 then None
    else
      match HexBytes(line[2..])
      case None => None
      case Some(bytes) => Some(Line(line[1], bytes))
  }

  predicate Accepted(l: Line) {
    && l.bytes != [] && l.bytes[0] == |l.bytes| - 1
    && WrappingSum(l.bytes) == 0xFF
    && AddressLength(l.recordType).Some?
    && |l.bytes| >= AddressLength(l.recordType).value + 2
  }

  /** What an accepted record writes. */
  function Payload(l: Line): Option<Region>
    requires Accepted(l)
  {
    if !CarriesData(l.recordType) then None
    else
      var n := AddressLength(l.recordType).value;
      Some(Region(Number(l.bytes[1..1 + n]), l.bytes[1 + n..|l.bytes| - 1]))
  }

  // ----- running

  datatype Next = Go(image: Image) | Fail(error: FlashError)

  function Step(l: Line, image: Image, lineNo: nat): Next {
    if !Accepted(l) then Fail(BadRecord(lineNo))
    else
      match Payload(l)
      case None => Go(image)
      case Some(r) => if InRange(r.base, |r.data|) then Go(Over(image, r)) else Fail(AddressOverflow(r.base, |r.data|))
  }

  /** What a file of lines does from line `i` on. There is no end record: S7, S8 and S9 are
      checked and passed over. */
  function Run(lines: seq<string>, i: nat, image: Image): Result<Image, FlashError>
    requires i <= |lines|
    decreases |lines| - i
  {
    if i == |lines| then Ok(image)
    else
      var line := Trim(lines[i]);
      if line == [] then Run(lines, i + 1, image)
      else
        match Encoded(line)
        case None => Err(BadRecord(i + 1))
        case Some(l) =>
          match Step(l, image, i + 1)
          case Go(next) => Run(lines, i + 1, next)
          case Fail(error) => Err(error)
  }

  method ReadNumber(bytes: seq<Byte>) returns (addr: nat)
    requires |bytes| <= 4
    ensures addr == Number(bytes) <= U32_MAX
  {
    addr := 0;
    var i := 0;
    while i < |bytes|
      invariant i <= |bytes| && addr == Number(bytes[..i])
      invariant addr < if i == 0 then 1 else if i == 1 then 0x100 else if i == 2 then 0x1_0000
                       else if i == 3 then 0x100_0000 else 0x1_0000_0000
    {
      assert bytes[..i + 1][..i] == bytes[..i];
      addr := 256 * addr % 0x1_0000_0000 + bytes[i];
      i := i + 1;
    }
    assert bytes[..i] == bytes;
  }

  /** The checks of one trimmed, non-empty line. */
  method ReadLine(line: string, lineNo: nat) returns (r: Result<Line, FlashError>)
    requires line != []
    ensures r.Ok? <==> Encoded(line).Some? && Accepted(Encoded(line).value)
    ensures r.Ok? ==> Encoded(line) == Some(r.value)
    ensures r.Err? ==> r.error == BadRecord(lineNo)
  {
    hide WrappingSum, HexBytes, AddressLength;
    if line[0] != 'S' || |line| < 4 {
      return Err(BadRecord(lineNo));
    }
    var recordType := line[1];
    var rest := line[2..];
    if |rest| % 2 != 0 {
      return Err(BadRecord(lineNo));
    }
    var decoded := HexBytes(rest);
    if decoded.None? {
      return Err(BadRecord(lineNo));
    }
    var bytes := decoded.value;
    if bytes == [] || bytes[0] != |bytes| - 1 || WrappingSum(bytes) != 0xFF {
      return Err(BadRecord(lineNo));
    }
    var addrLen := AddressLength(recordType);
    if addrLen.None? || |bytes| < addrLen.value + 2 {
      return Err(BadRecord(lineNo));
    }
    r := Ok(Line(recordType, bytes));
  }

  /** The address and data of an accepted record, if it carries any. */
  method ReadPayload(l: Line) returns (r: Option<Region>)
    requires Accepted(l)
    ensures r == Payload(l)
  {
    if !CarriesData(l.recordType) {
      return None;
    }
    var addrLen := AddressLength(l.recordType).value;
    var addr := ReadNumber(l.bytes[1..1 + addrLen]);
    r := Some(Region(addr, l.bytes[1 + addrLen..|l.bytes| - 1]));
  }

  lemma RunUnfolds(lines: seq<string>, i: nat, image: Image)
    requires i < |lines|
    ensures Run(lines, i, image) ==
            if Trim(lines[i]) == [] then Run(lines, i + 1, image)
            else match Encoded(Trim(lines[i]))
                 case None => Err(BadRecord(i + 1))
                 case Some(l) =>
                   match Step(l, image, i + 1)
                   case Go(next) => Run(lines, i + 1, next)
                   case Fail(error) => Err(error)
  {
  }

  method ParseSrec(content: string) returns (r: Result<seq<Region>, FlashError>)
    ensures var image := Run(Lines(content), 0, map[]);
            match r
            case Err(error) => image == Err(error)
            case Ok(regions) => image.Ok? && Canonical(regions) && Denotes(regions, image.value)
  {
    hide Canonical, Denotes, Over, Trim, Lines, Encoded, Accepted, Payload, Run;
    var lines := Lines(content);
    var memory := new FlashMemory();
    var i := 0;
    while i < |lines|
      invariant i <= |lines| && memory.Valid()
      invariant Run(lines, 0, map[]) == Run(lines, i, memory.bytes)
    {
      RunUnfolds(lines, i, memory.bytes);
      var line := Trim(lines[i]);
      if line != [] {
        var record := ReadLine(line, i + 1);
        if record.Err? {
          return Err(record.error);
        }
        var region := ReadPayload(record.value);
        if region.Some? {
          var written := memory.Write(region.value.base, region.value.data);
          if written.Err? {
            return Err(written.error);
          }
        }
      }
      i := i + 1;
    }
    RunEnds(lines, memory.bytes);
    var regions := memory.IntoRegions();
    r := Ok(regions);
  }

  lemma RunEnds(lines: seq<string>, image: Image)
    ensures Run(lines, |lines|, image) == Ok(image)
  {
  }

  // ----- printing

  /** A record to print: type digit, address and data. */
  datatype Record = Record(recordType: char, address: nat, data: seq<Byte>)

  predicate Printable(r: Record) {
    && '0' <= r.recordType <= '9' && r.recordType != '4'
    && r.address < Capacity(FieldLength(r.recordType)) && FieldLength(r.recordType) + |r.data| + 1 < 256
  }

  /** The bytes of a type's address field in the manual: 16 bits for S0, S1, S5 and S9,
      24 bits for S2, S6 and S8, 32 bits for S3 and S7. */
  function FieldLength(recordType: char): nat {
    if recordType in "0159" then 2 else if recordType in "268" then 3 else 4
  }

  function Capacity(bytes: nat): nat {
    if bytes == 2 then 0x1_0000 else if bytes == 3 then 0x100_0000 else 0x1_0000_0000
  }

  function AddressBytes(address: nat, n: nat): (r: seq<Byte>)
    ensures |r| == n
  {
    if n == 0 then [] else AddressBytes(address / 256, n - 1) + [address % 256]
  }

  function Body(r: Record): seq<Byte>
    requires Printable(r)
  {
    var n := FieldLength(r.recordType);
    [n + |r.data| + 1] + AddressBytes(r.address, n) + r.data
  }

  function ToLine(r: Record): Line
    requires Printable(r)
  {
    Line(r.recordType, Body(r) + [Completing(Body(r), 0xFF)])
  }

  function PrintRecord(r: Record): string
    requires Printable(r)
  {
    ['S', r.recordType] + Printed(ToLine(r).bytes)
  }

  function Written(r: Record): Option<Region> {
    if r.recordType in "123" then Some(Region(r.address, r.data)) else None
  }

  function CapacityOf(n: nat): nat {
    if n == 0 then 1 else 256 * CapacityOf(n - 1)
  }

  lemma {:induction false} AddressRoundTrip(address: nat, n: nat)
    requires address < CapacityOf(n)
    ensures Number(AddressBytes(address, n)) == address
    decreases n
  {
    if n > 0 {
      AddressRoundTrip(address / 256, n - 1);
      assert AddressBytes(address, n)[..n - 1] == AddressBytes(address / 256, n - 1);
    }
  }

  lemma KnownTypes(t: char)
    requires '0' <= t <= '9' && t != '4'
    ensures AddressLength(t) == Some(FieldLength(t)) && 2 <= FieldLength(t) <= 4
    ensures CarriesData(t) <==> t in "123"
  {
    assert t in "012356789";
  }

  /** A printed record is accepted and means the bytes it was printed from. */
  lemma LineRoundTrip(r: Record)
    requires Printable(r)
    ensures Accepted(ToLine(r)) && Payload(ToLine(r)) == Written(r)
  {
    CompletedSum(Body(r), 0xFF);
    hide WrappingSum, Completing;
    var n, bytes := FieldLength(r.recordType), ToLine(r).bytes;
    KnownTypes(r.recordType);
    hide FieldLength, AddressLength, CarriesData;
    assert bytes[1..1 + n] == AddressBytes(r.address, n);
    assert bytes[1 + n..|bytes| - 1] == r.data;
    assert CapacityOf(4) == 0x1_0000_0000 && CapacityOf(3) == 0x100_0000 && CapacityOf(2) == 0x1_0000;
    AddressRoundTrip(r.address, n);
  }

  lemma RecordRoundTrip(r: Record)
    requires Printable(r)
    ensures Encoded(PrintRecord(r)) == Some(ToLine(r))
    ensures Trim(PrintRecord(r)) == PrintRecord(r) != [] && '\n' !in PrintRecord(r)
  {
    var bytes := ToLine(r).bytes;
    hide ToLine, Trim, HexBytes, Printed;
    SolidRecord(['S', r.recordType], bytes);
    PrintedReads(bytes);
  }

  function PrintAll(records: seq<Record>): seq<string>
    requires forall i :: 0 <= i < |records| ==> Printable(records[i])
  {
    seq(|records|, i requires 0 <= i < |records| => PrintRecord(records[i]))
  }

  /** The regions that records write, in order. */
  function Writes(records: seq<Record>): seq<Region> {
    if records == [] then []
    else OptionalRegion(Written(records[0])) + Writes(records[1..])
  }

  function OptionalRegion(r: Option<Region>): seq<Region> {
    match r
    case None => []
    case Some(region) => [region]
  }

  lemma StepPaints(r: Record, image: Image, lineNo: nat, rest: Result<Image, FlashError>, later: seq<Region>)
    requires Printable(r)
    ensures match Step(ToLine(r), image, lineNo)
            case Go(next) => Paints(rest, next, later) ==> Paints(rest, image, OptionalRegion(Written(r)) + later)
            case Fail(error) => Paints(Err(error), image, OptionalRegion(Written(r)) + later)
  {
    LineRoundTrip(r);
    hide Accepted, Payload, ToLine, Over;
    if Written(r).Some? {
      PaintsOneMore(rest, image, Written(r).value, later);
    } else {
      assert [] + later == later;
    }
  }

  /** The lines hold these records in order, one a line, indented or not, their digits in
      either case, with carriage returns and blank lines anywhere. */
  ghost predicate Holds(lines: seq<string>, records: seq<Record>)
    requires forall k :: 0 <= k < |records| ==> Printable(records[k])
    decreases |lines|
  {
    if lines == [] then records == []
    else
      || (Blank(lines[0]) && Holds(lines[1..], records))
      || (records != [] && SpelledAs(lines[0], ['S', records[0].recordType], Printed(ToLine(records[0]).bytes))
          && Holds(lines[1..], records[1..]))
  }

  lemma SpelledReads(line: string, r: Record)
    requires Printable(r) && SpelledAs(line, ['S', r.recordType], Printed(ToLine(r).bytes))
    ensures Trim(line) != [] && Encoded(Trim(line)) == Some(ToLine(r))
  {
    assert |ToLine(r).bytes| >= 1;
    hide ToLine, Trim, Printed, HexBytes, SpelledAs;
    var spelled := SpelledTrims(line, ['S', r.recordType], ToLine(r).bytes);
    assert (['S', r.recordType] + spelled)[2..] == spelled;
  }

  lemma {:induction false} RunHolds(lines: seq<string>, i: nat, records: seq<Record>, image: Image)
    requires forall k :: 0 <= k < |records| ==> Printable(records[k])
    requires i <= |lines| && Holds(lines[i..], records)
    ensures Paints(Run(lines, i, image), image, Writes(records))
    decreases |lines| - i
  {
    if i < |lines| {
      assert lines[i..][0] == lines[i] && lines[i..][1..] == lines[i + 1..];
      hide Encoded, Trim, Step, Printable, Blank, SpelledAs, ToLine, Printed, Paints, Written;
      if Blank(lines[i]) && Holds(lines[i + 1..], records) {
        TrimsBlank(lines[i]);
        RunHolds(lines, i + 1, records, image);
      } else {
        var r := records[0];
        SpelledReads(lines[i], r);
        var step := Step(ToLine(r), image, i + 1);
        var next := if step.Go? then step.image else image;
        StepPaints(r, image, i + 1, Run(lines, i + 1, next), Writes(records[1..]));
        if step.Go? {
          RunHolds(lines, i + 1, records[1..], next);
        }
      }
    }
  }

  /** Reading a file that holds these records, however it is laid out, paints exactly the
      data they carry, or fails with the first piece that is out of range. */
  lemma LooseTextPaints(text: string, records: seq<Record>)
    requires forall k :: 0 <= k < |records| ==> Printable(records[k])
    requires Holds(Lines(text), records)
    ensures Paints(Run(Lines(text), 0, map[]), map[], Writes(records))
  {
    assert Lines(text)[0..] == Lines(text);
    RunHolds(Lines(text), 0, records, map[]);
  }

  lemma {:induction false} PrintedHolds(records: seq<Record>)
    requires forall k :: 0 <= k < |records| ==> Printable(records[k])
    ensures Holds(PrintAll(records), records)
  {
    if records != [] {
      PrintedIsSpelled(['S', records[0].recordType], Printed(ToLine(records[0]).bytes));
      assert PrintAll(records)[0] == ['S', records[0].recordType] + Printed(ToLine(records[0]).bytes);
      assert PrintAll(records)[1..] == PrintAll(records[1..]);
      PrintedHolds(records[1..]);
      hide PrintAll, Printed, Printable, SpelledAs, Blank;
    }
  }

  /** So does the text printed for any records. */
  lemma PrintedTextPaints(records: seq<Record>)
    requires forall k :: 0 <= k < |records| ==> Printable(records[k])
    ensures Paints(Run(Lines(Joined(PrintAll(records))), 0, map[]), map[], Writes(records))
  {
    forall i | 0 <= i < |records| ensures '\n' !in PrintAll(records)[i] {
      RecordRoundTrip(records[i]);
    }
    LinesOfJoined(PrintAll(records));
    PrintedHolds(records);
    hide *;
    LooseTextPaints(Joined(PrintAll(records)), records);
  }

  // ----- only printed records are accepted

  lemma {:induction false} NumberRoundTrip(bytes: seq<Byte>)
    ensures Number(bytes) < CapacityOf(|bytes|) && AddressBytes(Number(bytes), |bytes|) == bytes
    decreases |bytes|
  {
    if bytes != [] {
      var front := bytes[..|bytes| - 1];
      NumberRoundTrip(front);
      assert bytes == front + [bytes[|bytes| - 1]];
    }
  }

  lemma TypeIsKnown(t: char)
    ensures AddressLength(t).Some? <==> '0' <= t <= '9' && t != '4'
  {
  }

  /** A record is accepted exactly when it is the printed form of some type, address and
      data. */
  lemma AcceptedIff(l: Line)
    ensures Accepted(l) <==> exists r :: Printable(r) && ToLine(r) == l
  {
    if Accepted(l) {
      var n, front, last := AddressLength(l.recordType).value, l.bytes[..|l.bytes| - 1], l.bytes[|l.bytes| - 1];
      TypeIsKnown(l.recordType);
      KnownTypes(l.recordType);
      var address, data := l.bytes[1..1 + n], l.bytes[1 + n..|l.bytes| - 1];
      NumberRoundTrip(address);
      CompletingIsOne(front, last, 0xFF) by {
        assert l.bytes == front + [last];
      }
      CapacityIs(n);
      hide WrappingSum, Completing, Number, AddressBytes, FieldLength, AddressLength, CapacityOf, Capacity;
      var r := Record(l.recordType, Number(address), data);
      assert Printable(r);
      assert front == [l.bytes[0]] + address + data;
      assert front == Body(r);
      assert ToLine(r) == l;
    }
    forall r | Printable(r) && ToLine(r) == l ensures Accepted(l) {
      LineRoundTrip(r);
    }
  }

  lemma CapacityIs(n: nat)
    requires 2 <= n <= 4
    ensures CapacityOf(n) == Capacity(n)
  {
  }

  // ----- an image printed and read back

  /** The three families of files: S1 records ended by S9, S2 by S8, S3 by S7. */
  datatype Family = S19 | S28 | S37

  function DataType(family: Family): char {
    match family
    case S19 => '1'
    case S28 => '2'
    case S37 => '3'
  }

  function EndType(family: Family): char {
    match family
    case S19 => '9'
    case S28 => '8'
    case S37 => '7'
  }

  function Reach(family: Family): nat {
    Capacity(FieldLength(DataType(family)))
  }

  function DataRecord(family: Family, chunk: Region): Record {
    Record(DataType(family), chunk.base, chunk.data)
  }

  function DataRecords(family: Family, chunks: seq<Region>): seq<Record> {
    if chunks == [] then [Record(EndType(family), 0, [])]
    else [DataRecord(family, chunks[0])] + DataRecords(family, chunks[1..])
  }

  /** Header, data records and end record. */
  function RecordsOf(family: Family, header: seq<Byte>, chunks: seq<Region>): seq<Record> {
    [Record('0', 0, header)] + DataRecords(family, chunks)
  }

  lemma DataPrintable(family: Family, chunk: Region)
    requires chunk.base < Reach(family) && |chunk.data| <= 250
    ensures Printable(DataRecord(family, chunk)) && OptionalRegion(Written(DataRecord(family, chunk))) == [chunk]
    ensures Printable(Record(EndType(family), 0, [])) && Written(Record(EndType(family), 0, [])) == None
  {
    assert Region(chunk.base, chunk.data) == chunk;
  }

  lemma {:induction false} DataRecordsWrite(family: Family, chunks: seq<Region>)
    requires SmallPieces(chunks, 250, Reach(family))
    ensures forall i :: 0 <= i < |DataRecords(family, chunks)| ==> Printable(DataRecords(family, chunks)[i])
    ensures Writes(DataRecords(family, chunks)) == chunks
  {
    var records := DataRecords(family, chunks);
    if chunks == [] {
      DataPrintable(family, Region(0, []));
      assert records[1..] == [];
    } else {
      DataRecordsWrite(family, chunks[1..]);
      DataPrintable(family, chunks[0]);
      hide Printable, Written, SmallPieces, DataRecord, DataType, EndType;
      assert records[1..] == DataRecords(family, chunks[1..]);
    }
  }

  lemma HeaderPrintable(header: seq<Byte>)
    requires |header| <= 252
    ensures Printable(Record('0', 0, header)) && Written(Record('0', 0, header)) == None
  {
  }

  lemma RecordsWrite(family: Family, header: seq<Byte>, chunks: seq<Region>)
    requires SmallPieces(chunks, 250, Reach(family)) && |header| <= 252
    ensures forall i :: 0 <= i < |RecordsOf(family, header, chunks)| ==> Printable(RecordsOf(family, header, chunks)[i])
    ensures Writes(RecordsOf(family, header, chunks)) == chunks
  {
    HeaderPrintable(header);
    DataRecordsWrite(family, chunks);
    hide Printable, Written, DataRecords;
    assert RecordsOf(family, header, chunks)[1..] == DataRecords(family, chunks);
  }

  /** Every image within a family's reach, given as its canonical regions, is printed and
      read back as itself, whatever record size the printer uses. */
  lemma RegionsRoundTrip(family: Family, header: seq<Byte>, regions: seq<Region>, n: nat, read: seq<Region>)
    requires Canonical(regions) && Below(regions, Reach(family)) && 1 <= n <= 250 && |header| <= 252
    ensures SmallPieces(CutAll(regions, n), 250, Reach(family))
    ensures (RecordsWrite(family, header, CutAll(regions, n));
             var image := Run(Lines(Joined(PrintAll(RecordsOf(family, header, CutAll(regions, n))))), 0, map[]);
             image.Ok? && (Canonical(read) && Denotes(read, image.value) <==> read == regions))
  {
    var chunks := CutAll(regions, n);
    CutAllPaints(map[], regions, n, Reach(family));
    RecordsWrite(family, header, chunks);
    PrintedTextPaints(RecordsOf(family, header, chunks));
    CanonicalPaintsItself(regions);
    if Canonical(read) && Denotes(read, Painted(map[], regions)) {
      CanonicalIsUnique(read, regions, Painted(map[], regions));
    }
  }

  // ----- corruption

  /** The image after these lines, if the reader accepts them all. */
  function ImageAfter(lines: seq<string>): Option<Image>
    decreases |lines|
  {
    if lines == [] then Some(map[])
    else
      match ImageAfter(lines[..|lines| - 1])
      case None => None
      case Some(image) =>
        var line := Trim(lines[|lines| - 1]);
        if line == [] then Some(image)
        else
          match Encoded(line)
          case None => None
          case Some(l) =>
            match Step(l, image, |lines|)
            case Go(next) => Some(next)
            case Fail(_) => None
  }

  lemma {:induction false} RunContinues(lines: seq<string>, i: nat)
    requires i <= |lines| && ImageAfter(lines[..i]).Some?
    ensures Run(lines, 0, map[]) == Run(lines, i, ImageAfter(lines[..i]).value)
    decreases i
  {
    if i > 0 {
      assert lines[..i][..i - 1] == lines[..i - 1];
      RunContinues(lines, i - 1);
    }
  }

  /** The record of a line, if it is accepted. */
  function Read(line: string): Option<Line> {
    match Encoded(line)
    case None => None
    case Some(l) => if Accepted(l) then Some(l) else None
  }

  /** A line spells an accepted record with one of its encoded bytes changed. */
  predicate Spells(line: string, l: Line, k: nat, b: Byte) {
    k < |l.bytes| && b != l.bytes[k] && Encoded(line) == Some(l.(bytes := l.bytes[k := b]))
  }

  /** In a file whose lines `before` are accepted, changing one encoded byte of the accepted
      record that follows makes the whole parse fail, at that line, whatever comes after. */
  lemma CorruptionIsFound(before: seq<string>, line: string, after: seq<string>, changed: string, k: nat, b: Byte)
    requires ImageAfter(before).Some? && Read(Trim(line)).Some?
    requires Spells(Trim(changed), Read(Trim(line)).value, k, b)
    ensures Run(before + [changed] + after, 0, map[]) == Err(BadRecord(|before| + 1))
  {
    OneByteShows(Read(Trim(line)).value.bytes, k, b);
    var lines := before + [changed] + after;
    assert lines[..|before|] == before && lines[|before|] == changed;
    RunContinues(lines, |before|);
  }
}
