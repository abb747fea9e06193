/** The Intel HEX reader (runtime/src/load/mod.rs) against a printer for the records of
    Intel's Hexadecimal Object File Format Specification, Rev. A, 1988. */
module IntelHex {
  import opened Common
  import opened Hex
  import opened TextLines
  import opened Checksums
  import opened Flash

  datatype Record =
    | Data(address: nat, data: seq<Byte>)
    | EndOfFile
    | Segment(paragraph: nat)
    | Linear(upper: nat)
    | StartAddress(recordType: Byte, data: seq<Byte>)

  // ----- reading

  function Word(high: Byte, low: Byte): nat {
    256 * high + low
  }

  /** The record in the encoded bytes of a line, if they are one. */
  function FromBytes(bytes: seq<Byte>): Option<Record>
    requires |bytes| >= 5
  {
    var count: nat := bytes[0];
    if |bytes| != count + 5 || WrappingSum(bytes) != 0 then None
    else
      var address, data := Word(bytes[1], bytes[2]), bytes[4..4 + count];
      match bytes[3]
      case 0 => Some(Data(address, data))
      case 1 => Some(EndOfFile)
      case 2 => if |data| != 2 then None else Some(Segment(Word(data[0], data[1])))
      case 3 => Some(StartAddress(3, data))
      case 4 => if |data| != 2 then None else Some(Linear(Word(data[0], data[1])))
      case 5 => Some(StartAddress(5, data))
      case _ => None
  }

  /** The encoded bytes of a trimmed, non-empty line. */
  function Encoded(line: string): (r: Option<seq<Byte>>)
    ensures r.Some? ==> |r.value| >= 5
  {
    if line == [] || line[0] != ':' then None
    else
      var payload := line[1..];
      if |payload| < 10 || |payload| % 2 != 0 then None else HexBytes(payload)
  }

  function Read(line: string): Option<Record> {
    match Encoded(line)
    case None => None
    case Some(bytes) => FromBytes(bytes)
  }

  // ----- running

  datatype Next = Go(upper: nat, image: Image) | Done | Fail(error: FlashError)

  /** What a record does to the base address and the image. */
  function Step(r: Record, upper: nat, image: Image): Next {
    match r
    case Data(address, data) =>
      if upper + address > U32_MAX then Fail(AddressOverflow(upper, address))
      else if !InRange(upper + address, |data|) then Fail(AddressOverflow(upper + address, |data|))
      else Go(upper, Over(image, Region(upper + address, data)))
    case EndOfFile => Done
    case Segment(paragraph) => Go(16 * paragraph, image)
    case Linear(high) => Go(0x1_0000 * high, image)
    case StartAddress(_, _) => Go(upper, image)
  }

  /** What a file of lines does from line `i` on. */
  function Run(lines: seq<string>, i: nat, upper: nat, image: Image): Result<Image, FlashError>
    requires i <= |lines|
    decreases |lines| - i
  {
    if i == |lines| then Ok(image)
    else
      var line := Trim(lines[i]);
      if line == [] then Run(lines, i + 1, upper, image)
      else
        match Read(line)
        case None => Err(BadRecord(i + 1))
        case Some(record) =>
          match Step(record, upper, image)
          case Go(newUpper, newImage) => Run(lines, i + 1, newUpper, newImage)
          case Done => Ok(image)
          case Fail(error) => Err(error)
  }

  /** The checks of one trimmed, non-empty line. */
  method ReadLine(line: string) returns (r: Option<Record>)
    requires line != []
    ensures r == Read(line)
  {
    hide WrappingSum, HexBytes;
    if line[0] != ':' {
      return None;
    }
    var payload := line[1..];
    if |payload| < 10 || |payload| % 2 != 0 {
      return None;
    }
    var decoded := HexBytes(payload);
    if decoded.None? {
      return None;
    }
    var bytes := decoded.value;
    var byteCount: nat := bytes[0];
    if |bytes| != byteCount + 5 || WrappingSum(bytes) != 0 {
      return None;
    }
    var address := Word(bytes[1], bytes[2]);
    var data := bytes[4..4 + byteCount];
    match bytes[3] {
      case 0 => return Some(Data(address, data));
      case 1 => return Some(EndOfFile);
      case 2 => return if |data| != 2 then None else Some(Segment(Word(data[0], data[1])));
      case 3 => return Some(StartAddress(3, data));
      case 4 => return if |data| != 2 then None else Some(Linear(Word(data[0], data[1])));
      case 5 => return Some(StartAddress(5, data));
      case _ => return None;
    }
  }

  lemma RunUnfolds(lines: seq<string>, i: nat, upper: nat, image: Image)
    requires i < |lines|
    ensures Run(lines, i, upper, image) ==
            if Trim(lines[i]) == [] then Run(lines, i + 1, upper, image)
            else match Read(Trim(lines[i]))
                 case None => Err(BadRecord(i + 1))
                 case Some(record) =>
                   match Step(record, upper, image)
                   case Go(newUpper, newImage) => Run(lines, i + 1, newUpper, newImage)
                   case Done => Ok(image)
                   case Fail(error) => Err(error)
  {
  }

  lemma RunEnds(lines: seq<string>, upper: nat, image: Image)
    ensures Run(lines, |lines|, upper, image) == Ok(image)
  {
  }

  method ParseIntelHex(content: string) returns (r: Result<seq<Region>, FlashError>)
    ensures var image := Run(Lines(content), 0, 0, map[]);
            match r
            case Err(error) => image == Err(error)
            case Ok(regions) => image.Ok? && Canonical(regions) && Denotes(regions, image.value)
  {
    hide Canonical, Denotes, Over, Trim, Lines, Read, Run;
    var lines := Lines(content);
    var upperAddr: nat := 0;
    var memory := new FlashMemory();
    var i := 0;
    while i < |lines|
      invariant i <= |lines| && memory.Valid()
      invariant Run(lines, 0, 0, map[]) == Run(lines, i, upperAddr, memory.bytes)
    {
      RunUnfolds(lines, i, upperAddr, memory.bytes);
      var line := Trim(lines[i]);
      if line != [] {
        var record := ReadLine(line);
        match record {
          case None =>
            return Err(BadRecord(i + 1));
          case Some(Data(address, data)) =>
            if upperAddr + address > U32_MAX {
              return Err(AddressOverflow(upperAddr, address));
            }
            var written := memory.Write(upperAddr + address, data);
            if written.Err? {
              return Err(written.error);
            }
          case Some(EndOfFile) =>
            var regions := memory.IntoRegions();
            return Ok(regions);
          case Some(Segment(paragraph)) =>
            upperAddr := 16 * paragraph;
          case Some(Linear(high)) =>
            upperAddr := 0x1_0000 * high;
          case Some(StartAddress(_, _)) =>
        }
      }
      i := i + 1;
    }
    RunEnds(lines, upperAddr, memory.bytes);
    var regions := memory.IntoRegions();
    r := Ok(regions);
  }

  // ----- printing

  predicate Printable(r: Record) {
    match r
    case Data(address, data) => address < 0x1_0000 && |data| < 256
    case EndOfFile => true
    case Segment(paragraph) => paragraph < 0x1_0000
    case Linear(upper) => upper < 0x1_0000
    case StartAddress(recordType, data) => (recordType == 3 || recordType == 5) && |data| < 256
  }

  function WordBytes(w: nat): seq<Byte>
    requires w < 0x1_0000
  {
    [w / 256, w % 256]
  }

  /** A record's type, address field and data field. */
  function Fields(r: Record): (f: (Byte, nat, seq<Byte>))
    requires Printable(r)
    ensures f.1 < 0x1_0000 && |f.2| < 256
  {
    match r
    case Data(address, data) => (0, address, data)
    case EndOfFile => (1, 0, [])
    case Segment(paragraph) => (2, 0, WordBytes(paragraph))
    case Linear(upper) => (4, 0, WordBytes(upper))
    case StartAddress(recordType, data) => (recordType, 0, data)
  }

  /** Count, address, type and data. */
  function Framed(kind: Byte, address: nat, data: seq<Byte>): seq<Byte>
    requires address < 0x1_0000 && |data| < 256
  {
    [|data|] + WordBytes(address) + [kind] + data
  }

  function Body(r: Record): seq<Byte>
    requires Printable(r)
  {
    Framed(Fields(r).0, Fields(r).1, Fields(r).2)
  }

  function RecordBytes(r: Record): seq<Byte>
    requires Printable(r)
  {
    Body(r) + [Completing(Body(r), 0)]
  }

  function PrintRecord(r: Record): string
    requires Printable(r)
  {
    ":" + Printed(RecordBytes(r))
  }

  lemma FramedFields(kind: Byte, address: nat, data: seq<Byte>, sum: Byte)
    requires address < 0x1_0000 && |data| < 256
    ensures var bytes := Framed(kind, address, data) + [sum];
            && |bytes| == |data| + 5 && bytes[0] == |data| && Word(bytes[1], bytes[2]) == address && bytes[3] == kind
            && bytes[4..4 + |data|] == data
  {
    var bytes := Framed(kind, address, data) + [sum];
    assert bytes[1] == address / 256 && bytes[2] == address % 256;
    assert bytes[4..4 + |data|] == data;
  }

  lemma WordRoundTrip(w: nat)
    requires w < 0x1_0000
    ensures |WordBytes(w)| == 2 && Word(WordBytes(w)[0], WordBytes(w)[1]) == w
  {
  }

  lemma BytesRoundTrip(r: Record)
    requires Printable(r)
    ensures |RecordBytes(r)| >= 5 && FromBytes(RecordBytes(r)) == Some(r)
  {
    CompletedSum(Body(r), 0);
    FramedFields(Fields(r).0, Fields(r).1, Fields(r).2, Completing(Body(r), 0));
    if r.Segment? {
      WordRoundTrip(r.paragraph);
    } else if r.Linear? {
      WordRoundTrip(r.upper);
    }
    hide WrappingSum, Completing, Framed, Word, WordBytes;
  }

  lemma EncodedText(line: string, bytes: seq<Byte>)
    requires |bytes| >= 5 && line != [] && line[0] == ':'
    requires |line[1..]| == 2 * |bytes| && HexBytes(line[1..]) == Some(bytes)
    ensures Encoded(line) == Some(bytes)
  {
    hide HexBytes;
  }

  /** A printed record is read as that record, and survives trimming and line splitting. */
  lemma RecordRoundTrip(r: Record)
    requires Printable(r)
    ensures Read(PrintRecord(r)) == Some(r)
    ensures Trim(PrintRecord(r)) == PrintRecord(r) != [] && '\n' !in PrintRecord(r)
  {
    BytesRoundTrip(r);
    hide RecordBytes, FromBytes, Trim, Encoded, Printed;
    SolidRecord(":", RecordBytes(r));
    PrintedReads(RecordBytes(r));
    EncodedText(PrintRecord(r), RecordBytes(r));
  }

  function PrintAll(records: seq<Record>): seq<string>
    requires forall i :: 0 <= i < |records| ==> Printable(records[i])
  {
    seq(|records|, i requires 0 <= i < |records| => PrintRecord(records[i]))
  }

  /** What records mean, without any text. */
  function Execute(records: seq<Record>, upper: nat, image: Image): Result<Image, FlashError>
    decreases |records|
  {
    if records == [] then Ok(image)
    else
      match Step(records[0], upper, image)
      case Go(newUpper, newImage) => Execute(records[1..], newUpper, newImage)
      case Done => Ok(image)
      case Fail(error) => Err(error)
  }

  /** The lines hold these records in order, one a line, indented or not, their digits in
      either case, with carriage returns and blank lines anywhere. */
  ghost predicate Holds(lines: seq<string>, records: seq<Record>)
    requires forall k :: 0 <= k < |records| ==> Printable(records[k])
    decreases |lines|
  {
    if lines == [] then records == []
    else
      || (Blank(lines[0]) && Holds(lines[1..], records))
      || (records != [] && SpelledAs(lines[0], ":", Printed(RecordBytes(records[0]))) && Holds(lines[1..], records[1..]))
  }

  lemma SpelledReads(line: string, r: Record)
    requires Printable(r) && SpelledAs(line, ":", Printed(RecordBytes(r)))
    ensures Trim(line) != [] && Read(Trim(line)) == Some(r)
  {
    BytesRoundTrip(r);
    hide RecordBytes, FromBytes, Trim, Encoded, Printed, HexBytes, SpelledAs;
    var spelled := SpelledTrims(line, ":", RecordBytes(r));
    assert (":" + spelled)[1..] == spelled;
    EncodedText(Trim(line), RecordBytes(r));
  }

  lemma HoldsUnfolds(lines: seq<string>, i: nat, records: seq<Record>)
    requires forall k :: 0 <= k < |records| ==> Printable(records[k])
    requires i < |lines| && Holds(lines[i..], records)
    ensures || (Blank(lines[i]) && Holds(lines[i + 1..], records))
            || (records != [] && SpelledAs(lines[i], ":", Printed(RecordBytes(records[0]))) && Holds(lines[i + 1..], records[1..]))
  {
    assert lines[i..][0] == lines[i] && lines[i..][1..] == lines[i + 1..];
    hide Printable, Blank, SpelledAs, RecordBytes, Printed;
  }

  lemma ExecuteUnfolds(records: seq<Record>, upper: nat, image: Image)
    requires records != []
    ensures Execute(records, upper, image) ==
            match Step(records[0], upper, image)
            case Go(newUpper, newImage) => Execute(records[1..], newUpper, newImage)
            case Done => Ok(image)
            case Fail(error) => Err(error)
  {
  }

  lemma {:induction false} RunHolds(lines: seq<string>, i: nat, records: seq<Record>, upper: nat, image: Image)
    requires forall k :: 0 <= k < |records| ==> Printable(records[k])
    requires i <= |lines| && Holds(lines[i..], records)
    ensures Run(lines, i, upper, image) == Execute(records, upper, image)
    decreases |lines| - i
  {
    if i == |lines| {
      RunEnds(lines, upper, image);
      assert records == [];
    } else {
      hide *;
      HoldsUnfolds(lines, i, records);
      RunUnfolds(lines, i, upper, image);
      if Blank(lines[i]) && Holds(lines[i + 1..], records) {
        TrimsBlank(lines[i]);
        RunHolds(lines, i + 1, records, upper, image);
      } else {
        SpelledReads(lines[i], records[0]);
        ExecuteUnfolds(records, upper, image);
        if Step(records[0], upper, image).Go? {
          var next := Step(records[0], upper, image);
          RunHolds(lines, i + 1, records[1..], next.upper, next.image);
        }
      }
    }
  }

  lemma {:induction false} PrintedHolds(records: seq<Record>)
    requires forall k :: 0 <= k < |records| ==> Printable(records[k])
    ensures Holds(PrintAll(records), records)
  {
    if records != [] {
      PrintedIsSpelled(":", Printed(RecordBytes(records[0])));
      assert PrintAll(records)[0] == ":" + Printed(RecordBytes(records[0]));
      assert PrintAll(records)[1..] == PrintAll(records[1..]);
      PrintedHolds(records[1..]);
      hide PrintAll, Printed, Printable, SpelledAs, Blank;
    }
  }

  /** Reading the text printed for any records does what the records say. */
  lemma PrintedTextExecutes(records: seq<Record>)
    requires forall k :: 0 <= k < |records| ==> Printable(records[k])
    ensures Run(Lines(Joined(PrintAll(records))), 0, 0, map[]) == Execute(records, 0, map[])
  {
    forall i | 0 <= i < |records| ensures '\n' !in PrintAll(records)[i] {
      RecordRoundTrip(records[i]);
    }
    LinesOfJoined(PrintAll(records));
    PrintedHolds(records);
    assert PrintAll(records)[0..] == PrintAll(records);
    hide *;
    RunHolds(PrintAll(records), 0, records, 0, map[]);
  }

  // ----- what the text says, record by record

  /** The base address in force after the first k records: that of the last base record
      among them. */
  function BaseBefore(records: seq<Record>, k: nat): nat
    requires k <= |records|
  {
    if k == 0 then 0
    else
      match records[k - 1]
      case Segment(paragraph) => 16 * paragraph
      case Linear(upper) => 0x1_0000 * upper
      case _ => BaseBefore(records, k - 1)
  }

  /** The data from record k up to the first end record, each piece at its address above the
      base in force. */
  function PiecesFrom(records: seq<Record>, k: nat): seq<Region>
    requires k <= |records|
    decreases |records| - k
  {
    if k == |records| || records[k].EndOfFile? then []
    else if records[k].Data? then
      [Region(BaseBefore(records, k) + records[k].address, records[k].data)] + PiecesFrom(records, k + 1)
    else PiecesFrom(records, k + 1)
  }

  lemma {:induction false} BaseIsSmall(records: seq<Record>, k: nat)
    requires k <= |records| && forall i :: 0 <= i < |records| ==> Printable(records[i])
    ensures BaseBefore(records, k) <= 0xFFFF_0000
    decreases k
  {
    if k > 0 {
      assert Printable(records[k - 1]);
      BaseIsSmall(records, k - 1);
    }
  }

  lemma {:induction false} ExecutePaints(records: seq<Record>, k: nat, image: Image)
    requires k <= |records| && forall i :: 0 <= i < |records| ==> Printable(records[i])
    ensures Paints(Execute(records[k..], BaseBefore(records, k), image), image, PiecesFrom(records, k))
    decreases |records| - k
  {
    if k < |records| && !records[k].EndOfFile? {
      assert records[k..][0] == records[k] && records[k..][1..] == records[k + 1..];
      assert Printable(records[k]);
      BaseIsSmall(records, k);
      ExecuteUnfolds(records[k..], BaseBefore(records, k), image);
      StepAt(records, k, image);
      hide Paints, Over, InRange, Execute, Step, Printable;
      if records[k].Data? {
        var piece := Region(BaseBefore(records, k) + records[k].address, records[k].data);
        ExecutePaints(records, k + 1, Over(image, piece));
        PaintsOneMore(Execute(records[k + 1..], BaseBefore(records, k), Over(image, piece)), image, piece,
                      PiecesFrom(records, k + 1));
      } else {
        ExecutePaints(records, k + 1, image);
      }
    }
  }

  /** What one record does to the base in force and the image. */
  lemma StepAt(records: seq<Record>, k: nat, image: Image)
    requires k < |records| && !records[k].EndOfFile? && Printable(records[k]) && BaseBefore(records, k) <= 0xFFFF_0000
    ensures var r, base := records[k], BaseBefore(records, k);
            Step(r, base, image) ==
              if !r.Data? then Go(BaseBefore(records, k + 1), image)
              else if InRange(base + r.address, |r.data|) then Go(base, Over(image, Region(base + r.address, r.data)))
              else Fail(AddressOverflow(base + r.address, |r.data|))
    ensures records[k].Data? ==> BaseBefore(records, k + 1) == BaseBefore(records, k)
  {
    hide Over;
  }

  /** The text printed for any records, of every type, is read as the data up to the first
      end record, each piece at its address plus sixteen times the paragraph or 65536 times
      the upper half of the last base record before it; it fails exactly when a piece is out
      of range, with the first that is. */
  lemma PrintedTextPaints(records: seq<Record>)
    requires forall k :: 0 <= k < |records| ==> Printable(records[k])
    ensures Paints(Run(Lines(Joined(PrintAll(records))), 0, 0, map[]), map[], PiecesFrom(records, 0))
  {
    PrintedTextExecutes(records);
    ExecutePaints(records, 0, map[]);
    assert records[0..] == records;
  }

  /** So are they in any file that holds the records, however it is laid out. */
  lemma LooseTextPaints(text: string, records: seq<Record>)
    requires forall k :: 0 <= k < |records| ==> Printable(records[k])
    requires Holds(Lines(text), records)
    ensures Paints(Run(Lines(text), 0, 0, map[]), map[], PiecesFrom(records, 0))
  {
    assert Lines(text)[0..] == Lines(text) && records[0..] == records;
    RunHolds(Lines(text), 0, records, 0, map[]);
    ExecutePaints(records, 0, map[]);
  }

  /** These bytes are a whole record: the count is right, the bytes add up to zero, and type
      and fields are those of `r`; the address of all but data records and the data of an end
      record are free. */
  predicate Encodes(bytes: seq<Byte>, r: Record) {
    && |bytes| >= 5 && bytes[0] == |bytes| - 5 && WrappingSum(bytes) == 0
    && var data := bytes[4..|bytes| - 1];
       match r
       case Data(address, d) => bytes[3] == 0 && address == 256 * (bytes[1] as int) + bytes[2] as int && d == data
       case EndOfFile => bytes[3] == 1
       case Segment(paragraph) => bytes[3] == 2 && |data| == 2 && paragraph == 256 * (data[0] as int) + data[1] as int
       case Linear(upper) => bytes[3] == 4 && |data| == 2 && upper == 256 * (data[0] as int) + data[1] as int
       case StartAddress(recordType, d) => bytes[3] == recordType && recordType in [3, 5] && d == data
  }

  /** A line is read as a record exactly when it is a colon and the digits of bytes that
      encode it. */
  lemma ReadIff(line: string, r: Record)
    ensures Read(line) == Some(r) <==>
            exists bytes :: && Encodes(bytes, r) && |line| == 1 + 2 * |bytes| && line[0] == ':'
                            && HexBytes(line[1..]) == Some(bytes)
  {
    hide HexBytes, WrappingSum;
    if Read(line) == Some(r) {
      assert Encodes(Encoded(line).value, r);
    }
  }

  /** Only the printer's own bytes are read as a data record. */
  lemma DataBytesAreOne(bytes: seq<Byte>, r: Record)
    requires Encodes(bytes, r) && r.Data?
    ensures Printable(r) && bytes == RecordBytes(r)
  {
    var front := bytes[..|bytes| - 1];
    assert front == Body(r);
    assert bytes == front + [bytes[|bytes| - 1]];
    CompletingIsOne(front, bytes[|bytes| - 1], 0);
  }

  function WithoutStarts(records: seq<Record>): seq<Record> {
    if records == [] then []
    else (if records[0].StartAddress? then [] else [records[0]]) + WithoutStarts(records[1..])
  }

  lemma {:induction false} StillPrintable(records: seq<Record>)
    requires forall k :: 0 <= k < |records| ==> Printable(records[k])
    ensures forall k :: 0 <= k < |WithoutStarts(records)| ==> Printable(WithoutStarts(records)[k])
  {
    hide Printable;
    if records != [] {
      StillPrintable(records[1..]);
    }
  }

  lemma {:induction false} ExecuteWithoutStarts(records: seq<Record>, upper: nat, image: Image)
    ensures Execute(WithoutStarts(records), upper, image) == Execute(records, upper, image)
    decreases |records|
  {
    if records != [] {
      var r, rest := records[0], WithoutStarts(records[1..]);
      assert ([r] + rest)[1..] == rest && ([r] + rest)[0] == r && [] + rest == rest;
      if r.StartAddress? {
        ExecuteWithoutStarts(records[1..], upper, image);
      } else {
        hide Step;
        if Step(r, upper, image).Go? {
          ExecuteWithoutStarts(records[1..], Step(r, upper, image).upper, Step(r, upper, image).image);
        }
      }
    }
  }

  /** Start address records, which linkers write, change nothing wherever they stand. */
  lemma StartAddressesIgnored(records: seq<Record>)
    requires forall k :: 0 <= k < |records| ==> Printable(records[k])
    ensures (StillPrintable(records);
             Run(Lines(Joined(PrintAll(WithoutStarts(records)))), 0, 0, map[])
             == Run(Lines(Joined(PrintAll(records))), 0, 0, map[]))
  {
    StillPrintable(records);
    ExecuteWithoutStarts(records, 0, map[]);
    PrintedTextExecutes(records);
    PrintedTextExecutes(WithoutStarts(records));
  }

  // ----- an image printed and read back

  /** The two ways to give a base address, and what they reach. */
  datatype Style = BySegment | ByLinear

  function Reach(style: Style): nat {
    if style.ByLinear? then 0x1_0000_0000 else 0x10_0000
  }

  function BaseOf(style: Style, c: Region): Record {
    if style.ByLinear? then Linear(c.base / 0x1_0000) else Segment(c.base / 16)
  }

  function DataOf(style: Style, c: Region): Record {
    Data(if style.ByLinear? then c.base % 0x1_0000 else c.base % 16, c.data)
  }

  /** The pieces of an image, each under a base of its own, and the end record. */
  function RecordsOf(style: Style, chunks: seq<Region>): seq<Record> {
    if chunks == [] then [EndOfFile]
    else [BaseOf(style, chunks[0]), DataOf(style, chunks[0])] + RecordsOf(style, chunks[1..])
  }

  lemma {:induction false} RecordsPrintable(style: Style, chunks: seq<Region>)
    requires SmallPieces(chunks, 255, Reach(style))
    ensures forall i :: 0 <= i < |RecordsOf(style, chunks)| ==> Printable(RecordsOf(style, chunks)[i])
  {
    if chunks != [] {
      RecordsPrintable(style, chunks[1..]);
      assert Printable(BaseOf(style, chunks[0])) && Printable(DataOf(style, chunks[0]));
      hide Printable, BaseOf, DataOf;
    }
  }

  lemma ChunkSteps(style: Style, c: Region, upper: nat, image: Image) returns (base: nat)
    requires InRange(c.base, |c.data|) && c.base < Reach(style)
    ensures Step(BaseOf(style, c), upper, image) == Go(base, image)
    ensures Step(DataOf(style, c), base, image) == Go(base, Over(image, c))
  {
    hide Over;
    assert Region(c.base, c.data) == c;
    if style.ByLinear? {
      base := 0x1_0000 * (c.base / 0x1_0000);
      assert base + c.base % 0x1_0000 == c.base;
    } else {
      base := 16 * (c.base / 16);
      assert base + c.base % 16 == c.base;
    }
  }

  lemma {:induction false} ChunksExecute(style: Style, chunks: seq<Region>, upper: nat, image: Image)
    requires SmallPieces(chunks, 255, Reach(style))
    ensures Execute(RecordsOf(style, chunks), upper, image) == Ok(Painted(image, chunks))
    decreases |chunks|
  {
    if chunks != [] {
      var base := ChunkSteps(style, chunks[0], upper, image);
      ChunksExecute(style, chunks[1..], base, Over(image, chunks[0]));
      hide Step, Over, BaseOf, DataOf;
      var records := RecordsOf(style, chunks);
      assert records[1..][1..] == RecordsOf(style, chunks[1..]);
      assert records[0] == BaseOf(style, chunks[0]) && records[1..][0] == DataOf(style, chunks[0]);
    }
  }

  /** However an image is cut into pieces of at most 255 bytes, and whichever base address
      records reach it, its printed form is read back as the canonical regions that merging
      the pieces gives. */
  lemma ImageRoundTrip(style: Style, chunks: seq<Region>, regions: seq<Region>)
    requires SmallPieces(chunks, 255, Reach(style))
    ensures (RecordsPrintable(style, chunks);
             var image := Run(Lines(Joined(PrintAll(RecordsOf(style, chunks)))), 0, 0, map[]);
             image == Ok(Painted(map[], chunks))
             && (Canonical(regions) && Denotes(regions, image.value) <==> Merged(chunks, regions)))
  {
    RecordsPrintable(style, chunks);
    PrintedTextExecutes(RecordsOf(style, chunks));
    ChunksExecute(style, chunks, 0, map[]);
  }

  /** Every image within reach, given as its canonical regions, is printed and read back as
      itself, whatever record size up to 255 bytes the printer uses. */
  lemma RegionsRoundTrip(style: Style, regions: seq<Region>, n: nat, read: seq<Region>)
    requires Canonical(regions) && Below(regions, Reach(style)) && 1 <= n <= 255
    ensures SmallPieces(CutAll(regions, n), 255, Reach(style))
    ensures (RecordsPrintable(style, CutAll(regions, n));
             var image := Run(Lines(Joined(PrintAll(RecordsOf(style, CutAll(regions, n))))), 0, 0, map[]);
             image.Ok? && (Canonical(read) && Denotes(read, image.value) <==> read == regions))
  {
    CutAllPaints(map[], regions, n, Reach(style));
    ImageRoundTrip(style, CutAll(regions, n), read);
    CanonicalPaintsItself(regions);
    if Canonical(read) && Denotes(read, Painted(map[], regions)) {
      CanonicalIsUnique(read, regions, Painted(map[], regions));
    }
  }

  // ----- corruption

  /** A line whose encoded bytes differ from those of an accepted record in one byte is
      refused, whatever characters spell that byte. */
  lemma OneByteRefused(line: string, changed: string, k: nat, b: Byte)
    requires Read(line).Some? && k < |Encoded(line).value| && b != Encoded(line).value[k]
    requires Encoded(changed) == Some(Encoded(line).value[k := b])
    ensures Read(changed).None?
  {
    OneByteShows(Encoded(line).value, k, b);
  }

  datatype State = State(upper: nat, image: Image)

  /** The reader's state after these lines, if it accepts them all and meets no end record. */
  function StateAfter(lines: seq<string>): Option<State>
    decreases |lines|
  {
    if lines == [] then Some(State(0, map[]))
    else
      match StateAfter(lines[..|lines| - 1])
      case None => None
      case Some(s) =>
        var line := Trim(lines[|lines| - 1]);
        if line == [] then Some(s)
        else
          match Read(line)
          case None => None
          case Some(record) =>
            match Step(record, s.upper, s.image)
            case Go(upper, image) => Some(State(upper, image))
            case _ => None
  }

  lemma {:induction false} RunContinues(lines: seq<string>, i: nat)
    requires i <= |lines| && StateAfter(lines[..i]).Some?
    ensures var s := StateAfter(lines[..i]).value;
            Run(lines, 0, 0, map[]) == Run(lines, i, s.upper, s.image)
    decreases i
  {
    if i > 0 {
      assert lines[..i][..i - 1] == lines[..i - 1];
      RunContinues(lines, i - 1);
    }
  }

  lemma ReadsSmallFields(line: string)
    requires Read(line).Some?
    ensures Printable(Read(line).value)
  {
  }

  /** Base addresses come from 16-bit fields, so wherever the reader gets, adding a record's
      offset to the base cannot overflow: only a record's last byte can lie too high. */
  lemma {:induction false} BaseNeverOverflows(lines: seq<string>)
    ensures StateAfter(lines).Some? ==> StateAfter(lines).value.upper <= 0xFFFF_0000
    ensures StateAfter(lines).Some? ==>
              forall line :: Read(line).Some? && Read(line).value.Data? ==>
                StateAfter(lines).value.upper + Read(line).value.address <= U32_MAX
    decreases |lines|
  {
    if lines != [] && StateAfter(lines).Some? {
      BaseNeverOverflows(lines[..|lines| - 1]);
      var line := Trim(lines[|lines| - 1]);
      if line != [] {
        ReadsSmallFields(line);
      }
    }
    forall line | Read(line).Some? && Read(line).value.Data? && StateAfter(lines).Some?
      ensures StateAfter(lines).value.upper + Read(line).value.address <= U32_MAX
    {
      ReadsSmallFields(line);
    }
  }

  /** Changing one encoded byte of an accepted record that the reader gets to makes the
      whole parse fail, at that line. */
  lemma CorruptionIsFound(lines: seq<string>, i: nat, changed: string, k: nat, b: Byte)
    requires i < |lines| && StateAfter(lines[..i]).Some? && Trim(lines[i]) != [] && Read(Trim(lines[i])).Some?
    requires k < |Encoded(Trim(lines[i])).value| && b != Encoded(Trim(lines[i])).value[k]
    requires Encoded(Trim(changed)) == Some(Encoded(Trim(lines[i])).value[k := b])
    ensures Run(lines[i := changed], 0, 0, map[]) == Err(BadRecord(i + 1))
  {
    OneByteRefused(Trim(lines[i]), Trim(changed), k, b);
    assert lines[i := changed][..i] == lines[..i];
    RunContinues(lines[i := changed], i);
  }
}
