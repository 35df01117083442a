/**
 The central directory of a zip archive, read from the end of the file inwards. The file
 is its bytes; 64-bit sums and 32-bit casts wrap, as unchecked arithmetic does.
 */
module ZipRomProbe {
  import opened Models
  import opened Wrappers

  const EOCD_SIGNATURE := 0x06054B50
  const LOCATOR_SIGNATURE := 0x07064B50
  const CENTRAL_SIGNATURE := 0x02014B50
  const EOCD_SIZE := 22
  const LOCATOR_SIZE := 20
  const CENTRAL_SIZE := 46
  const ZIP64_RECORD_SIZE := 56
  const TAIL_WINDOW := 4096
  const MAX_EOCD_WINDOW := 65535 + EOCD_SIZE
  const MAX_DIRECTORY_BYTES := 64 * 1024 * 1024
  const SENTINEL16 := 0xFFFF
  const SENTINEL32 := 0xFFFF_FFFF
  const LONG_LIMIT := 0x8000_0000_0000_0000
  const INT_LIMIT := 0x8000_0000

  datatype CentralEntry = CentralEntry(
    name: seq<byte>, crc32: int, compressedSize: int, uncompressedSize: int,
    compression: int, flags: int, localHeaderOffset: int)

  /** What reading comes to: entries, nothing, or an exception, which callers do not expect. */
  datatype Outcome = Miss | Found(entries: seq<CentralEntry>) | Throws

  /** How many entries the directory has, how long it is and where it starts. */
  datatype Extent = Extent(count: int, size: int, offset: int)

  // ----- Numbers

  function U16(b: seq<byte>, p: nat): (r: nat)
    requires p + 2 <= |b|
    ensures r < 0x1_0000
  {
    b[p] as int + b[p + 1] as int * 0x100
  }

  function U32(b: seq<byte>, p: nat): (r: nat)
    requires p + 4 <= |b|
    ensures r < 0x1_0000_0000
  {
    U16(b, p) + U16(b, p + 2) * 0x1_0000
  }

  function U64(b: seq<byte>, p: nat): (r: nat)
    requires p + 8 <= |b|
    ensures r < 0x1_0000_0000_0000_0000
  {
    U32(b, p) + U32(b, p + 4) * 0x1_0000_0000
  }

  /** The signed 64-bit number with these bits. */
  function Long(x: int): (r: int)
    ensures -LONG_LIMIT <= r < LONG_LIMIT
    ensures -LONG_LIMIT <= x < LONG_LIMIT ==> r == x
  {
    (x + LONG_LIMIT) % (2 * LONG_LIMIT) - LONG_LIMIT
  }

  /** The signed 32-bit number with these bits. */
  function Int(x: int): (r: int)
    ensures -INT_LIMIT <= r < INT_LIMIT
    ensures -INT_LIMIT <= x < INT_LIMIT ==> r == x
  {
    (x + INT_LIMIT) % (2 * INT_LIMIT) - INT_LIMIT
  }

  // ----- Ranged reads

  /** The part of the file a read at `offset` of `length` bytes can deliver. */
  function Slice(file: seq<byte>, offset: int, length: int): (r: seq<byte>)
    ensures offset >= 0 ==> |r| <= if length < 0 then 0 else length
    ensures 0 <= offset && 0 <= length && offset + length <= |file| ==> r == file[offset..offset + length]
  {
    var from := if offset < 0 then 0 else offset;
    var wanted := if offset < 0 then Int(length + Int(offset)) else length;
    var available := if from < |file| then |file| - from else 0;
    var n := if wanted < available then wanted else available;
    if n <= 0 then [] else file[from..from + n]
  }

  /** A read that starts before the file delivers what of it lies inside. */
  lemma NegativeReads(file: seq<byte>, offset: int, length: int)
    requires -INT_LIMIT <= offset < 0 && 0 <= length < INT_LIMIT
    ensures var end := if offset + length < 0 then 0 else if offset + length < |file| then offset + length else |file|;
            Slice(file, offset, length) == file[..end]
  {
  }

  /** Absolute-offset reads that tally every byte delivered. */
  class RangeReader {
    const file: seq<byte>
    var bytesRead: nat

    constructor (file: seq<byte>)
      ensures this.file == file && bytesRead == 0
    {
      this.file := file;
      bytesRead := 0;
    }

    method Read(offset: int, length: int) returns (buffer: seq<byte>)
      modifies this
      ensures buffer == Slice(file, offset, length)
      ensures bytesRead == old(bytesRead) + |buffer|
    {
      var from, wanted := offset, length;
      if from < 0 {
        wanted := Int(wanted + Int(from));
        from := 0;
      }
      var available := if from < |file| then |file| - from else 0;
      wanted := if wanted < available then wanted else available;
      if wanted <= 0 {
        return [];
      }
      buffer := file[from..from + wanted];
      bytesRead := bytesRead + |buffer|;
    }
  }

  // ----- Finding a signature from the end

  predicate SignatureAt(b: seq<byte>, signature: int, i: int) {
    0 <= i && i + 4 <= |b| && U32(b, i) == signature
  }

  /** The last place before `n` the signature starts, or -1. */
  function LastBefore(b: seq<byte>, signature: int, n: nat): (i: int)
    ensures -1 <= i < n && (i >= 0 ==> SignatureAt(b, signature, i))
    ensures forall k :: i < k < n ==> !SignatureAt(b, signature, k)
  {
    if n == 0 then -1 else if SignatureAt(b, signature, n - 1) then n - 1 else LastBefore(b, signature, n - 1)
  }

  function Last(b: seq<byte>, signature: int): (i: int)
    ensures -1 <= i && (i >= 0 ==> SignatureAt(b, signature, i))
    ensures forall k :: i < k ==> !SignatureAt(b, signature, k)
  {
    LastBefore(b, signature, |b|)
  }

  method FindLastSignature(buffer: seq<byte>, signature: int) returns (i: int)
    ensures i == Last(buffer, signature)
  {
    i := |buffer| - 4;
    while i >= 0
      invariant i < 0 || i + 4 <= |buffer|
      invariant forall k :: i < k ==> !SignatureAt(buffer, signature, k)
      decreases i
    {
      if U32(buffer, i) == signature {
        assert SignatureAt(buffer, signature, i);
        return;
      }
      i := i - 1;
    }
    i := -1;
  }

  // ----- Zip64 sizes

  /** The three 64-bit fields of an entry that a 32-bit record may have to stand in for. */
  datatype Sizes = Sizes(uncompressed: int, compressed: int, offset: int)

  /** Takes the next 8 bytes of a Zip64 block for a field that holds the sentinel. */
  function TakeField(extra: seq<byte>, cursor: nat, limit: nat, value: int): (int, nat)
    requires limit <= |extra|
  {
    if value == SENTINEL32 && cursor + 8 <= limit then (Long(U64(extra, cursor)), cursor + 8) else (value, cursor)
  }

  function FromZip64Block(extra: seq<byte>, body: nat, limit: nat, s: Sizes): Sizes
    requires limit <= |extra|
  {
    var (u, c1) := TakeField(extra, body, limit, s.uncompressed);
    var (c, c2) := TakeField(extra, c1, limit, s.compressed);
    var (o, _) := TakeField(extra, c2, limit, s.offset);
    Sizes(u, c, o)
  }

  /** Walks the extra blocks from `position` to the Zip64 one and restores the sizes from it. */
  function FromExtra(extra: seq<byte>, position: nat, s: Sizes): Sizes
    decreases |extra| - position
  {
    if position + 4 > |extra| then s
    else
      var id, size := U16(extra, position), U16(extra, position + 2);
      var body := position + 4;
      if body + size > |extra| then s
      else if id == 1 then FromZip64Block(extra, body, body + size, s)
      else FromExtra(extra, body + size, s)
  }

  function Restored(extra: seq<byte>, s: Sizes): Sizes {
    if s.uncompressed != SENTINEL32 && s.compressed != SENTINEL32 && s.offset != SENTINEL32 then s
    else FromExtra(extra, 0, s)
  }

  method ApplyZip64Extra(extra: seq<byte>, uncompressedSize: int, compressedSize: int, localHeaderOffset: int)
    returns (u: int, c: int, o: int)
    ensures Sizes(u, c, o) == Restored(extra, Sizes(uncompressedSize, compressedSize, localHeaderOffset))
  {
    u, c, o := uncompressedSize, compressedSize, localHeaderOffset;
    if u != SENTINEL32 && c != SENTINEL32 && o != SENTINEL32 {
      return;
    }
    var position := 0;
    while position + 4 <= |extra|
      invariant Sizes(u, c, o) == Sizes(uncompressedSize, compressedSize, localHeaderOffset)
      invariant FromExtra(extra, position, Sizes(u, c, o)) == FromExtra(extra, 0, Sizes(u, c, o))
      decreases |extra| - position
    {
      var id, size := U16(extra, position), U16(extra, position + 2);
      var body := position + 4;
      if body + size > |extra| {
        return;
      }
      if id == 1 {
        var cursor := body;
        if u == SENTINEL32 && cursor + 8 <= body + size {
          u := Long(U64(extra, cursor));
          cursor := cursor + 8;
        }
        if c == SENTINEL32 && cursor + 8 <= body + size {
          c := Long(U64(extra, cursor));
          cursor := cursor + 8;
        }
        if o == SENTINEL32 && cursor + 8 <= body + size {
          o := Long(U64(extra, cursor));
        }
        return;
      }
      position := body + size;
    }
  }

  // ----- The records of the directory

  function RecordLength(b: seq<byte>): (n: nat)
    requires CENTRAL_SIZE <= |b|
    ensures CENTRAL_SIZE <= n <= CENTRAL_SIZE + 3 * 65535
  {
    CENTRAL_SIZE + U16(b, 28) + U16(b, 30) + U16(b, 32)
  }

  function EntryOf(b: seq<byte>): CentralEntry
    requires CENTRAL_SIZE <= |b| && RecordLength(b) <= |b|
  {
    var n, x := U16(b, 28), U16(b, 30);
    var s := Restored(b[CENTRAL_SIZE + n..CENTRAL_SIZE + n + x], Sizes(U32(b, 24), U32(b, 20), U32(b, 42)));
    CentralEntry(b[CENTRAL_SIZE..CENTRAL_SIZE + n], U32(b, 16), s.compressed, s.uncompressed,
                 U16(b, 10), U16(b, 8), s.offset)
  }

  /** The entries read one after another until the count, the bytes or the signatures end. */
  function Entries(b: seq<byte>, count: int): seq<CentralEntry>
    decreases |b|
  {
    if count <= 0 || |b| < CENTRAL_SIZE || U32(b, 0) != CENTRAL_SIGNATURE || RecordLength(b) > |b| then []
    else [EntryOf(b)] + Entries(b[RecordLength(b)..], count - 1)
  }

  function AsOutcome(entries: seq<CentralEntry>): Outcome {
    if entries == [] then Miss else Found(entries)
  }

  /** What the records between two positions of a buffer come to; a bad span throws. */
  function FromSpan(directory: seq<byte>, start: int, end: int, count: int): Outcome {
    if 0 <= start <= end <= |directory| then AsOutcome(Entries(directory[start..end], count))
    else if count > 0 && Int(start + CENTRAL_SIZE) <= end then Throws
    else Miss
  }

  /** One central header whose variable parts are known to fit. */
  method ReadEntry(record: seq<byte>) returns (entry: CentralEntry)
    requires CENTRAL_SIZE <= |record| && RecordLength(record) <= |record|
    ensures entry == EntryOf(record)
  {
    var flags, compression, crc32 := U16(record, 8), U16(record, 10), U32(record, 16);
    var compressedSize, uncompressedSize := U32(record, 20), U32(record, 24);
    var nameLength, extraLength := U16(record, 28), U16(record, 30);
    var localHeaderOffset := U32(record, 42);
    var name := record[CENTRAL_SIZE..CENTRAL_SIZE + nameLength];
    var extra := record[CENTRAL_SIZE + nameLength..CENTRAL_SIZE + nameLength + extraLength];
    var u, c, o := ApplyZip64Extra(extra, uncompressedSize, compressedSize, localHeaderOffset);
    entry := CentralEntry(name, crc32, c, u, compression, flags, o);
  }

  lemma EntriesStep(directory: seq<byte>, position: nat, end: nat, count: int)
    requires position + CENTRAL_SIZE <= end <= |directory| && count > 0
    ensures var record := directory[position..end];
            Entries(record, count) ==
            if U32(record, 0) != CENTRAL_SIGNATURE || RecordLength(record) > |record| then []
            else [EntryOf(record)] + Entries(directory[position + RecordLength(record)..end], count - 1)
  {
    var record := directory[position..end];
    if RecordLength(record) <= |record| {
      assert record[RecordLength(record)..] == directory[position + RecordLength(record)..end];
    }
  }

  method ReadRecords(directory: seq<byte>, start: int, end: int, count: int) returns (r: Outcome)
    requires -INT_LIMIT <= start < INT_LIMIT && -INT_LIMIT <= end < INT_LIMIT
    requires |directory| <= MAX_DIRECTORY_BYTES
    ensures r == FromSpan(directory, start, end, count)
  {
    hide Entries, EntryOf;
    var entries: seq<CentralEntry> := [];
    if !(0 <= start <= end <= |directory|) {
      return if count > 0 && Int(start + CENTRAL_SIZE) <= end then Throws else AsOutcome(entries);
    }
    var position, i := start, 0;
    while i < count && position + CENTRAL_SIZE <= end
      invariant 0 <= i && start <= position <= end
      invariant entries + Entries(directory[position..end], count - i) == Entries(directory[start..end], count)
      decreases count - i
    {
      EntriesStep(directory, position, end, count - i);
      var record := directory[position..end];
      if U32(record, 0) != CENTRAL_SIGNATURE {
        break;
      }
      var total := RecordLength(record);
      if position + total > end {
        break;
      }
      var entry := ReadEntry(record);
      entries := entries + [entry];
      position, i := position + total, i + 1;
    }
    NoMoreEntries(directory[position..end], count - i);
    r := AsOutcome(entries);
  }

  lemma NoMoreEntries(b: seq<byte>, count: int)
    requires count <= 0 || |b| < CENTRAL_SIZE || U32(b, 0) != CENTRAL_SIGNATURE || RecordLength(b) > |b|
    ensures Entries(b, count) == []
  {
  }

  // ----- Locating the directory

  function TailStart(file: seq<byte>, window: nat): nat {
    if window < |file| then |file| - window else 0
  }

  /** Where the tail that shows the end record starts, and where in it the record is. */
  function FindEocd(file: seq<byte>): Option<(nat, nat)> {
    var near, far := TailStart(file, TAIL_WINDOW), TailStart(file, MAX_EOCD_WINDOW);
    var i := Last(file[near..], EOCD_SIGNATURE);
    if i >= 0 then Some((near, i))
    else
      var j := Last(file[far..], EOCD_SIGNATURE);
      if j >= 0 then Some((far, j)) else None
  }

  function Zip64Extent(file: seq<byte>, tail: seq<byte>, eocd: nat): Option<Extent>
    requires eocd + EOCD_SIZE <= |tail|
  {
    var locator := Last(tail[..eocd], LOCATOR_SIGNATURE);
    if locator < 0 then None
    else
      var at := Long(U64(tail, locator + 8));
      if at < 0 || Long(at + ZIP64_RECORD_SIZE) > |file| then None
      else
        var record := Slice(file, at, ZIP64_RECORD_SIZE);
        if |record| < ZIP64_RECORD_SIZE then None
        else Some(Extent(Long(U64(record, 32)), Long(U64(record, 40)), Long(U64(record, 48))))
  }

  function ExtentOf(file: seq<byte>, tail: seq<byte>, eocd: nat): Option<Extent>
    requires eocd + EOCD_SIZE <= |tail|
  {
    var x := Extent(U16(tail, eocd + 10), U32(tail, eocd + 12), U32(tail, eocd + 16));
    if x.count == SENTINEL16 || x.size == SENTINEL32 || x.offset == SENTINEL32 then Zip64Extent(file, tail, eocd)
    else Some(x)
  }

  function FromExtent(file: seq<byte>, tailStart: nat, x: Extent): Outcome
    requires tailStart <= |file|
  {
    if x.size <= 0 || x.size > MAX_DIRECTORY_BYTES || x.offset < 0 || Long(x.offset + x.size) > |file| then Miss
    else if x.offset >= tailStart && Long(x.offset + x.size) <= |file| then
      var start := Int(x.offset - tailStart);
      FromSpan(file[tailStart..], start, Int(start + x.size), x.count)
    else FromSpan(Slice(file, x.offset, x.size), 0, x.size, x.count)
  }

  function Directory(file: seq<byte>): Outcome {
    if |file| < EOCD_SIZE then Miss
    else match FindEocd(file)
      case None => Miss
      case Some((start, eocd)) =>
        var tail := file[start..];
        if eocd + EOCD_SIZE > |tail| then Miss
        else match ExtentOf(file, tail, eocd)
          case None => Miss
          case Some(x) => FromExtent(file, start, x)
  }

  method ReadZip64EndOfCentralDirectory(reader: RangeReader, tail: seq<byte>, eocd: nat) returns (x: Option<Extent>)
    requires eocd + EOCD_SIZE <= |tail|
    modifies reader
    ensures x == Zip64Extent(reader.file, tail, eocd)
    ensures old(reader.bytesRead) <= reader.bytesRead <= old(reader.bytesRead) + ZIP64_RECORD_SIZE
  {
    var locator := FindLastSignature(tail[..eocd], LOCATOR_SIGNATURE);
    if locator < 0 {
      return None;
    }
    var at := Long(U64(tail, locator + 8));
    if at < 0 || Long(at + ZIP64_RECORD_SIZE) > |reader.file| {
      return None;
    }
    var record := reader.Read(at, ZIP64_RECORD_SIZE);
    if |record| < ZIP64_RECORD_SIZE {
      return None;
    }
    x := Some(Extent(Long(U64(record, 32)), Long(U64(record, 40)), Long(U64(record, 48))));
  }

  lemma SliceIsTail(file: seq<byte>, start: nat)
    requires start <= |file|
    ensures Slice(file, start, |file| - start) == file[start..]
  {
  }

  /** Reads the near tail, and the far one when the near one shows no end record. */
  method ReadTail(reader: RangeReader) returns (tailStart: nat, tail: seq<byte>, eocd: int)
    modifies reader
    ensures eocd >= 0 <==> FindEocd(reader.file).Some?
    ensures eocd >= 0 ==> FindEocd(reader.file) == Some((tailStart, eocd))
    ensures tailStart <= |reader.file| && tail == reader.file[tailStart..] && eocd < |tail| <= MAX_EOCD_WINDOW
    ensures old(reader.bytesRead) <= reader.bytesRead <= old(reader.bytesRead) + TAIL_WINDOW + MAX_EOCD_WINDOW
  {
    hide Last, Slice, U32;
    var fileLength := |reader.file|;
    var tailLength := if TAIL_WINDOW < fileLength then TAIL_WINDOW else fileLength;
    tailStart := fileLength - tailLength;
    SliceIsTail(reader.file, tailStart);
    tail := reader.Read(tailStart, tailLength);
    eocd := FindLastSignature(tail, EOCD_SIGNATURE);
    if eocd < 0 {
      tailLength := if MAX_EOCD_WINDOW < fileLength then MAX_EOCD_WINDOW else fileLength;
      tailStart := fileLength - tailLength;
      SliceIsTail(reader.file, tailStart);
      tail := reader.Read(tailStart, tailLength);
      eocd := FindLastSignature(tail, EOCD_SIGNATURE);
    }
  }

  /** Reads the records the extent points at, out of the tail when they all lie in it. */
  method ReadExtent(reader: RangeReader, tailStart: nat, tail: seq<byte>, x: Extent) returns (r: Outcome)
    requires tailStart <= |reader.file| && tail == reader.file[tailStart..] && |tail| <= MAX_EOCD_WINDOW
    modifies reader
    ensures r == FromExtent(reader.file, tailStart, x)
    ensures old(reader.bytesRead) <= reader.bytesRead <= old(reader.bytesRead) + MAX_DIRECTORY_BYTES
  {
    hide Long, Int, FromSpan, Slice;
    if x.size <= 0 || x.size > MAX_DIRECTORY_BYTES || x.offset < 0 || Long(x.offset + x.size) > |reader.file| {
      return Miss;
    }
    if x.offset >= tailStart && Long(x.offset + x.size) <= tailStart + |tail| {
      var start := Int(x.offset - tailStart);
      r := ReadRecords(tail, start, Int(start + x.size), x.count);
    } else {
      var directory := reader.Read(x.offset, x.size);
      r := ReadRecords(directory, 0, x.size, x.count);
    }
  }

  method ReadCentralDirectory(reader: RangeReader) returns (r: Outcome)
    modifies reader
    ensures r == Directory(reader.file)
    ensures old(reader.bytesRead) <= reader.bytesRead
    ensures reader.bytesRead <= old(reader.bytesRead)
              + TAIL_WINDOW + MAX_EOCD_WINDOW + ZIP64_RECORD_SIZE + MAX_DIRECTORY_BYTES
  {
    if |reader.file| < EOCD_SIZE {
      return Miss;
    }
    var tailStart, tail, eocd := ReadTail(reader);
    if eocd < 0 || eocd > |tail| - EOCD_SIZE {
      return Miss;
    }
    var x := Extent(U16(tail, eocd + 10), U32(tail, eocd + 12), U32(tail, eocd + 16));
    if x.count == SENTINEL16 || x.size == SENTINEL32 || x.offset == SENTINEL32 {
      var zip64 := ReadZip64EndOfCentralDirectory(reader, tail, eocd);
      if zip64.None? {
        return Miss;
      }
      x := zip64.value;
    }
    r := ReadExtent(reader, tailStart, tail, x);
  }
}
