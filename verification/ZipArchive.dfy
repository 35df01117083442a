/**
 Archives as PKWARE's APPNOTE.TXT lays them out (sections 4.3.12, 4.3.14 to 4.3.16 and
 4.5.3), and the proof that reading one gives back exactly the entries it was made of.
 */
module ZipArchive {
  import opened Models
  import opened Wrappers
  import opened ZipRomProbe

  // ----- Layout, as a relation between bytes and what they describe

  /** A 32-bit field gives the value itself, or says that it must be looked up. */
  predicate StandsFor(field: int, value: int) {
    field == value || field == SENTINEL32
  }

  predicate AllStandFor(s: Sizes, c: CentralEntry) {
    && StandsFor(s.uncompressed, c.uncompressedSize) && StandsFor(s.compressed, c.compressedSize)
    && StandsFor(s.offset, c.localHeaderOffset)
  }

  function IfDeferred(field: int, value: int): seq<int> {
    if field == SENTINEL32 then [value] else []
  }

  /** The 64-bit values an entry's Zip64 block carries for its fields, in their fixed order. */
  function Deferred(s: Sizes, c: CentralEntry): seq<int> {
    IfDeferred(s.uncompressed, c.uncompressedSize) + IfDeferred(s.compressed, c.compressedSize)
    + IfDeferred(s.offset, c.localHeaderOffset)
  }

  /** From `position`, blocks of other kinds lead to a Zip64 block beginning with the values. */
  ghost predicate HoldsZip64(extra: seq<byte>, position: nat, values: seq<int>)
    decreases |extra| - position
  {
    && position + 4 <= |extra|
    && var body, size := position + 4, U16(extra, position + 2);
       && body + size <= |extra|
       && if U16(extra, position) == 1 then
            8 * |values| <= size && forall k :: 0 <= k < |values| ==> U64(extra, body + 8 * k) == values[k]
          else HoldsZip64(extra, body + size, values)
  }

  predicate Storable(c: CentralEntry) {
    && 0 <= c.uncompressedSize < LONG_LIMIT && 0 <= c.compressedSize < LONG_LIMIT
    && 0 <= c.localHeaderOffset < LONG_LIMIT
  }

  function FieldSizes(b: seq<byte>): Sizes
    requires CENTRAL_SIZE <= |b|
  {
    Sizes(U32(b, 24), U32(b, 20), U32(b, 42))
  }

  /** A central header for this entry stands at the front of the bytes. */
  ghost predicate IsRecord(b: seq<byte>, c: CentralEntry) {
    && CENTRAL_SIZE <= |b| && RecordLength(b) <= |b| && Storable(c)
    && U32(b, 0) == CENTRAL_SIGNATURE
    && U16(b, 8) == c.flags && U16(b, 10) == c.compression && U32(b, 16) == c.crc32
    && AllStandFor(FieldSizes(b), c)
    && var n, x, values := U16(b, 28), U16(b, 30), Deferred(FieldSizes(b), c);
       && b[CENTRAL_SIZE..CENTRAL_SIZE + n] == c.name
       && (values != [] ==> HoldsZip64(b[CENTRAL_SIZE + n..CENTRAL_SIZE + n + x], 0, values))
  }

  /** One central header after another, then anything. */
  ghost predicate LaidOut(b: seq<byte>, entries: seq<CentralEntry>)
    decreases |entries|
  {
    entries == [] || (IsRecord(b, entries[0]) && LaidOut(b[RecordLength(b)..], entries[1..]))
  }

  /** Where an archive keeps its end record, its directory and, if it has one, its Zip64 record. */
  datatype Layout = Layout(entries: seq<CentralEntry>, eocd: nat, directory: nat, size: nat, zip64: Option<nat>)

  ghost predicate OnlyLast(b: seq<byte>, signature: int, i: nat, n: nat) {
    SignatureAt(b, signature, i) && forall k :: i < k < n ==> !SignatureAt(b, signature, k)
  }

  /** The end record is complete and, with its comment, ends the file. */
  ghost predicate EndRecord(file: seq<byte>, eocd: nat) {
    && eocd + EOCD_SIZE <= |file|
    && SignatureAt(file, EOCD_SIGNATURE, eocd)
    && |file| == eocd + EOCD_SIZE + U16(file, eocd + 20)
  }

  /** The locator stands right before the end record and leads, on the one disk, to the 64-bit record. */
  ghost predicate Zip64Records(file: seq<byte>, a: Layout, record: nat)
    requires EndRecord(file, a.eocd)
  {
    && record + ZIP64_RECORD_SIZE + LOCATOR_SIZE <= a.eocd
    && SignatureAt(file, LOCATOR_SIGNATURE, a.eocd - LOCATOR_SIZE)
    && U32(file, a.eocd - 16) == 0 && U64(file, a.eocd - 12) == record && U32(file, a.eocd - 4) == 1
    && U64(file, record + 32) == |a.entries| && U64(file, record + 40) == a.size
    && U64(file, record + 48) == a.directory
    && U16(file, a.eocd + 10) in {|a.entries|, SENTINEL16}
    && U32(file, a.eocd + 12) in {a.size, SENTINEL32}
    && U32(file, a.eocd + 16) in {a.directory, SENTINEL32}
    && (U16(file, a.eocd + 10) == SENTINEL16 || U32(file, a.eocd + 12) == SENTINEL32
        || U32(file, a.eocd + 16) == SENTINEL32)
  }

  /** No field of the end record needs a larger one to stand in for it. */
  ghost predicate PlainRecord(file: seq<byte>, a: Layout)
    requires EndRecord(file, a.eocd)
  {
    && |a.entries| < SENTINEL16 && a.directory < SENTINEL32
    && U16(file, a.eocd + 10) == |a.entries| && U32(file, a.eocd + 12) == a.size
    && U32(file, a.eocd + 16) == a.directory
  }

  ghost predicate IsArchive(file: seq<byte>, a: Layout) {
    && |file| < LONG_LIMIT
    && EndRecord(file, a.eocd)
    && a.entries != [] && 0 < a.size <= 0x400_0000 && a.directory + a.size <= a.eocd
    && LaidOut(file[a.directory..a.directory + a.size], a.entries)
    && if a.zip64.Some? then Zip64Records(file, a, a.zip64.value) else PlainRecord(file, a)
  }

  /** The window an end record is found in. */
  function Window(file: seq<byte>, eocd: nat): nat
    requires eocd <= |file|
  {
    if |file| - eocd <= TAIL_WINDOW then TAIL_WINDOW else MAX_EOCD_WINDOW
  }

  /** The lengths of comments that keep a locator out of the window that shows the end record. */
  predicate Hides(n: nat) {
    4055 <= n <= 4074 || 65515 < n < 0x1_0000
  }

  predicate HiddenLocator(file: seq<byte>, a: Layout)
    requires a.eocd + EOCD_SIZE <= |file|
  {
    a.zip64.Some? && Hides(U16(file, a.eocd + 20))
  }

  /** Bytes after the start of the end record read like the start of another one. */
  predicate FalseEnd(file: seq<byte>, a: Layout) {
    Last(file, EOCD_SIGNATURE) > a.eocd
  }

  /** Bytes between the start of the locator and the end record read like the start of another locator. */
  predicate FalseLocator(file: seq<byte>, a: Layout)
    requires a.eocd <= |file|
  {
    a.zip64.Some? && Last(file[..a.eocd], LOCATOR_SIGNATURE) > a.eocd - LOCATOR_SIZE
  }

  /** The place in the file that the last locator signature before a position leads to. */
  function PlaceRead(file: seq<byte>, eocd: nat): nat
    requires eocd + EOCD_SIZE <= |file| && Last(file[..eocd], LOCATOR_SIGNATURE) >= 0
  {
    U64(file, Last(file[..eocd], LOCATOR_SIGNATURE) + 8)
  }

  /** A false signature leads to bytes that can be read as a record. */
  predicate Misleads(file: seq<byte>, a: Layout)
    requires a.eocd + EOCD_SIZE <= |file| && (a.zip64.Some? ==> a.eocd >= LOCATOR_SIZE)
  {
    if FalseEnd(file, a) then Last(file, EOCD_SIGNATURE) + EOCD_SIZE <= |file|
    else FalseLocator(file, a) && PlaceRead(file, a.eocd) + ZIP64_RECORD_SIZE <= |file|
  }

  // ----- Reading a record

  lemma {:induction false} FromExtraRestores(extra: seq<byte>, position: nat, s: Sizes, c: CentralEntry)
    requires Storable(c) && AllStandFor(s, c) && HoldsZip64(extra, position, Deferred(s, c))
    ensures FromExtra(extra, position, s) == Sizes(c.uncompressedSize, c.compressedSize, c.localHeaderOffset)
    decreases |extra| - position
  {
    var body, size := position + 4, U16(extra, position + 2);
    if U16(extra, position) != 1 {
      FromExtraRestores(extra, body + size, s, c);
    } else {
      var values := Deferred(s, c);
      assert |values| > 0 ==> U64(extra, body + 8 * 0) == values[0];
      assert |values| > 1 ==> U64(extra, body + 8 * 1) == values[1];
      assert |values| > 2 ==> U64(extra, body + 8 * 2) == values[2];
    }
  }

  lemma RecordReads(b: seq<byte>, c: CentralEntry)
    requires IsRecord(b, c)
    ensures CENTRAL_SIZE <= |b| && RecordLength(b) <= |b| && U32(b, 0) == CENTRAL_SIGNATURE
    ensures EntryOf(b) == c
  {
    hide U16, U32, FromExtra, HoldsZip64;
    var n, x, s := U16(b, 28), U16(b, 30), FieldSizes(b);
    if Deferred(s, c) != [] {
      FromExtraRestores(b[CENTRAL_SIZE + n..CENTRAL_SIZE + n + x], 0, s, c);
    }
  }

  lemma {:induction false} EntriesRead(b: seq<byte>, entries: seq<CentralEntry>)
    requires LaidOut(b, entries)
    ensures Entries(b, |entries|) == entries
    decreases |entries|
  {
    hide IsRecord, EntryOf, RecordLength, U32;
    if entries != [] {
      RecordReads(b, entries[0]);
      EntriesRead(b[RecordLength(b)..], entries[1..]);
    }
  }

  // ----- Finding the records

  lemma U16InSlice(b: seq<byte>, from: nat, to: nat, p: nat)
    requires from <= to <= |b| && from + p + 2 <= to
    ensures U16(b[from..to], p) == U16(b, from + p)
  {
  }

  lemma U32InSlice(b: seq<byte>, from: nat, to: nat, p: nat)
    requires from <= to <= |b| && from + p + 4 <= to
    ensures U32(b[from..to], p) == U32(b, from + p)
  {
    U16InSlice(b, from, to, p);
    U16InSlice(b, from, to, p + 2);
  }

  lemma U64InSlice(b: seq<byte>, from: nat, to: nat, p: nat)
    requires from <= to <= |b| && from + p + 8 <= to
    ensures U64(b[from..to], p) == U64(b, from + p)
  {
    U32InSlice(b, from, to, p);
    U32InSlice(b, from, to, p + 4);
  }

  lemma SignatureInSlice(b: seq<byte>, from: nat, to: nat, signature: int, i: int)
    requires from <= to <= |b| && 0 <= i
    ensures SignatureAt(b[from..to], signature, i) <==> SignatureAt(b, signature, from + i) && from + i + 4 <= to
  {
    if from + i + 4 <= to {
      U32InSlice(b, from, to, i);
    }
  }

  /** In any tail that shows it, the only last signature is the last one found. */
  lemma LastInTail(b: seq<byte>, from: nat, to: nat, signature: int, at: nat)
    requires from <= to <= |b| && at + 4 <= to && OnlyLast(b[..to], signature, at, to)
    ensures Last(b[from..to], signature) == if from <= at then at - from else -1
  {
    var i := Last(b[from..to], signature);
    assert b[0..to] == b[..to];
    SignatureInSlice(b, 0, to, signature, at);
    if i >= 0 {
      SignatureInSlice(b, from, to, signature, i);
      SignatureInSlice(b, 0, to, signature, from + i);
    }
    if from <= at {
      SignatureInSlice(b, from, to, signature, at - from);
    }
  }

  /** The reader finds the last end record signature of the file, in the near or the far tail. */
  lemma EocdIsFound(file: seq<byte>, a: Layout)
    requires EndRecord(file, a.eocd)
    ensures var eocd := Last(file, EOCD_SIGNATURE);
            && a.eocd <= eocd <= |file|
            && var start := TailStart(file, Window(file, eocd));
               start <= eocd && FindEocd(file) == Some((start, eocd - start))
  {
    hide Last, U16, U32;
    var eocd := Last(file, EOCD_SIGNATURE);
    var near, far := TailStart(file, TAIL_WINDOW), TailStart(file, MAX_EOCD_WINDOW);
    assert file[..|file|] == file && file[near..|file|] == file[near..] && file[far..|file|] == file[far..];
    LastInTail(file, near, |file|, EOCD_SIGNATURE, eocd);
    LastInTail(file, far, |file|, EOCD_SIGNATURE, eocd);
  }

  lemma HiddenIsOutOfWindow(file: seq<byte>, a: Layout)
    requires EndRecord(file, a.eocd) && a.zip64.Some? && LOCATOR_SIZE <= a.eocd
    ensures HiddenLocator(file, a) <==> a.eocd - LOCATOR_SIZE < TailStart(file, Window(file, a.eocd))
  {
  }

  // ----- Reading the extent

  function ExtentAt(file: seq<byte>, at: nat): Extent
    requires at + ZIP64_RECORD_SIZE <= |file|
  {
    Extent(Long(U64(file, at + 32)), Long(U64(file, at + 40)), Long(U64(file, at + 48)))
  }

  lemma ExtentInSlice(file: seq<byte>, at: nat)
    requires at + ZIP64_RECORD_SIZE <= |file|
    ensures var record := Slice(file, at, ZIP64_RECORD_SIZE);
            && |record| == ZIP64_RECORD_SIZE
            && ExtentAt(file, at) == Extent(Long(U64(record, 32)), Long(U64(record, 40)), Long(U64(record, 48)))
  {
    hide Long, U64;
    assert Slice(file, at, ZIP64_RECORD_SIZE) == file[at..at + ZIP64_RECORD_SIZE];
    U64InSlice(file, at, at + ZIP64_RECORD_SIZE, 32);
    U64InSlice(file, at, at + ZIP64_RECORD_SIZE, 40);
    U64InSlice(file, at, at + ZIP64_RECORD_SIZE, 48);
  }

  lemma NothingOutside(file: seq<byte>, place: nat)
    requires |file| < LONG_LIMIT && place < 2 * LONG_LIMIT && place + ZIP64_RECORD_SIZE > |file|
    ensures var at := Long(place);
            at < 0 || Long(at + ZIP64_RECORD_SIZE) > |file| || |Slice(file, at, ZIP64_RECORD_SIZE)| < ZIP64_RECORD_SIZE
  {
    if place >= LONG_LIMIT {
      assert (place - LONG_LIMIT + 2 * LONG_LIMIT) % (2 * LONG_LIMIT) == place - LONG_LIMIT;
    }
  }

  /** The 64-bit extent is the one at the place read, if the last locator signature is visible and leads into the file. */
  lemma Zip64ExtentReads(file: seq<byte>, eocd: nat, start: nat)
    requires |file| < LONG_LIMIT && eocd + EOCD_SIZE <= |file| && start <= eocd
    ensures Zip64Extent(file, file[start..], eocd - start) ==
            if Last(file[..eocd], LOCATOR_SIGNATURE) < start || PlaceRead(file, eocd) + ZIP64_RECORD_SIZE > |file| then None
            else Some(ExtentAt(file, PlaceRead(file, eocd)))
  {
    hide Long, U32, U64, ExtentAt, Slice, Last;
    var at := Last(file[..eocd], LOCATOR_SIGNATURE);
    LastVisible(file, eocd, start);
    if start <= at {
      assert file[start..|file|] == file[start..];
      U64InSlice(file, start, |file|, at - start + 8);
      var place := PlaceRead(file, eocd);
      if place + ZIP64_RECORD_SIZE > |file| {
        NothingOutside(file, place);
      } else {
        ExtentInSlice(file, place);
      }
    }
  }

  lemma LastVisible(file: seq<byte>, eocd: nat, start: nat)
    requires start <= eocd <= |file|
    ensures var at := Last(file[..eocd], LOCATOR_SIGNATURE);
            Last(file[start..][..eocd - start], LOCATOR_SIGNATURE) == if start <= at then at - start else -1
  {
    var at := Last(file[..eocd], LOCATOR_SIGNATURE);
    assert file[start..][..eocd - start] == file[start..eocd];
    if at >= 0 {
      LastInTail(file, start, eocd, LOCATOR_SIGNATURE, at);
    } else {
      var i := Last(file[start..eocd], LOCATOR_SIGNATURE);
      assert file[0..eocd] == file[..eocd];
      if i >= 0 {
        SignatureInSlice(file, start, eocd, LOCATOR_SIGNATURE, i);
        SignatureInSlice(file, 0, eocd, LOCATOR_SIGNATURE, start + i);
      }
    }
  }

  /** Each entry takes at least a fixed part's worth of the directory. */
  lemma {:induction false} EntriesAreFew(b: seq<byte>, entries: seq<CentralEntry>)
    requires LaidOut(b, entries)
    ensures CENTRAL_SIZE * |entries| <= |b|
    decreases |entries|
  {
    if entries != [] {
      EntriesAreFew(b[RecordLength(b)..], entries[1..]);
    }
  }

  lemma ExtentReads(file: seq<byte>, a: Layout, start: nat)
    requires IsArchive(file, a) && start <= a.eocd
    ensures ExtentOf(file, file[start..], a.eocd - start) ==
            if a.zip64.Some? then Zip64Extent(file, file[start..], a.eocd - start)
            else Some(Extent(|a.entries|, a.size, a.directory))
  {
    hide LaidOut, Long, U16, U32, U64, Zip64Extent;
    assert file[start..|file|] == file[start..];
    U16InSlice(file, start, |file|, a.eocd - start + 10);
    U32InSlice(file, start, |file|, a.eocd - start + 12);
    U32InSlice(file, start, |file|, a.eocd - start + 16);
  }

  lemma RecordGivesExtent(file: seq<byte>, a: Layout)
    requires IsArchive(file, a) && a.zip64.Some?
    ensures ExtentAt(file, a.zip64.value) == Extent(|a.entries|, a.size, a.directory)
  {
    hide LaidOut, U16, U32, U64, Long;
    EntriesAreFew(file[a.directory..a.directory + a.size], a.entries);
  }

  lemma DirectoryReads(file: seq<byte>, a: Layout, start: nat)
    requires IsArchive(file, a) && start <= |file| && |file| - start <= MAX_EOCD_WINDOW
    ensures FromExtent(file, start, Extent(|a.entries|, a.size, a.directory)) == Found(a.entries)
  {
    hide LaidOut, Entries, OnlyLast, Zip64Records, PlainRecord, U16;
    var b := file[a.directory..a.directory + a.size];
    EntriesRead(b, a.entries);
    if a.directory >= start {
      assert file[start..][a.directory - start..a.directory + a.size - start] == b;
    } else {
      assert Slice(file, a.directory, a.size) == b;
      assert b[0..a.size] == b;
    }
  }

  /** What the reader makes of an archive whose end record is the last: its directory, or what the locator it sees leads to. */
  lemma ReadsByLocator(file: seq<byte>, a: Layout)
    requires IsArchive(file, a) && !FalseEnd(file, a) && a.zip64.Some?
    ensures var start := TailStart(file, Window(file, a.eocd));
            && start <= |file| && 0 <= a.eocd - LOCATOR_SIZE <= Last(file[..a.eocd], LOCATOR_SIGNATURE)
            && Directory(file) ==
               if Last(file[..a.eocd], LOCATOR_SIGNATURE) < start || PlaceRead(file, a.eocd) + ZIP64_RECORD_SIZE > |file|
               then Miss
               else FromExtent(file, start, ExtentAt(file, PlaceRead(file, a.eocd)))
  {
    hide LaidOut, FromExtent, ExtentOf, FindEocd, Zip64Extent, Last, ExtentAt, U16, U32, U64;
    EocdIsFound(file, a);
    var start := TailStart(file, Window(file, a.eocd));
    LocatorBounds(file, a.eocd);
    ExtentReads(file, a, start);
    Zip64ExtentReads(file, a.eocd, start);
  }

  lemma LocatorBounds(file: seq<byte>, eocd: nat)
    requires LOCATOR_SIZE <= eocd <= |file| && SignatureAt(file, LOCATOR_SIGNATURE, eocd - LOCATOR_SIZE)
    ensures eocd - LOCATOR_SIZE <= Last(file[..eocd], LOCATOR_SIGNATURE)
  {
    assert file[0..eocd] == file[..eocd];
    SignatureInSlice(file, 0, eocd, LOCATOR_SIGNATURE, eocd - LOCATOR_SIZE);
  }

  lemma ReadsZip64Archive(file: seq<byte>, a: Layout)
    requires IsArchive(file, a) && !FalseEnd(file, a) && a.zip64.Some? && !Misleads(file, a)
    ensures Directory(file) == if HiddenLocator(file, a) || FalseLocator(file, a) then Miss else Found(a.entries)
  {
    hide LaidOut, Directory, FromExtent, Last, ExtentAt, HiddenLocator, U16, U32;
    ReadsByLocator(file, a);
    HiddenIsOutOfWindow(file, a);
    if !HiddenLocator(file, a) && !FalseLocator(file, a) {
      RecordGivesExtent(file, a);
      DirectoryReads(file, a, TailStart(file, Window(file, a.eocd)));
    }
  }

  lemma ReadsPlainArchive(file: seq<byte>, a: Layout)
    requires IsArchive(file, a) && !FalseEnd(file, a) && a.zip64.None?
    ensures Directory(file) == Found(a.entries)
  {
    hide LaidOut, FromExtent, ExtentOf, FindEocd, Last, U16, U32, U64;
    EocdIsFound(file, a);
    var start := TailStart(file, Window(file, a.eocd));
    ExtentReads(file, a, start);
    DirectoryReads(file, a, start);
  }

  /** A false end record with no room for a whole one is not looked behind. */
  lemma RefusesFalseEnd(file: seq<byte>, a: Layout)
    requires IsArchive(file, a) && FalseEnd(file, a) && !Misleads(file, a)
    ensures Directory(file) == Miss
  {
    hide LaidOut, FromExtent, ExtentOf, FindEocd, Last, U16, U32, U64, Zip64Records, PlainRecord;
    EocdIsFound(file, a);
  }

  /**
   Reading any archive returns exactly its entries in order, wherever the directory lies, or
   nothing. It is refused exactly for bytes that pass for a later end record, for a comment
   that hides its locator, and for bytes that pass for a later locator. Only where those
   bytes lead to something that can be read as a record is that read instead.
   */
  lemma ReadsExactly(file: seq<byte>, a: Layout)
    requires IsArchive(file, a) && !Misleads(file, a)
    ensures Directory(file) ==
            if FalseEnd(file, a) || HiddenLocator(file, a) || FalseLocator(file, a) then Miss else Found(a.entries)
  {
    hide Directory, LaidOut, Zip64Records, PlainRecord, Last, Misleads, U16;
    if FalseEnd(file, a) {
      RefusesFalseEnd(file, a);
    } else if a.zip64.Some? {
      ReadsZip64Archive(file, a);
    } else {
      ReadsPlainArchive(file, a);
    }
  }

  /** Two bytes, and four, spell the number they stand for. */
  lemma Digits16(b: seq<byte>, p: nat, low: int, high: int)
    requires p + 2 <= |b| && U16(b, p) == low + 0x100 * high && 0 <= low < 0x100 && 0 <= high < 0x100
    ensures b[p] == low && b[p + 1] == high
  {
  }

  lemma Digits(b: seq<byte>, p: nat, b0: int, b1: int, b2: int, b3: int)
    requires p + 4 <= |b| && U32(b, p) == b0 + 0x100 * b1 + 0x1_0000 * (b2 + 0x100 * b3)
    requires 0 <= b0 < 0x100 && 0 <= b1 < 0x100 && 0 <= b2 < 0x100 && 0 <= b3 < 0x100
    ensures b[p] == b0 && b[p + 1] == b1 && b[p + 2] == b2 && b[p + 3] == b3
  {
    hide U16;
    Halved(U16(b, p), U16(b, p + 2), b0 + 0x100 * b1, b2 + 0x100 * b3);
    Digits16(b, p, b0, b1);
    Digits16(b, p + 2, b2, b3);
  }

  lemma Halved(low: int, high: int, low2: int, high2: int)
    requires 0 <= low < 0x1_0000 && 0 <= low2 < 0x1_0000 && low + 0x1_0000 * high == low2 + 0x1_0000 * high2
    ensures low == low2 && high == high2
  {
  }

  /** The three signatures, byte by byte: "PK" and two more. */
  lemma SignaturesAre(b: seq<byte>, p: nat)
    requires p + 4 <= |b|
    ensures U32(b, p) == CENTRAL_SIGNATURE <==> b[p] == 0x50 && b[p + 1] == 0x4B && b[p + 2] == 0x01 && b[p + 3] == 0x02
    ensures U32(b, p) == EOCD_SIGNATURE <==> b[p] == 0x50 && b[p + 1] == 0x4B && b[p + 2] == 0x05 && b[p + 3] == 0x06
    ensures U32(b, p) == LOCATOR_SIGNATURE <==> b[p] == 0x50 && b[p + 1] == 0x4B && b[p + 2] == 0x06 && b[p + 3] == 0x07
  {
    if U32(b, p) == CENTRAL_SIGNATURE {
      Digits(b, p, 0x50, 0x4B, 0x01, 0x02);
    } else if U32(b, p) == EOCD_SIGNATURE {
      Digits(b, p, 0x50, 0x4B, 0x05, 0x06);
    } else if U32(b, p) == LOCATOR_SIGNATURE {
      Digits(b, p, 0x50, 0x4B, 0x06, 0x07);
    }
  }

  /** A false locator can only stand in the 8 bytes that name the place of the 64-bit record. */
  lemma WhereFalseLocatorsStand(file: seq<byte>, a: Layout, k: nat)
    requires EndRecord(file, a.eocd) && a.zip64.Some? && Zip64Records(file, a, a.zip64.value)
    requires a.eocd - LOCATOR_SIZE < k && SignatureAt(file[..a.eocd], LOCATOR_SIGNATURE, k)
    ensures a.eocd - 12 <= k <= a.eocd - 8 && SignatureAt(file, LOCATOR_SIGNATURE, k)
  {
    hide U32, U64;
    var l := a.eocd - LOCATOR_SIZE;
    assert file[0..a.eocd] == file[..a.eocd];
    SignatureInSlice(file, 0, a.eocd, LOCATOR_SIGNATURE, k);
    Digits(file, l, 0x50, 0x4B, 0x06, 0x07);
    Digits(file, l + 4, 0, 0, 0, 0);
    Digits(file, l + 16, 1, 0, 0, 0);
    Digits(file, k, 0x50, 0x4B, 0x06, 0x07);
  }

  /** A file with a false locator past the first two bytes of the place is larger than this. */
  const MISLED_SIZE := 0x0706_4B50_0000

  lemma PlaceIsLarge(b: seq<byte>, p: nat, j: nat)
    requires 2 <= j <= 4 && p + 8 <= |b| && SignatureAt(b, LOCATOR_SIGNATURE, p + j)
    ensures U64(b, p) >= MISLED_SIZE
  {
    Digits(b, p + j, 0x50, 0x4B, 0x06, 0x07);
  }

  lemma PlaceReadIsLarge(file: seq<byte>, a: Layout, j: nat)
    requires EndRecord(file, a.eocd) && a.zip64.Some? && Zip64Records(file, a, a.zip64.value) && j <= 1
    ensures U64(file, a.eocd - 4 + j) >= MISLED_SIZE
  {
    Digits(file, a.eocd - 4, 1, 0, 0, 0);
    Digits(file, a.eocd, 0x50, 0x4B, 0x05, 0x06);
  }

  /** No archive of less than 7.7 TB misleads the reader, unless its comment has room for a false end record. */
  lemma MisleadingTakesRoom(file: seq<byte>, a: Layout)
    requires IsArchive(file, a) && |file| < MISLED_SIZE && (FalseEnd(file, a) ==> U16(file, a.eocd + 20) == 0)
    ensures !Misleads(file, a)
  {
    hide LaidOut, U16, U32, U64, Last;
    if !FalseEnd(file, a) && FalseLocator(file, a) {
      var k := Last(file[..a.eocd], LOCATOR_SIGNATURE);
      WhereFalseLocatorsStand(file, a, k);
      var j := k - (a.eocd - 12);
      if j >= 2 {
        PlaceIsLarge(file, a.eocd - 12, j);
      } else {
        PlaceReadIsLarge(file, a, j);
      }
    }
  }

  /** Without a comment nothing else can happen to an archive of less than 7.7 TB. */
  lemma ReadsExactlyWithoutComment(file: seq<byte>, a: Layout)
    requires IsArchive(file, a) && U16(file, a.eocd + 20) == 0 && |file| < MISLED_SIZE
    ensures Directory(file) == if FalseEnd(file, a) || FalseLocator(file, a) then Miss else Found(a.entries)
  {
    hide IsArchive, Directory, Last, U16;
    MisleadingTakesRoom(file, a);
    ReadsExactly(file, a);
  }

  /** No directory of more than 64 MiB is read, wherever it is said to lie. */
  lemma OversizedIsRefused(file: seq<byte>, start: nat, x: Extent)
    requires start <= |file| && x.size > 0x400_0000
    ensures FromExtent(file, start, x) == Miss
  {
  }

  // ----- When the probe throws

  lemma SumWraps(offset: int, size: int)
    requires 0 <= offset < LONG_LIMIT && 0 < size <= MAX_DIRECTORY_BYTES && offset + size >= LONG_LIMIT
    ensures Long(offset + size) == offset + size - 2 * LONG_LIMIT < 0
  {
    var low := offset + size - LONG_LIMIT;
    assert (low + 2 * LONG_LIMIT) % (2 * LONG_LIMIT) == low;
  }

  /**
   The sum of offset and size wraps past the 64-bit range, so that it passes for a place in
   the file; and the 32-bit span that is then read from does not lie in the bytes at hand.
   */
  predicate Escapes(file: seq<byte>, start: nat, x: Extent) {
    && 0 < x.count && 0 < x.size <= MAX_DIRECTORY_BYTES && 0 <= x.offset && x.offset + x.size >= LONG_LIMIT
    && if x.offset < start then CENTRAL_SIZE <= x.size
       else
         var first := Int(x.offset - start);
         var end := Int(first + x.size);
         !(0 <= first <= end <= |file| - start) && Int(first + CENTRAL_SIZE) <= end
  }

  /** Reading an extent throws exactly when it escapes, for every file and every tail that is read. */
  lemma ThrowsOnlyOnWrap(file: seq<byte>, start: nat, x: Extent)
    requires start <= |file| < LONG_LIMIT && |file| - start <= MAX_EOCD_WINDOW && x.offset < LONG_LIMIT
    ensures FromExtent(file, start, x) == Throws <==> Escapes(file, start, x)
  {
    hide Long, Int, Entries;
    if 0 < x.size <= MAX_DIRECTORY_BYTES && 0 <= x.offset {
      if x.offset + x.size >= LONG_LIMIT {
        SumWraps(x.offset, x.size);
      } else {
        assert Long(x.offset + x.size) == x.offset + x.size;
      }
    }
  }

  /** The extent a file's end records give, with the start of the tail they stand in. */
  function GivenExtent(file: seq<byte>): Option<(nat, Extent)> {
    if |file| < EOCD_SIZE then None
    else match FindEocd(file)
      case None => None
      case Some((start, eocd)) =>
        if eocd + EOCD_SIZE > |file[start..]| then None
        else match ExtentOf(file, file[start..], eocd)
          case None => None
          case Some(x) => Some((start, x))
  }

  /** Reading a file throws exactly when its end records give an extent that escapes. */
  lemma ReadingThrowsExactly(file: seq<byte>)
    requires |file| < LONG_LIMIT
    ensures Directory(file) == Throws <==>
            var given := GivenExtent(file);
            given.Some? && Escapes(file, given.value.0, given.value.1)
  {
    hide FromExtent, Escapes, Last, U16, U32, U64, Slice;
    var given := GivenExtent(file);
    if given.Some? {
      var (start, x) := given.value;
      ThrowsOnlyOnWrap(file, start, x);
      assert Directory(file) == FromExtent(file, start, x);
    }
  }

  lemma CastIsNegative(offset: int, start: int)
    requires LONG_LIMIT - MAX_DIRECTORY_BYTES <= offset < LONG_LIMIT
    requires 0 <= start <= INT_LIMIT - MAX_DIRECTORY_BYTES
    ensures Int(offset - start) == offset - LONG_LIMIT - start < 0
  {
    var rest := INT_LIMIT + offset - LONG_LIMIT - start;
    assert (rest + 0x8000_0000 * (2 * INT_LIMIT)) % (2 * INT_LIMIT) == rest;
  }

  /**
   For files of up to 2 GiB less the directory limit an extent with records to read escapes
   whenever its sum wraps and it has room for one record.
   */
  lemma SmallFilesAlwaysEscape(file: seq<byte>, start: nat, x: Extent)
    requires start <= |file| <= INT_LIMIT - MAX_DIRECTORY_BYTES && x.offset < LONG_LIMIT
    ensures Escapes(file, start, x) <==>
              0 < x.count && CENTRAL_SIZE <= x.size <= MAX_DIRECTORY_BYTES && 0 <= x.offset
              && x.offset + x.size >= LONG_LIMIT
  {
    hide Int;
    if 0 < x.size <= MAX_DIRECTORY_BYTES && 0 <= x.offset && x.offset + x.size >= LONG_LIMIT {
      CastIsNegative(x.offset, start);
    }
  }

  /** In a larger file the cast of a wrapped extent can land inside the tail, and other bytes are read instead. */
  lemma LargeFilesNeedNotThrow(file: seq<byte>)
    requires |file| == 0x1_0000_0000 + 3996
    ensures var x := Extent(1, CENTRAL_SIZE, LONG_LIMIT - 1);
            x.offset + x.size >= LONG_LIMIT && FromExtent(file, |file| - TAIL_WINDOW, x) != Throws
  {
    hide Long, Int, Entries;
    var start, x := |file| - TAIL_WINDOW, Extent(1, CENTRAL_SIZE, LONG_LIMIT - 1);
    CastLandsInTail();
    ThrowsOnlyOnWrap(file, start, x);
  }

  lemma CastLandsInTail()
    ensures Int(LONG_LIMIT - 1 - (0x1_0000_0000 - 100)) == 99
  {
    var low := 99 + INT_LIMIT;
    assert (low + 0x7FFF_FFFF * (2 * INT_LIMIT)) % (2 * INT_LIMIT) == low;
  }

  // ----- A writer, and what it writes is an archive

  function Le16(v: int): (r: seq<byte>)
    requires 0 <= v < 0x1_0000
    ensures |r| == 2 && U16(r, 0) == v
  {
    [v % 0x100, v / 0x100]
  }

  function Le32(v: int): (r: seq<byte>)
    requires 0 <= v < 0x1_0000_0000
    ensures |r| == 4 && U32(r, 0) == v
  {
    Le16(v % 0x1_0000) + Le16(v / 0x1_0000)
  }

  function Le64(v: int): (r: seq<byte>)
    requires 0 <= v < 0x1_0000_0000_0000_0000
    ensures |r| == 8 && U64(r, 0) == v
  {
    Halves(Le32(v % 0x1_0000_0000), Le32(v / 0x1_0000_0000));
    Le32(v % 0x1_0000_0000) + Le32(v / 0x1_0000_0000)
  }

  lemma Halves(low: seq<byte>, high: seq<byte>)
    requires |low| == |high| == 4
    ensures U32(low + high, 0) == U32(low, 0) && U32(low + high, 4) == U32(high, 0)
  {
  }

  /**
   What a writer may choose in a central header: which values its 32-bit fields leave to the
   Zip64 block, the bytes a reader ignores, and those that follow the Zip64 block.
   */
  datatype Trimmings = Trimmings(fields: Sizes, versions: seq<byte>, times: seq<byte>, attributes: seq<byte>,
                                 extra: seq<byte>, comment: seq<byte>)

  predicate Fits32(value: int) {
    0 <= value < 0x1_0000_0000
  }

  function Values64(values: seq<int>): (r: seq<byte>)
    requires forall k :: 0 <= k < |values| ==> 0 <= values[k] < LONG_LIMIT
    ensures |r| == 8 * |values|
  {
    if values == [] then [] else Le64(values[0]) + Values64(values[1..])
  }

  function ExtraOf(c: CentralEntry, t: Trimmings): (r: seq<byte>)
    requires Storable(c)
    ensures |r| <= |t.extra| + 28
  {
    var values := Deferred(t.fields, c);
    if values == [] then t.extra else Le16(1) + Le16(8 * |values|) + Values64(values) + t.extra
  }

  predicate Writable(c: CentralEntry, t: Trimmings) {
    && Storable(c) && Fits32(c.crc32) && AllStandFor(t.fields, c)
    && Fits32(t.fields.uncompressed) && Fits32(t.fields.compressed) && Fits32(t.fields.offset)
    && 0 <= c.compression < 0x1_0000 && 0 <= c.flags < 0x1_0000
    && |t.versions| == 4 && |t.times| == 4 && |t.attributes| == 8
    && |c.name| < 0x1_0000 && |ExtraOf(c, t)| < 0x1_0000 && |t.comment| < 0x1_0000
  }

  function FixedHead(c: CentralEntry, t: Trimmings): seq<byte>
    requires Writable(c, t)
  {
    Le32(CENTRAL_SIGNATURE) + t.versions + Le16(c.flags) + Le16(c.compression) + t.times + Le32(c.crc32)
    + Le32(t.fields.compressed) + Le32(t.fields.uncompressed)
  }

  function FixedRest(c: CentralEntry, t: Trimmings): seq<byte>
    requires Writable(c, t)
  {
    Le16(|c.name|) + Le16(|ExtraOf(c, t)|) + Le16(|t.comment|) + t.attributes + Le32(t.fields.offset)
  }

  function FixedPart(c: CentralEntry, t: Trimmings): seq<byte>
    requires Writable(c, t)
  {
    FixedHead(c, t) + FixedRest(c, t)
  }

  function EncodeEntry(c: CentralEntry, t: Trimmings): seq<byte>
    requires Writable(c, t)
  {
    FixedPart(c, t) + c.name + ExtraOf(c, t) + t.comment
  }

  lemma Reads16(b: seq<byte>, p: nat, v: int)
    requires 0 <= v < 0x1_0000 && p + 2 <= |b| && b[p..p + 2] == Le16(v)
    ensures U16(b, p) == v
  {
    U16InSlice(b, p, p + 2, 0);
  }

  lemma Reads32(b: seq<byte>, p: nat, v: int)
    requires 0 <= v < 0x1_0000_0000 && p + 4 <= |b| && b[p..p + 4] == Le32(v)
    ensures U32(b, p) == v
  {
    U32InSlice(b, p, p + 4, 0);
  }

  lemma Reads64(b: seq<byte>, p: nat, v: int)
    requires 0 <= v < 0x1_0000_0000_0000_0000 && p + 8 <= |b| && b[p..p + 8] == Le64(v)
    ensures U64(b, p) == v
  {
    U64InSlice(b, p, p + 8, 0);
  }

  lemma FixedHeadReads(c: CentralEntry, t: Trimmings, b: seq<byte>)
    requires Writable(c, t) && FixedHead(c, t) <= b
    ensures |FixedHead(c, t)| == 28
    ensures U32(b, 0) == CENTRAL_SIGNATURE && U16(b, 8) == c.flags && U16(b, 10) == c.compression
    ensures U32(b, 16) == c.crc32 && U32(b, 20) == t.fields.compressed && U32(b, 24) == t.fields.uncompressed
  {
    hide U16, U32, Le16, Le32, ExtraOf;
    var f := FixedHead(c, t);
    assert forall i, j :: 0 <= i <= j <= |f| ==> b[i..j] == f[i..j];
    assert f[0..4] == Le32(CENTRAL_SIGNATURE);
    Reads32(b, 0, CENTRAL_SIGNATURE);
    assert f[8..10] == Le16(c.flags);
    Reads16(b, 8, c.flags);
    assert f[10..12] == Le16(c.compression);
    Reads16(b, 10, c.compression);
    assert f[16..20] == Le32(c.crc32);
    Reads32(b, 16, c.crc32);
    assert f[20..24] == Le32(t.fields.compressed);
    Reads32(b, 20, t.fields.compressed);
    assert f[24..28] == Le32(t.fields.uncompressed);
    Reads32(b, 24, t.fields.uncompressed);
  }

  lemma FixedRestReads(c: CentralEntry, t: Trimmings, b: seq<byte>)
    requires Writable(c, t) && 28 <= |b| && FixedRest(c, t) <= b[28..]
    ensures |FixedRest(c, t)| == CENTRAL_SIZE - 28
    ensures U16(b, 28) == |c.name| && U16(b, 30) == |ExtraOf(c, t)| && U16(b, 32) == |t.comment|
    ensures U32(b, 42) == t.fields.offset
  {
    hide U16, U32, Le16, Le32, ExtraOf;
    var f := FixedRest(c, t);
    assert forall i, j :: 0 <= i <= j <= |f| ==> b[28 + i..28 + j] == f[i..j];
    assert f[0..2] == Le16(|c.name|);
    Reads16(b, 28, |c.name|);
    assert f[2..4] == Le16(|ExtraOf(c, t)|);
    Reads16(b, 30, |ExtraOf(c, t)|);
    assert f[4..6] == Le16(|t.comment|);
    Reads16(b, 32, |t.comment|);
    assert f[14..18] == Le32(t.fields.offset);
    Reads32(b, 42, t.fields.offset);
  }

  lemma FixedPartReads(c: CentralEntry, t: Trimmings, b: seq<byte>)
    requires Writable(c, t) && FixedPart(c, t) <= b
    ensures |FixedPart(c, t)| == CENTRAL_SIZE
    ensures U32(b, 0) == CENTRAL_SIGNATURE && U16(b, 8) == c.flags && U16(b, 10) == c.compression
    ensures U32(b, 16) == c.crc32 && FieldSizes(b) == t.fields
    ensures U16(b, 28) == |c.name| && U16(b, 30) == |ExtraOf(c, t)| && U16(b, 32) == |t.comment|
  {
    hide U16, U32, ExtraOf, FixedHead, FixedRest, Writable;
    var f, h := FixedPart(c, t), FixedHead(c, t);
    assert h == f[..|h|] == b[..|h|];
    FixedHeadReads(c, t, b);
    assert FixedRest(c, t) == f[28..] == b[28..][..|f| - 28];
    FixedRestReads(c, t, b);
  }

  lemma {:induction false} Values64Read(values: seq<int>, b: seq<byte>, p: nat)
    requires forall k :: 0 <= k < |values| ==> 0 <= values[k] < LONG_LIMIT
    requires p + 8 * |values| <= |b| && b[p..p + 8 * |values|] == Values64(values)
    ensures forall k :: 0 <= k < |values| ==> U64(b, p + 8 * k) == values[k]
    decreases |values|
  {
    hide U64, Le64;
    if values != [] {
      var run := b[p..p + 8 * |values|];
      assert run[..8] == Le64(values[0]) && run[8..] == Values64(values[1..]);
      assert b[p..p + 8] == run[..8] && b[p + 8..p + 8 + 8 * |values[1..]|] == run[8..];
      Reads64(b, p, values[0]);
      Values64Read(values[1..], b, p + 8);
      forall k | 0 <= k < |values| ensures U64(b, p + 8 * k) == values[k] {
        if k > 0 {
          assert U64(b, p + 8 + 8 * (k - 1)) == values[1..][k - 1];
        }
      }
    }
  }

  lemma ExtraHolds(c: CentralEntry, t: Trimmings)
    requires Storable(c) && Deferred(t.fields, c) != []
    ensures HoldsZip64(ExtraOf(c, t), 0, Deferred(t.fields, c))
  {
    hide U16, U64;
    var values, extra := Deferred(t.fields, c), ExtraOf(c, t);
    assert extra[0..2] == Le16(1);
    Reads16(extra, 0, 1);
    assert extra[2..4] == Le16(8 * |values|);
    Reads16(extra, 2, 8 * |values|);
    assert extra[4..4 + 8 * |values|] == Values64(values);
    Values64Read(values, extra, 4);
  }

  lemma EncodedIsRecord(c: CentralEntry, t: Trimmings, b: seq<byte>)
    requires Writable(c, t) && EncodeEntry(c, t) <= b
    ensures IsRecord(b, c) && RecordLength(b) == |EncodeEntry(c, t)|
  {
    hide U16, U32, ExtraOf;
    var f, e, n, extra := FixedPart(c, t), EncodeEntry(c, t), |c.name|, ExtraOf(c, t);
    assert f <= b by {
      assert e[..|f|] == f;
    }
    FixedPartReads(c, t, b);
    assert b[CENTRAL_SIZE..CENTRAL_SIZE + n] == e[CENTRAL_SIZE..CENTRAL_SIZE + n] == c.name;
    assert b[CENTRAL_SIZE + n..CENTRAL_SIZE + n + |extra|] == e[CENTRAL_SIZE + n..CENTRAL_SIZE + n + |extra|] == extra;
    if Deferred(t.fields, c) != [] {
      ExtraHolds(c, t);
    }
  }

  ghost predicate AllWritable(entries: seq<CentralEntry>, ts: seq<Trimmings>) {
    |ts| == |entries| && forall k :: 0 <= k < |entries| ==> Writable(entries[k], ts[k])
  }

  ghost function EncodeAll(entries: seq<CentralEntry>, ts: seq<Trimmings>): seq<byte>
    requires AllWritable(entries, ts)
  {
    if entries == [] then [] else EncodeEntry(entries[0], ts[0]) + EncodeAll(entries[1..], ts[1..])
  }

  lemma {:induction false} EncodedIsLaidOut(entries: seq<CentralEntry>, ts: seq<Trimmings>, b: seq<byte>)
    requires AllWritable(entries, ts) && EncodeAll(entries, ts) <= b
    ensures LaidOut(b, entries)
    decreases |entries|
  {
    hide IsRecord, EncodeEntry, RecordLength, Writable;
    if entries != [] {
      var head, rest := EncodeEntry(entries[0], ts[0]), EncodeAll(entries[1..], ts[1..]);
      assert head <= b && b[|head|..][..|rest|] == rest by {
        assert b[..|head| + |rest|] == head + rest;
      }
      EncodedIsRecord(entries[0], ts[0], b);
      assert rest <= b[|head|..];
      EncodedIsLaidOut(entries[1..], ts[1..], b[|head|..]);
    }
  }

  function EndBytes(count: int, size: int, offset: int, comment: seq<byte>): seq<byte>
    requires 0 <= count < 0x1_0000 && 0 <= size < 0x1_0000_0000 && 0 <= offset < 0x1_0000_0000 && |comment| < 0x1_0000
  {
    Le32(EOCD_SIGNATURE) + Le32(0) + Le16(count) + Le16(count) + Le32(size) + Le32(offset) + Le16(|comment|) + comment
  }

  function RecordBytes(x: Extent): seq<byte>
    requires 0 <= x.count < LONG_LIMIT && 0 <= x.size < LONG_LIMIT && 0 <= x.offset < LONG_LIMIT
  {
    Le32(0x06064B50) + Le64(44) + Le32(0x2D_002D) + Le64(0) + Le64(x.count) + Le64(x.count) + Le64(x.size) + Le64(x.offset)
  }

  function LocatorBytes(at: int): seq<byte>
    requires 0 <= at < LONG_LIMIT
  {
    Le32(LOCATOR_SIGNATURE) + Le32(0) + Le64(at) + Le32(1)
  }

  /** The end of an archive whose directory lies at `x`: plain, or by way of a 64-bit record. */
  function Ending(x: Extent, comment: seq<byte>, zip64: bool): seq<byte>
    requires 0 <= x.count && 0 <= x.size && 0 <= x.offset && x.offset + x.size < LONG_LIMIT && x.count < LONG_LIMIT
    requires |comment| < 0x1_0000
    requires !zip64 ==> x.count < SENTINEL16 && x.size < SENTINEL32 && x.offset < SENTINEL32
  {
    if zip64 then RecordBytes(x) + LocatorBytes(x.offset + x.size) + EndBytes(SENTINEL16, SENTINEL32, SENTINEL32, comment)
    else EndBytes(x.count, x.size, x.offset, comment)
  }

  lemma SubSlice(b: seq<byte>, p: nat, part: seq<byte>, i: nat, j: nat)
    requires i <= j <= |part| && p + |part| <= |b| && b[p..p + |part|] == part
    ensures b[p + i..p + j] == part[i..j]
  {
    var x, y := b[p + i..p + j], part[i..j];
    forall k | 0 <= k < |x| ensures x[k] == y[k] {
      assert b[p..p + |part|][i + k] == b[p + i + k];
    }
  }

  lemma EndBytesRead(b: seq<byte>, p: nat, count: int, size: int, offset: int, comment: seq<byte>)
    requires 0 <= count < 0x1_0000 && 0 <= size < 0x1_0000_0000 && 0 <= offset < 0x1_0000_0000 && |comment| < 0x1_0000
    requires p <= |b| && b[p..] == EndBytes(count, size, offset, comment)
    ensures |b| == p + EOCD_SIZE + |comment|
    ensures SignatureAt(b, EOCD_SIGNATURE, p) && U16(b, p + 10) == count && U32(b, p + 12) == size
    ensures U32(b, p + 16) == offset && U16(b, p + 20) == |comment|
  {
    hide U16, U32, Le16, Le32;
    var e := EndBytes(count, size, offset, comment);
    assert b[p..p + |e|] == e;
    SubSlice(b, p, e, 0, 4);
    assert e[0..4] == Le32(EOCD_SIGNATURE);
    Reads32(b, p, EOCD_SIGNATURE);
    SubSlice(b, p, e, 10, 12);
    assert e[10..12] == Le16(count);
    Reads16(b, p + 10, count);
    SubSlice(b, p, e, 12, 16);
    assert e[12..16] == Le32(size);
    Reads32(b, p + 12, size);
    SubSlice(b, p, e, 16, 20);
    assert e[16..20] == Le32(offset);
    Reads32(b, p + 16, offset);
    SubSlice(b, p, e, 20, 22);
    assert e[20..22] == Le16(|comment|);
    Reads16(b, p + 20, |comment|);
  }

  lemma RecordBytesRead(b: seq<byte>, p: nat, x: Extent)
    requires 0 <= x.count < LONG_LIMIT && 0 <= x.size < LONG_LIMIT && 0 <= x.offset < LONG_LIMIT
    requires p + ZIP64_RECORD_SIZE <= |b| && b[p..p + ZIP64_RECORD_SIZE] == RecordBytes(x)
    ensures U64(b, p + 32) == x.count && U64(b, p + 40) == x.size && U64(b, p + 48) == x.offset
  {
    hide U64, Le32, Le64;
    var e := RecordBytes(x);
    SubSlice(b, p, e, 32, 40);
    assert e[32..40] == Le64(x.count);
    Reads64(b, p + 32, x.count);
    SubSlice(b, p, e, 40, 48);
    assert e[40..48] == Le64(x.size);
    Reads64(b, p + 40, x.size);
    SubSlice(b, p, e, 48, 56);
    assert e[48..56] == Le64(x.offset);
    Reads64(b, p + 48, x.offset);
  }

  lemma LocatorBytesRead(b: seq<byte>, p: nat, at: int)
    requires 0 <= at < LONG_LIMIT && p + LOCATOR_SIZE <= |b| && b[p..p + LOCATOR_SIZE] == LocatorBytes(at)
    ensures SignatureAt(b, LOCATOR_SIGNATURE, p) && U64(b, p + 8) == at
    ensures U32(b, p + 4) == 0 && U32(b, p + 16) == 1
  {
    hide U32, U64, Le32, Le64;
    var e := LocatorBytes(at);
    SubSlice(b, p, e, 0, 4);
    assert e[0..4] == Le32(LOCATOR_SIGNATURE);
    Reads32(b, p, LOCATOR_SIGNATURE);
    SubSlice(b, p, e, 4, 8);
    assert e[4..8] == Le32(0);
    Reads32(b, p + 4, 0);
    SubSlice(b, p, e, 8, 16);
    assert e[8..16] == Le64(at);
    Reads64(b, p + 8, at);
    SubSlice(b, p, e, 16, 20);
    assert e[16..20] == Le32(1);
    Reads32(b, p + 16, 1);
  }

  /** A whole archive: any bytes, the directory, and its ending. */
  ghost function WriteArchive(body: seq<byte>, entries: seq<CentralEntry>, ts: seq<Trimmings>,
                              comment: seq<byte>, zip64: bool): seq<byte>
    requires AllWritable(entries, ts) && |comment| < 0x1_0000
    requires |entries| < LONG_LIMIT && |body| + |EncodeAll(entries, ts)| < LONG_LIMIT
    requires !zip64 ==> |entries| < SENTINEL16 && |EncodeAll(entries, ts)| < SENTINEL32 && |body| < SENTINEL32
  {
    var directory := EncodeAll(entries, ts);
    body + directory + Ending(Extent(|entries|, |directory|, |body|), comment, zip64)
  }

  /** Where the writer puts things. */
  ghost function LayoutOf(body: seq<byte>, entries: seq<CentralEntry>, ts: seq<Trimmings>, zip64: bool): Layout
    requires AllWritable(entries, ts)
  {
    var size := |EncodeAll(entries, ts)|;
    var after := |body| + size;
    if zip64 then Layout(entries, after + ZIP64_RECORD_SIZE + LOCATOR_SIZE, |body|, size, Some(after))
    else Layout(entries, after, |body|, size, None)
  }

  lemma WrittenEnd(file: seq<byte>, before: seq<byte>, x: Extent, comment: seq<byte>, zip64: bool)
    requires 0 <= x.count < LONG_LIMIT && 0 <= x.size && x.offset >= 0 && x.offset + x.size == |before| < LONG_LIMIT
    requires |comment| < 0x1_0000
    requires !zip64 ==> x.count < SENTINEL16 && x.size < SENTINEL32 && x.offset < SENTINEL32
    requires file == before + Ending(x, comment, zip64)
    ensures var eocd := |before| + if zip64 then ZIP64_RECORD_SIZE + LOCATOR_SIZE else 0;
            && |file| == eocd + EOCD_SIZE + |comment| && SignatureAt(file, EOCD_SIGNATURE, eocd)
            && U16(file, eocd + 10) == (if zip64 then SENTINEL16 else x.count)
            && U32(file, eocd + 12) == (if zip64 then SENTINEL32 else x.size)
            && U32(file, eocd + 16) == (if zip64 then SENTINEL32 else x.offset)
            && U16(file, eocd + 20) == |comment|
    ensures zip64 ==>
              && U64(file, |before| + 32) == x.count && U64(file, |before| + 40) == x.size
              && U64(file, |before| + 48) == x.offset
              && SignatureAt(file, LOCATOR_SIGNATURE, |before| + ZIP64_RECORD_SIZE)
              && U32(file, |before| + ZIP64_RECORD_SIZE + 4) == 0
              && U64(file, |before| + ZIP64_RECORD_SIZE + 8) == |before|
              && U32(file, |before| + ZIP64_RECORD_SIZE + 16) == 1
  {
    hide U16, U32, U64, EndBytes, RecordBytes, LocatorBytes;
    var n := |before|;
    if zip64 {
      RecordLengths(x, n);
      var end := EndBytes(SENTINEL16, SENTINEL32, SENTINEL32, comment);
      assert file[n..n + ZIP64_RECORD_SIZE] == RecordBytes(x);
      assert file[n + ZIP64_RECORD_SIZE..n + ZIP64_RECORD_SIZE + LOCATOR_SIZE] == LocatorBytes(n);
      assert file[n + ZIP64_RECORD_SIZE + LOCATOR_SIZE..] == end;
      RecordBytesRead(file, n, x);
      LocatorBytesRead(file, n + ZIP64_RECORD_SIZE, n);
      EndBytesRead(file, n + ZIP64_RECORD_SIZE + LOCATOR_SIZE, SENTINEL16, SENTINEL32, SENTINEL32, comment);
    } else {
      assert file[n..] == EndBytes(x.count, x.size, x.offset, comment);
      EndBytesRead(file, n, x.count, x.size, x.offset, comment);
    }
  }

  lemma RecordLengths(x: Extent, at: int)
    requires 0 <= x.count < LONG_LIMIT && 0 <= x.size < LONG_LIMIT && 0 <= x.offset < LONG_LIMIT
    requires 0 <= at < LONG_LIMIT
    ensures |RecordBytes(x)| == ZIP64_RECORD_SIZE && |LocatorBytes(at)| == LOCATOR_SIZE
  {
  }

  /** Anything written is an archive, and reading it gives back the entries, with or without the 64-bit records. */
  lemma ReadsBackWhatWasWritten(body: seq<byte>, entries: seq<CentralEntry>, ts: seq<Trimmings>,
                                comment: seq<byte>, zip64: bool, file: seq<byte>)
    requires AllWritable(entries, ts) && entries != [] && |comment| < 0x1_0000 && |file| < LONG_LIMIT
    requires |entries| < LONG_LIMIT && |EncodeAll(entries, ts)| <= MAX_DIRECTORY_BYTES
    requires |body| + |EncodeAll(entries, ts)| < LONG_LIMIT
    requires !zip64 ==> |entries| < SENTINEL16 && |body| < SENTINEL32
    requires file == WriteArchive(body, entries, ts, comment, zip64)
    ensures var a := LayoutOf(body, entries, ts, zip64);
            && IsArchive(file, a)
            && (!Misleads(file, a) ==>
                  Directory(file) ==
                  if FalseEnd(file, a) || (zip64 && Hides(|comment|)) || FalseLocator(file, a) then Miss
                  else Found(entries))
  {
    hide U16, U32, U64, Ending, EncodeAll, LaidOut, AllWritable, Last, Directory;
    var directory, a := EncodeAll(entries, ts), LayoutOf(body, entries, ts, zip64);
    WrittenEnd(file, body + directory, Extent(|entries|, |directory|, |body|), comment, zip64);
    assert file[a.directory..a.directory + a.size] == directory;
    EncodedIsLaidOut(entries, ts, directory);
    EntriesAreFew(directory, entries);
    assert IsArchive(file, a);
    if !Misleads(file, a) {
      ReadsExactly(file, a);
    }
  }

  // ----- Files that are refused, and one that makes the reader throw

  lemma SignatureStartsWithP(b: seq<byte>, signature: int, k: int)
    requires signature == EOCD_SIGNATURE || signature == LOCATOR_SIGNATURE
    requires SignatureAt(b, signature, k)
    ensures b[k] == 0x50
  {
  }

  /** Nowhere past its first `from` bytes can a signature start. */
  predicate NoP(b: seq<byte>, from: nat) {
    forall k :: from <= k < |b| ==> b[k] != 0x50
  }

  lemma NoPConcat(a: seq<byte>, b: seq<byte>)
    requires NoP(a, 1) && a != [] && NoP(b, 0)
    ensures NoP(a + b, 1) && a + b != []
  {
  }

  lemma NoPSignatures()
    ensures NoP(Le32(EOCD_SIGNATURE), 1) && NoP(Le32(LOCATOR_SIGNATURE), 1)
  {
    assert Le32(EOCD_SIGNATURE) == [0x50, 0x4B, 0x05, 0x06];
    assert Le32(LOCATOR_SIGNATURE) == [0x50, 0x4B, 0x06, 0x07];
  }

  lemma NoPSmall(v: int)
    requires 0 <= v < 0x50
    ensures NoP(Le32(v), 0)
  {
    assert Le32(v) == [v, 0, 0, 0];
  }

  lemma NoPSentinels()
    ensures NoP(Le16(SENTINEL16), 0) && NoP(Le32(SENTINEL32), 0)
  {
    assert Le32(SENTINEL32) == Le16(SENTINEL16) + Le16(SENTINEL16);
  }

  lemma NoPPlace(at: int)
    requires 0 <= at < 0x50
    ensures NoP(Le64(at), 0)
  {
    hide Le32;
    NoPSmall(at);
    NoPSmall(0);
    assert Le64(at) == Le32(at) + Le32(0);
  }

  /** After its first byte the locator of a small place holds nothing a signature could start with. */
  lemma LocatorHasOneP(at: int)
    requires 0 <= at < 0x50
    ensures |LocatorBytes(at)| == LOCATOR_SIZE && NoP(LocatorBytes(at), 1)
  {
    hide NoP, Le32, Le64;
    NoPSignatures();
    NoPSmall(0);
    NoPSmall(1);
    NoPPlace(at);
    var a := Le32(LOCATOR_SIGNATURE) + Le32(0);
    NoPConcat(Le32(LOCATOR_SIGNATURE), Le32(0));
    NoPConcat(a, Le64(at));
    NoPConcat(a + Le64(at), Le32(1));
  }

  function Zeros(n: nat): (r: seq<byte>)
    ensures |r| == n
  {
    seq(n, _ => 0)
  }

  /** The end record of a Zip64 archive, with a comment of `n` zero bytes. */
  function SentinelEnd(n: nat): seq<byte>
    requires n < 0x1_0000
  {
    EndBytes(SENTINEL16, SENTINEL32, SENTINEL32, Zeros(n))
  }

  lemma NoPLength(n: nat)
    requires n == 0 || Hides(n)
    ensures n < 0x1_0000 && NoP(Le16(n), 0) && NoP(Zeros(n), 0)
  {
    assert n % 0x100 != 0x50 && n / 0x100 != 0x50;
  }

  lemma EndHasOneP(n: nat)
    requires n == 0 || Hides(n)
    ensures |SentinelEnd(n)| == EOCD_SIZE + n && NoP(SentinelEnd(n), 1)
  {
    hide NoP, Le16, Le32, Zeros;
    NoPSignatures();
    NoPSmall(0);
    NoPSentinels();
    NoPLength(n);
    var a := Le32(EOCD_SIGNATURE) + Le32(0);
    var b := a + Le16(SENTINEL16) + Le16(SENTINEL16);
    var c := b + Le32(SENTINEL32) + Le32(SENTINEL32);
    NoPConcat(Le32(EOCD_SIGNATURE), Le32(0));
    NoPConcat(a, Le16(SENTINEL16));
    NoPConcat(a + Le16(SENTINEL16), Le16(SENTINEL16));
    NoPConcat(b, Le32(SENTINEL32));
    NoPConcat(b + Le32(SENTINEL32), Le32(SENTINEL32));
    NoPConcat(c, Le16(n));
    NoPConcat(c + Le16(n), Zeros(n));
  }

  /** The last end record and the last locator of a file that ends in such a pair are the ones written. */
  lemma OneOfEach(before: seq<byte>, at: int, n: nat, file: seq<byte>)
    requires 0 <= at < 0x50 && (n == 0 || Hides(n))
    requires file == before + LocatorBytes(at) + SentinelEnd(n)
    ensures var eocd := |before| + LOCATOR_SIZE;
            && |file| == eocd + EOCD_SIZE + n
            && (forall k :: eocd < k < |file| ==> !SignatureAt(file, EOCD_SIGNATURE, k))
            && (forall k :: |before| < k < eocd ==> !SignatureAt(file[..eocd], LOCATOR_SIGNATURE, k))
  {
    hide LocatorBytes, SentinelEnd, U32;
    LocatorHasOneP(at);
    EndHasOneP(n);
    var eocd := |before| + LOCATOR_SIZE;
    forall k | eocd < k < |file| ensures !SignatureAt(file, EOCD_SIGNATURE, k) {
      assert file[k] == SentinelEnd(n)[k - eocd];
      if SignatureAt(file, EOCD_SIGNATURE, k) {
        SignatureStartsWithP(file, EOCD_SIGNATURE, k);
      }
    }
    forall k | |before| < k < eocd ensures !SignatureAt(file[..eocd], LOCATOR_SIGNATURE, k) {
      assert file[..eocd][k] == LocatorBytes(at)[k - |before|];
      if SignatureAt(file[..eocd], LOCATOR_SIGNATURE, k) {
        SignatureStartsWithP(file[..eocd], LOCATOR_SIGNATURE, k);
      }
    }
  }

  const EMPTY_FILE := CentralEntry([], 0, 0, 0, 0, 0, 0)
  const NO_TRIMMINGS := Trimmings(Sizes(0, 0, 0), Zeros(4), Zeros(4), Zeros(8), [], [])

  lemma OneEntryIsWritable()
    ensures AllWritable([EMPTY_FILE], [NO_TRIMMINGS])
    ensures |EncodeAll([EMPTY_FILE], [NO_TRIMMINGS])| == CENTRAL_SIZE
  {
    var c, t := EMPTY_FILE, NO_TRIMMINGS;
    assert Deferred(t.fields, c) == [] && ExtraOf(c, t) == [];
    assert Writable(c, t);
    FixedPartReads(c, t, FixedPart(c, t));
    assert [c][1..] == [] && [t][1..] == [];
    assert EncodeAll([c][1..], [t][1..]) == [];
  }

  /** An archive of one empty file after some bytes. */
  ghost function OneFile(body: seq<byte>, comment: seq<byte>, zip64: bool): seq<byte>
    requires |body| < SENTINEL32 && |comment| < 0x1_0000
  {
    OneEntryIsWritable();
    WriteArchive(body, [EMPTY_FILE], [NO_TRIMMINGS], comment, zip64)
  }

  ghost function OneFileLayout(body: seq<byte>, zip64: bool): Layout {
    OneEntryIsWritable();
    LayoutOf(body, [EMPTY_FILE], [NO_TRIMMINGS], zip64)
  }

  lemma OneFileReads(body: seq<byte>, comment: seq<byte>, zip64: bool)
    requires |body| < SENTINEL32 && |comment| < 0x1_0000
    ensures var file, a := OneFile(body, comment, zip64), OneFileLayout(body, zip64);
            && IsArchive(file, a) && a.directory == |body|
            && |file| == a.eocd + EOCD_SIZE + |comment| && U16(file, a.eocd + 20) == |comment|
            && a.eocd == |body| + CENTRAL_SIZE + (if zip64 then ZIP64_RECORD_SIZE + LOCATOR_SIZE else 0)
            && (zip64 ==> U64(file, a.eocd - 12) == |body| + CENTRAL_SIZE)
            && (!zip64 ==> U32(file, a.eocd + 16) == |body|)
  {
    hide U16, U32, U64, Ending, EncodeAll, LaidOut, AllWritable, Last, Directory;
    OneEntryIsWritable();
    var entries, ts, file := [EMPTY_FILE], [NO_TRIMMINGS], OneFile(body, comment, zip64);
    var directory := EncodeAll(entries, ts);
    WrittenEnd(file, body + directory, Extent(1, CENTRAL_SIZE, |body|), comment, zip64);
    ReadsBackWhatWasWritten(body, entries, ts, comment, zip64, file);
  }

  /** An archive that is refused for its comment of zero bytes, whatever hiding length it has. */
  lemma HiddenLocatorHappens(n: nat)
    requires Hides(n)
    ensures var file, a := OneFile([], Zeros(n), true), OneFileLayout([], true);
            IsArchive(file, a) && Directory(file) == Miss
  {
    hide IsArchive, Directory, Last, U16, U32, U64, LaidOut, RecordBytes, LocatorBytes, EndBytes, EncodeAll, AllWritable;
    var file, a := OneFile([], Zeros(n), true), OneFileLayout([], true);
    OneFileReads([], Zeros(n), true);
    OneEntryIsWritable();
    var x := Extent(1, CENTRAL_SIZE, 0);
    var before := EncodeAll([EMPTY_FILE], [NO_TRIMMINGS]) + RecordBytes(x);
    RecordLengths(x, CENTRAL_SIZE);
    assert file == before + LocatorBytes(CENTRAL_SIZE) + SentinelEnd(n);
    OneOfEach(before, CENTRAL_SIZE, n, file);
    MisleadingTakesRoom(file, a);
    ReadsExactly(file, a);
  }

  /** An archive of 118 MB that is refused because the place of its 64-bit record reads like a locator signature. */
  lemma FalseLocatorHappens()
    ensures var file, a := OneFile(Zeros(LOCATOR_SIGNATURE - CENTRAL_SIZE), [], true),
                           OneFileLayout(Zeros(LOCATOR_SIGNATURE - CENTRAL_SIZE), true);
            IsArchive(file, a) && FalseLocator(file, a) && Directory(file) == Miss
  {
    hide IsArchive, Directory, Zeros, LaidOut, U16, U32;
    var body := Zeros(LOCATOR_SIGNATURE - CENTRAL_SIZE);
    var file, a := OneFile(body, [], true), OneFileLayout(body, true);
    OneFileReads(body, [], true);
    FalseLocatorStands(file, a.eocd);
    MisleadingTakesRoom(file, a);
    ReadsExactly(file, a);
  }

  lemma FalseLocatorStands(file: seq<byte>, eocd: nat)
    requires LOCATOR_SIZE <= eocd <= |file| && U64(file, eocd - 12) == LOCATOR_SIGNATURE
    ensures Last(file[..eocd], LOCATOR_SIGNATURE) >= eocd - 12
  {
    assert U32(file, eocd - 12) == LOCATOR_SIGNATURE;
    assert file[0..eocd] == file[..eocd];
    SignatureInSlice(file, 0, eocd, LOCATOR_SIGNATURE, eocd - 12);
  }

  /** An archive of 101 MB that is refused because the offset of its directory reads like an end record signature. */
  lemma FalseEndHappens()
    ensures var file, a := OneFile(Zeros(EOCD_SIGNATURE), [], false), OneFileLayout(Zeros(EOCD_SIGNATURE), false);
            IsArchive(file, a) && FalseEnd(file, a) && Directory(file) == Miss
  {
    hide IsArchive, Directory, Zeros, LaidOut, U16, U32, U64;
    var body := Zeros(EOCD_SIGNATURE);
    var file, a := OneFile(body, [], false), OneFileLayout(body, false);
    OneFileReads(body, [], false);
    assert SignatureAt(file, EOCD_SIGNATURE, a.eocd + 16);
    MisleadingTakesRoom(file, a);
    ReadsExactly(file, a);
  }

  /** A file of 98 bytes whose 64-bit record says that its directory lies at the end of the 64-bit range. */
  function WrappingFile(): seq<byte> {
    RecordBytes(Extent(1, CENTRAL_SIZE, LONG_LIMIT - 1)) + LocatorBytes(0) + SentinelEnd(0)
  }

  lemma WrappingHappens()
    ensures Directory(WrappingFile()) == Throws
  {
    hide RecordBytes, LocatorBytes, EndBytes, Directory, Escapes, U16, U32, U64, FindEocd, Last;
    var x, file := Extent(1, CENTRAL_SIZE, LONG_LIMIT - 1), WrappingFile();
    RecordLengths(x, 0);
    OneOfEach(RecordBytes(x), 0, 0, file);
    assert file[..56] == RecordBytes(x) && file[0..56] == file[..56];
    assert file[56..76] == LocatorBytes(0) && file[76..] == SentinelEnd(0) && Zeros(0) == [];
    RecordBytesRead(file, 0, x);
    LocatorBytesRead(file, 56, 0);
    EndBytesRead(file, 76, SENTINEL16, SENTINEL32, SENTINEL32, []);
    assert file[0..98] == file && file[..98] == file && file[0..] == file && file[0..76] == file[..76];
    LastInTail(file, 0, 98, EOCD_SIGNATURE, 76);
    SignatureInSlice(file, 0, 76, LOCATOR_SIGNATURE, 56);
    LastInTail(file, 0, 76, LOCATOR_SIGNATURE, 56);
    assert FindEocd(file) == Some((0, 76)) by {
      FoundInTail(file, 76);
    }
    U64InSlice(file, 0, 56, 32);
    U64InSlice(file, 0, 56, 40);
    U64InSlice(file, 0, 56, 48);
    assert Zip64Extent(file, file, 76) == Some(x);
    assert GivenExtent(file) == Some((0, x));
    SmallFilesAlwaysEscape(file, 0, x);
    ReadingThrowsExactly(file);
  }

  lemma FoundInTail(file: seq<byte>, eocd: nat)
    requires |file| <= TAIL_WINDOW && Last(file, EOCD_SIGNATURE) == eocd
    ensures FindEocd(file) == Some((0, eocd))
  {
    hide Last;
    assert file[0..] == file;
  }
}
