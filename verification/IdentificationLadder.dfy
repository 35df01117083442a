/**
 Identifying a file by one lookup after the other. The index, the header parsers and the
 file-name tables are parameters, so every statement here holds for any of them.
 */
module IdentificationLadder {
  import opened Crc32Arithmetic
  import opened Models
  import opened Text
  import opened Wrappers

  /** What backup devices put before a SNES image. */
  const COPIER_HEADER_LENGTH := 512

  /** What the leading bytes of a file say about it. */
  datatype HeaderDetection = HeaderDetection(
    consoleType: ConsoleType, alternateConsoleType: ConsoleType, serial: Option<string>, leadingHeaderBytes: int)

  const NO_DETECTION := HeaderDetection(Unknown, Unknown, None, 0)

  datatype RomFingerprint = RomFingerprint(
    fileName: string, size: Option<int>, crc32: Option<bv32>, sha1: Option<string>, header: Option<seq<bv8>>)

  datatype IndexEntry = IndexEntry(consoleType: ConsoleType, name: string, crc32: Option<bv32>)

  /** The collaborators the ladder asks. */
  datatype Sources = Sources(
    detect: seq<bv8> -> HeaderDetection,
    tryBySerial: (ConsoleType, string) -> Option<IndexEntry>,
    tryByCrc32: bv32 -> Option<IndexEntry>,
    tryBySha1: string -> Option<IndexEntry>,
    searchByName: (ConsoleType, string) -> Option<IndexEntry>,
    isSkipFile: string -> bool,
    consoleFromExtension: string -> ConsoleType)

  /** Which rung answered, and with what: an index row, or a bare title id. */
  datatype Identity = Matched(rung: MatchMethod, entry: IndexEntry) | BySerialKey(key: string) | Unmatched

  function Detect(src: Sources, f: RomFingerprint): HeaderDetection {
    if f.header.Some? && f.header.value != [] then src.detect(f.header.value) else NO_DETECTION
  }

  /** The console partitions an exact lookup tries, most likely first. */
  function Partitions(d: HeaderDetection): seq<ConsoleType> {
    (if d.consoleType != Unknown then [d.consoleType] else [])
    + (if d.alternateConsoleType != Unknown && d.alternateConsoleType != d.consoleType
       then [d.alternateConsoleType] else [])
  }

  /** The first answer a lookup gives over the partitions in order. */
  function FirstHit(lookup: ConsoleType -> Option<IndexEntry>, consoles: seq<ConsoleType>): Option<IndexEntry> {
    if consoles == [] then None else lookup(consoles[0]).Or(FirstHit(lookup, consoles[1..]))
  }

  function SerialRung(src: Sources, d: HeaderDetection): Option<IndexEntry> {
    if d.serial.Some? && d.serial.value != [] then
      FirstHit(c => src.tryBySerial(c, d.serial.value), Partitions(d))
    else None
  }

  /** The CRC of the file without its first `prefixLength` bytes, when the sample covers them. */
  function TryStrippedCrc32(f: RomFingerprint, prefixLength: int, crc32: bv32): Option<bv32> {
    if prefixLength <= 0 || f.header.None? || |f.header.value| < prefixLength
       || f.size.None? || f.size.value <= prefixLength
    then None
    else StripPrefix(crc32, f.header.value[..prefixLength], f.size.value - prefixLength)
  }

  /** A lookup by a CRC that may be absent, or zero, which stands for an absent one. */
  function LookupCrc(src: Sources, crc: Option<bv32>): Option<IndexEntry> {
    if crc.Some? && crc.value != 0 then src.tryByCrc32(crc.value) else None
  }

  function CopierRung(src: Sources, d: HeaderDetection, f: RomFingerprint, crc32: bv32): Option<IndexEntry> {
    if d.leadingHeaderBytes <= 0 && f.size.Some? && f.size.value % 1024 == COPIER_HEADER_LENGTH then
      var row := LookupCrc(src, TryStrippedCrc32(f, COPIER_HEADER_LENGTH, crc32));
      if row.Some? && row.value.consoleType == Snes then row else None
    else None
  }

  function CrcRung(src: Sources, d: HeaderDetection, f: RomFingerprint): Option<IndexEntry> {
    if f.crc32.Some? && f.crc32.value != 0 then
      src.tryByCrc32(f.crc32.value)
      .Or(LookupCrc(src, TryStrippedCrc32(f, d.leadingHeaderBytes, f.crc32.value)))
      .Or(CopierRung(src, d, f, f.crc32.value))
    else None
  }

  /** Exactly four ASCII alphanumerics once trimmed: usable as an art key as it stands. */
  predicate IsUsableSerialKey(serial: string) {
    var trimmed := Trim(serial);
    |trimmed| == 4 && forall c :: c in trimmed ==> IsAsciiLetterOrDigit(c)
  }

  function SearchPartitions(src: Sources, d: HeaderDetection, fileName: string): seq<ConsoleType> {
    if Partitions(d) != [] then Partitions(d)
    else if src.consoleFromExtension(fileName) != Unknown then [src.consoleFromExtension(fileName), Unknown]
    else [Unknown]
  }

  /** The whole ladder, whose rungs are tried until one answers. */
  function Identify(src: Sources, f: RomFingerprint): Identity {
    var d := Detect(src, f);
    var bySerial, byCrc := SerialRung(src, d), CrcRung(src, d, f);
    var bySha1 := if f.sha1.Some? && f.sha1.value != [] then src.tryBySha1(f.sha1.value) else None;
    if bySerial.Some? then Matched(HeaderSerial, bySerial.value)
    else if byCrc.Some? then Matched(Crc32, byCrc.value)
    else if bySha1.Some? then Matched(Sha1, bySha1.value)
    else if d.consoleType in {NintendoDs, NintendoDsi, GameBoyAdvance}
            && d.serial.Some? && d.serial.value != [] && IsUsableSerialKey(d.serial.value)
    then BySerialKey(ToUpper(Trim(d.serial.value)))
    else
      var byName :=
        if f.fileName != [] && src.isSkipFile(f.fileName) then None
        else FirstHit(c => src.searchByName(c, f.fileName), SearchPartitions(src, d, f.fileName));
      if byName.Some? then Matched(Filename, byName.value) else Unmatched
  }

  /** The row the CRC rung answered with, when it is the rung that answered. */
  function CrcAnswer(src: Sources, f: RomFingerprint): Option<IndexEntry> {
    var r := Identify(src, f);
    if r.Matched? && r.rung == Crc32 then Some(r.entry) else None
  }

  /** The fingerprint's CRC, size and header sample are those of `file`. */
  ghost predicate Describes(f: RomFingerprint, file: seq<bv8>) {
    && f.crc32 == Some(Crc(file))
    && f.size == Some(|file|)
    && (f.header.Some? ==> f.header.value <= file)
  }

  /** The header sample holds at least the first `n` bytes. */
  predicate Covers(f: RomFingerprint, n: int) {
    f.header.Some? && n <= |f.header.value|
  }

  /** Looking a CRC up only ever returns a row recorded under that CRC. */
  ghost predicate AnswersByCrc(src: Sources) {
    forall c: bv32 :: src.tryByCrc32(c).Some? ==> src.tryByCrc32(c).value.crc32 == Some(c)
  }

  /** The stripped CRC exists exactly when the sample covers a real split, and is the tail's. */
  lemma StrippedIsHeaderless(f: RomFingerprint, file: seq<bv8>, n: int)
    requires Describes(f, file)
    ensures TryStrippedCrc32(f, n, Crc(file)) ==
            if 0 < n < |file| && Covers(f, n) then Some(Crc(file[n..])) else None
  {
    if 0 < n < |file| && Covers(f, n) {
      assert f.header.value[..n] == file[..n];
      assert file == file[..n] + file[n..];
      StripPrefixExact(Crc(file), file[..n], file[n..]);
    }
  }

  /**
   Whatever row the CRC rung returns is recorded under the CRC of the file, of the file
   without the detected header, or (SNES rows, copier-shaped sizes) without 512 bytes.
   */
  lemma CrcRungIsSound(src: Sources, f: RomFingerprint, file: seq<bv8>)
    requires Describes(f, file) && AnswersByCrc(src)
    requires CrcAnswer(src, f).Some?
    ensures var n, e := Detect(src, f).leadingHeaderBytes, CrcAnswer(src, f).value;
            || e.crc32 == Some(Crc(file))
            || (0 < n < |file| && e.crc32 == Some(Crc(file[n..])))
            || (n <= 0 && e.consoleType == Snes && 512 < |file| && |file| % 1024 == 512
                && e.crc32 == Some(Crc(file[512..])))
    ensures Crc(file) != 0 && CrcAnswer(src, f).value.crc32 != Some(0)
  {
    StrippedIsHeaderless(f, file, Detect(src, f).leadingHeaderBytes);
    StrippedIsHeaderless(f, file, COPIER_HEADER_LENGTH);
  }

  /**
   Once the serial and the whole-file lookups have missed, the row holding the headerless
   CRC is found exactly when neither CRC is zero and the sample covers the header.
   */
  lemma HeaderlessRowIsFound(src: Sources, f: RomFingerprint, file: seq<bv8>, n: int, row: IndexEntry)
    requires Describes(f, file) && n == Detect(src, f).leadingHeaderBytes
    requires 0 < n < |file| && src.tryByCrc32(Crc(file[n..])) == Some(row)
    requires SerialRung(src, Detect(src, f)).None? && src.tryByCrc32(Crc(file)).None?
    ensures CrcAnswer(src, f) ==
            if Crc(file) != 0 && Crc(file[n..]) != 0 && Covers(f, n) then Some(row) else None
  {
    StrippedIsHeaderless(f, file, n);
  }

  /** With no header detected, a copier header is seen through exactly for these SNES dumps. */
  lemma CopierRowIsFound(src: Sources, f: RomFingerprint, file: seq<bv8>, row: IndexEntry)
    requires Describes(f, file) && Detect(src, f).leadingHeaderBytes <= 0
    requires 512 < |file| && src.tryByCrc32(Crc(file[512..])) == Some(row)
    requires SerialRung(src, Detect(src, f)).None? && src.tryByCrc32(Crc(file)).None?
    ensures CrcAnswer(src, f) ==
            if Crc(file) != 0 && Crc(file[512..]) != 0 && Covers(f, 512)
               && |file| % 1024 == 512 && row.consoleType == Snes
            then Some(row) else None
  {
    StrippedIsHeaderless(f, file, Detect(src, f).leadingHeaderBytes);
    StrippedIsHeaderless(f, file, COPIER_HEADER_LENGTH);
  }

  // ----- Every rung, by the lookups alone

  /** The first partition that knows the header's serial has this row. */
  predicate FoundBySerial(src: Sources, d: HeaderDetection, row: IndexEntry) {
    && d.serial.Some? && d.serial.value != ""
    && var first, second := d.consoleType, d.alternateConsoleType;
       || (first != Unknown && src.tryBySerial(first, d.serial.value) == Some(row))
       || (second != Unknown && src.tryBySerial(second, d.serial.value) == Some(row)
           && (first == Unknown || src.tryBySerial(first, d.serial.value).None?))
  }

  /** The detector is asked about any header there is; without one nothing is known of the file. */
  lemma DetectionIs(src: Sources, f: RomFingerprint)
    ensures f.header.Some? && f.header.value != [] ==> Detect(src, f) == src.detect(f.header.value)
    ensures f.header.None? || f.header.value == [] ==>
              && Detect(src, f) == HeaderDetection(Unknown, Unknown, None, 0)
              && (forall row :: !FoundBySerial(src, Detect(src, f), row))
              && forall key :: !AllowsKey(Detect(src, f), key)
  {
  }

  /** A CRC other than zero has this row. */
  predicate Recorded(src: Sources, crc: bv32, row: IndexEntry) {
    crc != 0 && src.tryByCrc32(crc) == Some(row)
  }

  predicate Unrecorded(src: Sources, crc: bv32) {
    crc != 0 ==> src.tryByCrc32(crc).None?
  }

  /** The file less its first `n` bytes can be looked up. */
  predicate Strips(f: RomFingerprint, file: seq<bv8>, n: int) {
    0 < n < |file| && Covers(f, n)
  }

  /**
   The row of the whole file; failing that, of the file without its detected header; failing
   that, and with no header detected, the SNES row of the file without a copier header.
   */
  predicate FoundByCrc(src: Sources, d: HeaderDetection, f: RomFingerprint, file: seq<bv8>, row: IndexEntry) {
    && Crc(file) != 0
    && var n := d.leadingHeaderBytes;
       || Recorded(src, Crc(file), row)
       || (Unrecorded(src, Crc(file)) && Strips(f, file, n) && Recorded(src, Crc(file[n..]), row))
       || (Unrecorded(src, Crc(file)) && n <= 0 && |file| % 1024 == 512 && Strips(f, file, 512)
           && row.consoleType == Snes && Recorded(src, Crc(file[512..]), row))
  }

  predicate FoundBySha1(src: Sources, f: RomFingerprint, row: IndexEntry) {
    f.sha1.Some? && f.sha1.value != "" && src.tryBySha1(f.sha1.value) == Some(row)
  }

  predicate IsCapitalOrDigit(c: char) {
    '0' <= c <= '9' || 'A' <= c <= 'Z'
  }

  /** The serial of a DS, DSi or GBA header reads as this key of four capitals and digits. */
  predicate AllowsKey(d: HeaderDetection, key: string) {
    && (d.consoleType == NintendoDs || d.consoleType == NintendoDsi || d.consoleType == GameBoyAdvance)
    && d.serial.Some? && SameText(Trim(d.serial.value), key)
    && |key| == 4 && forall c :: c in key ==> IsCapitalOrDigit(c)
  }

  /** The first partition that finds the name has this row: the header's, else the extension's, else all. */
  predicate FoundByName(src: Sources, d: HeaderDetection, name: string, row: IndexEntry) {
    var first, second, guess := d.consoleType, d.alternateConsoleType, src.consoleFromExtension(name);
    if first != Unknown || second != Unknown then
      || (first != Unknown && src.searchByName(first, name) == Some(row))
      || (second != Unknown && src.searchByName(second, name) == Some(row)
          && (first == Unknown || src.searchByName(first, name).None?))
    else
      || (guess != Unknown && src.searchByName(guess, name) == Some(row))
      || (src.searchByName(Unknown, name) == Some(row) && (guess == Unknown || src.searchByName(guess, name).None?))
  }

  ghost predicate NoSerialRow(src: Sources, f: RomFingerprint) {
    forall row :: !FoundBySerial(src, Detect(src, f), row)
  }

  /** Serial, CRC and SHA-1 have all missed. */
  ghost predicate ExactLookupsMiss(src: Sources, f: RomFingerprint) {
    NoSerialRow(src, f) && CrcAnswer(src, f).None? && forall row :: !FoundBySha1(src, f, row)
  }

  ghost predicate NoKey(src: Sources, f: RomFingerprint) {
    forall key :: !AllowsKey(Detect(src, f), key)
  }

  predicate IsSkipped(src: Sources, f: RomFingerprint) {
    f.fileName != "" && src.isSkipFile(f.fileName)
  }

  lemma {:induction false} FirstHitOfTwo(lookup: ConsoleType -> Option<IndexEntry>, d: HeaderDetection)
    ensures var first, second := d.consoleType, d.alternateConsoleType;
            FirstHit(lookup, Partitions(d)) ==
            (if first != Unknown then lookup(first) else None)
            .Or(if second != Unknown && second != first then lookup(second) else None)
  {
    var p := Partitions(d);
    if p != [] {
      FirstHitStep(lookup, p);
      if |p| == 2 {
        assert p[1..] == [p[1]];
        FirstHitStep(lookup, p[1..]);
      }
    }
  }

  lemma FirstHitStep(lookup: ConsoleType -> Option<IndexEntry>, consoles: seq<ConsoleType>)
    requires consoles != []
    ensures FirstHit(lookup, consoles) == lookup(consoles[0]).Or(FirstHit(lookup, consoles[1..]))
    ensures |consoles| == 1 ==> FirstHit(lookup, consoles) == lookup(consoles[0])
  {
  }

  lemma SerialRungFinds(src: Sources, d: HeaderDetection, row: IndexEntry)
    ensures SerialRung(src, d) == Some(row) <==> FoundBySerial(src, d, row)
  {
    if d.serial.Some? {
      FirstHitOfTwo(c => src.tryBySerial(c, d.serial.value), d);
    }
  }

  /** A row that the header's serial finds is the answer, and the only way to answer by serial. */
  lemma SerialRowIsAnswered(src: Sources, f: RomFingerprint, row: IndexEntry)
    ensures Identify(src, f) == Matched(HeaderSerial, row) <==> FoundBySerial(src, Detect(src, f), row)
  {
    hide SerialRung, CrcRung, FirstHit, Partitions, IsUsableSerialKey, FoundBySerial;
    SerialRungFinds(src, Detect(src, f), row);
  }

  lemma NoSerialRung(src: Sources, f: RomFingerprint)
    requires NoSerialRow(src, f)
    ensures SerialRung(src, Detect(src, f)).None?
  {
    hide SerialRung, FoundBySerial;
    var d := Detect(src, f);
    if SerialRung(src, d).Some? {
      SerialRungFinds(src, d, SerialRung(src, d).value);
    }
  }

  /** Then the CRC is consulted, each of its three rows only where the ones before have missed. */
  lemma CrcRowIsAnswered(src: Sources, f: RomFingerprint, file: seq<bv8>, row: IndexEntry)
    requires Describes(f, file) && NoSerialRow(src, f)
    ensures Identify(src, f) == Matched(Crc32, row) <==> FoundByCrc(src, Detect(src, f), f, file, row)
  {
    hide SerialRung, FirstHit, Partitions, IsUsableSerialKey, FoundBySerial, Crc, TryStrippedCrc32;
    var d := Detect(src, f);
    NoSerialRung(src, f);
    StrippedIsHeaderless(f, file, d.leadingHeaderBytes);
    StrippedIsHeaderless(f, file, COPIER_HEADER_LENGTH);
  }

  /** The ladder past its first two rungs. */
  lemma PastCrc(src: Sources, f: RomFingerprint)
    ensures NoSerialRow(src, f) && CrcAnswer(src, f).None? ==>
            SerialRung(src, Detect(src, f)).None? && CrcRung(src, Detect(src, f), f).None?
    ensures !NoSerialRow(src, f) ==> SerialRung(src, Detect(src, f)).Some?
    ensures CrcAnswer(src, f).Some? ==> Identify(src, f).Matched? && Identify(src, f).rung == Crc32
    ensures f.sha1.Some? && f.sha1.value != "" && src.tryBySha1(f.sha1.value).Some? ==>
            FoundBySha1(src, f, src.tryBySha1(f.sha1.value).value)
  {
    hide SerialRung, CrcRung, FirstHit, Partitions, IsUsableSerialKey, FoundBySerial;
    var d := Detect(src, f);
    if NoSerialRow(src, f) {
      NoSerialRung(src, f);
    } else {
      var row :| FoundBySerial(src, d, row);
      SerialRungFinds(src, d, row);
    }
  }

  /** Then the SHA-1, whatever the header says. */
  lemma Sha1RowIsAnswered(src: Sources, f: RomFingerprint, row: IndexEntry)
    requires NoSerialRow(src, f) && CrcAnswer(src, f).None?
    ensures Identify(src, f) == Matched(Sha1, row) <==> FoundBySha1(src, f, row)
  {
    hide SerialRung, CrcRung, FirstHit, Partitions, IsUsableSerialKey, FoundBySerial;
    NoSerialRung(src, f);
  }

  lemma CapitalsOf(text: string, key: string)
    ensures SameText(text, key) && (forall c :: c in key ==> IsCapitalOrDigit(c))
            <==> (forall c :: c in text ==> IsAsciiLetterOrDigit(c)) && key == ToUpper(text)
  {
    FoldsAlike(text, key);
    if SameText(text, key) && forall c :: c in key ==> IsCapitalOrDigit(c) {
      forall i | 0 <= i < |text| ensures IsAsciiLetterOrDigit(text[i]) && key[i] == UpperChar(text[i]) {
        assert key[i] in key && SameLetter(text[i], key[i]);
      }
      assert key == ToUpper(text);
    }
    if (forall c :: c in text ==> IsAsciiLetterOrDigit(c)) && key == ToUpper(text) {
      forall i | 0 <= i < |text| ensures IsCapitalOrDigit(key[i]) && SameLetter(text[i], key[i]) {
        assert text[i] in text && key[i] == UpperChar(text[i]);
      }
    }
  }

  lemma KeyOfSerial(d: HeaderDetection, key: string)
    ensures AllowsKey(d, key) <==>
            && d.consoleType in {NintendoDs, NintendoDsi, GameBoyAdvance} && d.serial.Some? && d.serial.value != ""
            && IsUsableSerialKey(d.serial.value) && key == ToUpper(Trim(d.serial.value))
  {
    hide ToUpper, SameText;
    if d.serial.Some? {
      CapitalsOf(Trim(d.serial.value), key);
      SameLength(Trim(d.serial.value), key);
    }
  }

  lemma SameLength(a: string, b: string)
    ensures SameText(a, b) ==> |a| == |b|
  {
  }

  /** A bare key is answered exactly when all exact lookups miss and the header allows it. */
  lemma BareKeyIsAnswered(src: Sources, f: RomFingerprint, key: string)
    ensures Identify(src, f) == BySerialKey(key) <==> ExactLookupsMiss(src, f) && AllowsKey(Detect(src, f), key)
  {
    hide SerialRung, CrcRung, FirstHit, Partitions, IsUsableSerialKey, FoundBySerial, AllowsKey, ToUpper, Trim;
    var d := Detect(src, f);
    KeyOfSerial(d, key);
    PastCrc(src, f);
  }

  lemma NameSearchFinds(src: Sources, d: HeaderDetection, name: string, row: IndexEntry)
    ensures FirstHit(c => src.searchByName(c, name), SearchPartitions(src, d, name)) == Some(row)
            <==> FoundByName(src, d, name, row)
  {
    var lookup := (c: ConsoleType) => src.searchByName(c, name);
    FirstHitOfTwo(lookup, d);
    var p := SearchPartitions(src, d, name);
    if Partitions(d) == [] {
      FirstHitStep(lookup, p);
      if |p| == 2 {
        assert p[1..] == [p[1]];
        FirstHitStep(lookup, p[1..]);
      }
    }
  }

  /** A name is only asked for when nothing else answers and the file is none to skip. */
  lemma NameRowIsAnswered(src: Sources, f: RomFingerprint, row: IndexEntry)
    ensures Identify(src, f) == Matched(Filename, row) <==>
            ExactLookupsMiss(src, f) && NoKey(src, f) && !IsSkipped(src, f)
            && FoundByName(src, Detect(src, f), f.fileName, row)
  {
    hide SerialRung, CrcRung, FirstHit, Partitions, SearchPartitions, IsUsableSerialKey, FoundBySerial, FoundByName,
         AllowsKey, ToUpper, Trim;
    var d := Detect(src, f);
    NameSearchFinds(src, d, f.fileName, row);
    if d.serial.Some? {
      KeyOfSerial(d, ToUpper(Trim(d.serial.value)));
    }
    forall key ensures AllowsKey(d, key) ==> d.serial.Some? && key == ToUpper(Trim(d.serial.value)) {
      KeyOfSerial(d, key);
    }
    PastCrc(src, f);
  }
}
