/** The sort that puts the row a serial lookup should find before all others of its serial. */
module EntryOrder {
  import opened DatEntry
  import opened Models
  import opened Text
  import opened Wrappers

  function TextOrEmpty(o: Option<string>): string {
    if o.Some? then o.value else ""
  }

  function Crc32OrMax(e: DatEntry): int {
    if e.crc32.Some? then e.crc32.value else 0xFFFF_FFFF
  }

  /** Console, serial, rank, name, CRC and hash, each deciding where the ones before tie. */
  predicate Precedes(a: DatEntry, b: DatEntry) {
    if a.console.Value() != b.console.Value() then a.console.Value() < b.console.Value()
    else if TextOrEmpty(a.serial) != TextOrEmpty(b.serial) then
      OrdinalLess(TextOrEmpty(a.serial), TextOrEmpty(b.serial))
    else if Rank(a) != Rank(b) then Rank(a) < Rank(b)
    else if a.name != b.name then OrdinalLess(a.name, b.name)
    else if Crc32OrMax(a) != Crc32OrMax(b) then Crc32OrMax(a) < Crc32OrMax(b)
    else OrdinalLess(TextOrEmpty(a.sha1), TextOrEmpty(b.sha1))
  }

  ghost predicate Sorted(rows: seq<DatEntry>) {
    forall i, j :: 0 <= i < j < |rows| ==> !Precedes(rows[j], rows[i])
  }

  lemma OrdinalFacts(a: string, b: string, c: string)
    ensures !(OrdinalLess(a, b) && OrdinalLess(b, a))
    ensures !OrdinalLess(b, a) && !OrdinalLess(c, b) ==> !OrdinalLess(c, a)
    ensures OrdinalLess(a, b) || a == b || OrdinalLess(b, a)
  {
    OrdinalTotal(a, b);
    if !OrdinalLess(b, a) && !OrdinalLess(c, b) {
      OrdinalTransitive(a, b, c);
    }
  }

  lemma NotAfterTransitive(a: DatEntry, b: DatEntry, c: DatEntry)
    requires !Precedes(b, a) && !Precedes(c, b)
    ensures !Precedes(c, a)
  {
    hide Rank;
    var (sa, sb, sc) := (TextOrEmpty(a.serial), TextOrEmpty(b.serial), TextOrEmpty(c.serial));
    OrdinalFacts(sa, sb, sc);
    OrdinalFacts(sb, sc, sa);
    OrdinalFacts(sc, sa, sb);
    OrdinalFacts(a.name, b.name, c.name);
    OrdinalFacts(b.name, c.name, a.name);
    OrdinalFacts(c.name, a.name, b.name);
    OrdinalFacts(TextOrEmpty(a.sha1), TextOrEmpty(b.sha1), TextOrEmpty(c.sha1));
  }

  lemma PrecedesAsymmetric(a: DatEntry, b: DatEntry)
    requires Precedes(a, b)
    ensures !Precedes(b, a)
  {
    hide Rank;
    OrdinalTotal(TextOrEmpty(a.serial), TextOrEmpty(b.serial));
    OrdinalTotal(a.name, b.name);
    OrdinalTotal(TextOrEmpty(a.sha1), TextOrEmpty(b.sha1));
  }

  /** Places a row in front of the first it does not come after, so ties keep their order. */
  function Insert(e: DatEntry, rows: seq<DatEntry>): seq<DatEntry> {
    if rows != [] && Precedes(rows[0], e) then [rows[0]] + Insert(e, rows[1..]) else [e] + rows
  }

  /** The stable sort by all six keys. */
  function Order(entries: seq<DatEntry>): seq<DatEntry> {
    if entries == [] then [] else Insert(entries[0], Order(entries[1..]))
  }

  lemma {:induction false} InsertSorts(e: DatEntry, rows: seq<DatEntry>)
    requires Sorted(rows)
    ensures Sorted(Insert(e, rows)) && multiset(Insert(e, rows)) == multiset(rows) + multiset{e}
  {
    hide Rank, Precedes;
    if rows != [] {
      var head, tail := rows[0], rows[1..];
      assert rows == [head] + tail;
      if Precedes(head, e) {
        InsertSorts(e, tail);
        PrecedesAsymmetric(head, e);
        var r := Insert(e, tail);
        forall j | 0 <= j < |r| ensures !Precedes(r[j], head) {
          assert r[j] in multiset(r);
          assert r[j] == e || r[j] in tail;
        }
      } else {
        forall j | 0 <= j < |rows| ensures !Precedes(rows[j], e) {
          if j > 0 {
            NotAfterTransitive(e, head, rows[j]);
          }
        }
      }
    }
  }

  /** Ordering permutes the rows into the sorted order. */
  lemma {:induction false} OrderSorts(entries: seq<DatEntry>)
    ensures Sorted(Order(entries)) && multiset(Order(entries)) == multiset(entries)
  {
    if entries != [] {
      OrderSorts(entries[1..]);
      InsertSorts(entries[0], Order(entries[1..]));
      assert entries == [entries[0]] + entries[1..];
    }
  }

  predicate Serves(e: DatEntry, console: ConsoleType, serial: string) {
    e.console == console && e.serial == Some(serial)
  }

  /** The first row a serial lookup meets is outdone by none under that serial. */
  lemma FirstServedIsBest(entries: seq<DatEntry>, console: ConsoleType, serial: string, first: nat)
    requires first < |Order(entries)| && Serves(Order(entries)[first], console, serial)
    requires forall k :: 0 <= k < first ==> !Serves(Order(entries)[k], console, serial)
    ensures forall e :: e in entries && Serves(e, console, serial) ==>
              NoWorse(Order(entries)[first], e) && !Outdoes(e, Order(entries)[first])
  {
    hide Rank, Outdoes;
    var out := Order(entries);
    OrderSorts(entries);
    forall e | e in entries && Serves(e, console, serial)
      ensures NoWorse(out[first], e) && !Outdoes(e, out[first])
    {
      assert e in multiset(out);
      var k :| 0 <= k < |out| && out[k] == e;
      BetterIsNoWorse(e, e);
      OrdinalTotal(e.name, out[first].name);
      OrdinalTotal(e.name, e.name);
      if first < k {
        assert !Precedes(out[k], out[first]);
      }
      IsBetterMeans(e, out[first]);
    }
  }

  /** Earlier in ordinal order. */
  ghost predicate Before(a: string, b: string) {
    exists k :: LessAt(a, b, k)
  }

  /** Neither row outdoes the other by its status or by its release markers. */
  ghost predicate Tie(a: DatEntry, b: DatEntry) {
    && !BetterDump(a.status, b.status) && !BetterDump(b.status, a.status)
    && !BetterRelease(a.name, b.name) && !BetterRelease(b.name, a.name)
  }

  /** The CRCs tie, none and the largest one being alike. */
  predicate SameCrc32(a: DatEntry, b: DatEntry) {
    || a.crc32 == b.crc32
    || (a.crc32.None? && b.crc32 == Some(0xFFFF_FFFF))
    || (b.crc32.None? && a.crc32 == Some(0xFFFF_FFFF))
  }

  /**
   Of two rows in the order, the earlier one is of no later console; of one console, under no
   later serial, none being first; under one serial, not outdone; and of rows that tie and
   have one name, it does not have the larger CRC, none being last, nor the later hash.
   */
  lemma OrderMeans(entries: seq<DatEntry>, i: nat, j: nat)
    requires i < j < |Order(entries)|
    ensures var a, b := Order(entries)[i], Order(entries)[j];
            && a.console.Value() <= b.console.Value()
            && (a.console == b.console && a.serial.Some? && a.serial.value != "" ==>
                  b.serial.Some? && !Before(b.serial.value, a.serial.value))
            && (a.console == b.console && a.serial == b.serial ==>
                  && !Outdoes(b, a)
                  && (Tie(a, b) && a.name == b.name ==>
                        && (a.crc32.None? ==> b.crc32.None? || b.crc32.value == 0xFFFF_FFFF)
                        && (a.crc32.Some? && b.crc32.Some? ==> a.crc32.value <= b.crc32.value)
                        && (SameCrc32(a, b) && a.sha1.Some? && b.sha1.Some? ==> !Before(b.sha1.value, a.sha1.value))
                        && (SameCrc32(a, b) && a.sha1.Some? && a.sha1.value != "" ==> b.sha1.Some?)))
  {
    hide Rank, BetterDump, BetterRelease, OrdinalLess;
    OrderSorts(entries);
    var a, b := Order(entries)[i], Order(entries)[j];
    assert !Precedes(b, a);
    var (sa, sb) := (TextOrEmpty(a.serial), TextOrEmpty(b.serial));
    OrdinalLessIs(sb, sa);
    OrdinalTotal(sb, sa);
    NothingIsFirst(sa);
    IsBetterMeans(b, a);
    TieIsEqualRank(a, b);
    OrdinalLessIs(b.name, a.name);
    OrdinalLessIs(TextOrEmpty(b.sha1), TextOrEmpty(a.sha1));
    NothingIsFirst(TextOrEmpty(a.sha1));
  }

  lemma NothingIsFirst(s: string)
    ensures OrdinalLess("", s) <==> s != ""
  {
  }

  lemma TieIsEqualRank(a: DatEntry, b: DatEntry)
    ensures Tie(a, b) <==> Rank(a) == Rank(b)
  {
    hide DumpRank, ReleaseRank, Reads, IsUnfinished, IsPromotional, Trim;
    DumpRankMeans(a.status);
    DumpRankMeans(b.status);
    ReleaseRankMeans(a.name);
    ReleaseRankMeans(b.name);
  }
}
