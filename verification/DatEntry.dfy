/** A row of the index, and the ranks that decide between two rows claiming one key. */
module DatEntry {
  import opened Models
  import opened Text
  import opened Wrappers

  datatype DatEntry = DatEntry(
    console: ConsoleType,
    name: string,
    serial: Option<string>,
    crc32: Option<uint32>,
    sha1: Option<string>,
    status: Option<string>,
    sourceName: string,
    artName: Option<string>)

  /** Trimmed and lower-cased; nothing for a blank status. */
  function Normalize(status: Option<string>): Option<string> {
    if status.None? || Trim(status.value) == [] then None else Some(ToLower(Trim(status.value)))
  }

  function DumpRank(status: Option<string>): (r: nat)
    ensures r <= 3
  {
    match Normalize(status)
    case None => 0
    case Some(s) =>
      if s == "good" || s == "verified" then 0
      else if s == "baddump" then 2
      else if s == "nodump" then 3
      else 1
  }

  function ReleaseRank(name: string): (r: nat)
    ensures r <= 2
  {
    if ContainsIgnoringCase(name, "(Proto") || ContainsIgnoringCase(name, "(Beta") then 2
    else if ContainsIgnoringCase(name, "(Demo") || ContainsIgnoringCase(name, "(Sample")
            || ContainsIgnoringCase(name, "(Kiosk") || ContainsIgnoringCase(name, "(Promo") then 1
    else 0
  }

  /** Two ranks in one number: that of the dump in the tens, that of the release in the units. */
  function Rank(e: DatEntry): nat {
    DumpRank(e.status) * 10 + ReleaseRank(e.name)
  }

  /** No release kind ever promotes a worse dump over a better one. */
  lemma DumpDominates(a: DatEntry, b: DatEntry)
    requires DumpRank(a.status) < DumpRank(b.status)
    ensures Rank(a) < Rank(b)
  {
  }

  predicate IsBetter(candidate: DatEntry, incumbent: DatEntry) {
    if Rank(candidate) != Rank(incumbent) then Rank(candidate) < Rank(incumbent)
    else OrdinalLess(candidate.name, incumbent.name)
  }

  /** No worse in (rank, ordinal name). */
  predicate NoWorse(a: DatEntry, b: DatEntry) {
    !IsBetter(b, a)
  }

  lemma BetterIsNoWorse(a: DatEntry, b: DatEntry)
    ensures IsBetter(a, b) ==> NoWorse(a, b)
    ensures NoWorse(a, a)
  {
    OrdinalTotal(a.name, b.name);
    OrdinalTotal(a.name, a.name);
  }

  lemma NoWorseTransitive(a: DatEntry, b: DatEntry, c: DatEntry)
    requires NoWorse(a, b) && NoWorse(b, c)
    ensures NoWorse(a, c)
  {
    if Rank(a) == Rank(b) == Rank(c) {
      OrdinalTransitive(a.name, b.name, c.name);
    }
  }

  // ----- What the ranks stand for, said of the texts

  /** The status is this word, with white space around it and ASCII case aside. */
  predicate Reads(status: Option<string>, word: string) {
    status.Some? && SameText(Trim(status.value), word)
  }

  /** No status, a blank one, or one that vouches for the dump. */
  predicate IsFine(status: Option<string>) {
    status.None? || Trim(status.value) == [] || Reads(status, "good") || Reads(status, "verified")
  }

  /** A status that says something else. */
  predicate IsUnknown(status: Option<string>) {
    !IsFine(status) && !Reads(status, "baddump") && !Reads(status, "nodump")
  }

  /** A sound dump before one of unknown state, that before a bad one, and that before none at all. */
  predicate BetterDump(a: Option<string>, b: Option<string>) {
    || (IsFine(a) && !IsFine(b))
    || (IsUnknown(a) && (Reads(b, "baddump") || Reads(b, "nodump")))
    || (Reads(a, "baddump") && Reads(b, "nodump"))
  }

  ghost predicate IsUnfinished(name: string) {
    Shows(name, "(Proto") || Shows(name, "(Beta")
  }

  ghost predicate IsPromotional(name: string) {
    Shows(name, "(Demo") || Shows(name, "(Sample") || Shows(name, "(Kiosk") || Shows(name, "(Promo")
  }

  /** A release before a promotional one, and that before an unfinished one. */
  ghost predicate BetterRelease(a: string, b: string) {
    || (!IsUnfinished(a) && IsUnfinished(b))
    || (!IsUnfinished(a) && !IsPromotional(a) && IsPromotional(b))
  }

  lemma NormalizedReads(status: Option<string>, word: string)
    requires word == ToLower(word) && word != []
    ensures Normalize(status) == Some(word) <==> Reads(status, word)
  {
    if status.Some? {
      FoldsAlike(Trim(status.value), word);
    }
  }

  lemma WordsAreLowerCase()
    ensures ToLower("good") == "good" && ToLower("verified") == "verified"
    ensures ToLower("baddump") == "baddump" && ToLower("nodump") == "nodump"
  {
  }

  lemma DumpRankMeans(status: Option<string>)
    ensures DumpRank(status) == if IsFine(status) then 0 else if IsUnknown(status) then 1
                                else if Reads(status, "baddump") then 2 else 3
    ensures Reads(status, "baddump") ==> !IsFine(status) && !Reads(status, "nodump")
    ensures Reads(status, "nodump") ==> !IsFine(status)
  {
    hide ToLower, Trim, SameText;
    WordsAreLowerCase();
    NormalizedReads(status, "good");
    NormalizedReads(status, "verified");
    NormalizedReads(status, "baddump");
    NormalizedReads(status, "nodump");
    if status.Some? && Trim(status.value) == [] {
      NoWordIsEmpty(status);
    }
  }

  lemma NoWordIsEmpty(status: Option<string>)
    requires status.Some? && Trim(status.value) == []
    ensures !Reads(status, "baddump") && !Reads(status, "nodump")
  {
  }

  lemma ReleaseRankMeans(name: string)
    ensures ReleaseRank(name) == if IsUnfinished(name) then 2 else if IsPromotional(name) then 1 else 0
  {
    hide ContainsIgnoringCase, Shows;
    ContainsIgnoringCaseIs(name, "(Proto");
    ContainsIgnoringCaseIs(name, "(Beta");
    ContainsIgnoringCaseIs(name, "(Demo");
    ContainsIgnoringCaseIs(name, "(Sample");
    ContainsIgnoringCaseIs(name, "(Kiosk");
    ContainsIgnoringCaseIs(name, "(Promo");
  }

  /**
   One row outdoes another by its status; where the statuses tie, by its release markers; and
   where those tie too, by its name in ordinal order.
   */
  ghost predicate Outdoes(a: DatEntry, b: DatEntry) {
    || BetterDump(a.status, b.status)
    || (!BetterDump(b.status, a.status)
        && (BetterRelease(a.name, b.name)
            || (!BetterRelease(b.name, a.name) && exists k :: LessAt(a.name, b.name, k))))
  }

  lemma IsBetterMeans(a: DatEntry, b: DatEntry)
    ensures IsBetter(a, b) <==> Outdoes(a, b)
  {
    hide DumpRank, ReleaseRank, Reads, IsUnfinished, IsPromotional, OrdinalLess, Trim;
    DumpRankMeans(a.status);
    DumpRankMeans(b.status);
    ReleaseRankMeans(a.name);
    ReleaseRankMeans(b.name);
    OrdinalLessIs(a.name, b.name);
  }
}
