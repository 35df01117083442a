/**
 What the stages of the deduplicator determine: which keys are still there at the end, and
 that output and report depend on the input alone, not on the order in which dictionaries
 are gone through.
 */
module DeduplicationOutcome {
  import opened DatEntry
  import opened EntryDeduplicator
  import opened Models
  import opened Text
  import opened Wrappers

  // ----- Which keys are left

  predicate HasCrc32(rows: seq<DatEntry>, crc: uint32) {
    exists e :: e in rows && e.crc32 == Some(crc)
  }

  ghost predicate Live(rows: seq<DatEntry>, dropped: seq<bool>, i: int)
    requires |rows| == |dropped|
  {
    0 <= i < |rows| && !dropped[i]
  }

  /** A row the marks leave in the table. */
  ghost predicate StandsIn(rows: seq<DatEntry>, dropped: seq<bool>, e: DatEntry)
    requires |rows| == |dropped|
  {
    exists i: nat :: Live(rows, dropped, i) && rows[i] == e
  }

  /** A row without a hash, or the one that all rows of a hash are merged into. */
  ghost predicate StandsAfterHashes(distinct: seq<DatEntry>, e: DatEntry) {
    || (e in distinct && e.sha1.None?)
    || exists sha1 :: HashMerge(distinct, sha1, |distinct|).Some? && HashMerge(distinct, sha1, |distinct|).value.row == e
  }

  /** The rows the hash pass leaves are exactly those. */
  lemma HashedRows(s: Stages, e: DatEntry)
    requires |s.distinct| == |s.hashed| == |s.hashDropped|
    requires HashesSettled(s.distinct, s.hashed, s.hashDropped, s.bySha1, |s.distinct|)
    ensures StandsIn(s.hashed, s.hashDropped, e) <==> StandsAfterHashes(s.distinct, e)
  {
    var n := |s.distinct|;
    hide HashMerge, Wins, Gathers;
    if i: nat :| Live(s.hashed, s.hashDropped, i) && s.hashed[i] == e {
      if s.distinct[i].sha1.Some? {
        var sha1 := s.distinct[i].sha1.value;
        assert HashSettled(s.distinct, s.hashed, sha1, s.bySha1[sha1], n);
      }
    }
    if StandsAfterHashes(s.distinct, e) {
      if e in s.distinct && e.sha1.None? {
        var j :| 0 <= j < n && s.distinct[j] == e;
        assert Live(s.hashed, s.hashDropped, j);
      } else {
        var sha1 :| HashMerge(s.distinct, sha1, n).Some? && HashMerge(s.distinct, sha1, n).value.row == e;
        HashMergeNeedsRow(s.distinct, sha1, n);
        assert HashSettled(s.distinct, s.hashed, sha1, s.bySha1[sha1], n);
        HashWinnerIsLive(s, sha1);
        assert Live(s.hashed, s.hashDropped, s.bySha1[sha1]);
      }
    }
  }

  /** A CRC that some row without a hash has, or that a hash has after its rows were merged. */
  ghost predicate OutlivesHashes(distinct: seq<DatEntry>, crc: uint32) {
    exists e :: StandsAfterHashes(distinct, e) && e.crc32 == Some(crc)
  }

  lemma HashedCrcs(s: Stages, crc: uint32)
    requires |s.distinct| == |s.hashed| == |s.hashDropped|
    requires HashesSettled(s.distinct, s.hashed, s.hashDropped, s.bySha1, |s.distinct|)
    ensures (exists i :: Holds(s.hashed, s.hashDropped, i, crc)) <==> OutlivesHashes(s.distinct, crc)
  {
    hide StandsAfterHashes, HashesSettled;
    if i :| Holds(s.hashed, s.hashDropped, i, crc) {
      assert Live(s.hashed, s.hashDropped, i) && StandsIn(s.hashed, s.hashDropped, s.hashed[i]);
      HashedRows(s, s.hashed[i]);
    }
    if e :| StandsAfterHashes(s.distinct, e) && e.crc32 == Some(crc) {
      HashedRows(s, e);
      var i: nat :| Live(s.hashed, s.hashDropped, i) && s.hashed[i] == e;
      assert Holds(s.hashed, s.hashDropped, i, crc);
    }
  }

  lemma HashWinnerIsLive(s: Stages, sha1: string)
    requires |s.distinct| == |s.hashed| == |s.hashDropped|
    requires HashesSettled(s.distinct, s.hashed, s.hashDropped, s.bySha1, |s.distinct|) && sha1 in s.bySha1
    ensures s.bySha1[sha1] < |s.distinct| && !s.hashDropped[s.bySha1[sha1]]
  {
    assert HashSettled(s.distinct, s.hashed, sha1, s.bySha1[sha1], |s.distinct|);
  }

  /** The rows the CRC pass leaves with a CRC are the keepers of those that are not contradicted. */
  lemma CheckedCrcs(s: Stages, crc: uint32)
    requires |s.hashed| == |s.hashDropped| == |s.checked| == |s.dropped|
    requires SettledExcept(s.hashed, s.hashDropped, s.checked, s.dropped, s.byCrc32, {})
    ensures (exists i :: Holds(s.checked, s.dropped, i, crc)) <==>
            (exists i :: Holds(s.hashed, s.hashDropped, i, crc)) && !Contradicted(s.hashed, s.hashDropped, crc)
  {
    hide Contradicted, Wins;
    if exists i :: Holds(s.checked, s.dropped, i, crc) {
      var i :| Holds(s.checked, s.dropped, i, crc);
      HeldBefore(s.hashed, s.hashDropped, s.checked, s.dropped, s.byCrc32, {}, i, crc);
      assert SettledTo(s.hashed, s.hashDropped, s.checked, s.dropped, crc, s.byCrc32[crc]);
    }
    if (exists i :: Holds(s.hashed, s.hashDropped, i, crc)) && !Contradicted(s.hashed, s.hashDropped, crc) {
      assert SettledTo(s.hashed, s.hashDropped, s.checked, s.dropped, crc, s.byCrc32[crc]);
      assert Holds(s.checked, s.dropped, s.byCrc32[crc], crc);
    }
  }

  /**
   A CRC is in the output exactly when it outlives the merging of hashes and no two rows
   that hold it then contradict each other.
   */
  lemma KeptCrcs(upper: char -> char, input: seq<DatEntry>, s: Stages, output: seq<DatEntry>, report: DedupeReport, crc: uint32)
    requires Explains(upper, input, s, output, report)
    ensures HasCrc32(output, crc) <==> OutlivesHashes(s.distinct, crc) && !Contradicted(s.hashed, s.hashDropped, crc)
  {
    hide HashesSettled, SettledExcept, OutlivesHashes, Contradicted, Ambiguous, FirstOfEach;
    HashedCrcs(s, crc);
    CheckedCrcs(s, crc);
    if HasCrc32(output, crc) {
      var o :| 0 <= o < |output| && output[o].crc32 == Some(crc);
      assert Holds(s.checked, s.dropped, s.index[o], crc);
    }
    if i :| Holds(s.checked, s.dropped, i, crc) {
      assert i in s.index;
      var o :| 0 <= o < |s.index| && s.index[o] == i;
      assert output[o] in output && output[o].crc32 == Some(crc);
    }
  }

  predicate HasSerial(rows: seq<DatEntry>, key: SerialKey) {
    exists e :: e in rows && e.console == key.0 && e.serial == Some(key.1)
  }

  /**
   What the CRC pass makes of a live row: itself without a CRC, itself less a contradicted
   CRC, and for the best row of any other CRC the merger of all of them.
   */
  ghost predicate Becomes(rows: seq<DatEntry>, dropped: seq<bool>, i: nat, e: DatEntry)
    requires |rows| == |dropped|
  {
    && Live(rows, dropped, i)
    && match rows[i].crc32
       case None => e == rows[i]
       case Some(crc) =>
         if Contradicted(rows, dropped, crc) then e == rows[i].(crc32 := None)
         else Wins(rows, CrcGroup(rows, dropped, crc), i) && e == CrcMerge(rows, dropped, crc, i, |rows|)
  }

  ghost predicate StandsAfterCrcs(rows: seq<DatEntry>, dropped: seq<bool>, e: DatEntry)
    requires |rows| == |dropped|
  {
    exists i: nat :: Becomes(rows, dropped, i, e)
  }

  lemma CheckedRow(s: Stages, i: nat, e: DatEntry)
    requires |s.hashed| == |s.hashDropped| == |s.checked| == |s.dropped|
    requires SettledExcept(s.hashed, s.hashDropped, s.checked, s.dropped, s.byCrc32, {})
    ensures Live(s.checked, s.dropped, i) && s.checked[i] == e <==> Becomes(s.hashed, s.hashDropped, i, e)
  {
    hide Contradicted, Wins, CrcMerge;
    if Live(s.hashed, s.hashDropped, i) && s.hashed[i].crc32.Some? {
      var crc := s.hashed[i].crc32.value;
      assert Holds(s.hashed, s.hashDropped, i, crc);
      assert SettledTo(s.hashed, s.hashDropped, s.checked, s.dropped, crc, s.byCrc32[crc]);
      if !Contradicted(s.hashed, s.hashDropped, crc) && Wins(s.hashed, CrcGroup(s.hashed, s.hashDropped, crc), i) {
        WinnerIsUnique(s.hashed, s.hashed, CrcGroup(s.hashed, s.hashDropped, crc), i, s.byCrc32[crc]);
      }
    }
  }

  /** The rows the CRC pass leaves are exactly those that some row becomes. */
  lemma CheckedRows(s: Stages, e: DatEntry)
    requires |s.hashed| == |s.hashDropped| == |s.checked| == |s.dropped|
    requires SettledExcept(s.hashed, s.hashDropped, s.checked, s.dropped, s.byCrc32, {})
    ensures StandsIn(s.checked, s.dropped, e) <==> StandsAfterCrcs(s.hashed, s.hashDropped, e)
  {
    hide SettledExcept, Becomes;
    forall i: nat
      ensures Live(s.checked, s.dropped, i) && s.checked[i] == e <==> Becomes(s.hashed, s.hashDropped, i, e)
    {
      CheckedRow(s, i, e);
    }
  }

  predicate Files(e: DatEntry, key: SerialKey) {
    e.console == key.0 && e.serial == Some(key.1)
  }

  lemma SerialsAfterCrcs(upper: char -> char, input: seq<DatEntry>, s: Stages, output: seq<DatEntry>, report: DedupeReport,
                         key: SerialKey)
    requires Explains(upper, input, s, output, report)
    ensures HasSerial(output, key) <==>
            exists i :: SerialKeyOf(s.checked, s.dropped, i) == Some(key) && !Ambiguous(upper, s.checked, s.dropped, i)
  {
    hide HashesSettled, SettledExcept, Ambiguous, FirstOfEach;
    if HasSerial(output, key) {
      var o :| 0 <= o < |output| && output[o].console == key.0 && output[o].serial == Some(key.1);
      var i := s.index[o];
      assert SerialKeyOf(s.checked, s.dropped, i) == Some(key) && !Ambiguous(upper, s.checked, s.dropped, i);
    }
    if i :| SerialKeyOf(s.checked, s.dropped, i) == Some(key) && !Ambiguous(upper, s.checked, s.dropped, i) {
      assert i in s.index;
      var o :| 0 <= o < |s.index| && s.index[o] == i;
      assert output[o] in output;
    }
  }

  /** All live rows with a serial are of one game. */
  ghost predicate OneGame(upper: char -> char, rows: seq<DatEntry>, dropped: seq<bool>, key: SerialKey)
    requires |rows| == |dropped|
  {
    forall i, j :: SerialKeyOf(rows, dropped, i) == Some(key) && SerialKeyOf(rows, dropped, j) == Some(key) ==>
      FoldedTitle(upper, rows[i]) == FoldedTitle(upper, rows[j])
  }

  lemma UnambiguousIsOneGame(upper: char -> char, rows: seq<DatEntry>, dropped: seq<bool>, key: SerialKey)
    requires |rows| == |dropped|
    ensures (exists i :: SerialKeyOf(rows, dropped, i) == Some(key) && !Ambiguous(upper, rows, dropped, i))
            <==> (exists i :: SerialKeyOf(rows, dropped, i) == Some(key)) && OneGame(upper, rows, dropped, key)
  {
    hide FoldedTitle;
  }

  /** All standing rows with a serial are of one game. */
  ghost predicate StandForOneGame(upper: char -> char, rows: seq<DatEntry>, dropped: seq<bool>, key: SerialKey)
    requires |rows| == |dropped|
  {
    forall e, f :: StandsAfterCrcs(rows, dropped, e) && Files(e, key) && StandsAfterCrcs(rows, dropped, f) && Files(f, key)
      ==> FoldedTitle(upper, e) == FoldedTitle(upper, f)
  }

  lemma FilesWhatStands(s: Stages, key: SerialKey, e: DatEntry)
    requires |s.hashed| == |s.hashDropped| == |s.checked| == |s.dropped|
    requires SettledExcept(s.hashed, s.hashDropped, s.checked, s.dropped, s.byCrc32, {})
    ensures StandsAfterCrcs(s.hashed, s.hashDropped, e) && Files(e, key) <==>
            exists i: nat :: SerialKeyOf(s.checked, s.dropped, i) == Some(key) && s.checked[i] == e
  {
    hide SettledExcept, StandsAfterCrcs;
    CheckedRows(s, e);
    if i: nat :| Live(s.checked, s.dropped, i) && s.checked[i] == e && Files(e, key) {
      assert SerialKeyOf(s.checked, s.dropped, i) == Some(key);
    }
    if i: nat :| SerialKeyOf(s.checked, s.dropped, i) == Some(key) && s.checked[i] == e {
      assert Live(s.checked, s.dropped, i);
    }
  }

  lemma StandingGames(upper: char -> char, s: Stages, key: SerialKey)
    requires |s.hashed| == |s.hashDropped| == |s.checked| == |s.dropped|
    requires SettledExcept(s.hashed, s.hashDropped, s.checked, s.dropped, s.byCrc32, {})
    ensures OneGame(upper, s.checked, s.dropped, key) <==> StandForOneGame(upper, s.hashed, s.hashDropped, key)
    ensures (exists i :: SerialKeyOf(s.checked, s.dropped, i) == Some(key)) <==>
            exists e :: StandsAfterCrcs(s.hashed, s.hashDropped, e) && Files(e, key)
  {
    hide SettledExcept, StandsAfterCrcs, Files, FoldedTitle;
    forall e ensures StandsAfterCrcs(s.hashed, s.hashDropped, e) && Files(e, key) <==>
                     exists i: nat :: SerialKeyOf(s.checked, s.dropped, i) == Some(key) && s.checked[i] == e {
      FilesWhatStands(s, key, e);
    }
    forall i | SerialKeyOf(s.checked, s.dropped, i) == Some(key)
      ensures StandsAfterCrcs(s.hashed, s.hashDropped, s.checked[i]) && Files(s.checked[i], key)
    {
      FilesWhatStands(s, key, s.checked[i]);
    }
  }

  /**
   A serial is in the output exactly when some row that stands once the rows of each hash
   and of each CRC are merged has it, and all those that have it are of one game.
   */
  lemma KeptSerials(upper: char -> char, input: seq<DatEntry>, s: Stages, output: seq<DatEntry>, report: DedupeReport,
                    key: SerialKey)
    requires Explains(upper, input, s, output, report)
    ensures HasSerial(output, key) <==>
            && (exists e :: StandsAfterCrcs(s.hashed, s.hashDropped, e) && Files(e, key))
            && StandForOneGame(upper, s.hashed, s.hashDropped, key)
    ensures forall e :: StandsIn(s.hashed, s.hashDropped, e) <==> StandsAfterHashes(s.distinct, e)
  {
    hide HashesSettled, SettledExcept, StandsAfterCrcs, StandsAfterHashes, StandsIn, SerialSettled, Surviving, FirstOfEach, Count, OneGame,
         StandForOneGame, Ambiguous, SerialKeyOf, Files, HasSerial;
    SerialsAfterCrcs(upper, input, s, output, report, key);
    UnambiguousIsOneGame(upper, s.checked, s.dropped, key);
    StandingGames(upper, s, key);
    forall e ensures StandsIn(s.hashed, s.hashDropped, e) <==> StandsAfterHashes(s.distinct, e) {
      HashedRows(s, e);
    }
  }

  // ----- The output is a function of the input

  /** Two tables with the same marks and the same live rows. */
  ghost predicate SameLive(a: seq<DatEntry>, b: seq<DatEntry>, dropped: seq<bool>) {
    |a| == |b| == |dropped| && forall i :: 0 <= i < |a| && !dropped[i] ==> a[i] == b[i]
  }

  lemma HashesDetermine(source: seq<DatEntry>, a: seq<DatEntry>, aDropped: seq<bool>, aNames: map<string, nat>,
                        b: seq<DatEntry>, bDropped: seq<bool>, bNames: map<string, nat>)
    requires |source| == |a| == |aDropped| == |b| == |bDropped|
    requires HashesSettled(source, a, aDropped, aNames, |source|) && HashesSettled(source, b, bDropped, bNames, |source|)
    ensures aDropped == bDropped && SameLive(a, b, aDropped)
  {
    hide Wins, Gathers, HashMerge;
    forall i | 0 <= i < |source| ensures aDropped[i] == bDropped[i] && (!aDropped[i] ==> a[i] == b[i]) {
      if source[i].sha1.Some? {
        var sha1 := source[i].sha1.value;
        assert HashSettled(source, a, sha1, aNames[sha1], |source|) && HashSettled(source, b, sha1, bNames[sha1], |source|);
      }
    }
  }

  lemma SameHolders(a: seq<DatEntry>, b: seq<DatEntry>, dropped: seq<bool>, crc: uint32)
    requires SameLive(a, b, dropped)
    ensures forall i :: Holds(a, dropped, i, crc) <==> Holds(b, dropped, i, crc)
    ensures Contradicted(a, dropped, crc) <==> Contradicted(b, dropped, crc)
    ensures CrcGroup(a, dropped, crc) == CrcGroup(b, dropped, crc)
  {
    assert forall i :: Holds(a, dropped, i, crc) <==> Holds(b, dropped, i, crc);
    assert forall i :: Holds(a, dropped, i, crc) ==> a[i] == b[i];
  }

  /** Two winners of one group are the same row. */
  lemma WinnerIsUnique(a: seq<DatEntry>, b: seq<DatEntry>, group: set<int>, x: int, y: int)
    requires |a| == |b| && forall j :: j in group ==> 0 <= j < |a| && a[j] == b[j]
    requires Wins(a, group, x) && Wins(b, group, y)
    ensures x == y
  {
    hide IsBetter;
    assert x in group && y in group;
  }

  /** What becomes of one live row in the CRC pass. */
  lemma CrcFate(a: seq<DatEntry>, b: seq<DatEntry>, was: seq<bool>, a': seq<DatEntry>, aDropped: seq<bool>,
                aKeeper: map<uint32, nat>, b': seq<DatEntry>, bDropped: seq<bool>, bKeeper: map<uint32, nat>, i: nat)
    requires SameLive(a, b, was) && |a| == |a'| == |aDropped| == |b'| == |bDropped|
    requires SettledExcept(a, was, a', aDropped, aKeeper, {}) && SettledExcept(b, was, b', bDropped, bKeeper, {})
    requires i < |a| && !was[i] && a[i].crc32.Some?
    ensures var crc := a[i].crc32.value;
            crc in aKeeper && crc in bKeeper && (!Contradicted(a, was, crc) ==>
              aKeeper[crc] == bKeeper[crc] < |a| && !was[aKeeper[crc]])
    ensures aDropped[i] == bDropped[i] && (!aDropped[i] ==> a'[i] == b'[i])
    ensures a'[i].crc32.None? <==> Contradicted(a, was, a[i].crc32.value)
    ensures b'[i].crc32.None? <==> Contradicted(a, was, a[i].crc32.value)
  {
    hide Contradicted, Wins, CrcMerge;
    var crc := a[i].crc32.value;
    assert Holds(a, was, i, crc) && Holds(b, was, i, crc);
    SameHolders(a, b, was, crc);
    assert SettledTo(a, was, a', aDropped, crc, aKeeper[crc]) && SettledTo(b, was, b', bDropped, crc, bKeeper[crc]);
    if !Contradicted(a, was, crc) {
      WinnerIsUnique(a, b, CrcGroup(a, was, crc), aKeeper[crc], bKeeper[crc]);
      CrcMergeSame(a, b, was, was, crc, aKeeper[crc], |a|);
    }
  }

  lemma CrcsDetermine(a: seq<DatEntry>, b: seq<DatEntry>, was: seq<bool>, a': seq<DatEntry>, aDropped: seq<bool>,
                      aKeeper: map<uint32, nat>, b': seq<DatEntry>, bDropped: seq<bool>, bKeeper: map<uint32, nat>)
    requires SameLive(a, b, was) && |a| == |a'| == |aDropped| == |b'| == |bDropped|
    requires SettledExcept(a, was, a', aDropped, aKeeper, {}) && SettledExcept(b, was, b', bDropped, bKeeper, {})
    ensures aDropped == bDropped && SameLive(a', b', aDropped)
    ensures LostCrc32(a, a') == LostCrc32(b, b') && BadLosers(a, was, aKeeper) == BadLosers(b, was, bKeeper)
  {
    hide Contradicted, SettledTo, SupersedesBadDump;
    forall i | 0 <= i < |a|
      ensures aDropped[i] == bDropped[i] && (!aDropped[i] ==> a'[i] == b'[i])
      ensures i in LostCrc32(a, a') <==> i in LostCrc32(b, b')
      ensures i in BadLosers(a, was, aKeeper) <==> i in BadLosers(b, was, bKeeper)
    {
      if !was[i] && a[i].crc32.Some? {
        CrcFate(a, b, was, a', aDropped, aKeeper, b', bDropped, bKeeper, i);
        SameHolders(a, b, was, a[i].crc32.value);
      }
    }
  }

  lemma SerialsDetermine(upper: char -> char, a: seq<DatEntry>, b: seq<DatEntry>, dropped: seq<bool>)
    requires SameLive(a, b, dropped)
    ensures forall i :: 0 <= i < |a| && !dropped[i] ==> SerialSettled(upper, a, dropped, i) == SerialSettled(upper, b, dropped, i)
    ensures AmbiguousRows(upper, a, dropped) == AmbiguousRows(upper, b, dropped)
  {
    hide FoldedTitle;
    forall i | 0 <= i < |a| ensures Ambiguous(upper, a, dropped, i) <==> Ambiguous(upper, b, dropped, i) {
      assert forall j :: SerialKeyOf(a, dropped, j) == SerialKeyOf(b, dropped, j);
      assert forall j :: SerialKeyOf(a, dropped, j).Some? ==> a[j] == b[j];
    }
  }

  /** The live rows in order are a function of the table. */
  lemma {:induction false} SurvivorsDetermine(a: seq<DatEntry>, b: seq<DatEntry>, dropped: seq<bool>,
                                              aOutput: seq<DatEntry>, aIndex: seq<nat>, bOutput: seq<DatEntry>, bIndex: seq<nat>)
    requires SameLive(a, b, dropped)
    requires Surviving(a, dropped, aOutput, aIndex) && Surviving(b, dropped, bOutput, bIndex)
    ensures aOutput == bOutput
  {
    AscendingsAgree(aIndex, bIndex);
  }

  lemma FirstIsIn(b: seq<nat>)
    ensures b == [] || b[0] in b
  {
  }

  lemma LastIsMost(a: seq<nat>)
    requires a != [] && Ascending(a)
    ensures var last, rest := a[|a| - 1], a[..|a| - 1];
            && Ascending(rest) && last in a && a == rest + [last]
            && (forall i :: i in a ==> i <= last) && (forall i :: i in rest <==> i in a && i != last)
  {
    var last, rest := a[|a| - 1], a[..|a| - 1];
    assert a == rest + [last];
  }

  lemma {:induction false} AscendingsAgree(a: seq<nat>, b: seq<nat>)
    requires Ascending(a) && Ascending(b) && forall i :: i in a <==> i in b
    ensures a == b
  {
    hide Ascending;
    FirstIsIn(a);
    FirstIsIn(b);
    if a != [] {
      LastIsMost(a);
      LastIsMost(b);
      AscendingsAgree(a[..|a| - 1], b[..|b| - 1]);
    }
  }

  /** Two accounts of one input end in the same output and the same report. */
  lemma InputDetermines(upper: char -> char, input: seq<DatEntry>, s: Stages, output: seq<DatEntry>, report: DedupeReport,
                        t: Stages, other: seq<DatEntry>, otherReport: DedupeReport)
    requires Explains(upper, input, s, output, report) && Explains(upper, input, t, other, otherReport)
    ensures output == other && report == otherReport
  {
    hide FirstOfEach, HashesSettled, SettledExcept, SerialSettled, Surviving, Count, LostCrc32, BadLosers, AmbiguousRows,
         HashSuperseded;
    HashesDetermine(s.distinct, s.hashed, s.hashDropped, s.bySha1, t.hashed, t.hashDropped, t.bySha1);
    CrcsDetermine(s.hashed, t.hashed, s.hashDropped, s.checked, s.dropped, s.byCrc32, t.checked, t.dropped, t.byCrc32);
    SerialsDetermine(upper, s.checked, t.checked, s.dropped);
    assert SameLive(s.settled, t.settled, s.dropped);
    SurvivorsDetermine(s.settled, t.settled, s.dropped, output, s.index, other, t.index);
  }
}
