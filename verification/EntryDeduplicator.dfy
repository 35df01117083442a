/**
 The passes that leave no key with two answers. The rows and their `dropped` marks are
 arrays that three passes update in place; the statements about them are predicates on
 the arrays' contents.
 */
module EntryDeduplicator {
  import opened DatEntry
  import opened Models
  import opened Text
  import opened Wrappers

  const MAX_DISTINCT_TITLES_PER_SERIAL := 1

  datatype DedupeReport = DedupeReport(
    inputRows: nat,
    outputRows: nat,
    exactDuplicates: nat,
    sha1Duplicates: nat,
    crc32Duplicates: nat,
    crc32CollisionsCleared: nat,
    ambiguousSerialsCleared: nat,
    badDumpsSuperseded: nat)

  type RowKey = (ConsoleType, string, Option<string>, Option<uint32>, Option<string>, Option<string>)
  type SerialKey = (ConsoleType, string)

  function KeyOf(e: DatEntry): RowKey {
    (e.console, e.name, e.serial, e.crc32, e.sha1, e.status)
  }

  /** Rows repeat each other when they agree in these six fields; where they were read is no matter. */
  lemma RepeatsAre(a: DatEntry, b: DatEntry)
    ensures KeyOf(a) == KeyOf(b) <==> a == b.(sourceName := a.sourceName, artName := a.artName)
  {
  }

  /** The winner, with the loser's keys where it has none of its own. */
  function Inherit(winner: DatEntry, loser: DatEntry): DatEntry {
    winner.(serial := winner.serial.Or(loser.serial),
            crc32 := winner.crc32.Or(loser.crc32),
            sha1 := winner.sha1.Or(loser.sha1))
  }

  /** The name without its qualifiers. */
  function BaseTitle(name: string): string {
    name[..IndexOf(name, " (")]
  }

  function FoldedTitle(upper: char -> char, e: DatEntry): string {
    Fold(upper, BaseTitle(e.name))
  }

  /** The title ends before the first opening parenthesis that follows a space, or with the name. */
  lemma BaseTitleIs(name: string, title: string)
    ensures BaseTitle(name) == title <==>
            && title <= name && (title == name || StandsAt(name, " (", |title|))
            && forall k :: StandsAt(name, " (", k) ==> |title| <= k
  {
    var i := IndexOf(name, " (");
    forall k ensures StandsAt(name, " (", k) <==> 0 <= k <= |name| && StartsWith(name[k..], " (") {
      if 0 <= k <= |name| {
        assert |name[k..]| >= 2 ==> name[k..][..2] == name[k..k + 2];
      }
    }
    if StandsAt(name, " (", |title|) && title <= name {
      assert i <= |title|;
    }
  }

  /** Rows are of one game when their base titles fold alike, character by character. */
  lemma OneGameMeans(upper: char -> char, a: DatEntry, b: DatEntry, aTitle: string, bTitle: string)
    requires BaseTitle(a.name) == aTitle && BaseTitle(b.name) == bTitle
    ensures FoldedTitle(upper, a) == FoldedTitle(upper, b) <==>
            |aTitle| == |bTitle| && forall i :: 0 <= i < |aTitle| ==> upper(aTitle[i]) == upper(bTitle[i])
  {
    hide BaseTitle;
    if FoldedTitle(upper, a) == FoldedTitle(upper, b) {
      forall i | 0 <= i < |aTitle| ensures upper(aTitle[i]) == upper(bTitle[i]) {
        assert FoldedTitle(upper, a)[i] == upper(aTitle[i]) && FoldedTitle(upper, b)[i] == upper(bTitle[i]);
      }
    }
  }

  predicate SupersedesBadDump(winner: DatEntry, loser: DatEntry) {
    DumpRank(loser.status) >= 2 && DumpRank(winner.status) < DumpRank(loser.status)
  }

  // ----- What every pass keeps

  ghost function Marked(marks: seq<bool>): set<int> {
    set i | 0 <= i < |marks| && marks[i]
  }

  ghost function Count(marks: seq<bool>): nat {
    |Marked(marks)|
  }

  lemma CountMark(marks: seq<bool>, i: nat)
    requires i < |marks| && !marks[i]
    ensures Count(marks[i := true]) == Count(marks) + 1
  {
    assert Marked(marks[i := true]) == Marked(marks) + {i};
  }

  lemma CountNone(marks: seq<bool>)
    requires forall i :: 0 <= i < |marks| ==> !marks[i]
    ensures Count(marks) == 0
  {
    assert Marked(marks) == {};
  }

  /** The parts of a row no pass touches. */
  predicate SameLabel(a: DatEntry, b: DatEntry) {
    a == b.(serial := a.serial, crc32 := a.crc32, sha1 := a.sha1)
  }

  /** Each lookup field the row has, some row of `source` has too. */
  ghost predicate FieldsFrom(source: seq<DatEntry>, e: DatEntry) {
    && (e.serial.Some? ==> exists k :: 0 <= k < |source| && source[k].serial == e.serial)
    && (e.crc32.Some? ==> exists k :: 0 <= k < |source| && source[k].crc32 == e.crc32)
    && (e.sha1.Some? ==> exists k :: 0 <= k < |source| && source[k].sha1 == e.sha1)
  }

  /** A live row carries this SHA-1 and is no worse than `e`. */
  ghost predicate Covered(rows: seq<DatEntry>, dropped: seq<bool>, e: DatEntry)
    requires |rows| == |dropped|
  {
    exists i :: 0 <= i < |rows| && !dropped[i] && rows[i].sha1 == e.sha1 && NoWorse(rows[i], e)
  }

  /** Rows are still the rows the passes began with, up to lookup fields taken from one another. */
  ghost predicate Faithful(source: seq<DatEntry>, rows: seq<DatEntry>, dropped: seq<bool>) {
    && |rows| == |dropped| == |source|
    && (forall i {:trigger SameLabel(rows[i], source[i])} :: 0 <= i < |rows| ==> SameLabel(rows[i], source[i]))
    && (forall i {:trigger FieldsFrom(source, rows[i])} :: 0 <= i < |rows| ==> FieldsFrom(source, rows[i]))
    && (forall j {:trigger Covered(rows, dropped, source[j])} :: 0 <= j < |source| && source[j].sha1.Some? ==>
          Covered(rows, dropped, source[j]))
  }

  /** No two live rows share a SHA-1. */
  ghost predicate UniqueSha1(rows: seq<DatEntry>, dropped: seq<bool>)
    requires |rows| == |dropped|
  {
    forall i, j :: 0 <= i < j < |rows| && !dropped[i] && !dropped[j] && rows[i].sha1.Some? ==>
      rows[i].sha1 != rows[j].sha1
  }

  lemma FaithfulAtStart(source: seq<DatEntry>, dropped: seq<bool>)
    requires |dropped| == |source| && forall i :: 0 <= i < |dropped| ==> !dropped[i]
    ensures Faithful(source, source, dropped)
  {
    forall j | 0 <= j < |source| ensures Covered(source, dropped, source[j]) && FieldsFrom(source, source[j]) {
      BetterIsNoWorse(source[j], source[j]);
      assert source[j].sha1 == source[j].sha1 && NoWorse(source[j], source[j]);
    }
  }

  lemma NoWorseByLabel(a: DatEntry, a': DatEntry, b: DatEntry)
    requires SameLabel(a, a')
    ensures NoWorse(a, b) == NoWorse(a', b)
  {
  }

  lemma InheritLabel(winner: DatEntry, loser: DatEntry, e: DatEntry)
    ensures SameLabel(Inherit(winner, loser), winner)
    ensures SameLabel(winner, e) ==> SameLabel(Inherit(winner, loser), e)
  {
  }

  lemma InheritFields(source: seq<DatEntry>, winner: DatEntry, loser: DatEntry)
    requires FieldsFrom(source, winner) && FieldsFrom(source, loser)
    ensures FieldsFrom(source, Inherit(winner, loser))
  {
    assert Inherit(winner, loser).serial == winner.serial || Inherit(winner, loser).serial == loser.serial;
    assert Inherit(winner, loser).crc32 == winner.crc32 || Inherit(winner, loser).crc32 == loser.crc32;
    assert Inherit(winner, loser).sha1 == winner.sha1 || Inherit(winner, loser).sha1 == loser.sha1;
  }

  /** Striking out a row whose hash the better row keeps, or takes over, uncovers nothing. */
  lemma MergeCovers(rows: seq<DatEntry>, dropped: seq<bool>, keep: nat, drop: nat, e: DatEntry)
    requires |rows| == |dropped| && e.sha1.Some? && Covered(rows, dropped, e)
    requires keep < |rows| && drop < |rows| && keep != drop && !dropped[keep] && !dropped[drop]
    requires NoWorse(rows[keep], rows[drop])
    requires rows[keep].sha1.None? || rows[drop].sha1.None? || rows[keep].sha1 == rows[drop].sha1
    ensures Covered(rows[keep := Inherit(rows[keep], rows[drop])], dropped[drop := true], e)
  {
    var rows', dropped' := rows[keep := Inherit(rows[keep], rows[drop])], dropped[drop := true];
    InheritLabel(rows[keep], rows[drop], rows[keep]);
    NoWorseByLabel(rows'[keep], rows[keep], e);
    var i :| 0 <= i < |rows| && !dropped[i] && rows[i].sha1 == e.sha1 && NoWorse(rows[i], e);
    if i == drop {
      NoWorseTransitive(rows[keep], rows[drop], e);
      assert !dropped'[keep] && rows'[keep].sha1 == e.sha1 && NoWorse(rows'[keep], e);
    } else {
      assert !dropped'[i] && rows'[i].sha1 == e.sha1 && NoWorse(rows'[i], e);
    }
  }

  lemma MergeIsFaithful(source: seq<DatEntry>, rows: seq<DatEntry>, dropped: seq<bool>, keep: nat, drop: nat)
    requires Faithful(source, rows, dropped)
    requires keep < |rows| && drop < |rows| && keep != drop && !dropped[keep] && !dropped[drop]
    requires NoWorse(rows[keep], rows[drop])
    requires rows[keep].sha1.None? || rows[drop].sha1.None? || rows[keep].sha1 == rows[drop].sha1
    ensures Faithful(source, rows[keep := Inherit(rows[keep], rows[drop])], dropped[drop := true])
  {
    var rows', dropped' := rows[keep := Inherit(rows[keep], rows[drop])], dropped[drop := true];
    InheritFields(source, rows[keep], rows[drop]);
    InheritLabel(rows[keep], rows[drop], source[keep]);
    forall j | 0 <= j < |source| && source[j].sha1.Some? ensures Covered(rows', dropped', source[j]) {
      MergeCovers(rows, dropped, keep, drop, source[j]);
    }
  }

  lemma ClearCovers(rows: seq<DatEntry>, dropped: seq<bool>, i: nat, cleared: DatEntry, e: DatEntry)
    requires |rows| == |dropped| && i < |rows| && Covered(rows, dropped, e)
    requires SameLabel(cleared, rows[i]) && cleared.sha1 == rows[i].sha1
    ensures Covered(rows[i := cleared], dropped, e)
  {
    NoWorseByLabel(cleared, rows[i], e);
    var k :| 0 <= k < |rows| && !dropped[k] && rows[k].sha1 == e.sha1 && NoWorse(rows[k], e);
    var rows' := rows[i := cleared];
    assert rows'[k].sha1 == e.sha1 && NoWorse(rows'[k], e);
  }

  /** Clearing a CRC or a serial uncovers no hash and touches no label. */
  lemma ClearIsFaithful(source: seq<DatEntry>, rows: seq<DatEntry>, dropped: seq<bool>, i: nat, cleared: DatEntry)
    requires Faithful(source, rows, dropped) && i < |rows|
    requires cleared == rows[i].(crc32 := None) || cleared == rows[i].(serial := None)
    ensures Faithful(source, rows[i := cleared], dropped)
  {
    assert FieldsFrom(source, cleared) by {
      assert FieldsFrom(source, rows[i]);
    }
    assert SameLabel(cleared, source[i]) by {
      assert SameLabel(rows[i], source[i]);
    }
    forall j | 0 <= j < |source| && source[j].sha1.Some?
      ensures Covered(rows[i := cleared], dropped, source[j])
    {
      ClearCovers(rows, dropped, i, cleared, source[j]);
    }
  }

  // ----- What a merged row is made of

  /** The first of the best rows of a group. */
  ghost predicate Wins(before: seq<DatEntry>, group: set<int>, keep: int)
    requires forall j :: j in group ==> 0 <= j < |before|
  {
    && keep in group
    && forall j {:trigger j in group} :: j in group ==>
         NoWorse(before[keep], before[j]) && (j < keep ==> IsBetter(before[keep], before[j]))
  }

  /** One key of a merged row: its own, otherwise one of the group, and none only when the group has none. */
  ghost predicate Gathered<T(!new)>(before: seq<DatEntry>, group: set<int>, key: DatEntry -> Option<T>,
                                    own: DatEntry, row: DatEntry)
    requires forall j :: j in group ==> 0 <= j < |before|
  {
    if key(own).Some? then key(row) == key(own)
    else if key(row).Some? then exists j :: j in group && key(before[j]) == key(row)
    else forall j :: j in group ==> key(before[j]).None?
  }

  function Serial(e: DatEntry): Option<string> { e.serial }

  function Crc32Of(e: DatEntry): Option<uint32> { e.crc32 }

  function Sha1Of(e: DatEntry): Option<string> { e.sha1 }

  /** The row that `keep` becomes when the rows of its group are merged into it. */
  ghost predicate Gathers(before: seq<DatEntry>, group: set<int>, keep: int, row: DatEntry)
    requires forall j :: j in group ==> 0 <= j < |before|
  {
    && keep in group && SameLabel(row, before[keep])
    && Gathered(before, group, Serial, before[keep], row)
    && Gathered(before, group, Crc32Of, before[keep], row)
    && Gathered(before, group, Sha1Of, before[keep], row)
  }

  lemma GatherOne(before: seq<DatEntry>, i: nat)
    requires i < |before|
    ensures Gathers(before, {i}, i, before[i]) && Wins(before, {i}, i)
  {
    BetterIsNoWorse(before[i], before[i]);
  }

  lemma GatherKey<T(!new)>(before: seq<DatEntry>, group: set<int>, more: set<int>, key: DatEntry -> Option<T>,
                           keep: int, row: DatEntry, drop: int, lost: DatEntry, merged: DatEntry)
    requires (forall j :: j in group ==> 0 <= j < |before|) && forall j :: j in more ==> 0 <= j < |before|
    requires keep in group && drop in more && key(merged) == key(row).Or(key(lost))
    requires Gathered(before, group, key, before[keep], row) && Gathered(before, more, key, before[drop], lost)
    ensures Gathered(before, group + more, key, before[keep], merged)
  {
    if key(before[keep]).None? && key(merged).Some? {
      if key(row).Some? {
        var j :| j in group && key(before[j]) == key(row);
        assert j in group + more && key(before[j]) == key(merged);
      } else if key(before[drop]).Some? {
        assert drop in group + more && key(before[drop]) == key(merged);
      } else {
        var j :| j in more && key(before[j]) == key(lost);
        assert j in group + more && key(before[j]) == key(merged);
      }
    }
  }

  /** Merging one merged row into another merges their groups. */
  lemma GatherBoth(before: seq<DatEntry>, group: set<int>, more: set<int>, keep: int, row: DatEntry, drop: int, lost: DatEntry)
    requires (forall j :: j in group ==> 0 <= j < |before|) && forall j :: j in more ==> 0 <= j < |before|
    requires Gathers(before, group, keep, row) && Gathers(before, more, drop, lost)
    ensures Gathers(before, group + more, keep, Inherit(row, lost))
  {
    hide Gathered;
    var merged := Inherit(row, lost);
    InheritLabel(row, lost, before[keep]);
    GatherKey(before, group, more, Serial, keep, row, drop, lost, merged);
    GatherKey(before, group, more, Crc32Of, keep, row, drop, lost, merged);
    GatherKey(before, group, more, Sha1Of, keep, row, drop, lost, merged);
  }

  /** A later row joins a group: it wins only when it is strictly better than the winner so far. */
  lemma WinsOneMore(before: seq<DatEntry>, group: set<int>, keep: int, i: nat)
    requires forall j :: j in group ==> 0 <= j < i
    requires i < |before| && Wins(before, group, keep)
    ensures Wins(before, group + {i}, if IsBetter(before[i], before[keep]) then i else keep)
  {
    BetterIsNoWorse(before[i], before[i]);
    BetterIsNoWorse(before[i], before[keep]);
    if IsBetter(before[i], before[keep]) {
      forall j | j in group ensures NoWorse(before[i], before[j]) && IsBetter(before[i], before[j]) {
        NoWorseTransitive(before[i], before[keep], before[j]);
        if !IsBetter(before[i], before[j]) {
          NoWorseTransitive(before[keep], before[j], before[i]);
        }
      }
    }
  }

  // ----- The first pass: repeated rows

  ghost predicate HasKey(rows: seq<DatEntry>, key: RowKey) {
    exists k :: 0 <= k < |rows| && KeyOf(rows[k]) == key
  }

  /** The first row of each identity, in order. */
  ghost function FirstOfEach(input: seq<DatEntry>): seq<DatEntry> {
    if input == [] then []
    else
      var before, last := input[..|input| - 1], input[|input| - 1];
      FirstOfEach(before) + if HasKey(before, KeyOf(last)) then [] else [last]
  }

  lemma {:induction false} FirstOfEachIs(input: seq<DatEntry>)
    ensures forall k :: 0 <= k < |FirstOfEach(input)| ==> FirstOfEach(input)[k] in input
    ensures forall key :: HasKey(input, key) <==> HasKey(FirstOfEach(input), key)
    ensures forall k, l :: 0 <= k < l < |FirstOfEach(input)| ==>
              KeyOf(FirstOfEach(input)[k]) != KeyOf(FirstOfEach(input)[l])
  {
    if input != [] {
      var before, last := input[..|input| - 1], input[|input| - 1];
      FirstOfEachIs(before);
      assert input == before + [last];
      KeysAfterOne(before, last);
      if !HasKey(before, KeyOf(last)) {
        KeysAfterOne(FirstOfEach(before), last);
        var firsts := FirstOfEach(input);
        forall k, l | 0 <= k < l < |firsts| ensures KeyOf(firsts[k]) != KeyOf(firsts[l]) {
          assert HasKey(FirstOfEach(before), KeyOf(firsts[k]));
        }
      } else {
        assert FirstOfEach(input) == FirstOfEach(before);
      }
    }
  }

  lemma KeysAfterOne(rows: seq<DatEntry>, last: DatEntry)
    ensures forall key :: HasKey(rows + [last], key) <==> HasKey(rows, key) || key == KeyOf(last)
  {
    forall key ensures HasKey(rows + [last], key) <==> HasKey(rows, key) || key == KeyOf(last) {
      assert (rows + [last])[|rows|] == last;
      if HasKey(rows, key) {
        var k :| 0 <= k < |rows| && KeyOf(rows[k]) == key;
        assert (rows + [last])[k] == rows[k];
      }
    }
  }

  method DropExactDuplicates(input: seq<DatEntry>) returns (distinct: seq<DatEntry>, exactDuplicates: nat)
    ensures |input| == |distinct| + exactDuplicates
    ensures distinct == FirstOfEach(input)
  {
    var seen: set<RowKey> := {};
    distinct, exactDuplicates := [], 0;
    for i := 0 to |input|
      invariant i == |distinct| + exactDuplicates
      invariant distinct == FirstOfEach(input[..i])
      invariant forall key :: key in seen <==> HasKey(input[..i], key)
    {
      var key := KeyOf(input[i]);
      assert input[..i + 1][..i] == input[..i];
      assert input[..i + 1] == input[..i] + [input[i]];
      KeysAfterOne(input[..i], input[i]);
      if key !in seen {
        seen := seen + {key};
        distinct := distinct + [input[i]];
      } else {
        exactDuplicates := exactDuplicates + 1;
      }
    }
    assert input[..|input|] == input;
  }

  // ----- The second pass: one row for each SHA-1

  /** The map names exactly the live rows before `n` that carry a hash. */
  ghost predicate NamesSha1s(bySha1: map<string, nat>, rows: seq<DatEntry>, dropped: seq<bool>, n: nat)
    requires |rows| == |dropped| && n <= |rows|
  {
    && (forall s :: s in bySha1 ==> bySha1[s] < n && !dropped[bySha1[s]] && rows[bySha1[s]].sha1 == Some(s))
    && (forall i :: 0 <= i < n && !dropped[i] && rows[i].sha1.Some? ==>
          rows[i].sha1.value in bySha1 && bySha1[rows[i].sha1.value] == i)
  }

  lemma NamedIsUnique(bySha1: map<string, nat>, rows: seq<DatEntry>, dropped: seq<bool>)
    requires |rows| == |dropped| && NamesSha1s(bySha1, rows, dropped, |rows|)
    ensures UniqueSha1(rows, dropped)
  {
  }

  /** A row with no hash leaves the names alone; one with a new hash is named for it. */
  lemma NamesAfterNew(bySha1: map<string, nat>, rows: seq<DatEntry>, dropped: seq<bool>, i: nat)
    requires |rows| == |dropped| && i < |rows| && NamesSha1s(bySha1, rows, dropped, i) && !dropped[i]
    requires rows[i].sha1.Some? ==> rows[i].sha1.value !in bySha1
    ensures NamesSha1s(if rows[i].sha1.Some? then bySha1[rows[i].sha1.value := i] else bySha1,
                       rows, dropped, i + 1)
  {
  }

  /** Row `i` and the row named for its hash become one, named by whichever survived. */
  lemma NamesAfterMerge(bySha1: map<string, nat>, rows: seq<DatEntry>, dropped: seq<bool>,
                        i: nat, keep: nat, drop: nat)
    requires |rows| == |dropped| && i < |rows| && NamesSha1s(bySha1, rows, dropped, i)
    requires rows[i].sha1.Some? && rows[i].sha1.value in bySha1 && !dropped[i]
    requires var incumbent := bySha1[rows[i].sha1.value];
             (keep == i && drop == incumbent) || (keep == incumbent && drop == i)
    ensures NamesSha1s(bySha1[rows[i].sha1.value := keep],
                       rows[keep := Inherit(rows[keep], rows[drop])], dropped[drop := true], i + 1)
  {
  }

  /** Decides between two rows, and notes when that gets rid of a bad dump. */
  method Contest(challenger: DatEntry, incumbent: DatEntry) returns (challengerWins: bool, superseded: bool)
    ensures challengerWins == IsBetter(challenger, incumbent)
    ensures var winner, loser := if challengerWins then challenger else incumbent,
                                 if challengerWins then incumbent else challenger;
            NoWorse(winner, loser) && superseded == SupersedesBadDump(winner, loser)
  {
    challengerWins := IsBetter(challenger, incumbent);
    BetterIsNoWorse(challenger, incumbent);
    superseded := if challengerWins then SupersedesBadDump(challenger, incumbent)
                  else SupersedesBadDump(incumbent, challenger);
  }

  /** Folds row `drop` into the no worse row `keep`. */
  method Merge(rows: array<DatEntry>, dropped: array<bool>, keep: nat, drop: nat, ghost source: seq<DatEntry>)
    requires rows.Length == dropped.Length && keep < rows.Length && drop < rows.Length && keep != drop
    requires Faithful(source, rows[..], dropped[..]) && !dropped[keep] && !dropped[drop]
    requires NoWorse(rows[keep], rows[drop])
    requires rows[keep].sha1.None? || rows[drop].sha1.None? || rows[keep].sha1 == rows[drop].sha1
    modifies rows, dropped
    ensures rows[..] == old(rows[..])[keep := Inherit(old(rows[keep]), old(rows[drop]))]
    ensures dropped[..] == old(dropped[..])[drop := true]
    ensures Faithful(source, rows[..], dropped[..])
    ensures Count(dropped[..]) == Count(old(dropped[..])) + 1
  {
    MergeIsFaithful(source, rows[..], dropped[..], keep, drop);
    CountMark(dropped[..], drop);
    ghost var rowsBefore, droppedBefore := rows[..], dropped[..];
    rows[keep] := Inherit(rows[keep], rows[drop]);
    dropped[drop] := true;
    assert rows[..] == rowsBefore[keep := Inherit(rowsBefore[keep], rowsBefore[drop])];
    assert dropped[..] == droppedBefore[drop := true];
  }

  ghost function HashGroup(rows: seq<DatEntry>, sha1: string, n: nat): (r: set<int>)
    requires n <= |rows|
    ensures forall j :: j in r ==> 0 <= j < n && rows[j].sha1 == Some(sha1)
  {
    set j | 0 <= j < n && rows[j].sha1 == Some(sha1)
  }

  function One(b: bool): nat {
    if b then 1 else 0
  }

  datatype Merged = Merged(keep: nat, row: DatEntry)

  /** What the rows of one hash come to, taken in input order: the winner so far inherits from the loser each time. */
  ghost function HashMerge(source: seq<DatEntry>, sha1: string, n: nat): (r: Option<Merged>)
    requires n <= |source|
    ensures r.Some? ==> r.value.keep < n
  {
    if n == 0 then None
    else
      var so, e := HashMerge(source, sha1, n - 1), source[n - 1];
      if e.sha1 != Some(sha1) then so
      else if so.None? then Some(Merged(n - 1, e))
      else if IsBetter(e, so.value.row) then Some(Merged(n - 1, Inherit(e, so.value.row)))
      else Some(Merged(so.value.keep, Inherit(so.value.row, e)))
  }

  lemma HashMergeStep(source: seq<DatEntry>, sha1: string, n: nat)
    requires n < |source|
    ensures HashMerge(source, sha1, n + 1) ==
            var so, e := HashMerge(source, sha1, n), source[n];
            if e.sha1 != Some(sha1) then so
            else if so.None? then Some(Merged(n, e))
            else if IsBetter(e, so.value.row) then Some(Merged(n, Inherit(e, so.value.row)))
            else Some(Merged(so.value.keep, Inherit(so.value.row, e)))
  {
    hide IsBetter, Inherit;
  }

  lemma {:induction false} HashMergeNeedsRow(source: seq<DatEntry>, sha1: string, n: nat)
    requires n <= |source|
    ensures HashMerge(source, sha1, n).Some? <==> exists j :: 0 <= j < n && source[j].sha1 == Some(sha1)
  {
    hide IsBetter, Inherit;
    if n > 0 {
      HashMergeNeedsRow(source, sha1, n - 1);
    }
  }

  /** Whether taking row `i` supersedes a bad dump: the row that lost, or the one it beat. */
  ghost predicate SupersedesAt(source: seq<DatEntry>, i: nat)
    requires i < |source|
  {
    var e := source[i];
    e.sha1.Some? && HashMerge(source, e.sha1.value, i).Some? &&
    var row := HashMerge(source, e.sha1.value, i).value.row;
    if IsBetter(e, row) then SupersedesBadDump(e, row) else SupersedesBadDump(row, e)
  }

  ghost function HashSuperseded(source: seq<DatEntry>, n: nat): nat
    requires n <= |source|
  {
    if n == 0 then 0 else HashSuperseded(source, n - 1) + One(SupersedesAt(source, n - 1))
  }

  /** The rows of one hash have become one, as the fold says: the first best of them, with keys of them all. */
  ghost predicate HashSettled(source: seq<DatEntry>, rows: seq<DatEntry>, sha1: string, keep: nat, n: nat)
    requires |rows| == |source| && n <= |source|
  {
    && Wins(source, HashGroup(source, sha1, n), keep)
    && Gathers(source, HashGroup(source, sha1, n), keep, rows[keep])
    && HashMerge(source, sha1, n) == Some(Merged(keep, rows[keep]))
  }

  /** Every hash before `n` is settled; rows without one, and rows from `n` on, are as they were. */
  ghost predicate HashesSettled(source: seq<DatEntry>, rows: seq<DatEntry>, dropped: seq<bool>,
                                bySha1: map<string, nat>, n: nat)
    requires |rows| == |dropped| == |source| && n <= |source|
  {
    && (forall s {:trigger HashSettled(source, rows, s, bySha1[s], n)} :: s in bySha1 ==>
          HashSettled(source, rows, s, bySha1[s], n))
    && (forall j :: 0 <= j < n && source[j].sha1.Some? ==>
          source[j].sha1.value in bySha1 && (dropped[j] <==> j != bySha1[source[j].sha1.value]))
    && (forall j :: 0 <= j < |source| && (j >= n || source[j].sha1.None?) ==> rows[j] == source[j] && !dropped[j])
  }

  lemma HashGroupGrows(source: seq<DatEntry>, sha1: string, n: nat)
    requires n < |source|
    ensures HashGroup(source, sha1, n + 1) ==
            HashGroup(source, sha1, n) + if source[n].sha1 == Some(sha1) then {n as int} else {}
  {
  }

  lemma HashesAfterNew(source: seq<DatEntry>, rows: seq<DatEntry>, dropped: seq<bool>, bySha1: map<string, nat>, i: nat)
    requires |rows| == |dropped| == |source| && i < |source| && HashesSettled(source, rows, dropped, bySha1, i)
    requires rows[i].sha1.Some? ==> rows[i].sha1.value !in bySha1
    ensures HashesSettled(source, rows, dropped,
                          if rows[i].sha1.Some? then bySha1[rows[i].sha1.value := i] else bySha1, i + 1)
  {
    hide Wins, Gathers, HashMerge;
    assert rows[i] == source[i];
    var named := if rows[i].sha1.Some? then bySha1[rows[i].sha1.value := i] else bySha1;
    forall s | s in named ensures HashSettled(source, rows, s, named[s], i + 1) {
      HashGroupGrows(source, s, i);
      HashMergeStep(source, s, i);
      if s in bySha1 {
        assert HashSettled(source, rows, s, bySha1[s], i);
        assert HashGroup(source, s, i + 1) == HashGroup(source, s, i);
      } else {
        assert HashGroup(source, s, i + 1) == {i as int};
        GatherOne(source, i);
        HashMergeNeedsRow(source, s, i);
      }
    }
  }

  lemma HashesAfterMerge(source: seq<DatEntry>, rows: seq<DatEntry>, dropped: seq<bool>, bySha1: map<string, nat>,
                         i: nat, keep: nat, drop: nat)
    requires |rows| == |dropped| == |source| && i < |source| && HashesSettled(source, rows, dropped, bySha1, i)
    requires NamesSha1s(bySha1, rows, dropped, i)
    requires rows[i].sha1.Some? && rows[i].sha1.value in bySha1
    requires var incumbent := bySha1[rows[i].sha1.value];
             if IsBetter(rows[i], rows[incumbent]) then keep == i && drop == incumbent else keep == incumbent && drop == i
    ensures HashesSettled(source, rows[keep := Inherit(rows[keep], rows[drop])], dropped[drop := true],
                          bySha1[rows[i].sha1.value := keep], i + 1)
  {
    hide Wins, Gathers, IsBetter, HashMerge;
    var sha1 := rows[i].sha1.value;
    var incumbent := bySha1[sha1];
    var rows' := rows[keep := Inherit(rows[keep], rows[drop])];
    var group := HashGroup(source, sha1, i);
    assert rows[i] == source[i] && HashSettled(source, rows, sha1, incumbent, i);
    HashGroupGrows(source, sha1, i);
    HashMergeStep(source, sha1, i);
    GatherOne(source, i);
    WinsOneMore(source, group, incumbent, i);
    LabelDecides(source, group, incumbent, rows[incumbent], source[i]);
    if keep == i {
      GatherBoth(source, {i as int}, group, i, rows[i], incumbent, rows[incumbent]);
      assert {i as int} + group == group + {i as int};
    } else {
      GatherBoth(source, group, {i as int}, incumbent, rows[incumbent], i, rows[i]);
    }
    forall s | s in bySha1 && s != sha1 ensures HashSettled(source, rows', s, bySha1[s], i + 1) {
      assert HashSettled(source, rows, s, bySha1[s], i);
      HashGroupGrows(source, s, i);
      HashMergeStep(source, s, i);
      assert HashGroup(source, s, i + 1) == HashGroup(source, s, i);
      assert bySha1[s] != keep;
    }
    assert drop == i || source[incumbent].sha1 == Some(sha1);
  }

  lemma LabelDecides(source: seq<DatEntry>, group: set<int>, keep: int, row: DatEntry, challenger: DatEntry)
    requires forall j :: j in group ==> 0 <= j < |source|
    requires Gathers(source, group, keep, row)
    ensures keep in group && IsBetter(challenger, row) == IsBetter(challenger, source[keep])
  {
  }

  /** Settles row `i` against the row already holding its hash. */
  method SettleSha1(rows: array<DatEntry>, dropped: array<bool>, i: nat, incumbent: nat,
                    ghost bySha1: map<string, nat>, ghost source: seq<DatEntry>)
    returns (keep: nat, superseded: bool)
    requires rows.Length == dropped.Length == |source| && incumbent < i < rows.Length
    requires Faithful(source, rows[..], dropped[..]) && NamesSha1s(bySha1, rows[..], dropped[..], i)
    requires HashesSettled(source, rows[..], dropped[..], bySha1, i)
    requires rows[i].sha1.Some?
    requires rows[i].sha1.value in bySha1 && bySha1[rows[i].sha1.value] == incumbent
    modifies rows, dropped
    ensures Faithful(source, rows[..], dropped[..])
    ensures NamesSha1s(bySha1[old(rows[i]).sha1.value := keep], rows[..], dropped[..], i + 1)
    ensures HashesSettled(source, rows[..], dropped[..], bySha1[old(rows[i]).sha1.value := keep], i + 1)
    ensures superseded == SupersedesAt(source, i)
    ensures Count(dropped[..]) == Count(old(dropped[..])) + 1
  {
    hide Faithful, Count, HashMerge;
    assert !dropped[..][i] && rows[..][i] == source[i];
    assert HashSettled(source, rows[..], rows[i].sha1.value, incumbent, i);
    var wins, bad := Contest(rows[i], rows[incumbent]);
    keep, superseded := if wins then i else incumbent, bad;
    var drop := if wins then incumbent else i;
    NamesAfterMerge(bySha1, rows[..], dropped[..], i, keep, drop);
    HashesAfterMerge(source, rows[..], dropped[..], bySha1, i, keep, drop);
    Merge(rows, dropped, keep, drop, source);
  }

  method CollapseSha1s(rows: array<DatEntry>, dropped: array<bool>)
    returns (bySha1: map<string, nat>, sha1Duplicates: nat, superseded: nat)
    requires rows.Length == dropped.Length && forall i :: 0 <= i < dropped.Length ==> !dropped[i]
    modifies rows, dropped
    ensures Faithful(old(rows[..]), rows[..], dropped[..])
    ensures NamesSha1s(bySha1, rows[..], dropped[..], rows.Length)
    ensures HashesSettled(old(rows[..]), rows[..], dropped[..], bySha1, rows.Length)
    ensures Count(dropped[..]) == sha1Duplicates
    ensures superseded == HashSuperseded(old(rows[..]), rows.Length) <= sha1Duplicates
  {
    hide Faithful, Count, HashesSettled, SupersedesAt;
    ghost var source := rows[..];
    bySha1, sha1Duplicates, superseded := map[], 0, 0;
    FaithfulAtStart(source, dropped[..]);
    HashesAtStart(source, dropped[..]);
    CountNone(dropped[..]);
    for i := 0 to rows.Length
      invariant Faithful(source, rows[..], dropped[..])
      invariant NamesSha1s(bySha1, rows[..], dropped[..], i)
      invariant HashesSettled(source, rows[..], dropped[..], bySha1, i)
      invariant Count(dropped[..]) == sha1Duplicates && superseded == HashSuperseded(source, i) <= sha1Duplicates
    {
      if rows[i].sha1.Some? && rows[i].sha1.value in bySha1 {
        var sha1 := rows[i].sha1.value;
        var keep, bad := SettleSha1(rows, dropped, i, bySha1[sha1], bySha1, source);
        sha1Duplicates := sha1Duplicates + 1;
        superseded := if bad then superseded + 1 else superseded;
        bySha1 := bySha1[sha1 := keep];
      } else {
        LiveFrom(source, rows[..], dropped[..], bySha1, i);
        NothingSuperseded(source, rows[..], dropped[..], bySha1, i);
        NamesAfterNew(bySha1, rows[..], dropped[..], i);
        HashesAfterNew(source, rows[..], dropped[..], bySha1, i);
        bySha1 := if rows[i].sha1.Some? then bySha1[rows[i].sha1.value := i] else bySha1;
      }
    }
  }

  lemma HashesAtStart(source: seq<DatEntry>, dropped: seq<bool>)
    requires |dropped| == |source| && forall i :: 0 <= i < |dropped| ==> !dropped[i]
    ensures HashesSettled(source, source, dropped, map[], 0)
  {
  }

  lemma NothingSuperseded(source: seq<DatEntry>, rows: seq<DatEntry>, dropped: seq<bool>, bySha1: map<string, nat>, i: nat)
    requires |rows| == |dropped| == |source| && i < |source| && HashesSettled(source, rows, dropped, bySha1, i)
    requires rows[i].sha1.Some? ==> rows[i].sha1.value !in bySha1
    ensures !SupersedesAt(source, i)
  {
    if source[i].sha1.Some? {
      HashMergeNeedsRow(source, source[i].sha1.value, i);
    }
  }

  lemma LiveFrom(source: seq<DatEntry>, rows: seq<DatEntry>, dropped: seq<bool>, bySha1: map<string, nat>, i: nat)
    requires |rows| == |dropped| == |source| && i < |source| && HashesSettled(source, rows, dropped, bySha1, i)
    ensures !dropped[i]
  {
  }

  /** What the CRC pass may rely on and keeps: faithful rows, and the map naming their hashes. */
  ghost predicate Sound(source: seq<DatEntry>, rows: seq<DatEntry>, dropped: seq<bool>, bySha1: map<string, nat>) {
    Faithful(source, rows, dropped) && NamesSha1s(bySha1, rows, dropped, |rows|)
  }

  // ----- The third pass: one row for each CRC, or none to find by it

  ghost predicate Ascending(bucket: seq<nat>) {
    forall m, n :: 0 <= m < n < |bucket| ==> bucket[m] < bucket[n]
  }

  ghost predicate Within(bucket: seq<nat>, n: nat) {
    forall m :: 0 <= m < |bucket| ==> bucket[m] < n
  }

  /** The live rows that answer to this CRC. */
  ghost predicate Holds(rows: seq<DatEntry>, dropped: seq<bool>, i: int, crc: uint32)
    requires |rows| == |dropped|
  {
    0 <= i < |rows| && !dropped[i] && rows[i].crc32 == Some(crc)
  }

  /** The bucket lists exactly the live rows holding `crc`, in row order. */
  ghost predicate IsBucket(bucket: seq<nat>, rows: seq<DatEntry>, dropped: seq<bool>, crc: uint32)
    requires |rows| == |dropped|
  {
    && Ascending(bucket)
    && forall i {:trigger i in bucket} {:trigger Holds(rows, dropped, i, crc)} ::
         i in bucket <==> Holds(rows, dropped, i, crc)
  }

  /** Two live rows of this CRC carry different hashes, so neither can stand for the other. */
  ghost predicate Contradicted(rows: seq<DatEntry>, dropped: seq<bool>, crc: uint32)
    requires |rows| == |dropped|
  {
    exists i, j :: Holds(rows, dropped, i, crc) && Holds(rows, dropped, j, crc)
                   && rows[i].sha1.Some? && rows[j].sha1.Some? && rows[i].sha1 != rows[j].sha1
  }

  /** The buckets list the positions before `n` by the key found there. */
  ghost predicate GroupedUpTo<K>(buckets: map<K, seq<nat>>, keys: seq<Option<K>>, n: nat)
    requires n <= |keys|
  {
    && (forall k :: k in buckets ==> buckets[k] != [] && Ascending(buckets[k]) && Within(buckets[k], n))
    && (forall k, i :: k in buckets && i in buckets[k] ==> keys[i] == Some(k))
    && (forall i :: 0 <= i < n && keys[i].Some? ==> keys[i].value in buckets && i in buckets[keys[i].value])
  }

  lemma GroupOneMore<K>(buckets: map<K, seq<nat>>, keys: seq<Option<K>>, i: nat, key: K)
    requires i < |keys| && GroupedUpTo(buckets, keys, i) && keys[i] == Some(key)
    ensures GroupedUpTo(buckets[key := (if key in buckets then buckets[key] else []) + [i]], keys, i + 1)
  {
    var bucket: seq<nat> := if key in buckets then buckets[key] else [];
    assert forall k :: k in bucket + [i] <==> k in bucket || k == i;
  }

  method GroupBy<K(==)>(keys: seq<Option<K>>) returns (buckets: map<K, seq<nat>>)
    ensures GroupedUpTo(buckets, keys, |keys|)
  {
    buckets := map[];
    for i := 0 to |keys|
      invariant GroupedUpTo(buckets, keys, i)
    {
      if keys[i].Some? {
        var key := keys[i].value;
        GroupOneMore(buckets, keys, i, key);
        buckets := buckets[key := (if key in buckets then buckets[key] else []) + [i]];
      }
    }
  }

  method GroupByCrc32(rows: array<DatEntry>, dropped: array<bool>) returns (byCrc: map<uint32, seq<nat>>)
    requires rows.Length == dropped.Length
    ensures forall crc :: crc in byCrc ==> byCrc[crc] != [] && IsBucket(byCrc[crc], rows[..], dropped[..], crc)
    ensures forall i, crc :: Holds(rows[..], dropped[..], i, crc) ==> crc in byCrc
  {
    var keys := seq(rows.Length, i requires 0 <= i < rows.Length reads rows, dropped =>
                      if dropped[i] then None else rows[i].crc32);
    byCrc := GroupBy(keys);
    forall i, crc | Holds(rows[..], dropped[..], i, crc) ensures crc in byCrc && i in byCrc[crc] {
      assert keys[i] == Some(crc);
    }
    forall crc, i | crc in byCrc && i in byCrc[crc] ensures Holds(rows[..], dropped[..], i, crc) {
      assert keys[i] == Some(crc);
    }
  }

  /** Moving the hash along with the merge keeps the map naming the live rows. */
  lemma NamesAfterInherit(bySha1: map<string, nat>, rows: seq<DatEntry>, dropped: seq<bool>, keep: nat, drop: nat)
    requires |rows| == |dropped| && NamesSha1s(bySha1, rows, dropped, |rows|)
    requires keep < |rows| && drop < |rows| && keep != drop && !dropped[keep] && !dropped[drop]
    requires rows[keep].sha1.None? || rows[drop].sha1.None?
    ensures NamesSha1s(if rows[keep].sha1.None? && rows[drop].sha1.Some?
                       then bySha1[rows[drop].sha1.value := keep] else bySha1,
                       rows[keep := Inherit(rows[keep], rows[drop])], dropped[drop := true], |rows|)
  {
  }

  lemma NamesAfterClear(bySha1: map<string, nat>, rows: seq<DatEntry>, dropped: seq<bool>, i: nat, cleared: DatEntry)
    requires |rows| == |dropped| && NamesSha1s(bySha1, rows, dropped, |rows|)
    requires i < |rows| && cleared.sha1 == rows[i].sha1
    ensures NamesSha1s(bySha1, rows[i := cleared], dropped, |rows|)
  {
  }

  /** The different hashes a bucket's rows carry. */
  ghost function HashesOf(rows: seq<DatEntry>, bucket: seq<nat>): set<string>
    requires forall i :: i in bucket ==> i < |rows|
  {
    set i | i in bucket && rows[i].sha1.Some? :: rows[i].sha1.value
  }

  lemma AtMostOne<T>(s: set<T>, x: T, y: T)
    requires |s| <= 1 && x in s && y in s
    ensures x == y
  {
    if x != y {
      assert |{x, y}| <= |s| by {
        assert {x, y} <= s;
        CardinalityMonotone({x, y}, s);
      }
    }
  }

  lemma CardinalityMonotone<T>(a: set<T>, b: set<T>)
    requires a <= b
    ensures |a| <= |b|
  {
    assert b == a + (b - a);
  }

  /** More than one hash in a bucket is a contradiction between two of its rows. */
  lemma ManyHashesContradict(rows: seq<DatEntry>, dropped: seq<bool>, crc: uint32, bucket: seq<nat>)
    requires |rows| == |dropped| && IsBucket(bucket, rows, dropped, crc)
    ensures |HashesOf(rows, bucket)| > 1 <==> Contradicted(rows, dropped, crc)
  {
    var hashes := HashesOf(rows, bucket);
    if |hashes| > 1 {
      var s :| s in hashes;
      assert hashes == {s} + (hashes - {s});
      var t :| t in hashes - {s};
      var i :| i in bucket && rows[i].sha1 == Some(s);
      var j :| j in bucket && rows[j].sha1 == Some(t);
      assert Holds(rows, dropped, i, crc) && Holds(rows, dropped, j, crc);
    }
    if Contradicted(rows, dropped, crc) {
      var i, j :| Holds(rows, dropped, i, crc) && Holds(rows, dropped, j, crc)
                  && rows[i].sha1.Some? && rows[j].sha1.Some? && rows[i].sha1 != rows[j].sha1;
      assert i in bucket && j in bucket;
      if |hashes| <= 1 {
        AtMostOne(hashes, rows[i].sha1.value, rows[j].sha1.value);
      }
    }
  }

  ghost function Members(bucket: seq<nat>): (r: set<int>)
    ensures forall i: int :: i in r <==> i in bucket
  {
    set i: int | i in bucket
  }

  lemma MembersGrow(bucket: seq<nat>, m: nat)
    requires m < |bucket| && Ascending(bucket)
    ensures Members(bucket[..m + 1]) == Members(bucket[..m]) + {bucket[m]}
    ensures forall j :: j in Members(bucket[..m]) ==> 0 <= j < bucket[m]
  {
    assert bucket[..m + 1] == bucket[..m] + [bucket[m]];
  }

  /** The first of a bucket's best rows. */
  method BestOf(rows: array<DatEntry>, bucket: seq<nat>) returns (keep: nat)
    requires bucket != [] && Ascending(bucket) && Within(bucket, rows.Length)
    ensures keep in bucket && Wins(rows[..], Members(bucket), keep)
  {
    hide Wins, IsBetter;
    keep := bucket[0];
    GatherOne(rows[..], keep);
    MembersGrow(bucket, 0);
    assert Members(bucket[..1]) == {keep as int};
    for m := 1 to |bucket|
      invariant keep in bucket
      invariant Wins(rows[..], Members(bucket[..m]), keep)
    {
      MembersGrow(bucket, m);
      WinsOneMore(rows[..], Members(bucket[..m]), keep, bucket[m]);
      if IsBetter(rows[bucket[m]], rows[keep]) {
        keep := bucket[m];
      }
    }
    assert bucket[..|bucket|] == bucket;
  }

  /** A colliding CRC identifies none of its rows: all stay, none keeps it. */
  method ClearCrc32(rows: array<DatEntry>, dropped: array<bool>, bucket: seq<nat>,
                    ghost bySha1: map<string, nat>, ghost source: seq<DatEntry>)
    requires rows.Length == dropped.Length && Sound(source, rows[..], dropped[..], bySha1)
    requires Ascending(bucket) && Within(bucket, rows.Length)
    modifies rows
    ensures Sound(source, rows[..], dropped[..], bySha1)
    ensures forall i :: 0 <= i < rows.Length ==>
              rows[i] == if i in bucket then old(rows[i]).(crc32 := None) else old(rows[i])
  {
    for m := 0 to |bucket|
      invariant Sound(source, rows[..], dropped[..], bySha1)
      invariant forall i :: 0 <= i < rows.Length ==>
                  rows[i] == if i in bucket[..m] then old(rows[i]).(crc32 := None) else old(rows[i])
    {
      var i := bucket[m];
      var cleared := rows[i].(crc32 := None);
      ClearIsFaithful(source, rows[..], dropped[..], i, cleared);
      NamesAfterClear(bySha1, rows[..], dropped[..], i, cleared);
      ghost var before := rows[..];
      rows[i] := cleared;
      assert rows[..] == before[i := cleared];
      assert bucket[..m + 1] == bucket[..m] + [i];
    }
    assert bucket[..|bucket|] == bucket;
  }

  /** Folds one row of a bucket without contradiction into its best row, the hash included. */
  method FoldInto(rows: array<DatEntry>, dropped: array<bool>, keep: nat, i: nat,
                  bySha1: map<string, nat>, ghost hashes: set<string>, ghost source: seq<DatEntry>)
    returns (bySha1': map<string, nat>, superseded: bool)
    requires rows.Length == dropped.Length && keep < rows.Length && i < rows.Length && keep != i
    requires Sound(source, rows[..], dropped[..], bySha1)
    requires !dropped[keep] && !dropped[i] && NoWorse(rows[keep], rows[i])
    requires |hashes| <= 1 && (rows[keep].sha1.Some? ==> rows[keep].sha1.value in hashes)
    requires rows[i].sha1.Some? ==> rows[i].sha1.value in hashes
    modifies rows, dropped
    ensures Sound(source, rows[..], dropped[..], bySha1')
    ensures rows[..] == old(rows[..])[keep := Inherit(old(rows[keep]), old(rows[i]))]
    ensures rows[keep].sha1.Some? ==> rows[keep].sha1.value in hashes
    ensures dropped[..] == old(dropped[..])[i := true]
    ensures superseded == SupersedesBadDump(old(rows[keep]), old(rows[i]))
    ensures Count(dropped[..]) == Count(old(dropped[..])) + 1
  {
    superseded := SupersedesBadDump(rows[keep], rows[i]);
    bySha1' := bySha1;
    if rows[keep].sha1.Some? && rows[i].sha1.Some? {
      AtMostOne(hashes, rows[keep].sha1.value, rows[i].sha1.value);
    }
    NamesAfterInherit(bySha1, rows[..], dropped[..], keep, i);
    if rows[keep].sha1.None? && rows[i].sha1.Some? {
      bySha1' := bySha1[rows[i].sha1.value := keep];
    }
    Merge(rows, dropped, keep, i, source);
  }

  /** The marks once every row of `bucket` but `keep` is struck out. */
  ghost function Struck(marks: seq<bool>, bucket: seq<nat>, keep: nat): (r: seq<bool>)
    requires Within(bucket, |marks|)
    ensures |r| == |marks|
  {
    if bucket == [] then marks
    else
      var last, init := bucket[|bucket| - 1], Struck(marks, bucket[..|bucket| - 1], keep);
      if last == keep then init else init[last := true]
  }

  lemma {:induction false} StruckMarks(marks: seq<bool>, bucket: seq<nat>, keep: nat)
    requires Within(bucket, |marks|) && Ascending(bucket)
    requires forall m :: 0 <= m < |bucket| ==> !marks[bucket[m]]
    ensures forall i :: 0 <= i < |marks| ==> Struck(marks, bucket, keep)[i] == (marks[i] || (i in bucket && i != keep))
    ensures Count(Struck(marks, bucket, keep)) == Count(marks) + if keep in bucket then |bucket| - 1 else |bucket|
  {
    if bucket != [] {
      var last, init := bucket[|bucket| - 1], bucket[..|bucket| - 1];
      StruckMarks(marks, init, keep);
      assert bucket == init + [last] && last !in init;
      if last != keep {
        CountMark(Struck(marks, init, keep), last);
      }
    }
  }

  lemma UpdateTwice<T>(s: seq<T>, i: nat, x: T, y: T)
    requires i < |s|
    ensures s[i := x][i := y] == s[i := y]
  {
  }

  /** Folds every other row of a bucket without contradiction into its best row. */
  method MergeBucket(rows: array<DatEntry>, dropped: array<bool>, bucket: seq<nat>, keep: nat, crc: uint32,
                     bySha1: map<string, nat>, ghost source: seq<DatEntry>)
    returns (bySha1': map<string, nat>, superseded: nat)
    requires rows.Length == dropped.Length && Sound(source, rows[..], dropped[..], bySha1)
    requires Ascending(bucket) && Within(bucket, rows.Length) && keep in bucket
    requires forall m :: 0 <= m < |bucket| ==> !dropped[bucket[m]] && NoWorse(rows[keep], rows[bucket[m]])
    requires !dropped[keep] && rows[keep].crc32 == Some(crc)
    requires |HashesOf(rows[..], bucket)| <= 1
    modifies rows, dropped
    ensures Sound(source, rows[..], dropped[..], bySha1')
    ensures Gathers(old(rows[..]), Members(bucket), keep, rows[keep])
    ensures rows[..] == old(rows[..])[keep := BucketMerge(old(rows[..]), bucket, keep, |bucket|)]
    ensures dropped[..] == Struck(old(dropped[..]), bucket, keep)
    ensures superseded == |BadOf(old(rows[..]), Members(bucket), keep)| < |bucket|
  {
    hide Sound, NoWorse, Count, Gathers, MergedSoFar, Ascending, BadOf, BucketMerge, SupersedesBadDump;
    ghost var before, marks, hashes := rows[..], dropped[..], HashesOf(rows[..], bucket);
    bySha1', superseded := bySha1, 0;
    GatherStart(before, bucket, keep);
    NothingBad(before, bucket, keep);
    for m := 0 to |bucket|
      invariant Sound(source, rows[..], dropped[..], bySha1')
      invariant Gathers(before, MergedSoFar(bucket, m, keep), keep, rows[keep])
      invariant rows[keep].sha1.Some? ==> rows[keep].sha1.value in hashes
      invariant rows[..] == before[keep := rows[keep]] && rows[keep] == BucketMerge(before, bucket, keep, m)
      invariant dropped[..] == Struck(marks, bucket[..m], keep)
      invariant superseded == |BadOf(before, Members(bucket[..m]), keep)|
      invariant superseded <= if keep in bucket[..m] then m - 1 else m
    {
      var i := bucket[m];
      assert bucket[..m + 1] == bucket[..m] + [i];
      GatherNext(before, bucket, m, keep, rows[keep]);
      BucketMergeStep(before, bucket, keep, m);
      BadNext(before, bucket, m, keep, rows[keep]);
      StruckNext(marks, bucket, m, keep);
      if i != keep {
        assert !dropped[..][i] && !dropped[..][keep] && rows[..][i] == before[i];
        ghost var current := rows[..];
        var bad;
        bySha1', bad := FoldInto(rows, dropped, keep, i, bySha1', hashes, source);
        assert rows[..][keep] == rows[keep] && rows[..] == current[keep := rows[keep]];
        UpdateTwice(before, keep, current[keep], rows[keep]);
        superseded := if bad then superseded + 1 else superseded;
      }
    }
    assert bucket[..|bucket|] == bucket;
    AllMerged(bucket, keep);
  }

  /** The best row of a bucket inheriting from the others in order. */
  ghost function BucketMerge(before: seq<DatEntry>, bucket: seq<nat>, keep: nat, m: nat): DatEntry
    requires m <= |bucket| && keep < |before| && Within(bucket, |before|)
  {
    if m == 0 then before[keep]
    else
      var so := BucketMerge(before, bucket, keep, m - 1);
      if bucket[m - 1] == keep then so else Inherit(so, before[bucket[m - 1]])
  }

  lemma BucketMergeStep(before: seq<DatEntry>, bucket: seq<nat>, keep: nat, m: nat)
    requires m < |bucket| && keep < |before| && Within(bucket, |before|)
    ensures BucketMerge(before, bucket, keep, 0) == before[keep]
    ensures BucketMerge(before, bucket, keep, m + 1) ==
            var so := BucketMerge(before, bucket, keep, m);
            if bucket[m] == keep then so else Inherit(so, before[bucket[m]])
  {
    hide Inherit, Within;
  }

  /** The rows of a group that are bad dumps beaten by a better one. */
  ghost function BadOf(before: seq<DatEntry>, group: set<int>, keep: nat): set<int>
    requires keep < |before| && forall j :: j in group ==> 0 <= j < |before|
  {
    set i | i in group && i != keep && SupersedesBadDump(before[keep], before[i])
  }

  lemma NothingBad(before: seq<DatEntry>, bucket: seq<nat>, keep: nat)
    requires keep < |before| && Within(bucket, |before|)
    ensures BadOf(before, Members(bucket[..0]), keep) == {}
    ensures BucketMerge(before, bucket, keep, 0) == before[keep]
  {
  }

  lemma BadNext(before: seq<DatEntry>, bucket: seq<nat>, m: nat, keep: nat, row: DatEntry)
    requires m < |bucket| && keep < |before| && Within(bucket, |before|) && Ascending(bucket)
    requires Gathers(before, MergedSoFar(bucket, m, keep), keep, row)
    ensures |BadOf(before, Members(bucket[..m + 1]), keep)| ==
            |BadOf(before, Members(bucket[..m]), keep)|
            + One(bucket[m] != keep && SupersedesBadDump(row, before[bucket[m]]))
  {
    hide Gathered;
    MembersGrow(bucket, m);
    var i, so := bucket[m], Members(bucket[..m]);
    assert SupersedesBadDump(row, before[i]) == SupersedesBadDump(before[keep], before[i]);
    if i != keep && SupersedesBadDump(before[keep], before[i]) {
      assert BadOf(before, so + {i as int}, keep) == BadOf(before, so, keep) + {i as int};
    } else {
      assert BadOf(before, so + {i as int}, keep) == BadOf(before, so, keep);
    }
  }

  ghost function MergedSoFar(bucket: seq<nat>, m: nat, keep: nat): (r: set<int>)
    requires m <= |bucket|
    ensures forall j :: j in r ==> j == keep || j in Members(bucket[..m])
  {
    {keep as int} + Members(bucket[..m])
  }

  lemma GatherStart(before: seq<DatEntry>, bucket: seq<nat>, keep: nat)
    requires keep < |before| && Within(bucket, |before|)
    ensures Gathers(before, MergedSoFar(bucket, 0, keep), keep, before[keep])
  {
    hide Gathers;
    GatherOne(before, keep);
    assert MergedSoFar(bucket, 0, keep) == {keep as int};
  }

  lemma GatherNext(before: seq<DatEntry>, bucket: seq<nat>, m: nat, keep: nat, row: DatEntry)
    requires m < |bucket| && keep < |before| && Within(bucket, |before|) && Ascending(bucket)
    requires Gathers(before, MergedSoFar(bucket, m, keep), keep, row)
    requires NoWorse(before[keep], before[bucket[m]])
    ensures var i := bucket[m];
            Gathers(before, MergedSoFar(bucket, m + 1, keep), keep, if i == keep then row else Inherit(row, before[i]))
    ensures NoWorse(row, before[bucket[m]])
  {
    hide Gathers, NoWorse;
    var i, group := bucket[m], MergedSoFar(bucket, m, keep);
    MembersGrow(bucket, m);
    assert MergedSoFar(bucket, m + 1, keep) == group + {i as int};
    GathersLabel(before, group, keep, row, before[i]);
    if i != keep {
      GatherOne(before, i);
      GatherBoth(before, group, {i as int}, keep, row, i, before[i]);
    } else {
      assert group + {i as int} == group;
    }
  }

  lemma AllMerged(bucket: seq<nat>, keep: nat)
    requires keep in bucket
    ensures MergedSoFar(bucket, |bucket|, keep) == Members(bucket)
  {
    assert bucket[..|bucket|] == bucket;
  }

  lemma StruckNext(marks: seq<bool>, bucket: seq<nat>, m: nat, keep: nat)
    requires m < |bucket| && Within(bucket, |marks|) && Ascending(bucket)
    requires keep < |marks| && !marks[keep]
    requires forall n :: 0 <= n < |bucket| ==> !marks[bucket[n]]
    ensures Within(bucket[..m], |marks|) && Within(bucket[..m + 1], |marks|) && bucket[m] < |marks|
    ensures var now := Struck(marks, bucket[..m], keep);
            && !now[keep] && !now[bucket[m]]
            && Struck(marks, bucket[..m + 1], keep) == if bucket[m] == keep then now else now[bucket[m] := true]
  {
    hide Count;
    StruckMarks(marks, bucket[..m], keep);
    assert bucket[..m + 1][..m] == bucket[..m];
  }

  lemma GathersLabel(before: seq<DatEntry>, group: set<int>, keep: int, row: DatEntry, other: DatEntry)
    requires forall j :: j in group ==> 0 <= j < |before|
    requires Gathers(before, group, keep, row)
    ensures keep in group && SameLabel(row, before[keep]) && NoWorse(row, other) == NoWorse(before[keep], other)
  {
  }

  ghost function CrcGroup(rows: seq<DatEntry>, dropped: seq<bool>, crc: uint32): (r: set<int>)
    requires |rows| == |dropped|
    ensures forall i :: i in r <==> Holds(rows, dropped, i, crc)
  {
    set i | 0 <= i < |rows| && Holds(rows, dropped, i, crc)
  }

  /** The winner inheriting from the other rows of its CRC before `n`, in row order. */
  ghost function CrcMerge(before: seq<DatEntry>, wasDropped: seq<bool>, crc: uint32, keep: nat, n: nat): DatEntry
    requires |before| == |wasDropped| && keep < |before| && n <= |before|
  {
    if n == 0 then before[keep]
    else
      var so := CrcMerge(before, wasDropped, crc, keep, n - 1);
      if n - 1 != keep && Holds(before, wasDropped, n - 1, crc) then Inherit(so, before[n - 1]) else so
  }

  lemma {:induction false} CrcMergeIsBucketMerge(before: seq<DatEntry>, wasDropped: seq<bool>, crc: uint32,
                                                 bucket: seq<nat>, keep: nat, n: nat, m: nat)
    requires |before| == |wasDropped| && keep < |before| && n <= |before| && m <= |bucket| && Within(bucket, |before|)
    requires IsBucket(bucket, before, wasDropped, crc)
    requires forall k :: 0 <= k < |bucket| ==> (k < m <==> bucket[k] < n)
    ensures CrcMerge(before, wasDropped, crc, keep, n) == BucketMerge(before, bucket, keep, m)
    decreases n
  {
    hide Inherit;
    if n > 0 {
      if n - 1 in bucket {
        assert m > 0 && bucket[m - 1] == n - 1;
        CrcMergeIsBucketMerge(before, wasDropped, crc, bucket, keep, n - 1, m - 1);
      } else {
        CrcMergeIsBucketMerge(before, wasDropped, crc, bucket, keep, n - 1, m);
      }
    } else {
      assert m == 0;
    }
  }

  lemma {:induction false} CrcMergeSame(before: seq<DatEntry>, rows: seq<DatEntry>, wasDropped: seq<bool>, dropped: seq<bool>,
                                        crc: uint32, keep: nat, n: nat)
    requires |before| == |wasDropped| == |rows| == |dropped| && keep < |before| && n <= |before|
    requires before[keep] == rows[keep]
    requires forall i :: Holds(rows, dropped, i, crc) <==> Holds(before, wasDropped, i, crc)
    requires forall i :: Holds(before, wasDropped, i, crc) ==> rows[i] == before[i]
    ensures CrcMerge(before, wasDropped, crc, keep, n) == CrcMerge(rows, dropped, crc, keep, n)
  {
    hide Inherit;
    if n > 0 {
      CrcMergeSame(before, rows, wasDropped, dropped, crc, keep, n - 1);
    }
  }

  /**
   What settling one CRC makes of the rows that held it: all of them without it when they
   contradict each other, otherwise the first best of them with the keys of them all, and
   the others struck out as they are.
   */
  ghost predicate SettledTo(before: seq<DatEntry>, wasDropped: seq<bool>, rows: seq<DatEntry>, dropped: seq<bool>,
                            crc: uint32, keep: nat)
    requires |before| == |wasDropped| == |rows| == |dropped|
  {
    if Contradicted(before, wasDropped, crc) then
      forall i :: Holds(before, wasDropped, i, crc) ==> !dropped[i] && rows[i] == before[i].(crc32 := None)
    else
      && Holds(before, wasDropped, keep, crc)
      && Wins(before, CrcGroup(before, wasDropped, crc), keep)
      && Gathers(before, CrcGroup(before, wasDropped, crc), keep, rows[keep])
      && rows[keep] == CrcMerge(before, wasDropped, crc, keep, |before|)
      && forall i :: Holds(before, wasDropped, i, crc) ==>
           (dropped[i] <==> i != keep) && (i != keep ==> rows[i] == before[i])
  }

  lemma ClearedIsSettled(before: seq<DatEntry>, dropped: seq<bool>, rows: seq<DatEntry>,
                         bucket: seq<nat>, crc: uint32, keep: nat)
    requires |before| == |dropped| == |rows| && IsBucket(bucket, before, dropped, crc)
    requires Contradicted(before, dropped, crc)
    requires forall i :: 0 <= i < |rows| ==>
               rows[i] == if i in bucket then before[i].(crc32 := None) else before[i]
    ensures SettledTo(before, dropped, rows, dropped, crc, keep)
  {
  }

  lemma BucketIsGroup(rows: seq<DatEntry>, dropped: seq<bool>, crc: uint32, bucket: seq<nat>)
    requires |rows| == |dropped| && IsBucket(bucket, rows, dropped, crc)
    ensures Members(bucket) == CrcGroup(rows, dropped, crc)
  {
  }

  lemma BucketMergeIsCrcMerge(rows: seq<DatEntry>, dropped: seq<bool>, bucket: seq<nat>, crc: uint32, keep: nat)
    requires |rows| == |dropped| && IsBucket(bucket, rows, dropped, crc) && Within(bucket, |rows|) && keep in bucket
    ensures keep < |rows| && BucketMerge(rows, bucket, keep, |bucket|) == CrcMerge(rows, dropped, crc, keep, |rows|)
  {
    hide BucketMerge, CrcMerge, IsBucket;
    CrcMergeIsBucketMerge(rows, dropped, crc, bucket, keep, |rows|, |bucket|);
  }

  lemma MergedIsSettled(before: seq<DatEntry>, wasDropped: seq<bool>, rows: seq<DatEntry>, dropped: seq<bool>,
                        bucket: seq<nat>, crc: uint32, keep: nat)
    requires |before| == |wasDropped| == |rows| == |dropped| && IsBucket(bucket, before, wasDropped, crc)
    requires !Contradicted(before, wasDropped, crc) && keep in bucket
    requires Within(bucket, |rows|) && dropped == Struck(wasDropped, bucket, keep)
    requires Wins(before, Members(bucket), keep) && Gathers(before, Members(bucket), keep, rows[keep])
    requires rows == before[keep := BucketMerge(before, bucket, keep, |bucket|)]
    ensures SettledTo(before, wasDropped, rows, dropped, crc, keep)
    ensures forall i :: 0 <= i < |rows| && (dropped[i] || i !in bucket) ==> rows[i] == before[i]
    ensures forall i :: 0 <= i < |rows| && i !in bucket ==> dropped[i] == wasDropped[i]
    ensures Count(dropped) == Count(wasDropped) + |bucket| - 1
  {
    hide Wins, Gathers, Contradicted, BucketMerge, CrcMerge, Members, CrcGroup, Struck, Count, Ascending;
    BucketIsLive(before, wasDropped, crc, bucket);
    BucketIsGroup(before, wasDropped, crc, bucket);
    BucketMergeIsCrcMerge(before, wasDropped, bucket, crc, keep);
    StruckMarks(wasDropped, bucket, keep);
    assert Holds(before, wasDropped, keep, crc);
    forall i | Holds(before, wasDropped, i, crc)
      ensures (dropped[i] <==> i != keep) && (i != keep ==> rows[i] == before[i])
    {
      assert i in bucket;
    }
  }

  lemma BucketIsLive(rows: seq<DatEntry>, dropped: seq<bool>, crc: uint32, bucket: seq<nat>)
    requires |rows| == |dropped| && IsBucket(bucket, rows, dropped, crc)
    ensures Within(bucket, |rows|) && Ascending(bucket)
    ensures forall i :: i in bucket ==> !dropped[i] && rows[i].crc32 == Some(crc)
    ensures forall m :: 0 <= m < |bucket| ==> !dropped[bucket[m]]
  {
    forall m | 0 <= m < |bucket| ensures Holds(rows, dropped, bucket[m], crc) {
      assert bucket[m] in bucket;
    }
  }

  method SettleCrc32(rows: array<DatEntry>, dropped: array<bool>, bucket: seq<nat>, crc: uint32,
                     bySha1: map<string, nat>, ghost source: seq<DatEntry>)
    returns (bySha1': map<string, nat>, duplicates: nat, cleared: nat, superseded: nat, keep: nat)
    requires rows.Length == dropped.Length && Sound(source, rows[..], dropped[..], bySha1)
    requires bucket != [] && IsBucket(bucket, rows[..], dropped[..], crc)
    modifies rows, dropped
    ensures Sound(source, rows[..], dropped[..], bySha1')
    ensures SettledTo(old(rows[..]), old(dropped[..]), rows[..], dropped[..], crc, keep)
    ensures forall i :: 0 <= i < rows.Length && i !in bucket ==> dropped[i] == old(dropped[i])
    ensures forall i :: 0 <= i < rows.Length && (dropped[i] || i !in bucket) ==> rows[i] == old(rows[i])
    ensures Count(dropped[..]) == Count(old(dropped[..])) + duplicates && superseded <= duplicates
    ensures cleared == if Contradicted(old(rows[..]), old(dropped[..]), crc) then |bucket| else 0
    ensures keep < rows.Length
    ensures superseded == if Contradicted(old(rows[..]), old(dropped[..]), crc) then 0
                          else |BadOf(old(rows[..]), CrcGroup(old(rows[..]), old(dropped[..]), crc), keep)|
  {
    hide Sound, Count, SettledTo, IsBucket, Contradicted, NoWorse, Struck, Gathers, Wins, BadOf, BucketMerge, CrcGroup;
    ghost var before, wasDropped := rows[..], dropped[..];
    BucketIsLive(before, wasDropped, crc, bucket);
    BucketIsGroup(before, wasDropped, crc, bucket);
    bySha1', duplicates, cleared, superseded, keep := bySha1, 0, 0, 0, bucket[0];
    ManyHashesContradict(before, wasDropped, crc, bucket);
    var hashes := set m | 0 <= m < |bucket| && rows[bucket[m]].sha1.Some? :: rows[bucket[m]].sha1.value;
    assert hashes == HashesOf(before, bucket);
    assert |bucket| > 0;
    if |bucket| < 2 {
      OneRowNeverContradicts(before, wasDropped, crc, bucket);
      return;
    }
    if |hashes| > 1 {
      ClearCrc32(rows, dropped, bucket, bySha1, source);
      ClearedIsSettled(before, wasDropped, rows[..], bucket, crc, keep);
      cleared := |bucket|;
    } else {
      keep := BestOf(rows, bucket);
      WinnerIsNoWorse(before, bucket, keep);
      bySha1', superseded := MergeBucket(rows, dropped, bucket, keep, crc, bySha1, source);
      MergedIsSettled(before, wasDropped, rows[..], dropped[..], bucket, crc, keep);
      duplicates := |bucket| - 1;
    }
  }

  lemma WinnerIsNoWorse(rows: seq<DatEntry>, bucket: seq<nat>, keep: nat)
    requires Within(bucket, |rows|) && Wins(rows, Members(bucket), keep)
    ensures keep in bucket && forall m :: 0 <= m < |bucket| ==> NoWorse(rows[keep], rows[bucket[m]])
  {
    forall m | 0 <= m < |bucket| ensures NoWorse(rows[keep], rows[bucket[m]]) {
      assert bucket[m] in Members(bucket);
    }
  }

  /** A CRC only one row holds is settled as it stands. */
  lemma OneRowNeverContradicts(rows: seq<DatEntry>, dropped: seq<bool>, crc: uint32, bucket: seq<nat>)
    requires |rows| == |dropped| && IsBucket(bucket, rows, dropped, crc) && |bucket| == 1
    ensures !Contradicted(rows, dropped, crc)
    ensures SettledTo(rows, dropped, rows, dropped, crc, bucket[0])
    ensures BadOf(rows, CrcGroup(rows, dropped, crc), bucket[0]) == {}
  {
    BucketIsLive(rows, dropped, crc, bucket);
    CrcMergeIsBucketMerge(rows, dropped, crc, bucket, bucket[0], |rows|, 1);
    BucketMergeStep(rows, bucket, bucket[0], 0);
    assert bucket[0] in bucket;
    forall i | Holds(rows, dropped, i, crc) ensures i == bucket[0] {
      assert i in bucket;
    }
    GatherOne(rows, bucket[0]);
    assert CrcGroup(rows, dropped, crc) == {bucket[0] as int};
  }

  /** No two live rows share a CRC. */
  ghost predicate UniqueCrc32(rows: seq<DatEntry>, dropped: seq<bool>)
    requires |rows| == |dropped|
  {
    forall i, j, crc :: Holds(rows, dropped, i, crc) && Holds(rows, dropped, j, crc) ==> i == j
  }

  /** Every CRC outside `pending` is settled; rows of a pending one, or of none, are as before. */
  ghost predicate SettledExcept(before: seq<DatEntry>, wasDropped: seq<bool>, rows: seq<DatEntry>, dropped: seq<bool>,
                                keeper: map<uint32, nat>, pending: set<uint32>)
    requires |before| == |wasDropped| == |rows| == |dropped|
  {
    && (forall i :: 0 <= i < |rows| && (wasDropped[i] || before[i].crc32.None? || before[i].crc32.value in pending) ==>
          rows[i] == before[i] && dropped[i] == wasDropped[i])
    && (forall i, crc :: Holds(before, wasDropped, i, crc) && crc !in pending ==> crc in keeper)
    && (forall crc :: crc in keeper ==> SettledTo(before, wasDropped, rows, dropped, crc, keeper[crc]))
  }

  lemma SettleOneMore(before: seq<DatEntry>, wasDropped: seq<bool>, rows: seq<DatEntry>, dropped: seq<bool>,
                      rows': seq<DatEntry>, dropped': seq<bool>, keeper: map<uint32, nat>, pending: set<uint32>,
                      crc: uint32, keep: nat)
    requires |before| == |wasDropped| == |rows| == |dropped| == |rows'| == |dropped'|
    requires SettledExcept(before, wasDropped, rows, dropped, keeper, pending) && crc in pending
    requires crc !in keeper
    requires SettledTo(before, wasDropped, rows', dropped', crc, keep)
    requires forall i :: 0 <= i < |rows| && !Holds(before, wasDropped, i, crc) ==>
               rows'[i] == rows[i] && dropped'[i] == dropped[i]
    ensures SettledExcept(before, wasDropped, rows', dropped', keeper[crc := keep], pending - {crc})
  {
    var keeper' := keeper[crc := keep];
    forall c | c in keeper' ensures SettledTo(before, wasDropped, rows', dropped', c, keeper'[c]) {
      if c != crc {
        assert SettledTo(before, wasDropped, rows, dropped, c, keeper[c]);
        assert forall i :: Holds(before, wasDropped, i, c) ==> !Holds(before, wasDropped, i, crc);
      }
    }
  }

  /** No row ends up with a CRC it did not begin the pass with. */
  lemma HeldBefore(before: seq<DatEntry>, wasDropped: seq<bool>, rows: seq<DatEntry>, dropped: seq<bool>,
                   keeper: map<uint32, nat>, pending: set<uint32>, i: int, crc: uint32)
    requires |before| == |wasDropped| == |rows| == |dropped|
    requires SettledExcept(before, wasDropped, rows, dropped, keeper, pending) && Holds(rows, dropped, i, crc)
    ensures Holds(before, wasDropped, i, crc)
    ensures crc !in pending ==> crc in keeper && i == keeper[crc]
  {
    assert !wasDropped[i] && before[i].crc32.Some?;
    var was := before[i].crc32.value;
    assert Holds(before, wasDropped, i, was);
    if was !in pending {
      assert SettledTo(before, wasDropped, rows, dropped, was, keeper[was]);
    }
  }

  lemma SettledIsUnique(before: seq<DatEntry>, wasDropped: seq<bool>, rows: seq<DatEntry>, dropped: seq<bool>,
                        keeper: map<uint32, nat>)
    requires |before| == |wasDropped| == |rows| == |dropped|
    requires SettledExcept(before, wasDropped, rows, dropped, keeper, {})
    ensures UniqueCrc32(rows, dropped)
  {
    forall i, crc | Holds(rows, dropped, i, crc) ensures crc in keeper && i == keeper[crc] {
      HeldBefore(before, wasDropped, rows, dropped, keeper, {}, i, crc);
    }
  }

  /** The rows that held a CRC before and hold none now. */
  ghost function LostCrc32(before: seq<DatEntry>, rows: seq<DatEntry>): set<int>
    requires |before| == |rows|
  {
    set i | 0 <= i < |rows| && before[i].crc32.Some? && rows[i].crc32.None?
  }

  lemma {:induction false} AscendingSize(bucket: seq<nat>)
    requires Ascending(bucket)
    ensures |set i: int | i in bucket| == |bucket|
  {
    if bucket != [] {
      var init, last := bucket[..|bucket| - 1], bucket[|bucket| - 1];
      AscendingSize(init);
      assert bucket == init + [last];
      assert (set i: int | i in bucket) == (set i: int | i in init) + {last};
    }
  }

  /** Settling one CRC adds its whole bucket to the cleared rows, or nothing. */
  lemma LostAfterSettling(before: seq<DatEntry>, wasDropped: seq<bool>, rows: seq<DatEntry>, dropped: seq<bool>,
                          rows': seq<DatEntry>, dropped': seq<bool>, bucket: seq<nat>, crc: uint32, keep: nat)
    requires |before| == |wasDropped| == |rows| == |dropped| == |rows'| == |dropped'|
    requires IsBucket(bucket, before, wasDropped, crc)
    requires forall i :: i in bucket ==> rows[i] == before[i]
    requires forall i :: 0 <= i < |rows| && i !in bucket ==> rows'[i] == rows[i]
    requires forall i :: 0 <= i < |rows| && dropped'[i] ==> rows'[i] == rows[i]
    requires SettledTo(before, wasDropped, rows', dropped', crc, keep)
    ensures |LostCrc32(before, rows')| ==
            |LostCrc32(before, rows)| + if Contradicted(before, wasDropped, crc) then |bucket| else 0
  {
    if Contradicted(before, wasDropped, crc) {
      LostAfterClearing(before, wasDropped, rows, dropped', rows', bucket, crc);
    } else {
      assert LostCrc32(before, rows') == LostCrc32(before, rows);
    }
  }

  lemma LostAfterClearing(before: seq<DatEntry>, wasDropped: seq<bool>, rows: seq<DatEntry>, dropped': seq<bool>,
                          rows': seq<DatEntry>, bucket: seq<nat>, crc: uint32)
    requires |before| == |wasDropped| == |rows| == |dropped'| == |rows'|
    requires IsBucket(bucket, before, wasDropped, crc)
    requires forall i :: i in bucket ==> rows[i] == before[i]
    requires forall i :: 0 <= i < |rows| && i !in bucket ==> rows'[i] == rows[i]
    requires forall i :: Holds(before, wasDropped, i, crc) ==> rows'[i] == before[i].(crc32 := None)
    ensures |LostCrc32(before, rows')| == |LostCrc32(before, rows)| + |bucket|
  {
    AscendingSize(bucket);
    var all := set i: int | i in bucket;
    assert forall i :: i in bucket ==> Holds(before, wasDropped, i, crc);
    assert LostCrc32(before, rows') == LostCrc32(before, rows) + all;
    assert LostCrc32(before, rows) !! all;
  }

  /** The bad dumps beaten within the CRCs settled so far. */
  ghost function BadLosers(before: seq<DatEntry>, wasDropped: seq<bool>, keeper: map<uint32, nat>): set<int>
    requires |before| == |wasDropped|
  {
    set i | 0 <= i < |before| && !wasDropped[i] && before[i].crc32.Some? && BeatenAt(before, wasDropped, keeper, i)
  }

  ghost predicate BeatenAt(before: seq<DatEntry>, wasDropped: seq<bool>, keeper: map<uint32, nat>, i: nat)
    requires |before| == |wasDropped| && i < |before| && before[i].crc32.Some?
  {
    var crc := before[i].crc32.value;
    && crc in keeper && keeper[crc] < |before| && !Contradicted(before, wasDropped, crc)
    && i != keeper[crc] && SupersedesBadDump(before[keeper[crc]], before[i])
  }

  lemma BadLosersGrow(before: seq<DatEntry>, wasDropped: seq<bool>, keeper: map<uint32, nat>, crc: uint32, keep: nat)
    requires |before| == |wasDropped| && crc !in keeper && keep < |before|
    ensures |BadLosers(before, wasDropped, keeper[crc := keep])| ==
            |BadLosers(before, wasDropped, keeper)|
            + if Contradicted(before, wasDropped, crc) then 0 else |BadOf(before, CrcGroup(before, wasDropped, crc), keep)|
  {
    hide Contradicted, SupersedesBadDump;
    var so, all := BadLosers(before, wasDropped, keeper), BadLosers(before, wasDropped, keeper[crc := keep]);
    var bad := BadOf(before, CrcGroup(before, wasDropped, crc), keep);
    if Contradicted(before, wasDropped, crc) {
      assert all == so;
    } else {
      assert all == so + bad && so !! bad;
    }
  }

  /** What is bad in a bucket depends on its own rows only. */
  lemma BadOfSame(before: seq<DatEntry>, rows: seq<DatEntry>, group: set<int>, keep: nat)
    requires |before| == |rows| && (forall j :: j in group ==> 0 <= j < |before| && rows[j] == before[j])
    requires keep < |before| && rows[keep] == before[keep]
    ensures BadOf(rows, group, keep) == BadOf(before, group, keep)
  {
  }

  /** Settles one pending CRC and keeps the accounts. */
  method SettleNext(rows: array<DatEntry>, dropped: array<bool>, bucket: seq<nat>, crc: uint32,
                    bySha1: map<string, nat>, ghost source: seq<DatEntry>, ghost before: seq<DatEntry>,
                    ghost wasDropped: seq<bool>, ghost keeper: map<uint32, nat>, ghost pending: set<uint32>)
    returns (bySha1': map<string, nat>, duplicates: nat, cleared: nat, superseded: nat, keep: nat)
    requires rows.Length == dropped.Length == |before| == |wasDropped|
    requires Sound(source, rows[..], dropped[..], bySha1)
    requires SettledExcept(before, wasDropped, rows[..], dropped[..], keeper, pending)
    requires crc in pending && keeper.Keys !! pending
    requires bucket != [] && IsBucket(bucket, before, wasDropped, crc)
    modifies rows, dropped
    ensures Sound(source, rows[..], dropped[..], bySha1')
    ensures SettledExcept(before, wasDropped, rows[..], dropped[..], keeper[crc := keep], pending - {crc})
    ensures Count(dropped[..]) == Count(old(dropped[..])) + duplicates && superseded <= duplicates
    ensures |LostCrc32(before, rows[..])| == |LostCrc32(before, old(rows[..]))| + cleared
    ensures |BadLosers(before, wasDropped, keeper[crc := keep])| == |BadLosers(before, wasDropped, keeper)| + superseded
  {
    hide Sound, Count, BadOf, SettledTo, SettledExcept, Contradicted, LostCrc32, BadLosers, IsBucket;
    ghost var rowsNow, droppedNow := rows[..], dropped[..];
    UntouchedBucket(before, wasDropped, rowsNow, droppedNow, bucket, crc, pending, keeper);
    BucketHolds(before, wasDropped, bucket, crc);
    bySha1', duplicates, cleared, superseded, keep := SettleCrc32(rows, dropped, bucket, crc, bySha1, source);
    SettledFromBefore(before, wasDropped, rowsNow, droppedNow, rows[..], dropped[..], crc, keep);
    LostAfterSettling(before, wasDropped, rowsNow, droppedNow, rows[..], dropped[..], bucket, crc, keep);
    SettleOneMore(before, wasDropped, rowsNow, droppedNow, rows[..], dropped[..], keeper, pending, crc, keep);
    SameContradiction(before, wasDropped, rowsNow, droppedNow, crc);
    if !Contradicted(before, wasDropped, crc) {
      SettledKeeps(before, wasDropped, rows[..], dropped[..], crc, keep);
      BadOfSame(before, rowsNow, CrcGroup(before, wasDropped, crc), keep);
    }
    BadLosersGrow(before, wasDropped, keeper, crc, keep);
  }

  lemma BucketHolds(rows: seq<DatEntry>, dropped: seq<bool>, bucket: seq<nat>, crc: uint32)
    requires |rows| == |dropped| && IsBucket(bucket, rows, dropped, crc)
    ensures forall i :: i in bucket <==> Holds(rows, dropped, i, crc)
  {
  }

  lemma SettledKeeps(before: seq<DatEntry>, wasDropped: seq<bool>, rows: seq<DatEntry>, dropped: seq<bool>, crc: uint32, keep: nat)
    requires |before| == |wasDropped| == |rows| == |dropped|
    requires SettledTo(before, wasDropped, rows, dropped, crc, keep) && !Contradicted(before, wasDropped, crc)
    ensures Holds(before, wasDropped, keep, crc)
  {
  }

  lemma SameContradiction(before: seq<DatEntry>, wasDropped: seq<bool>, rows: seq<DatEntry>, dropped: seq<bool>, crc: uint32)
    requires |before| == |wasDropped| == |rows| == |dropped|
    requires forall i :: Holds(rows, dropped, i, crc) <==> Holds(before, wasDropped, i, crc)
    requires forall i :: Holds(before, wasDropped, i, crc) ==> rows[i] == before[i]
    ensures Contradicted(before, wasDropped, crc) <==> Contradicted(rows, dropped, crc)
    ensures CrcGroup(before, wasDropped, crc) == CrcGroup(rows, dropped, crc)
  {
  }

  method CollapseCrc32s(rows: array<DatEntry>, dropped: array<bool>, bySha1: map<string, nat>,
                        ghost source: seq<DatEntry>)
    returns (bySha1': map<string, nat>, duplicates: nat, cleared: nat, superseded: nat,
             ghost keeper: map<uint32, nat>)
    requires rows.Length == dropped.Length && Sound(source, rows[..], dropped[..], bySha1)
    modifies rows, dropped
    ensures Sound(source, rows[..], dropped[..], bySha1')
    ensures SettledExcept(old(rows[..]), old(dropped[..]), rows[..], dropped[..], keeper, {})
    ensures UniqueCrc32(rows[..], dropped[..])
    ensures Count(dropped[..]) == Count(old(dropped[..])) + duplicates
    ensures cleared == |LostCrc32(old(rows[..]), rows[..])|
    ensures superseded == |BadLosers(old(rows[..]), old(dropped[..]), keeper)| <= duplicates
  {
    hide Sound, Count, BadLosers, IsBucket, UniqueCrc32;
    ghost var before, wasDropped := rows[..], dropped[..];
    bySha1', duplicates, cleared, superseded, keeper := bySha1, 0, 0, 0, map[];
    NoLosersYet(before, wasDropped);
    var byCrc := GroupByCrc32(rows, dropped);
    var pending := byCrc.Keys;
    while pending != {}
      invariant pending <= byCrc.Keys && keeper.Keys == byCrc.Keys - pending
      invariant Sound(source, rows[..], dropped[..], bySha1')
      invariant SettledExcept(before, wasDropped, rows[..], dropped[..], keeper, pending)
      invariant Count(dropped[..]) == Count(wasDropped) + duplicates
      invariant cleared == |LostCrc32(before, rows[..])|
      invariant superseded == |BadLosers(before, wasDropped, keeper)| <= duplicates
      decreases pending
    {
      var crc :| crc in pending;
      var d, c, b, keep;
      bySha1', d, c, b, keep :=
        SettleNext(rows, dropped, byCrc[crc], crc, bySha1', source, before, wasDropped, keeper, pending);
      duplicates, cleared, superseded := duplicates + d, cleared + c, superseded + b;
      keeper := keeper[crc := keep];
      pending := pending - {crc};
    }
    SettledIsUnique(before, wasDropped, rows[..], dropped[..], keeper);
  }

  lemma NoLosersYet(before: seq<DatEntry>, wasDropped: seq<bool>)
    requires |before| == |wasDropped|
    ensures BadLosers(before, wasDropped, map[]) == {}
  {
  }

  /** The rows of a CRC still pending are those the pass began with. */
  lemma UntouchedBucket(before: seq<DatEntry>, wasDropped: seq<bool>, rows: seq<DatEntry>, dropped: seq<bool>,
                        bucket: seq<nat>, crc: uint32, pending: set<uint32>, keeper: map<uint32, nat>)
    requires |before| == |wasDropped| == |rows| == |dropped|
    requires SettledExcept(before, wasDropped, rows, dropped, keeper, pending) && crc in pending
    requires IsBucket(bucket, before, wasDropped, crc)
    ensures IsBucket(bucket, rows, dropped, crc)
    ensures forall i :: Holds(rows, dropped, i, crc) <==> Holds(before, wasDropped, i, crc)
    ensures forall i :: Holds(before, wasDropped, i, crc) ==> rows[i] == before[i]
  {
    forall i | Holds(rows, dropped, i, crc) ensures Holds(before, wasDropped, i, crc) {
      HeldBefore(before, wasDropped, rows, dropped, keeper, pending, i, crc);
    }
  }

  lemma SettledFromBefore(before: seq<DatEntry>, wasDropped: seq<bool>, rows: seq<DatEntry>, dropped: seq<bool>,
                          rows': seq<DatEntry>, dropped': seq<bool>, crc: uint32, keep: nat)
    requires |before| == |wasDropped| == |rows| == |dropped| == |rows'| == |dropped'|
    requires forall i :: Holds(rows, dropped, i, crc) <==> Holds(before, wasDropped, i, crc)
    requires forall i :: Holds(before, wasDropped, i, crc) ==> rows[i] == before[i]
    requires SettledTo(rows, dropped, rows', dropped', crc, keep)
    ensures SettledTo(before, wasDropped, rows', dropped', crc, keep)
  {
    assert Contradicted(before, wasDropped, crc) <==> Contradicted(rows, dropped, crc);
    assert CrcGroup(before, wasDropped, crc) == CrcGroup(rows, dropped, crc);
    if !Contradicted(before, wasDropped, crc) {
      CrcMergeSame(before, rows, wasDropped, dropped, crc, keep, |before|);
    }
  }

  // ----- The fourth pass: ambiguous serials

  function SerialKeyOf(rows: seq<DatEntry>, dropped: seq<bool>, i: int): Option<SerialKey>
    requires |rows| == |dropped|
  {
    if 0 <= i < |rows| && !dropped[i] && rows[i].serial.Some? then Some((rows[i].console, rows[i].serial.value)) else None
  }

  /** Another live row files a different game under this row's serial. */
  ghost predicate Ambiguous(upper: char -> char, rows: seq<DatEntry>, dropped: seq<bool>, i: int)
    requires |rows| == |dropped|
  {
    && SerialKeyOf(rows, dropped, i).Some?
    && exists j :: 0 <= j < |rows| && SerialKeyOf(rows, dropped, j) == SerialKeyOf(rows, dropped, i)
                   && FoldedTitle(upper, rows[j]) != FoldedTitle(upper, rows[i])
  }

  /** The row as the serial pass leaves it. */
  ghost function SerialSettled(upper: char -> char, rows: seq<DatEntry>, dropped: seq<bool>, i: nat): DatEntry
    requires |rows| == |dropped| && i < |rows|
  {
    if Ambiguous(upper, rows, dropped, i) then rows[i].(serial := None) else rows[i]
  }

  /** A bucket holds more titles than one exactly when each of its rows is ambiguous. */
  lemma ManyTitlesAmbiguous(upper: char -> char, rows: seq<DatEntry>, dropped: seq<bool>,
                            bucket: seq<nat>, key: SerialKey, titles: set<string>)
    requires |rows| == |dropped| && Within(bucket, |rows|)
    requires forall i :: 0 <= i < |rows| ==> (i in bucket <==> SerialKeyOf(rows, dropped, i) == Some(key))
    requires titles == set i | i in bucket :: FoldedTitle(upper, rows[i])
    ensures forall i :: i in bucket ==> (Ambiguous(upper, rows, dropped, i) <==> |titles| > 1)
  {
    forall i | i in bucket ensures Ambiguous(upper, rows, dropped, i) <==> |titles| > 1 {
      var mine := FoldedTitle(upper, rows[i]);
      assert mine in titles;
      if |titles| > 1 {
        assert titles == {mine} + (titles - {mine});
        var other :| other in titles - {mine};
        var j :| j in bucket && FoldedTitle(upper, rows[j]) == other;
        assert SerialKeyOf(rows, dropped, j) == SerialKeyOf(rows, dropped, i);
      } else if Ambiguous(upper, rows, dropped, i) {
        var j :| 0 <= j < |rows| && SerialKeyOf(rows, dropped, j) == SerialKeyOf(rows, dropped, i)
                 && FoldedTitle(upper, rows[j]) != mine;
        assert j in bucket;
        AtMostOne(titles, mine, FoldedTitle(upper, rows[j]));
      }
    }
  }

  method ClearSerials(rows: array<DatEntry>, bucket: seq<nat>, ghost dropped: seq<bool>, ghost source: seq<DatEntry>)
    requires Faithful(source, rows[..], dropped) && Within(bucket, rows.Length)
    modifies rows
    ensures Faithful(source, rows[..], dropped)
    ensures forall i :: 0 <= i < rows.Length ==>
              rows[i] == if i in bucket then old(rows[i]).(serial := None) else old(rows[i])
  {
    for m := 0 to |bucket|
      invariant Faithful(source, rows[..], dropped)
      invariant forall i :: 0 <= i < rows.Length ==>
                  rows[i] == if i in bucket[..m] then old(rows[i]).(serial := None) else old(rows[i])
    {
      var i := bucket[m];
      var cleared := rows[i].(serial := None);
      ClearIsFaithful(source, rows[..], dropped, i, cleared);
      ghost var before := rows[..];
      rows[i] := cleared;
      assert rows[..] == before[i := cleared];
      assert bucket[..m + 1] == bucket[..m] + [i];
    }
    assert bucket[..|bucket|] == bucket;
  }

  /** Clears one serial's bucket when it names more titles than one. */
  method SettleSerial(rows: array<DatEntry>, bucket: seq<nat>, key: SerialKey, upper: char -> char,
                      ghost dropped: seq<bool>, ghost before: seq<DatEntry>, ghost source: seq<DatEntry>)
    returns (cleared: nat)
    requires |before| == |dropped| == rows.Length && Faithful(source, rows[..], dropped)
    requires bucket != [] && Ascending(bucket) && Within(bucket, rows.Length)
    requires forall i :: 0 <= i < rows.Length ==> (i in bucket <==> SerialKeyOf(before, dropped, i) == Some(key))
    requires forall i :: i in bucket ==> rows[i] == before[i]
    modifies rows
    ensures Faithful(source, rows[..], dropped)
    ensures forall i :: 0 <= i < rows.Length ==>
              rows[i] == if i in bucket then SerialSettled(upper, before, dropped, i) else old(rows[i])
    ensures forall i :: i in bucket ==>
              (if Ambiguous(upper, before, dropped, i) then cleared == |bucket| else cleared == 0)
  {
    hide Faithful, Ambiguous, SerialKeyOf, FoldedTitle;
    forall m | 0 <= m < |bucket| ensures rows[bucket[m]] == before[bucket[m]] {
      assert bucket[m] in bucket;
    }
    var titles := set m | 0 <= m < |bucket| :: FoldedTitle(upper, rows[bucket[m]]);
    assert titles == set i | i in bucket :: FoldedTitle(upper, before[i]);
    ManyTitlesAmbiguous(upper, before, dropped, bucket, key, titles);
    cleared := 0;
    if |bucket| < 2 {
      assert titles == {FoldedTitle(upper, before[bucket[0]])};
      return;
    }
    if |titles| > MAX_DISTINCT_TITLES_PER_SERIAL {
      ClearSerials(rows, bucket, dropped, source);
      cleared := |bucket|;
    }
  }

  ghost function AmbiguousRows(upper: char -> char, rows: seq<DatEntry>, dropped: seq<bool>): set<int>
    requires |rows| == |dropped|
  {
    set i | 0 <= i < |rows| && Ambiguous(upper, rows, dropped, i)
  }

  /** Those of `rows` whose key has been dealt with. */
  ghost function Visited(rows: set<int>, keys: seq<Option<SerialKey>>, pending: set<SerialKey>): set<int> {
    set i | i in rows && 0 <= i < |keys| && keys[i].Some? && keys[i].value !in pending
  }

  lemma VisitBucket(rows: set<int>, keys: seq<Option<SerialKey>>, pending: set<SerialKey>,
                    key: SerialKey, bucket: seq<nat>, cleared: nat)
    requires key in pending && bucket != [] && Ascending(bucket)
    requires forall i: int :: i in bucket <==> 0 <= i < |keys| && keys[i] == Some(key)
    requires forall i :: i in bucket ==> (if i in rows then cleared == |bucket| else cleared == 0)
    ensures |Visited(rows, keys, pending - {key})| == |Visited(rows, keys, pending)| + cleared
  {
    var now, then' := Visited(rows, keys, pending), Visited(rows, keys, pending - {key});
    var all := set i: int | i in bucket;
    AscendingSize(bucket);
    assert bucket[0] in bucket;
    if cleared == 0 {
      assert then' == now;
    } else {
      assert then' == now + all && now !! all;
    }
  }

  method ClearAmbiguousSerials(rows: array<DatEntry>, dropped: array<bool>, upper: char -> char,
                               ghost source: seq<DatEntry>)
    returns (cleared: nat)
    requires rows.Length == dropped.Length && Faithful(source, rows[..], dropped[..])
    modifies rows
    ensures Faithful(source, rows[..], dropped[..])
    ensures forall i :: 0 <= i < rows.Length ==>
              rows[i] == SerialSettled(upper, old(rows[..]), dropped[..], i)
    ensures cleared == |AmbiguousRows(upper, old(rows[..]), dropped[..])|
  {
    ghost var before, marks := rows[..], dropped[..];
    var keys := seq(rows.Length, i requires 0 <= i < rows.Length reads rows, dropped =>
                      SerialKeyOf(rows[..], dropped[..], i));
    var bySerial := GroupBy(keys);
    var pending := bySerial.Keys;
    ghost var ambiguous := AmbiguousRows(upper, before, marks);
    assert Visited(ambiguous, keys, pending) == {};
    cleared := 0;
    while pending != {}
      invariant pending <= bySerial.Keys
      invariant Faithful(source, rows[..], marks)
      invariant forall i :: 0 <= i < rows.Length ==>
                  rows[i] == if keys[i].Some? && keys[i].value in pending then before[i]
                             else SerialSettled(upper, before, marks, i)
      invariant cleared == |Visited(ambiguous, keys, pending)|
      decreases pending
    {
      var key :| key in pending;
      var bucket := bySerial[key];
      assert forall i: int :: i in bucket <==> 0 <= i < |keys| && keys[i] == Some(key);
      var c := SettleSerial(rows, bucket, key, upper, marks, before, source);
      VisitBucket(ambiguous, keys, pending, key, bucket, c);
      cleared := cleared + c;
      pending := pending - {key};
    }
    assert Visited(ambiguous, keys, {}) == ambiguous;
  }

  // ----- The whole pass

  /** Live rows filed under one serial of one console are one game. */
  ghost predicate SerialsAgree(upper: char -> char, rows: seq<DatEntry>, dropped: seq<bool>)
    requires |rows| == |dropped|
  {
    forall i, j :: 0 <= i < |rows| && 0 <= j < |rows| && SerialKeyOf(rows, dropped, i).Some?
                   && SerialKeyOf(rows, dropped, i) == SerialKeyOf(rows, dropped, j) ==>
      FoldedTitle(upper, rows[i]) == FoldedTitle(upper, rows[j])
  }

  /** Clearing the ambiguous serials leaves agreeing ones, and the other keys unique. */
  lemma SettledSerialsAgree(upper: char -> char, before: seq<DatEntry>, rows: seq<DatEntry>, dropped: seq<bool>)
    requires |before| == |rows| == |dropped|
    requires forall i :: 0 <= i < |rows| ==> rows[i] == SerialSettled(upper, before, dropped, i)
    requires UniqueCrc32(before, dropped) && UniqueSha1(before, dropped)
    ensures SerialsAgree(upper, rows, dropped) && UniqueCrc32(rows, dropped) && UniqueSha1(rows, dropped)
  {
    forall i, j | 0 <= i < |rows| && 0 <= j < |rows| && SerialKeyOf(rows, dropped, i).Some?
                  && SerialKeyOf(rows, dropped, i) == SerialKeyOf(rows, dropped, j)
      ensures FoldedTitle(upper, rows[i]) == FoldedTitle(upper, rows[j])
    {
      assert !Ambiguous(upper, before, dropped, i) && !Ambiguous(upper, before, dropped, j);
      assert SerialKeyOf(before, dropped, i) == SerialKeyOf(before, dropped, j);
    }
    forall i, crc | Holds(rows, dropped, i, crc) ensures Holds(before, dropped, i, crc) {
    }
    forall i, j | 0 <= i < j < |rows| && !dropped[i] && !dropped[j] && rows[i].sha1.Some?
      ensures rows[i].sha1 != rows[j].sha1
    {
      assert rows[i].sha1 == before[i].sha1 && rows[j].sha1 == before[j].sha1;
    }
  }

  lemma CountSplit(marks: seq<bool>, i: nat)
    requires i < |marks|
    ensures Count(marks[..i + 1]) == Count(marks[..i]) + if marks[i] then 1 else 0
  {
    assert Marked(marks[..i + 1]) == Marked(marks[..i]) + if marks[i] then {i} else {};
  }

  /** The output rows are the live rows, in row order. */
  ghost predicate Surviving(rows: seq<DatEntry>, dropped: seq<bool>, output: seq<DatEntry>, index: seq<nat>)
    requires |rows| == |dropped|
  {
    && |index| == |output| && Ascending(index)
    && (forall o :: 0 <= o < |index| ==> index[o] < |rows| && !dropped[index[o]] && output[o] == rows[index[o]])
    && (forall i :: 0 <= i < |rows| && !dropped[i] ==> i in index)
  }

  method Survivors(rows: array<DatEntry>, dropped: array<bool>) returns (output: seq<DatEntry>, ghost index: seq<nat>)
    requires rows.Length == dropped.Length
    ensures Surviving(rows[..], dropped[..], output, index)
    ensures |output| + Count(dropped[..]) == rows.Length
  {
    output, index := [], [];
    CountNone(dropped[..][..0]);
    for i := 0 to rows.Length
      invariant |index| == |output| && Ascending(index)
      invariant forall o :: 0 <= o < |index| ==> index[o] < i && !dropped[index[o]] && output[o] == rows[index[o]]
      invariant forall k :: 0 <= k < i && !dropped[k] ==> k in index
      invariant |output| + Count(dropped[..][..i]) == i
    {
      CountSplit(dropped[..], i);
      if !dropped[i] {
        output := output + [rows[i]];
        assert forall k :: k in index ==> k in index + [i as nat];
        index := index + [i];
      }
    }
    assert dropped[..][..rows.Length] == dropped[..];
  }

  /** Some output row carries this row's SHA-1 and is no worse than it. */
  ghost predicate AnswersFor(output: seq<DatEntry>, e: DatEntry) {
    exists o :: 0 <= o < |output| && output[o].sha1 == e.sha1 && NoWorse(output[o], e)
  }

  /** No two rows answer to one SHA-1 or to one CRC, whatever their consoles. */
  ghost predicate KeysAreUnique(rows: seq<DatEntry>) {
    forall i, j :: 0 <= i < j < |rows| ==>
      && (rows[i].sha1.Some? ==> rows[i].sha1 != rows[j].sha1)
      && (rows[i].crc32.Some? ==> rows[i].crc32 != rows[j].crc32)
  }

  /** Rows a serial lookup on one console cannot tell apart are one game, ignoring case. */
  ghost predicate SerialsNameOneGame(upper: char -> char, rows: seq<DatEntry>) {
    forall i, j :: 0 <= i < |rows| && 0 <= j < |rows| && rows[i].console == rows[j].console
                   && rows[i].serial.Some? && rows[i].serial == rows[j].serial ==>
      FoldedTitle(upper, rows[i]) == FoldedTitle(upper, rows[j])
  }

  lemma SurvivorsAreUnambiguous(upper: char -> char, rows: seq<DatEntry>, dropped: seq<bool>,
                                output: seq<DatEntry>, index: seq<nat>)
    requires |rows| == |dropped| && Surviving(rows, dropped, output, index)
    requires SerialsAgree(upper, rows, dropped) && UniqueCrc32(rows, dropped) && UniqueSha1(rows, dropped)
    ensures KeysAreUnique(output) && SerialsNameOneGame(upper, output)
  {
    forall i, j | 0 <= i < j < |output|
      ensures output[i].sha1.Some? ==> output[i].sha1 != output[j].sha1
      ensures output[i].crc32.Some? ==> output[i].crc32 != output[j].crc32
    {
      assert index[i] < index[j];
      if output[i].crc32.Some? && output[i].crc32 == output[j].crc32 {
        assert Holds(rows, dropped, index[i], output[i].crc32.value);
        assert Holds(rows, dropped, index[j], output[i].crc32.value);
      }
    }
    forall i, j | 0 <= i < |output| && 0 <= j < |output| && output[i].console == output[j].console
                  && output[i].serial.Some? && output[i].serial == output[j].serial
      ensures FoldedTitle(upper, output[i]) == FoldedTitle(upper, output[j])
    {
      assert SerialKeyOf(rows, dropped, index[i]) == SerialKeyOf(rows, dropped, index[j]);
    }
  }

  /** Nothing is lost or invented between the raw input and the surviving rows. */
  lemma SurvivorsAreFaithful(input: seq<DatEntry>, distinct: seq<DatEntry>, rows: seq<DatEntry>, dropped: seq<bool>,
                             output: seq<DatEntry>, index: seq<nat>)
    requires Faithful(distinct, rows, dropped) && Surviving(rows, dropped, output, index)
    requires distinct == FirstOfEach(input)
    ensures forall e :: e in output ==> FieldsFrom(input, e) && exists k :: 0 <= k < |input| && SameLabel(e, input[k])
    ensures forall e :: e in input && e.sha1.Some? ==> AnswersFor(output, e)
  {
    hide FirstOfEach, KeyOf, NoWorse;
    FirstOfEachIs(input);
    forall e | e in output
      ensures FieldsFrom(input, e) && exists k :: 0 <= k < |input| && SameLabel(e, input[k])
    {
      var o :| 0 <= o < |output| && output[o] == e;
      assert SameLabel(rows[index[o]], distinct[index[o]]) && distinct[index[o]] in input;
      assert FieldsFrom(distinct, rows[index[o]]);
      FieldsFromInput(input, distinct, e);
    }
    forall e | e in input && e.sha1.Some? ensures AnswersFor(output, e) {
      var j :| 0 <= j < |input| && input[j] == e;
      assert HasKey(input, KeyOf(input[j]));
      var d :| 0 <= d < |distinct| && KeyOf(distinct[d]) == KeyOf(input[j]);
      SameStanding(e, distinct[d], e);
      assert Covered(rows, dropped, distinct[d]);
      var i :| 0 <= i < |rows| && !dropped[i] && rows[i].sha1 == distinct[d].sha1 && NoWorse(rows[i], distinct[d]);
      SameStanding(rows[i], distinct[d], e);
      assert i in index;
      var o :| 0 <= o < |index| && index[o] == i;
      assert output[o].sha1 == e.sha1 && NoWorse(output[o], e);
    }
  }

  lemma SameStanding(a: DatEntry, b: DatEntry, b': DatEntry)
    requires KeyOf(b) == KeyOf(b')
    ensures NoWorse(a, b) == NoWorse(a, b') && b.sha1 == b'.sha1
  {
  }

  lemma FieldsFromInput(input: seq<DatEntry>, distinct: seq<DatEntry>, e: DatEntry)
    requires forall k :: 0 <= k < |distinct| ==> distinct[k] in input
    requires FieldsFrom(distinct, e)
    ensures FieldsFrom(input, e)
  {
    if e.serial.Some? {
      var k :| 0 <= k < |distinct| && distinct[k].serial == e.serial;
      assert distinct[k] in input;
    }
    if e.crc32.Some? {
      var k :| 0 <= k < |distinct| && distinct[k].crc32 == e.crc32;
      assert distinct[k] in input;
    }
    if e.sha1.Some? {
      var k :| 0 <= k < |distinct| && distinct[k].sha1 == e.sha1;
      assert distinct[k] in input;
    }
  }

  function Sha1sOf(rows: seq<DatEntry>): set<string> {
    set e | e in rows && e.sha1.Some? :: e.sha1.value
  }

  lemma SameHashes(input: seq<DatEntry>, output: seq<DatEntry>)
    requires forall e :: e in output ==> FieldsFrom(input, e)
    requires forall e :: e in input && e.sha1.Some? ==> AnswersFor(output, e)
    ensures Sha1sOf(output) == Sha1sOf(input)
  {
    forall s | s in Sha1sOf(output) ensures s in Sha1sOf(input) {
      var e :| e in output && e.sha1 == Some(s);
      assert FieldsFrom(input, e);
      var k :| 0 <= k < |input| && input[k].sha1 == e.sha1;
      assert input[k] in input;
    }
    forall s | s in Sha1sOf(input) ensures s in Sha1sOf(output) {
      var e :| e in input && e.sha1 == Some(s);
      var o :| 0 <= o < |output| && output[o].sha1 == e.sha1 && NoWorse(output[o], e);
      assert output[o] in output;
    }
  }

  /** For every hash the output row is outdone by no input row. */
  ghost predicate KeepsTheBest(input: seq<DatEntry>, output: seq<DatEntry>) {
    forall e, o :: e in input && o in output && e.sha1.Some? && o.sha1 == e.sha1 ==> !Outdoes(e, o)
  }

  lemma AnswersAreTheBest(input: seq<DatEntry>, output: seq<DatEntry>)
    requires KeysAreUnique(output)
    requires forall e :: e in input && e.sha1.Some? ==> AnswersFor(output, e)
    ensures KeepsTheBest(input, output)
  {
    hide Outdoes, IsBetter;
    forall e, o | e in input && o in output && e.sha1.Some? && o.sha1 == e.sha1 ensures !Outdoes(e, o) {
      assert AnswersFor(output, e);
      var i :| 0 <= i < |output| && output[i].sha1 == e.sha1 && NoWorse(output[i], e);
      var j :| 0 <= j < |output| && output[j] == o;
      assert i == j;
      IsBetterMeans(e, o);
    }
  }

  /** What a counted bad dump is: one whose status says so, outdone by a row with a better status. */
  lemma SupersedesMeans(winner: DatEntry, loser: DatEntry)
    ensures SupersedesBadDump(winner, loser) <==>
            (Reads(loser.status, "baddump") || Reads(loser.status, "nodump")) && BetterDump(winner.status, loser.status)
  {
    hide Reads, DumpRank, Trim;
    DumpRankMeans(winner.status);
    DumpRankMeans(loser.status);
  }

  /** The rows between the passes, and which of them are struck out. */
  datatype Stages = Stages(
    distinct: seq<DatEntry>,
    bySha1: map<string, nat>, hashed: seq<DatEntry>, hashDropped: seq<bool>,
    byCrc32: map<uint32, nat>, checked: seq<DatEntry>, dropped: seq<bool>,
    settled: seq<DatEntry>, index: seq<nat>)

  /** How the passes lead from the input to the output, with every count of the report. */
  ghost predicate Explains(upper: char -> char, input: seq<DatEntry>, s: Stages, output: seq<DatEntry>, report: DedupeReport) {
    && s.distinct == FirstOfEach(input)
    && |s.distinct| == |s.hashed| == |s.hashDropped| == |s.checked| == |s.dropped| == |s.settled|
    && HashesSettled(s.distinct, s.hashed, s.hashDropped, s.bySha1, |s.distinct|)
    && SettledExcept(s.hashed, s.hashDropped, s.checked, s.dropped, s.byCrc32, {})
    && (forall i :: 0 <= i < |s.settled| ==> s.settled[i] == SerialSettled(upper, s.checked, s.dropped, i))
    && Surviving(s.settled, s.dropped, output, s.index)
    && report.inputRows == |input| && report.outputRows == |output|
    && report.exactDuplicates == |input| - |s.distinct|
    && report.sha1Duplicates == Count(s.hashDropped)
    && report.crc32Duplicates == Count(s.dropped) - Count(s.hashDropped)
    && report.crc32CollisionsCleared == |LostCrc32(s.hashed, s.checked)|
    && report.ambiguousSerialsCleared == |AmbiguousRows(upper, s.checked, s.dropped)|
    && report.badDumpsSuperseded ==
         HashSuperseded(s.distinct, |s.distinct|) + |BadLosers(s.hashed, s.hashDropped, s.byCrc32)|
  }

  method Deduplicate(input: seq<DatEntry>, upper: char -> char)
    returns (output: seq<DatEntry>, report: DedupeReport, ghost stages: Stages)
    ensures KeysAreUnique(output) && SerialsNameOneGame(upper, output)
    ensures Sha1sOf(output) == Sha1sOf(input)
    ensures forall e :: e in input && e.sha1.Some? ==> AnswersFor(output, e)
    ensures KeepsTheBest(input, output)
    ensures forall e :: e in output ==> FieldsFrom(input, e) && exists k :: 0 <= k < |input| && SameLabel(e, input[k])
    ensures |input| == |output| + report.exactDuplicates + report.sha1Duplicates + report.crc32Duplicates
    ensures report.badDumpsSuperseded <= report.sha1Duplicates + report.crc32Duplicates
    ensures Explains(upper, input, stages, output, report)
  {
    hide Faithful, NamesSha1s, HashesSettled, SettledExcept, SerialSettled, Surviving, Count, UniqueCrc32, UniqueSha1,
         SerialsAgree, KeysAreUnique, SerialsNameOneGame, AnswersFor, FieldsFrom, Sha1sOf, LostCrc32, AmbiguousRows,
         FirstOfEach, HasKey, HashSuperseded, BadLosers, KeepsTheBest;
    var distinct, exact := DropExactDuplicates(input);
    var rows := new DatEntry[|distinct|](i requires 0 <= i < |distinct| => distinct[i]);
    var dropped := new bool[|distinct|](_ => false);
    assert rows[..] == distinct;
    var bySha1, sha1s, bad1 := CollapseSha1s(rows, dropped);
    ghost var hashed, hashDropped := rows[..], dropped[..];
    var bySha1', crcs, collisions, bad2, keeper := CollapseCrc32s(rows, dropped, bySha1, distinct);
    NamedIsUnique(bySha1', rows[..], dropped[..]);
    ghost var checked := rows[..];
    var serials := ClearAmbiguousSerials(rows, dropped, upper, distinct);
    SettledSerialsAgree(upper, checked, rows[..], dropped[..]);
    ghost var index;
    output, index := Survivors(rows, dropped);
    SurvivorsAreUnambiguous(upper, rows[..], dropped[..], output, index);
    FirstOfEachIs(input);
    SurvivorsAreFaithful(input, distinct, rows[..], dropped[..], output, index);
    SameHashes(input, output);
    AnswersAreTheBest(input, output);
    report := DedupeReport(|input|, |output|, exact, sha1s, crcs, collisions, serials, bad1 + bad2);
    stages := Stages(distinct, bySha1, hashed, hashDropped, keeper, checked, dropped[..], rows[..], index);
  }
}
