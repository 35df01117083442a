/**
 Matching a release name against one console's listing of cover files: by the name itself,
 by the name without language tags, and by title in ever wider regions.
 */
module ArtNameResolver {
  import opened RomName
  import opened Text
  import opened Wrappers

  datatype ArtMatchTier = Exact | Language | Region | RegionFamily | AnyRegion

  datatype ArtMatch = ArtMatch(fileName: string, tier: ArtMatchTier)

  const ILLEGAL_NAME_CHARACTERS := "&*/:`<>?\\|"

  function SanitizeName(name: string): (r: string)
    ensures |r| == |name|
  {
    seq(|name|, i requires 0 <= i < |name| => if name[i] in ILLEGAL_NAME_CHARACTERS then '_' else name[i])
  }

  // ----- The listing and its indexes

  /** The first occurrence of every name, in order. */
  function Distinct(names: seq<string>): seq<string> {
    if names == [] then []
    else
      var before, last := names[..|names| - 1], names[|names| - 1];
      Distinct(before) + if last in before then [] else [last]
  }

  /** The files with a given key, in order. */
  function Having(files: seq<string>, key: string -> string, value: string): seq<string> {
    if files == [] then []
    else
      var last := files[|files| - 1];
      Having(files[..|files| - 1], key, value) + if key(last) == value then [last] else []
  }

  /** Two names without their language tags are compared in one case. */
  function StrippedKey(upper: char -> char): string -> string {
    name => Fold(upper, StripLanguageTags(name))
  }

  function ByTitle(): string -> string {
    name => TitleKeyOf(name)
  }

  /** A dictionary that holds, for every key but the empty one, the files that have it. */
  predicate IsIndex(index: map<string, seq<string>>, files: seq<string>, key: string -> string) {
    && (forall value :: value in index ==> value != [] && index[value] == Having(files, key, value))
    && forall file :: file in files && key(file) != [] ==> key(file) in index
  }

  /** The files a dictionary gives for a key: none for the empty key and for one it does not hold. */
  function Found(files: seq<string>, key: string -> string, value: string): seq<string> {
    if value == [] then [] else Having(files, key, value)
  }

  lemma {:induction false} HavingIs(files: seq<string>, key: string -> string, value: string, file: string)
    ensures file in Having(files, key, value) <==> file in files && key(file) == value
  {
    if files != [] {
      assert files == files[..|files| - 1] + [files[|files| - 1]];
      HavingIs(files[..|files| - 1], key, value, file);
    }
  }

  lemma {:induction false} DistinctIs(names: seq<string>, name: string)
    ensures name in Distinct(names) <==> name in names
  {
    if names != [] {
      assert names == names[..|names| - 1] + [names[|names| - 1]];
      DistinctIs(names[..|names| - 1], name);
    }
  }

  lemma HavingStep(files: seq<string>, key: string -> string, value: string, file: string)
    ensures Having(files + [file], key, value) ==
            Having(files, key, value) + if key(file) == value then [file] else []
  {
    assert (files + [file])[..|files|] == files;
  }

  lemma IndexLooksUp(index: map<string, seq<string>>, files: seq<string>, key: string -> string, value: string)
    requires IsIndex(index, files, key)
    ensures Found(files, key, value) == if value in index then index[value] else []
  {
    if value !in index && value != [] && Having(files, key, value) != [] {
      var file := Having(files, key, value)[0];
      HavingIs(files, key, value, file);
    }
  }

  /** Adds a file to the list its key has, unless the key is empty. */
  method Add(index: map<string, seq<string>>, key: string, value: string) returns (r: map<string, seq<string>>)
    ensures r == if key == [] then index else index[key := (if key in index then index[key] else []) + [value]]
  {
    r := index;
    if key == [] {
      return;
    }
    if key !in r {
      r := r[key := []];
    }
    r := r[key := r[key] + [value]];
  }

  lemma IndexGrows(index: map<string, seq<string>>, files: seq<string>, key: string -> string, file: string)
    requires IsIndex(index, files, key)
    ensures var k := key(file);
            IsIndex(if k == [] then index else index[k := (if k in index then index[k] else []) + [file]],
                    files + [file], key)
  {
    var k := key(file);
    var grown := if k == [] then index else index[k := (if k in index then index[k] else []) + [file]];
    IndexLooksUp(index, files, key, k);
    forall value | value in grown ensures value != [] && grown[value] == Having(files + [file], key, value) {
      HavingStep(files, key, value, file);
    }
  }

  // ----- Choosing among candidates

  predicate IsWorld(file: string) {
    "world" in RegionsOf(file)
  }

  predicate Qualifies(regions: set<string>, wanted: set<string>, tier: ArtMatchTier) {
    match tier
    case Region => !(regions !! wanted)
    case RegionFamily => SharesRegionFamily(regions, wanted)
    case _ => true
  }

  predicate Prefer(candidate: string, candidateIsWorld: bool, incumbent: string, incumbentIsWorld: bool) {
    if candidateIsWorld != incumbentIsWorld then candidateIsWorld else |candidate| < |incumbent|
  }

  predicate Fits(file: string, wanted: set<string>, tier: ArtMatchTier) {
    Qualifies(RegionsOf(file), wanted, tier)
  }

  predicate Beats(a: string, b: string) {
    Prefer(a, IsWorld(a), b, IsWorld(b))
  }

  /** The file at `k` fits, beats all that fit before it, and is beaten by none. */
  predicate IsFirstBest(files: seq<string>, wanted: set<string>, tier: ArtMatchTier, k: int) {
    && 0 <= k < |files| && Fits(files[k], wanted, tier)
    && forall j {:trigger files[j]} :: 0 <= j < |files| && Fits(files[j], wanted, tier) ==>
         !Beats(files[j], files[k]) && (j < k ==> Beats(files[k], files[j]))
  }

  predicate NoneFits(files: seq<string>, wanted: set<string>, tier: ArtMatchTier) {
    forall file :: file in files ==> !Fits(file, wanted, tier)
  }

  predicate IsFirstBestFile(files: seq<string>, wanted: set<string>, tier: ArtMatchTier, file: string) {
    exists k :: 0 <= k < |files| && IsFirstBest(files, wanted, tier, k) && files[k] == file
  }

  method Pick(candidates: seq<string>, wanted: set<string>, tier: ArtMatchTier) returns (r: Option<ArtMatch>)
    ensures r.None? ==> NoneFits(candidates, wanted, tier)
    ensures r.Some? ==> r.value.tier == tier && IsFirstBestFile(candidates, wanted, tier, r.value.fileName)
  {
    hide RegionsOf, Qualifies;
    var best: Option<string>, bestIsWorld := None, false;
    ghost var at := -1;
    for i := 0 to |candidates|
      invariant best.None? ==> NoneFits(candidates[..i], wanted, tier)
      invariant best.Some? ==> bestIsWorld == IsWorld(best.value) &&
                               IsFirstBest(candidates[..i], wanted, tier, at) && candidates[at] == best.value
    {
      assert candidates[..i + 1] == candidates[..i] + [candidates[i]];
      var regions := Regions(candidates[i]);
      if Qualifies(regions, wanted, tier) {
        var isWorld := "world" in regions;
        if best.None? || Prefer(candidates[i], isWorld, best.value, bestIsWorld) {
          best, bestIsWorld, at := Some(candidates[i]), isWorld, i;
        }
      }
    }
    assert candidates[..|candidates|] == candidates;
    r := if best.None? then None else Some(ArtMatch(best.value, tier));
    if best.Some? {
      assert IsFirstBest(candidates, wanted, tier, at);
    }
  }

  // ----- What an answer is

  const DIVERGENT_TITLES: set<string> := {TitleKeyOf("Super Mario Bros. 2")}

  function RetailOnly(files: seq<string>): seq<string> {
    if files == [] then []
    else
      var last := files[|files| - 1];
      RetailOnly(files[..|files| - 1]) + if IsRetailRelease(last) then [last] else []
  }

  /** The retail files with the title of `name`. */
  function Usable(files: seq<string>, name: string): seq<string> {
    RetailOnly(Found(files, ByTitle(), TitleKeyOf(name)))
  }

  /** The listed files that differ from `name` by language tags and case only. */
  function SameDump(upper: char -> char, files: seq<string>, name: string): seq<string> {
    Found(files, StrippedKey(upper), StrippedKey(upper)(name))
  }

  predicate LanguagesAgree(file: string, name: string) {
    LanguagesOf(file) == {} || LanguagesOf(file) == LanguagesOf(name)
  }

  predicate MatchesByLanguage(upper: char -> char, files: seq<string>, name: string) {
    |SameDump(upper, files, name)| == 1 && LanguagesAgree(SameDump(upper, files, name)[0], name)
  }

  /** The first best file of the narrowest tier that some usable file fits; no foreign file for a divergent title. */
  predicate IsChoice(usable: seq<string>, wanted: set<string>, divergent: bool, r: Option<ArtMatch>) {
    match r
    case None => NoneFits(usable, wanted, Region) && NoneFits(usable, wanted, RegionFamily) && (usable == [] || divergent)
    case Some(m) =>
      && IsFirstBestFile(usable, wanted, m.tier, m.fileName)
      && match m.tier
         case Region => true
         case RegionFamily => NoneFits(usable, wanted, Region)
         case AnyRegion => NoneFits(usable, wanted, Region) && NoneFits(usable, wanted, RegionFamily) && !divergent
         case _ => false
  }

  /** What the title tiers answer. */
  predicate IsTitleAnswer(files: seq<string>, name: string, r: Option<ArtMatch>) {
    IsChoice(Usable(files, name), RegionsOf(name), TitleKeyOf(name) in DIVERGENT_TITLES, r)
  }

  /** What resolving `query` against the listing `files` answers. */
  predicate IsAnswer(upper: char -> char, files: seq<string>, query: string, r: Option<ArtMatch>) {
    var name := SanitizeName(query);
    if IsBlank(query) then r == None
    else if name in files then r == Some(ArtMatch(name, Exact))
    else if MatchesByLanguage(upper, files, name) then r == Some(ArtMatch(SameDump(upper, files, name)[0], Language))
    else IsTitleAnswer(files, name, r)
  }

  // ----- The index

  class ThumbnailIndex {
    const upper: char -> char
    var exact: set<string>
    var byLanguageStripped: map<string, seq<string>>
    var byTitle: map<string, seq<string>>
    ghost var Files: seq<string>

    ghost predicate Valid()
      reads this
    {
      && (forall name :: name in exact <==> name in Files)
      && IsIndex(byLanguageStripped, Files, StrippedKey(upper))
      && IsIndex(byTitle, Files, ByTitle())
    }

    constructor (upper: char -> char, fileNames: seq<string>)
      ensures Valid() && this.upper == upper && Files == Distinct(fileNames)
    {
      hide StrippedKey, ByTitle;
      var names: set<string> := {};
      var stripped: map<string, seq<string>>, titles: map<string, seq<string>> := map[], map[];
      ghost var files := [];
      for i := 0 to |fileNames|
        invariant files == Distinct(fileNames[..i])
        invariant forall name :: name in names <==> name in files
        invariant IsIndex(stripped, files, StrippedKey(upper)) && IsIndex(titles, files, ByTitle())
      {
        var name := fileNames[i];
        assert fileNames[..i + 1][..i] == fileNames[..i];
        DistinctIs(fileNames[..i], name);
        if name in names {
          continue;
        }
        names := names + {name};
        IndexGrows(stripped, files, StrippedKey(upper), name);
        IndexGrows(titles, files, ByTitle(), name);
        stripped := Add(stripped, StrippedKey(upper)(name), name);
        titles := Add(titles, ByTitle()(name), name);
        files := files + [name];
      }
      assert fileNames[..|fileNames|] == fileNames;
      this.upper := upper;
      exact := names;
      byLanguageStripped := stripped;
      byTitle := titles;
      Files := files;
    }

    method Resolve(canonicalName: string) returns (r: Option<ArtMatch>)
      requires Valid()
      ensures IsAnswer(upper, Files, canonicalName, r)
      ensures r.Some? ==> r.value.fileName in Files
    {
      hide IsTitleAnswer, StrippedKey, LanguagesOf;
      if IsBlank(canonicalName) {
        return None;
      }
      var name := SanitizeName(canonicalName);
      if name in exact {
        return Some(ArtMatch(name, Exact));
      }
      var key := StrippedKey(upper)(name);
      IndexLooksUp(byLanguageStripped, Files, StrippedKey(upper), key);
      if key in byLanguageStripped && |byLanguageStripped[key]| == 1 {
        var sameDump := byLanguageStripped[key][0];
        var theirs := Languages(sameDump);
        var ours := Languages(name);
        if theirs == {} || theirs == ours {
          HavingIs(Files, StrippedKey(upper), key, sameDump);
          return Some(ArtMatch(sameDump, Language));
        }
      }
      r := ResolveByTitle(name);
    }

    method ResolveByTitle(name: string) returns (r: Option<ArtMatch>)
      requires Valid()
      ensures IsTitleAnswer(Files, name, r)
      ensures r.Some? ==> r.value.fileName in Files
    {
      hide RegionsOf, IsRetailRelease, ByTitle, TitleKeyOf, IsChoice;
      var title := TitleKey(name);
      TitleIsByTitle(name);
      IndexLooksUp(byTitle, Files, ByTitle(), title);
      if title !in byTitle {
        NothingUsable(RegionsOf(name), title in DIVERGENT_TITLES);
        return None;
      }
      var candidates := byTitle[title];
      var wanted := Regions(name);
      r := Choose(RetailOnly(candidates), wanted, title in DIVERGENT_TITLES);
      if r.Some? {
        RetailOnlyIs(candidates, r.value.fileName);
        HavingIs(Files, ByTitle(), title, r.value.fileName);
      }
    }
  }

  /** The tiers in turn. */
  method Choose(usable: seq<string>, wanted: set<string>, divergent: bool) returns (r: Option<ArtMatch>)
    ensures IsChoice(usable, wanted, divergent, r)
    ensures r.Some? ==> r.value.fileName in usable
  {
    hide IsFirstBest, Fits;
    if usable == [] {
      return None;
    }
    r := Pick(usable, wanted, Region);
    if r.None? {
      r := Pick(usable, wanted, RegionFamily);
    }
    if r.None? && !divergent {
      r := Pick(usable, wanted, AnyRegion);
      AnyRegionFits(usable, wanted);
    }
  }

  lemma NothingUsable(wanted: set<string>, divergent: bool)
    ensures IsChoice(RetailOnly([]), wanted, divergent, None)
  {
  }

  lemma TitleIsByTitle(name: string)
    ensures ByTitle()(name) == TitleKeyOf(name)
  {
  }

  lemma AnyRegionFits(files: seq<string>, wanted: set<string>)
    requires files != []
    ensures !NoneFits(files, wanted, AnyRegion)
  {
    assert files[0] in files && Fits(files[0], wanted, AnyRegion);
  }

  lemma {:induction false} RetailOnlyIs(files: seq<string>, file: string)
    ensures file in RetailOnly(files) <==> file in files && IsRetailRelease(file)
  {
    if files != [] {
      assert files == files[..|files| - 1] + [files[|files| - 1]];
      RetailOnlyIs(files[..|files| - 1], file);
    }
  }

  // ----- What follows for every answer

  lemma FirstBestIsUnique(files: seq<string>, wanted: set<string>, tier: ArtMatchTier, a: string, b: string)
    requires IsFirstBestFile(files, wanted, tier, a) && IsFirstBestFile(files, wanted, tier, b)
    ensures a == b
  {
    var k :| 0 <= k < |files| && IsFirstBest(files, wanted, tier, k) && files[k] == a;
    var m :| 0 <= m < |files| && IsFirstBest(files, wanted, tier, m) && files[m] == b;
  }

  lemma FitsSome(files: seq<string>, wanted: set<string>, tier: ArtMatchTier, file: string)
    requires IsFirstBestFile(files, wanted, tier, file)
    ensures file in files && Fits(file, wanted, tier) && !NoneFits(files, wanted, tier)
  {
  }

  lemma ChoiceIsUnique(usable: seq<string>, wanted: set<string>, divergent: bool, a: Option<ArtMatch>, b: Option<ArtMatch>)
    requires IsChoice(usable, wanted, divergent, a) && IsChoice(usable, wanted, divergent, b)
    ensures a == b
  {
    hide IsFirstBestFile, NoneFits, Fits, Qualifies, RegionsOf;
    if a.Some? {
      FitsSome(usable, wanted, a.value.tier, a.value.fileName);
    }
    if b.Some? {
      FitsSome(usable, wanted, b.value.tier, b.value.fileName);
    }
    if a.Some? && b.Some? {
      FirstBestIsUnique(usable, wanted, a.value.tier, a.value.fileName, b.value.fileName);
    }
  }

  /** The listing and the query determine the answer. */
  lemma AnswerIsUnique(upper: char -> char, files: seq<string>, query: string, a: Option<ArtMatch>, b: Option<ArtMatch>)
    requires IsAnswer(upper, files, query, a) && IsAnswer(upper, files, query, b)
    ensures a == b
  {
    hide IsChoice, MatchesByLanguage, SameDump;
    var name := SanitizeName(query);
    if !IsBlank(query) && name !in files && !MatchesByLanguage(upper, files, name) {
      ChoiceIsUnique(Usable(files, name), RegionsOf(name), TitleKeyOf(name) in DIVERGENT_TITLES, a, b);
    }
  }

  lemma UsableIs(files: seq<string>, name: string, file: string)
    ensures file in Usable(files, name) <==>
            file in files && IsRetailRelease(file) && TitleKeyOf(file) == TitleKeyOf(name) != []
  {
    hide IsRetailRelease, TitleKeyOf;
    RetailOnlyIs(Found(files, ByTitle(), TitleKeyOf(name)), file);
    HavingIs(files, ByTitle(), TitleKeyOf(name), file);
  }

  predicate IsTitleTier(tier: ArtMatchTier) {
    tier == Region || tier == RegionFamily || tier == AnyRegion
  }

  function Width(tier: ArtMatchTier): nat {
    match tier case Region => 0 case RegionFamily => 1 case _ => 2
  }

  lemma ChoiceFits(usable: seq<string>, wanted: set<string>, divergent: bool, m: ArtMatch)
    requires IsChoice(usable, wanted, divergent, Some(m))
    ensures IsFirstBestFile(usable, wanted, m.tier, m.fileName) && IsTitleTier(m.tier)
    ensures m.tier == RegionFamily || m.tier == AnyRegion ==> NoneFits(usable, wanted, Region)
    ensures m.tier == AnyRegion ==> NoneFits(usable, wanted, RegionFamily) && !divergent
  {
    hide IsFirstBestFile, NoneFits;
  }

  lemma TitleAnswerIsChoice(upper: char -> char, files: seq<string>, query: string, m: ArtMatch)
    requires IsAnswer(upper, files, query, Some(m)) && IsTitleTier(m.tier)
    ensures var name := SanitizeName(query);
            IsChoice(Usable(files, name), RegionsOf(name), TitleKeyOf(name) in DIVERGENT_TITLES, Some(m))
  {
    hide IsChoice, Usable, RegionsOf, TitleKeyOf, MatchesByLanguage, SameDump;
  }

  lemma NotUndercut(usable: seq<string>, wanted: set<string>, tier: ArtMatchTier, file: string, other: string)
    requires IsFirstBestFile(usable, wanted, tier, file) && other in usable
    ensures Fits(other, wanted, tier) ==> !Beats(other, file)
  {
    hide Fits, Beats;
    var k :| 0 <= k < |usable| && IsFirstBest(usable, wanted, tier, k) && usable[k] == file;
    var j :| 0 <= j < |usable| && usable[j] == other;
  }

  /**
   A file found by title is a listed retail release with the query's title, in a tier that no
   other such file undercuts: every one that fits a narrower tier would have been taken
   instead, and so would one of the same tier that covers the world or is shorter. A
   divergent title never gets a foreign file.
   */
  lemma TitleAnswerIsBest(upper: char -> char, files: seq<string>, query: string, m: ArtMatch, other: string)
    requires IsAnswer(upper, files, query, Some(m)) && IsTitleTier(m.tier)
    requires other in files && IsRetailRelease(other) && TitleKeyOf(other) == TitleKeyOf(SanitizeName(query))
    ensures m.fileName in files && IsRetailRelease(m.fileName)
    ensures TitleKeyOf(m.fileName) == TitleKeyOf(SanitizeName(query))
    ensures var wanted := RegionsOf(SanitizeName(query));
            && Fits(m.fileName, wanted, m.tier)
            && (forall tier :: IsTitleTier(tier) && Fits(other, wanted, tier) ==> Width(m.tier) <= Width(tier))
            && (Fits(other, wanted, m.tier) ==> !Beats(other, m.fileName))
    ensures m.tier == AnyRegion ==> TitleKeyOf(m.fileName) !in DIVERGENT_TITLES
  {
    hide IsAnswer, IsChoice, IsFirstBestFile, IsRetailRelease, TitleKeyOf, RegionsOf, Usable, Fits, Beats;
    var name := SanitizeName(query);
    var usable, wanted := Usable(files, name), RegionsOf(name);
    TitleAnswerIsChoice(upper, files, query, m);
    ChoiceFits(usable, wanted, TitleKeyOf(name) in DIVERGENT_TITLES, m);
    FitsSome(usable, wanted, m.tier, m.fileName);
    UsableIs(files, name, m.fileName);
    UsableIs(files, name, other);
    NotUndercut(usable, wanted, m.tier, m.fileName, other);
  }

  // ----- Every answer has the title that was asked for

  /** Characters that upper-casing does not tell apart have the same part in a title key. */
  predicate SameForKeys(c: char, d: char) {
    && (IsKeyChar(c) <==> IsKeyChar(d)) && (IsKeyChar(c) ==> LowerChar(c) == LowerChar(d))
    && (IsGrouping(c) || IsGrouping(d) ==> c == d)
  }

  /** Upper-casing maps ASCII letters as ASCII does and keeps every other character away from ASCII. */
  ghost predicate RespectsAscii(upper: char -> char) {
    forall c, d :: upper(c) == upper(d) ==> SameForKeys(c, d)
  }

  predicate SameKeyText(a: string, b: string) {
    |a| == |b| && forall i :: 0 <= i < |a| ==> SameForKeys(a[i], b[i])
  }

  lemma {:induction false} SameFinds(a: string, b: string, c: char)
    requires SameKeyText(a, b) && IsGrouping(c)
    ensures Find(a, c) == Find(b, c)
  {
    if a != [] {
      SameFinds(a[1..], b[1..], c);
    }
  }

  lemma {:induction false} SameLetters(a: string, b: string)
    requires SameKeyText(a, b)
    ensures Letters(a) == Letters(b)
  {
    if a != [] {
      SameLetters(a[1..], b[1..]);
    }
  }

  lemma {:induction false} SameBareKey(a: string, b: string)
    requires SameKeyText(a, b)
    ensures BareKey(a) == BareKey(b)
    decreases |a|
  {
    hide BareKey, Find, Letters;
    if a == [] {
      assert a == b;
    } else {
      BareKeyStep(a);
      BareKeyStep(b);
      SameLetters(a, b);
      SameLetters([a[0]], [b[0]]);
      SameFinds(a, b, Closing(a[0]));
      var next := if a[0] == '(' || a[0] == '[' then Find(a, Closing(a[0])) + 1 else 1;
      if next <= |a| {
        SameBareKey(a[next..], b[next..]);
      }
    }
  }

  lemma FoldedAlike(upper: char -> char, a: string, b: string)
    requires RespectsAscii(upper) && Fold(upper, a) == Fold(upper, b)
    ensures SameKeyText(a, b)
  {
    forall i | 0 <= i < |a| ensures SameForKeys(a[i], b[i]) {
      assert Fold(upper, a)[i] == upper(a[i]) && Fold(upper, b)[i] == upper(b[i]);
    }
  }

  /** Whatever the tier, the file that is answered is listed and has the title key of the query. */
  lemma AnswerSharesTitle(upper: char -> char, files: seq<string>, query: string, m: ArtMatch)
    requires RespectsAscii(upper) && IsAnswer(upper, files, query, Some(m))
    ensures m.fileName in files && TitleKeyOf(m.fileName) == TitleKeyOf(SanitizeName(query))
  {
    hide RespectsAscii, SameKeyText, IsRetailRelease, TitleKeyOf, Usable, StripLanguageTags, Fold;
    var name := SanitizeName(query);
    if name !in files {
      if MatchesByLanguage(upper, files, name) {
        var file := m.fileName;
        HavingIs(files, StrippedKey(upper), StrippedKey(upper)(name), file);
        FoldedAlike(upper, StripLanguageTags(file), StripLanguageTags(name));
        SameBareKey(StripLanguageTags(file), StripLanguageTags(name));
        TitleKeyIsBareKey(StripLanguageTags(file));
        TitleKeyIsBareKey(StripLanguageTags(name));
        StrippingKeepsTitleKey(file);
        StrippingKeepsTitleKey(name);
      } else {
        FitsSome(Usable(files, name), RegionsOf(name), m.tier, m.fileName);
        UsableIs(files, name, m.fileName);
      }
    }
  }
}
