/**
 What the answer for a cover means in terms of names, tags and regions alone: which files
 it was preferred to, and when there is none.
 */
module ArtAnswers {
  import opened ArtNameResolver
  import opened RomName
  import opened RomNameReading
  import opened Text
  import opened Wrappers

  // ----- Names as they are filed

  predicate IsReplaced(c: char) {
    c == '&' || c == '*' || c == '/' || c == ':' || c == '`' || c == '<' || c == '>' || c == '?' || c == '\\' || c == '|'
  }

  /** Ten characters become underscores, one for one; every other stays. */
  lemma SanitizedIs(name: string, i: nat)
    requires i < |name|
    ensures |SanitizeName(name)| == |name|
    ensures SanitizeName(name)[i] == if IsReplaced(name[i]) then '_' else name[i]
  {
    IllegalIs(name[i]);
  }

  lemma IllegalIs(c: char)
    ensures c in ILLEGAL_NAME_CHARACTERS <==> IsReplaced(c)
  {
    var s := ILLEGAL_NAME_CHARACTERS;
    assert |s| == 10 && s[0] == '&' && s[1] == '*' && s[2] == '/' && s[3] == ':' && s[4] == '`';
    assert s[5] == '<' && s[6] == '>' && s[7] == '?' && s[8] == '\\' && s[9] == '|';
  }

  /** The divergent titles are this one. */
  lemma DivergentIs(key: string)
    ensures key in DIVERGENT_TITLES <==> key == "supermariobros2"
  {
    hide TitleKeyOf;
    DivergentKey();
  }

  lemma DivergentKey()
    ensures TitleKeyOf("Super Mario Bros. 2") == "supermariobros2"
  {
    hide TitleKeyOf, Letters, IsTitle, AreTags;
    var title := "Super Mario Bros. 2";
    DivergentIsTitle();
    TitleIsRead(title, []);
    DivergentLetters();
  }

  lemma DivergentIsTitle()
    ensures IsTitle("Super Mario Bros. 2") && AreTags([])
    ensures Named("Super Mario Bros. 2", []) == "Super Mario Bros. 2"
  {
  }

  lemma {:induction false} WordLetters(word: string)
    requires forall c :: c in word ==> IsKeyChar(c)
    ensures Letters(word) == ToLower(word)
  {
    if word != [] {
      assert word[0] in word && forall c :: c in word[1..] ==> c in word;
      WordLetters(word[1..]);
    }
  }

  lemma {:induction false} GapLetters(gap: string)
    requires forall c :: c in gap ==> !IsKeyChar(c)
    ensures Letters(gap) == []
  {
    if gap != [] {
      assert gap[0] in gap && forall c :: c in gap[1..] ==> c in gap;
      GapLetters(gap[1..]);
    }
  }

  lemma LettersAcross(word: string, gap: string, rest: string)
    requires (forall c :: c in word ==> IsKeyChar(c)) && forall c :: c in gap ==> !IsKeyChar(c)
    ensures Letters(word + (gap + rest)) == ToLower(word) + Letters(rest)
  {
    hide Letters;
    LettersConcat(word, gap + rest);
    LettersConcat(gap, rest);
    WordLetters(word);
    GapLetters(gap);
  }

  lemma DivergentLetters()
    ensures Letters("Super Mario Bros. 2") == "supermariobros2"
  {
    hide Letters;
    assert "Super Mario Bros. 2" == "Super" + (" " + ("Mario" + (" " + ("Bros" + (". " + "2")))));
    LettersAcross("Super", " ", "Mario" + (" " + ("Bros" + (". " + "2"))));
    LettersAcross("Mario", " ", "Bros" + (". " + "2"));
    LettersAcross("Bros", ". ", "2");
    WordLetters("2");
    LowerWords();
  }

  lemma LowerWords()
    ensures ToLower("Super") + (ToLower("Mario") + (ToLower("Bros") + ToLower("2"))) == "supermariobros2"
  {
  }

  // ----- The answer, whatever the tier

  /** The two sets have a region in common. */
  ghost predicate Overlap(a: set<string>, b: set<string>) {
    exists region :: region in a && region in b
  }

  ghost predicate HasEastern(regions: set<string>) {
    exists region :: region in regions && IsEastern(region)
  }

  /** Both have regions, and these lie in one half of the world or one of them is the world. */
  ghost predicate Related(a: set<string>, b: set<string>) {
    a != {} && b != {} && ("world" in a || "world" in b || (HasEastern(a) <==> HasEastern(b)))
  }

  /** The file is listed, shows a box, and has the title asked for. */
  predicate IsCandidate(files: seq<string>, name: string, file: string) {
    file in files && IsRetailRelease(file) && TitleKeyOf(file) == TitleKeyOf(name) && TitleKeyOf(name) != []
  }

  /** How close a file's regions come to those asked for: 0 in common, 1 related, 2 neither. */
  ghost function Distance(regions: set<string>, wanted: set<string>): nat {
    if Overlap(regions, wanted) then 0 else if Related(regions, wanted) then 1 else 2
  }

  lemma OverlapIs(a: set<string>, b: set<string>)
    ensures !(a !! b) <==> Overlap(a, b)
  {
    if !Overlap(a, b) {
      assert a * b == {};
    }
  }

  lemma RelatedIs(a: set<string>, b: set<string>)
    ensures SharesRegionFamily(a, b) <==> Related(a, b)
  {
    FamiliesAre(a, b);
  }

  lemma FitsIs(file: string, wanted: set<string>)
    ensures Fits(file, wanted, Region) <==> Overlap(RegionsOf(file), wanted)
    ensures Fits(file, wanted, RegionFamily) <==> Related(RegionsOf(file), wanted)
    ensures Fits(file, wanted, AnyRegion)
  {
    hide RegionsOf, Overlap, Related, SharesRegionFamily;
    OverlapIs(RegionsOf(file), wanted);
    RelatedIs(RegionsOf(file), wanted);
  }

  /**
   An answer by title is a candidate, and none other comes closer to the regions asked for; of
   those that come as close, none covers the world when it does not, and of those that are
   its equal in that, none has a shorter name.
   */
  lemma TitleAnswerIsClosest(upper: char -> char, files: seq<string>, query: string, m: ArtMatch, other: string)
    requires IsAnswer(upper, files, query, Some(m)) && IsTitleTier(m.tier)
    requires IsCandidate(files, SanitizeName(query), other)
    ensures IsCandidate(files, SanitizeName(query), m.fileName)
    ensures var wanted, mine, theirs := RegionsOf(SanitizeName(query)), RegionsOf(m.fileName), RegionsOf(other);
            && (m.tier == Region ==> Distance(mine, wanted) == 0)
            && (m.tier == RegionFamily ==> Related(mine, wanted) && Distance(mine, wanted) <= 1 <= Distance(theirs, wanted))
            && (m.tier == AnyRegion ==> Distance(mine, wanted) == 2 && Distance(theirs, wanted) == 2
                                        && TitleKeyOf(SanitizeName(query)) != "supermariobros2")
            && Distance(mine, wanted) <= Distance(theirs, wanted)
            && (Distance(mine, wanted) == Distance(theirs, wanted) ==>
                  && ("world" in theirs ==> "world" in mine)
                  && (("world" in theirs <==> "world" in mine) ==> |m.fileName| <= |other|))
  {
    hide IsAnswer, IsRetailRelease, TitleKeyOf, RegionsOf, Overlap, Related, Fits, IsWorld;
    var wanted := RegionsOf(SanitizeName(query));
    TitleAnswerIsBest(upper, files, query, m, other);
    TitleAnswerIsBest(upper, files, query, m, m.fileName);
    FitsIs(m.fileName, wanted);
    FitsIs(other, wanted);
    DivergentIs(TitleKeyOf(SanitizeName(query)));
    WorldIs(m.fileName);
    WorldIs(other);
  }

  lemma WorldIs(file: string)
    ensures IsWorld(file) <==> "world" in RegionsOf(file)
  {
  }

  /** A query that is not blank and has candidates goes unanswered only when it is the one divergent title and none is near. */
  lemma UnansweredIsForeign(upper: char -> char, files: seq<string>, query: string, other: string)
    requires IsAnswer(upper, files, query, None) && !IsBlank(query)
    requires IsCandidate(files, SanitizeName(query), other)
    ensures TitleKeyOf(SanitizeName(query)) == "supermariobros2"
    ensures Distance(RegionsOf(other), RegionsOf(SanitizeName(query))) == 2
  {
    hide IsRetailRelease, TitleKeyOf, RegionsOf, Overlap, Related, Fits, MatchesByLanguage, Usable;
    var name := SanitizeName(query);
    UsableIs(files, name, other);
    DivergentIs(TitleKeyOf(name));
    FitsIs(other, RegionsOf(name));
  }

  /** Without a candidate no answer is by title. */
  lemma TitleAnswersAreCandidates(upper: char -> char, files: seq<string>, query: string, m: ArtMatch)
    requires IsAnswer(upper, files, query, Some(m)) && IsTitleTier(m.tier)
    ensures IsCandidate(files, SanitizeName(query), m.fileName)
  {
    hide IsAnswer, IsChoice, IsFirstBestFile, IsRetailRelease, TitleKeyOf, RegionsOf, Fits, Usable;
    var name := SanitizeName(query);
    TitleAnswerIsChoice(upper, files, query, m);
    ChoiceFits(Usable(files, name), RegionsOf(name), TitleKeyOf(name) in DIVERGENT_TITLES, m);
    FitsSome(Usable(files, name), RegionsOf(name), m.tier, m.fileName);
    UsableIs(files, name, m.fileName);
  }

  /** The two names are one but for language tags and case. */
  predicate SameButLanguage(upper: char -> char, a: string, b: string) {
    Fold(upper, StripLanguageTags(a)) == Fold(upper, StripLanguageTags(b)) && StripLanguageTags(b) != []
  }

  /** The only file of the listing that is the name but for language tags, and it claims no other language. */
  predicate IsOnlyVintage(upper: char -> char, files: seq<string>, name: string, file: string) {
    && file in files && SameButLanguage(upper, file, name)
    && (forall other :: other in files && SameButLanguage(upper, other, name) ==> other == file)
    && (LanguagesOf(file) == {} || LanguagesOf(file) == LanguagesOf(name))
  }

  predicate AreDistinct(files: seq<string>) {
    forall i, j :: 0 <= i < j < |files| ==> files[i] != files[j]
  }

  lemma {:induction false} HavingStaysDistinct(files: seq<string>, key: string -> string, value: string)
    requires AreDistinct(files)
    ensures AreDistinct(Having(files, key, value))
  {
    if files != [] {
      var before, last := files[..|files| - 1], files[|files| - 1];
      assert last !in before;
      HavingIs(before, key, value, last);
      HavingStaysDistinct(before, key, value);
    }
  }

  lemma OnlyOne(files: seq<string>, file: string)
    requires AreDistinct(files)
    ensures files == [file] <==> file in files && forall other :: other in files ==> other == file
  {
    if file in files && forall other :: other in files ==> other == file {
      var last := |files| - 1;
      assert files[0] in files && files[last] in files;
    }
  }

  lemma OneOf(files: seq<string>, key: string -> string, value: string, file: string)
    requires AreDistinct(files)
    ensures Having(files, key, value) == [file] <==>
            file in files && key(file) == value && forall other :: other in files && key(other) == value ==> other == file
  {
    hide AreDistinct, Having;
    HavingStaysDistinct(files, key, value);
    OnlyOne(Having(files, key, value), file);
    forall other ensures other in Having(files, key, value) <==> other in files && key(other) == value {
      HavingIs(files, key, value, other);
    }
  }

  /**
   In a listing without repetitions a file is answered by its very name exactly when it is
   listed, and else by the name without language tags exactly when it is the only vintage.
   */
  lemma NameAnswersAre(upper: char -> char, files: seq<string>, query: string, r: Option<ArtMatch>, file: string)
    requires IsAnswer(upper, files, query, r) && !IsBlank(query) && AreDistinct(files)
    ensures r == Some(ArtMatch(file, Exact)) <==> file == SanitizeName(query) && file in files
    ensures r == Some(ArtMatch(file, Language)) <==>
              SanitizeName(query) !in files && IsOnlyVintage(upper, files, SanitizeName(query), file)
  {
    hide IsTitleAnswer, LanguagesOf, StripLanguageTags, Having, AreDistinct;
    var name := SanitizeName(query);
    OneOf(files, StrippedKey(upper), StrippedKey(upper)(name), file);
    if MatchesByLanguage(upper, files, name) {
      var only := SameDump(upper, files, name)[0];
      assert SameDump(upper, files, name) == [only];
      OneOf(files, StrippedKey(upper), StrippedKey(upper)(name), only);
    }
    assert forall other :: SameButLanguage(upper, other, name) <==>
             StrippedKey(upper)(other) == StrippedKey(upper)(name) && StrippedKey(upper)(name) != [];
    TitleTiers(files, name, r);
  }

  lemma TitleTiers(files: seq<string>, name: string, r: Option<ArtMatch>)
    ensures IsTitleAnswer(files, name, r) && r.Some? ==> IsTitleTier(r.value.tier)
  {
    hide IsFirstBestFile, NoneFits, RegionsOf, TitleKeyOf, Usable;
  }
}
