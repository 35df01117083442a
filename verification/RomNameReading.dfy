/**
 Names as the catalogues write them, a title and tags behind it, and the proof that every
 part is read back as it was written.
 */
module RomNameReading {
  import opened RomName
  import opened Text
  import opened Wrappers

  // ----- What is written

  /** A tag in parentheses with a space before it. */
  function Tagged(tag: string): string {
    " (" + tag + ")"
  }

  function TagText(tags: seq<string>): string {
    if tags == [] then [] else Tagged(tags[0]) + TagText(tags[1..])
  }

  function Named(title: string, tags: seq<string>): string {
    title + TagText(tags)
  }

  predicate IsSolid(s: string) {
    s == [] || (!IsWhiteSpace(s[0]) && !IsWhiteSpace(s[|s| - 1]))
  }

  predicate IsTitle(title: string) {
    title != [] && IsPlain(title) && IsSolid(title)
  }

  predicate AreTags(tags: seq<string>) {
    forall tag :: tag in tags ==> IsPlain(tag) && IsSolid(tag)
  }

  lemma TagTextStep(tag: string, tags: seq<string>)
    ensures TagText([tag] + tags) == Tagged(tag) + TagText(tags)
  {
    assert ([tag] + tags)[1..] == tags;
  }

  lemma TaggedPrints(tag: string, rest: string)
    ensures Tagged(tag) + rest == " " + ("(" + (tag + (")" + rest)))
  {
  }

  lemma SolidStays(s: string)
    requires IsSolid(s)
    ensures Trim(s) == s
  {
    TrimIs([], s, []);
    assert [] + s + [] == s;
  }

  // ----- Tags

  lemma FindsClosing(tag: string, rest: string)
    requires IsPlain(tag)
    ensures var s := "(" + (tag + (")" + rest));
            && Find(s, ')') == |tag| + 1 && s[0] == '(' && s[1..|tag| + 1] == tag && s[|tag| + 2..] == rest
            && s[..|tag| + 2] == "(" + tag + ")"
  {
    var s := "(" + (tag + (")" + rest));
    assert s[..|tag| + 1] == "(" + tag;
    FindIs(s, ')', |tag| + 1);
  }

  lemma GroupsOfTag(tag: string, rest: string)
    requires IsPlain(tag)
    ensures Groups(Tagged(tag) + rest) == [tag] + Groups(rest)
  {
    hide Groups, Find, IsPlain;
    var s := "(" + (tag + (")" + rest));
    TaggedPrints(tag, rest);
    assert (" " + s)[1..] == s;
    GroupsStep(" " + s);
    FindsClosing(tag, rest);
    GroupsStep(s);
  }

  lemma {:induction false} GroupsOfTagText(tags: seq<string>)
    requires AreTags(tags)
    ensures Groups(TagText(tags)) == tags
  {
    if tags == [] {
      assert Groups([]) == [];
    } else {
      hide Groups, TagText, Tagged, IsPlain, IsSolid;
      assert tags[0] in tags && forall t :: t in tags[1..] ==> t in tags;
      assert tags == [tags[0]] + tags[1..];
      TagTextStep(tags[0], tags[1..]);
      GroupsOfTag(tags[0], TagText(tags[1..]));
      GroupsOfTagText(tags[1..]);
    }
  }

  lemma PlainHasNoParens(s: string)
    requires IsPlain(s)
    ensures '(' !in s && ')' !in s
  {
  }

  /** The tags of a name are those it was written with, in order. */
  lemma TagsAreRead(title: string, tags: seq<string>)
    requires IsTitle(title) && AreTags(tags)
    ensures TagsOf(Named(title, tags)) == tags
  {
    hide Groups, Closed, IsPlain, IsSolid, Inner;
    PlainHasNoParens(title);
    NoGroupsWithoutParens(title);
    GroupsConcat(title, TagText(tags));
    GroupsOfTagText(tags);
    assert [] + tags == tags;
    forall i | 0 <= i < |tags| ensures Inner(tags[i]) == tags[i] {
      assert tags[i] in tags;
      PlainHasNoParens(tags[i]);
      PlainGroup(tags[i]);
      SolidStays(tags[i]);
    }
    assert Inners(tags) == tags;
  }

  // ----- Rewriting

  lemma RewritePlain(c: char, s: string, built: string, keep: string -> bool, dropBrackets: bool)
    requires !IsGrouping(c)
    ensures RewriteFrom([c] + s, built, keep, dropBrackets) == RewriteFrom(s, built + [c], keep, dropBrackets)
  {
    assert ([c] + s)[1..] == s;
  }

  lemma RewriteGroup(tag: string, rest: string, built: string, keep: string -> bool, dropBrackets: bool)
    requires IsPlain(tag) && IsSolid(tag)
    ensures RewriteFrom("(" + (tag + (")" + rest)), built, keep, dropBrackets)
         == RewriteFrom(rest, if keep(tag) then built + ("(" + tag + ")") else WithoutTrailingSpaces(built), keep, dropBrackets)
  {
    hide Find, IsPlain, IsSolid, WithoutTrailingSpaces, Trim;
    FindsClosing(tag, rest);
    SolidStays(tag);
  }

  lemma OneSpaceGoes(built: string)
    requires built == [] || built[|built| - 1] != ' '
    ensures WithoutTrailingSpaces(built + " ") == built
  {
    assert (built + " ")[..|built|] == built;
  }

  lemma RewritingTag(tag: string, rest: string, built: string, keep: string -> bool, dropBrackets: bool)
    requires IsPlain(tag) && IsSolid(tag) && (built == [] || built[|built| - 1] != ' ')
    ensures RewriteFrom(Tagged(tag) + rest, built, keep, dropBrackets)
         == RewriteFrom(rest, if keep(tag) then built + Tagged(tag) else built, keep, dropBrackets)
  {
    hide RewriteFrom, IsPlain, IsSolid, WithoutTrailingSpaces;
    TaggedPrints(tag, rest);
    RewritePlain(' ', "(" + (tag + (")" + rest)), built, keep, dropBrackets);
    RewriteGroup(tag, rest, built + " ", keep, dropBrackets);
    OneSpaceGoes(built);
    assert built + " " + ("(" + tag + ")") == built + Tagged(tag);
  }

  lemma NothingAccepted(keep: string -> bool)
    ensures Accepted([], keep) == [] && TagText([]) == ""
  {
  }

  lemma {:induction false} RewritingTagText(tags: seq<string>, rest: string, built: string, keep: string -> bool, dropBrackets: bool)
    requires AreTags(tags) && (built == [] || built[|built| - 1] != ' ')
    ensures RewriteFrom(TagText(tags) + rest, built, keep, dropBrackets)
         == RewriteFrom(rest, built + TagText(Accepted(tags, keep)), keep, dropBrackets)
    decreases |tags|
  {
    hide RewriteFrom, TagText, Tagged, Accepted, IsPlain, IsSolid;
    if tags == [] {
      NothingAccepted(keep);
      assert "" + rest == rest && built + "" == built;
    } else {
      var tag, kept := tags[0], Accepted(tags[1..], keep);
      assert tag in tags && forall t :: t in tags[1..] ==> t in tags;
      assert tags == [tag] + tags[1..];
      TagTextStep(tag, tags[1..]);
      Regroup(Tagged(tag), TagText(tags[1..]), rest);
      RewritingTag(tag, TagText(tags[1..]) + rest, built, keep, dropBrackets);
      AcceptedStep(tag, tags[1..], keep);
      TagEnds(built, tag);
      RewritingTagText(tags[1..], rest, if keep(tag) then built + Tagged(tag) else built, keep, dropBrackets);
      TagTextStep(tag, kept);
      Regroup(built, Tagged(tag), TagText(kept));
      assert [] + kept == kept;
    }
  }

  lemma TagEnds(built: string, tag: string)
    ensures var s := built + Tagged(tag); s != [] && s[|s| - 1] != ' '
  {
  }

  lemma {:induction false} RewritingTitle(title: string, rest: string, built: string, keep: string -> bool, dropBrackets: bool)
    requires IsPlain(title)
    ensures RewriteFrom(title + rest, built, keep, dropBrackets) == RewriteFrom(rest, built + title, keep, dropBrackets)
    decreases |title|
  {
    if title == [] {
      assert title + rest == rest && built + title == built;
    } else {
      hide RewriteFrom;
      assert title[0] in title && forall c :: c in title[1..] ==> c in title;
      assert title + rest == [title[0]] + (title[1..] + rest);
      RewritePlain(title[0], title[1..] + rest, built, keep, dropBrackets);
      RewritingTitle(title[1..], rest, built + [title[0]], keep, dropBrackets);
      assert built + [title[0]] + title[1..] == built + title;
    }
  }

  lemma {:induction false} TagTextEnds(tags: seq<string>)
    ensures tags != [] ==> TagText(tags) != [] && TagText(tags)[|TagText(tags)| - 1] == ')'
  {
    if tags != [] {
      TagTextEnds(tags[1..]);
    }
  }

  lemma NamedIsSolid(title: string, tags: seq<string>)
    requires IsTitle(title)
    ensures IsSolid(Named(title, tags))
  {
    TagTextEnds(tags);
    assert tags == [] ==> title + TagText(tags) == title;
  }

  /** Rewriting a name keeps the title and the accepted tags, with the spaces between them. */
  lemma TagsAreKept(title: string, tags: seq<string>, keep: string -> bool, dropBrackets: bool)
    requires IsTitle(title) && AreTags(tags)
    ensures Rewritten(Named(title, tags), keep, dropBrackets) == Named(title, Accepted(tags, keep))
  {
    hide RewriteFrom, TagText, Trim, Accepted;
    RewritingNamed(title, tags, [], keep, dropBrackets);
    assert Named(title, tags) + [] == Named(title, tags);
    RewritingNothing(Named(title, Accepted(tags, keep)), keep, dropBrackets);
    NamedIsSolid(title, Accepted(tags, keep));
    SolidStays(Named(title, Accepted(tags, keep)));
  }

  lemma RewritingNothing(built: string, keep: string -> bool, dropBrackets: bool)
    ensures RewriteFrom([], built, keep, dropBrackets) == built
  {
  }

  lemma RewritingNamed(title: string, tags: seq<string>, rest: string, keep: string -> bool, dropBrackets: bool)
    requires IsTitle(title) && AreTags(tags)
    ensures RewriteFrom(Named(title, tags) + rest, [], keep, dropBrackets)
         == RewriteFrom(rest, Named(title, Accepted(tags, keep)), keep, dropBrackets)
  {
    hide RewriteFrom, TagText, Accepted;
    Regroup(title, TagText(tags), rest);
    RewritingTitle(title, TagText(tags) + rest, [], keep, dropBrackets);
    assert [] + title == title && title[|title| - 1] != ' ';
    RewritingTagText(tags, rest, title, keep, dropBrackets);
  }

  // ----- Brackets, and groups that are not closed

  lemma FindsBracket(flag: string)
    requires IsPlain(flag)
    ensures var s := "[" + flag + "]"; Find(s, ']') == |flag| + 1 && s[0] == '[' && s[|flag| + 2..] == []
    ensures Find("[" + flag, ']') == |flag| + 1 && ("[" + flag)[0] == '['
    ensures Find("(" + flag, ')') == |flag| + 1 && ("(" + flag)[0] == '('
  {
    var s := "[" + flag + "]";
    assert s[..|flag| + 1] == "[" + flag && s[|flag| + 1] == ']';
    FindIs(s, ']', |flag| + 1);
    FindMisses("[" + flag, ']');
    FindMisses("(" + flag, ')');
  }

  lemma RewritingAtBracket(flag: string, built: string, keep: string -> bool)
    requires IsPlain(flag)
    ensures RewriteFrom("[" + flag + "]", built, keep, true) == WithoutTrailingSpaces(built)
    ensures RewriteFrom("[" + flag, built, keep, true) == built
    ensures RewriteFrom("(" + flag, built, keep, true) == built + ("(" + flag)
  {
    hide Find, IsPlain, WithoutTrailingSpaces;
    FindsBracket(flag);
    RewritingNothing(WithoutTrailingSpaces(built), keep, true);
  }

  lemma RewritingBracket(flag: string, built: string, keep: string -> bool)
    requires IsPlain(flag) && built != [] && built[|built| - 1] != ' '
    ensures RewriteFrom(" [" + flag + "]", built, keep, true) == built
    ensures RewriteFrom(" [" + flag, built, keep, true) == built + " "
    ensures RewriteFrom(" (" + flag, built, keep, true) == built + " (" + flag
  {
    hide RewriteFrom, WithoutTrailingSpaces, IsPlain;
    OneSpaceGoes(built);
    RewritingAtBracket(flag, built + " ", keep);
    SpaceFirst(flag, built);
    RewritePlain(' ', "[" + flag + "]", built, keep, true);
    RewritePlain(' ', "[" + flag, built, keep, true);
    RewritePlain(' ', "(" + flag, built, keep, true);
  }

  lemma SpaceFirst(flag: string, built: string)
    ensures " [" + flag + "]" == [' '] + ("[" + flag + "]")
    ensures " [" + flag == [' '] + ("[" + flag) && " (" + flag == [' '] + ("(" + flag)
    ensures built + " " + ("(" + flag) == built + " (" + flag && built + [' '] == built + " "
  {
  }

  lemma SpaceAfter(name: string)
    requires name != [] && IsSolid(name)
    ensures Trim(name + " ") == name
  {
    TrimIs([], name, " ");
    assert [] + name + " " == name + " ";
  }

  /**
   A bare title loses a bracketed flag behind the tags, and everything from a bracket on that
   is not closed; but a parenthesis that is not closed stays, and what follows it.
   */
  lemma FlagsAreDropped(title: string, tags: seq<string>, flag: string)
    requires IsTitle(title) && AreTags(tags) && IsPlain(flag)
    ensures BareTitle(Named(title, tags) + (" [" + flag + "]")) == title
    ensures BareTitle(Named(title, tags) + (" [" + flag)) == title
    ensures flag != [] && IsSolid(flag) ==> BareTitle(Named(title, tags) + (" (" + flag)) == title + " (" + flag
  {
    hide RewriteFrom, Accepted, Trim, Named, IsPlain;
    NoneAccepted(tags);
    NamedNothing(title);
    RewritingNamed(title, tags, " [" + flag + "]", NoTag, true);
    RewritingNamed(title, tags, " [" + flag, NoTag, true);
    RewritingNamed(title, tags, " (" + flag, NoTag, true);
    RewritingBracket(flag, title, NoTag);
    SolidStays(title);
    SpaceAfter(title);
    if flag != [] && IsSolid(flag) {
      SolidStays(title + " (" + flag);
    }
  }

  lemma NamedNothing(title: string)
    ensures Named(title, []) == title
  {
  }

  lemma {:induction false} NoneAccepted(tags: seq<string>)
    ensures Accepted(tags, NoTag) == []
  {
    if tags != [] {
      NoneAccepted(tags[1..]);
    }
  }

  /** The bare title is the title; stripping leaves all tags but those that are languages. */
  lemma TitleIsRead(title: string, tags: seq<string>)
    requires IsTitle(title) && AreTags(tags)
    ensures BareTitle(Named(title, tags)) == title && TitleKeyOf(Named(title, tags)) == Letters(title)
    ensures StripLanguageTags(Named(title, tags)) == Named(title, Accepted(tags, IsNotLanguageTag))
  {
    hide Rewritten, Accepted, Letters, IsPlain, IsSolid;
    TagsAreKept(title, tags, NoTag, true);
    NoneAccepted(tags);
    assert Named(title, []) == title;
    TagsAreKept(title, tags, IsNotLanguageTag, false);
  }

  // ----- What a title key keeps

  const DIGITS := "0123456789"
  const CAPITALS := "ABCDEFGHIJKLMNOPQRSTUVWXYZ"
  const SMALL_LETTERS := "abcdefghijklmnopqrstuvwxyz"
  const JOINERS := "_+,&"

  predicate IsKept(c: char) {
    c in DIGITS || c in CAPITALS || c in SMALL_LETTERS || c in JOINERS
  }

  lemma Digits(c: char)
    ensures c in DIGITS <==> '0' <= c <= '9'
  {
    if '0' <= c <= '9' {
      assert DIGITS[c as int - '0' as int] == c;
    }
  }

  lemma Capitals(c: char)
    ensures c in CAPITALS <==> 'A' <= c <= 'Z'
  {
    if 'A' <= c <= 'Z' {
      assert CAPITALS[c as int - 'A' as int] == c;
    }
  }

  lemma SmallLetters(c: char)
    ensures c in SMALL_LETTERS <==> 'a' <= c <= 'z'
  {
    if 'a' <= c <= 'z' {
      assert SMALL_LETTERS[c as int - 'a' as int] == c;
    }
  }

  lemma Joiners(c: char)
    ensures c in JOINERS <==> c == '_' || c == '+' || c == ',' || c == '&'
  {
    assert JOINERS[0] == '_' && JOINERS[1] == '+' && JOINERS[2] == ',' && JOINERS[3] == '&';
  }

  lemma KeyCharacters(c: char)
    ensures IsKeyChar(c) <==> IsKept(c)
  {
    hide DIGITS, CAPITALS, SMALL_LETTERS, JOINERS;
    Digits(c);
    Capitals(c);
    SmallLetters(c);
    Joiners(c);
  }

  /** Two titles have one key if and only if their key characters, in order, differ in ASCII case only. */
  lemma TitleKeysAgree(a: string, b: string, aTags: seq<string>, bTags: seq<string>)
    requires IsTitle(a) && IsTitle(b) && AreTags(aTags) && AreTags(bTags)
    ensures TitleKeyOf(Named(a, aTags)) == TitleKeyOf(Named(b, bTags)) <==> SameText(KeyPart(a), KeyPart(b))
  {
    hide TitleKeyOf, IsTitle, AreTags, Letters;
    TitleIsRead(a, aTags);
    TitleIsRead(b, bTags);
    LettersAreKeyPart(a);
    LettersAreKeyPart(b);
    FoldsAlike(KeyPart(a), KeyPart(b));
  }

  function KeyPart(s: string): string {
    if s == [] then [] else (if IsKept(s[0]) then [s[0]] else []) + KeyPart(s[1..])
  }

  lemma LetterIsKeyPart(c: char)
    ensures Letters([c]) == ToLower(if IsKept(c) then [c] else [])
  {
    hide IsKept;
    KeyCharacters(c);
    assert [c][1..] == [];
  }

  lemma LowerOfConcat(a: string, b: string)
    ensures ToLower(a + b) == ToLower(a) + ToLower(b)
  {
  }

  lemma NoLetters()
    ensures Letters([]) == ToLower([]) == KeyPart([])
  {
  }

  lemma {:induction false} LettersAreKeyPart(s: string)
    ensures Letters(s) == ToLower(KeyPart(s))
  {
    hide IsKept, Letters, ToLower;
    if s == [] {
      NoLetters();
    } else {
      var first := if IsKept(s[0]) then [s[0]] else [];
      assert s == [s[0]] + s[1..];
      LettersConcat([s[0]], s[1..]);
      LetterIsKeyPart(s[0]);
      LettersAreKeyPart(s[1..]);
      LowerOfConcat(first, KeyPart(s[1..]));
    }
  }

  // ----- Languages

  predicate IsCode(part: string) {
    exists code :: code in LANGUAGE_CODES && SameText(part, code)
  }

  lemma CodesAreCapitals(code: string)
    requires code in LANGUAGE_CODES
    ensures ToUpper(code) == code
  {
    hide ToUpper;
    if code in LANGUAGE_CODES_A {
      CodesOfAAreCapitals(code);
    } else if code in LANGUAGE_CODES_B {
      CodesOfBAreCapitals(code);
    } else if code in LANGUAGE_CODES_C {
      CodesOfCAreCapitals(code);
    } else {
      RegionalCodesAreCapitals(code);
    }
  }

  lemma CodesOfAAreCapitals(code: string)
    requires code in LANGUAGE_CODES_A
    ensures ToUpper(code) == code
  {
  }

  lemma CodesOfBAreCapitals(code: string)
    requires code in LANGUAGE_CODES_B
    ensures ToUpper(code) == code
  {
  }

  lemma CodesOfCAreCapitals(code: string)
    requires code in LANGUAGE_CODES_C
    ensures ToUpper(code) == code
  {
  }

  lemma RegionalCodesAreCapitals(code: string)
    requires code in REGIONAL_LANGUAGE_CODES
    ensures ToUpper(code) == code
  {
  }

  lemma CodeIs(part: string)
    ensures ToUpper(part) in LANGUAGE_CODES <==> IsCode(part)
    ensures forall code :: code in LANGUAGE_CODES && SameText(part, code) ==> ToUpper(part) == code
  {
    hide ToUpper, SameText, LANGUAGE_CODES_A, LANGUAGE_CODES_B, LANGUAGE_CODES_C, REGIONAL_LANGUAGE_CODES;
    forall code | code in LANGUAGE_CODES && SameText(part, code) ensures ToUpper(part) == code {
      FoldsAlike(part, code);
      CodesAreCapitals(code);
    }
    if ToUpper(part) in LANGUAGE_CODES {
      CodesAreCapitals(ToUpper(part));
      FoldsAlike(part, ToUpper(part));
    }
  }

  predicate AreCodes(parts: seq<string>) {
    forall part :: part in parts ==> IsCode(Trim(part))
  }

  /** A tag is a language tag exactly when each of its parts is a code, in any case. */
  lemma LanguageTagIs(parts: seq<string>, between: string)
    requires Separates(parts, between, ",+") && JoinParts(parts, between) != []
    ensures IsLanguageTag(JoinParts(parts, between)) <==> AreCodes(parts)
  {
    hide IsCode, LANGUAGE_CODES, Trim, ToUpper;
    SplitsWhatWasJoined(parts, between, ",+");
    forall part | part in parts ensures ToUpper(Trim(part)) in LANGUAGE_CODES <==> IsCode(Trim(part)) {
      CodeIs(Trim(part));
    }
  }

  /** Part by part, the codes are those listed. */
  predicate Spell(parts: seq<string>, codes: seq<string>) {
    |parts| == |codes| && forall i :: 0 <= i < |parts| ==> codes[i] in LANGUAGE_CODES && SameText(Trim(parts[i]), codes[i])
  }

  lemma CodesAreRead(parts: seq<string>, between: string, codes: seq<string>)
    requires Separates(parts, between, ",+") && Spell(parts, codes) && JoinParts(parts, between) != []
    ensures IsLanguageTag(JoinParts(parts, between))
    ensures CodesOf(JoinParts(parts, between)) == set code | code in codes
  {
    hide LANGUAGE_CODES, Trim, ToUpper, SameText, IsLanguageTag, JoinParts;
    forall i | 0 <= i < |parts| ensures ToUpper(Trim(parts[i])) == codes[i] && IsCode(Trim(parts[i])) {
      CodeIs(Trim(parts[i]));
    }
    LanguageTagIs(parts, between);
    SplitsWhatWasJoined(parts, between, ",+");
    var read := CodesOf(JoinParts(parts, between));
    forall code | code in codes ensures code in read {
      var i :| 0 <= i < |codes| && codes[i] == code;
      assert parts[i] in parts;
    }
    forall code | code in read ensures code in codes {
      var part :| part in parts && code == ToUpper(Trim(part));
      var i :| 0 <= i < |parts| && parts[i] == part;
    }
  }

  lemma {:induction false} OneLanguageTag(before: seq<string>, tag: string, after: seq<string>)
    requires forall other :: other in before + after ==> !IsLanguageTag(other)
    ensures LanguagesIn(before + [tag] + after) == if IsLanguageTag(tag) then CodesOf(tag) else {}
    decreases |before|
  {
    hide IsLanguageTag, CodesOf;
    if before == [] {
      assert before + [tag] + after == [tag] + after && ([tag] + after)[1..] == after;
      NoLanguages(after);
    } else {
      var all := before + [tag] + after;
      assert all[0] == before[0] && all[1..] == before[1..] + [tag] + after;
      assert before[0] in before + after && forall t :: t in before[1..] + after ==> t in before + after;
      OneLanguageTag(before[1..], tag, after);
    }
  }

  /** The languages of a name are the codes of its language tag, wherever among the tags that stands. */
  lemma LanguagesAreRead(title: string, before: seq<string>, parts: seq<string>, between: string, codes: seq<string>, after: seq<string>)
    requires Separates(parts, between, ",+") && Spell(parts, codes) && JoinParts(parts, between) != []
    requires IsTitle(title) && AreTags(before + [JoinParts(parts, between)] + after)
    requires forall other :: other in before + after ==> !IsLanguageTag(other)
    ensures LanguagesOf(Named(title, before + [JoinParts(parts, between)] + after)) == set code | code in codes
  {
    hide TagsOf, IsTitle, AreTags, Spell, Named, LanguagesIn, CodesOf, IsLanguageTag;
    TagsAreRead(title, before + [JoinParts(parts, between)] + after);
    OneLanguageTag(before, JoinParts(parts, between), after);
    CodesAreRead(parts, between, codes);
  }

  // ----- Regions

  /** The short codes, and the region each stands for. */
  predicate ShortFor(code: string, name: string) {
    || (code == "US" && name == "usa") || (code == "USA" && name == "usa") || (code == "EU" && name == "europe")
    || (code == "JP" && name == "japan") || (code == "AS" && name == "asia") || (code == "AU" && name == "australia")
    || (code == "BR" && name == "brazil") || (code == "KR" && name == "korea") || (code == "CN" && name == "china")
    || AlsoShortFor(code, name)
  }

  predicate AlsoShortFor(code: string, name: string) {
    || (code == "TW" && name == "taiwan") || (code == "FR" && name == "france") || (code == "DE" && name == "germany")
    || (code == "ES" && name == "spain") || (code == "IT" && name == "italy") || (code == "NL" && name == "netherlands")
    || (code == "SE" && name == "sweden") || (code == "RU" && name == "russia") || (code == "UK" && name == "united kingdom")
  }

  predicate IsRegionName(name: string) {
    ToUpper(name) in REGION_NAMES && ToLower(name) == name
  }

  /** The text names this region: by its name in any case, or by its short code as it stands. */
  predicate MeansRegion(part: string, name: string) {
    IsRegionName(name) && (SameText(part, name) || ShortFor(part, name))
  }

  lemma ShortNamesOfA(name: string)
    requires name in REGION_NAMES_A && |name| <= 3
    ensures name == "USA"
  {
  }

  lemma ShortNamesOfB(name: string)
    requires name in REGION_NAMES_B && |name| <= 3
    ensures name == "UAE"
  {
  }

  lemma ShortCodesAreAliases(code: string, name: string)
    requires ShortFor(code, name)
    ensures code in REGION_ALIASES && REGION_ALIASES[code] == name
  {
  }

  lemma AliasesAreShortCodes(code: string)
    requires code in REGION_ALIASES
    ensures ShortFor(code, REGION_ALIASES[code])
  {
  }

  lemma AliasesAreShort(code: string)
    requires code in REGION_ALIASES
    ensures |code| <= 3 && code != "UAE"
  {
  }

  lemma ShortCodesAreCapitals(code: string, name: string)
    requires ShortFor(code, name)
    ensures ToUpper(code) == code
  {
    hide REGION_ALIASES;
  }

  lemma ListedInA()
    ensures "USA" in REGION_NAMES_A
    ensures "EUROPE" in REGION_NAMES_A
    ensures "JAPAN" in REGION_NAMES_A
    ensures "ASIA" in REGION_NAMES_A
    ensures "AUSTRALIA" in REGION_NAMES_A
    ensures "BRAZIL" in REGION_NAMES_A
    ensures "KOREA" in REGION_NAMES_A
    ensures "CHINA" in REGION_NAMES_A
    ensures "TAIWAN" in REGION_NAMES_A
    ensures "FRANCE" in REGION_NAMES_A
    ensures "GERMANY" in REGION_NAMES_A
    ensures "SPAIN" in REGION_NAMES_A
    ensures "ITALY" in REGION_NAMES_A
    ensures "NETHERLANDS" in REGION_NAMES_A
  {
  }

  lemma ListedInB()
    ensures "SWEDEN" in REGION_NAMES_B
    ensures "RUSSIA" in REGION_NAMES_B
    ensures "UNITED KINGDOM" in REGION_NAMES_B
  {
  }

  lemma Cases1()
    ensures ToUpper("usa") == "USA"
    ensures ToUpper("europe") == "EUROPE"
    ensures ToUpper("japan") == "JAPAN"
    ensures ToUpper("asia") == "ASIA"
    ensures ToUpper("australia") == "AUSTRALIA"
    ensures ToLower("usa") == "usa"
    ensures ToLower("europe") == "europe"
    ensures ToLower("japan") == "japan"
    ensures ToLower("asia") == "asia"
    ensures ToLower("australia") == "australia"
  {
  }

  lemma Cases2()
    ensures ToUpper("brazil") == "BRAZIL"
    ensures ToUpper("korea") == "KOREA"
    ensures ToUpper("china") == "CHINA"
    ensures ToUpper("taiwan") == "TAIWAN"
    ensures ToLower("brazil") == "brazil"
    ensures ToLower("korea") == "korea"
    ensures ToLower("china") == "china"
    ensures ToLower("taiwan") == "taiwan"
  {
  }

  lemma Cases3()
    ensures ToUpper("france") == "FRANCE"
    ensures ToUpper("germany") == "GERMANY"
    ensures ToUpper("spain") == "SPAIN"
    ensures ToUpper("italy") == "ITALY"
    ensures ToLower("france") == "france"
    ensures ToLower("germany") == "germany"
    ensures ToLower("spain") == "spain"
    ensures ToLower("italy") == "italy"
  {
  }

  lemma Cases4()
    ensures ToUpper("netherlands") == "NETHERLANDS"
    ensures ToUpper("sweden") == "SWEDEN"
    ensures ToUpper("russia") == "RUSSIA"
    ensures ToLower("netherlands") == "netherlands"
    ensures ToLower("sweden") == "sweden"
    ensures ToLower("russia") == "russia"
  {
  }

  lemma Cases5()
    ensures ToUpper("united kingdom") == "UNITED KINGDOM"
    ensures ToLower("united kingdom") == "united kingdom"
  {
  }

  lemma ShortCodesHaveNames(code: string, name: string)
    requires ShortFor(code, name)
    ensures IsRegionName(name)
  {
    hide ToUpper, ToLower, REGION_NAMES_A, REGION_NAMES_B;
    ListedInA();
    ListedInB();
    Cases1();
    Cases2();
    Cases3();
    Cases4();
    Cases5();
  }

  /** A part of a tag is a region exactly when it names one, and is read as that one. */
  lemma RegionIs(part: string, name: string)
    ensures MeansRegion(part, name) ==> IsRegion(part) && CanonicalRegion(part) == name
    ensures IsRegion(part) ==> MeansRegion(part, CanonicalRegion(part))
  {
    hide ToUpper, ToLower, SameText, ShortFor, REGION_ALIASES, REGION_NAMES_A, REGION_NAMES_B;
    if MeansRegion(part, name) {
      NamedRegion(part, name);
    }
    if IsRegion(part) {
      if part in REGION_ALIASES {
        AliasesAreShortCodes(part);
        ShortCodesHaveNames(part, REGION_ALIASES[part]);
      } else {
        UpperOfLower(part);
        FoldsAlike(part, ToLower(part));
      }
    }
  }

  lemma UpperOfLower(s: string)
    ensures ToUpper(ToLower(s)) == ToUpper(s) && ToLower(ToLower(s)) == ToLower(s)
  {
  }

  lemma NamedRegion(part: string, name: string)
    requires MeansRegion(part, name)
    ensures IsRegion(part) && CanonicalRegion(part) == name
  {
    hide ToUpper, ToLower, SameText, ShortFor, REGION_ALIASES, REGION_NAMES_A, REGION_NAMES_B;
    if ShortFor(part, name) {
      ShortCodesAreAliases(part, name);
    } else {
      FoldsAlike(part, name);
      if part in REGION_ALIASES {
        AliasesAreShortCodes(part);
        AliasesAreShort(part);
        ShortCodesAreCapitals(part, REGION_ALIASES[part]);
        AliasIsName(part);
        UsaIsUsa();
      }
    }
  }

  lemma AliasIsName(part: string)
    requires ToUpper(part) == part && |part| <= 3 && part in REGION_NAMES && part != "UAE"
    ensures part == "USA"
  {
    hide ToUpper;
    if part in REGION_NAMES_A {
      ShortNamesOfA(part);
    } else {
      ShortNamesOfB(part);
    }
  }

  lemma UsaIsUsa()
    ensures "USA" in REGION_ALIASES && REGION_ALIASES["USA"] == "usa" == ToLower("USA")
  {
  }

  /** Part by part, the regions are those listed. */
  predicate Place(parts: seq<string>, names: seq<string>) {
    |parts| == |names| && forall i :: 0 <= i < |parts| ==> MeansRegion(Trim(parts[i]), names[i])
  }

  lemma RegionTagIsRead(parts: seq<string>, between: string, names: seq<string>)
    requires Separates(parts, between, ",") && JoinParts(parts, between) != []
    ensures IsRegionTag(JoinParts(parts, between)) <==> forall part :: part in parts ==> IsRegion(Trim(part))
    ensures Place(parts, names) ==>
              IsRegionTag(JoinParts(parts, between))
              && RegionsOfTag(JoinParts(parts, between)) == set name | name in names
  {
    hide IsRegion, CanonicalRegion, MeansRegion, Trim, JoinParts;
    var tag := JoinParts(parts, between);
    SplitsWhatWasJoined(parts, between, ",");
    if Place(parts, names) {
      forall i | 0 <= i < |parts| ensures IsRegion(Trim(parts[i])) && CanonicalRegion(Trim(parts[i])) == names[i] {
        RegionIs(Trim(parts[i]), names[i]);
      }
      forall name | name in names ensures name in RegionsOfTag(tag) {
        var i :| 0 <= i < |names| && names[i] == name;
        assert parts[i] in parts;
      }
      forall name | name in RegionsOfTag(tag) ensures name in names {
        var part :| part in parts && name == CanonicalRegion(Trim(part));
        var i :| 0 <= i < |parts| && parts[i] == part;
      }
    }
  }

  lemma {:induction false} FirstRegionTag(before: seq<string>, tag: string, after: seq<string>)
    requires (forall other :: other in before ==> !IsRegionTag(other)) && IsRegionTag(tag)
    ensures RegionsIn(before + [tag] + after) == RegionsOfTag(tag)
    decreases |before|
  {
    hide IsRegionTag, RegionsOfTag;
    if before == [] {
      assert before + [tag] + after == [tag] + after;
    } else {
      var all := before + [tag] + after;
      assert all[0] == before[0] && before[0] in before && all[1..] == before[1..] + [tag] + after;
      FirstRegionTag(before[1..], tag, after);
    }
  }

  /** The regions of a name are those its first region tag lists. */
  lemma RegionsAreRead(title: string, before: seq<string>, parts: seq<string>, between: string, names: seq<string>, after: seq<string>)
    requires Separates(parts, between, ",") && Place(parts, names) && JoinParts(parts, between) != []
    requires IsTitle(title) && AreTags(before + [JoinParts(parts, between)] + after)
    requires forall other :: other in before ==> !IsRegionTag(other)
    ensures RegionsOf(Named(title, before + [JoinParts(parts, between)] + after)) == set name | name in names
  {
    hide TagsOf, IsTitle, AreTags, Place, Named, RegionsIn, RegionsOfTag, IsRegionTag;
    TagsAreRead(title, before + [JoinParts(parts, between)] + after);
    RegionTagIsRead(parts, between, names);
    FirstRegionTag(before, JoinParts(parts, between), after);
  }

  // ----- Families of regions

  predicate IsEastern(region: string) {
    region == "japan" || region == "asia" || region == "korea" || region == "china" || region == "taiwan"
    || region == "hong kong"
  }

  lemma EasternIs(region: string)
    ensures region in EAST_ASIA <==> IsEastern(region)
  {
  }

  /** Regions share a half of the world: both have an eastern one or neither has; the whole world shares with all. */
  lemma FamiliesAre(left: set<string>, right: set<string>)
    ensures SharesRegionFamily(left, right) <==>
            && left != {} && right != {}
            && ("world" in left || "world" in right
                || ((exists region :: region in left && IsEastern(region))
                    <==> exists region :: region in right && IsEastern(region)))
  {
    hide IsEastern, EAST_ASIA;
    forall region ensures region in EAST_ASIA <==> IsEastern(region) {
      EasternIs(region);
    }
    Apart(left, EAST_ASIA);
    Apart(right, EAST_ASIA);
  }

  lemma Apart(a: set<string>, b: set<string>)
    ensures a !! b <==> forall region :: region in a ==> region !in b
  {
  }

  // ----- Retail releases

  predicate Begins(word: string, marker: string) {
    |marker| <= |word| && SameText(word[..|marker|], marker)
  }

  /** The words that tell a file is no picture of a box. */
  predicate DisownsRetail(word: string) {
    || SameText(word, "hack")
    || Begins(word, "beta") || Begins(word, "proto") || Begins(word, "demo") || Begins(word, "sample")
    || Begins(word, "prerelease") || Begins(word, "pirate") || Begins(word, "bootleg") || Begins(word, "kiosk")
    || Begins(word, "debug") || Begins(word, "promo") || Begins(word, "preview")
  }

  lemma BeginsIs(word: string, marker: string, capitals: string)
    requires capitals == ToUpper(marker)
    ensures StartsWith(ToUpper(word), capitals) <==> Begins(word, marker)
  {
    if |marker| <= |word| {
      UpperOfSlice(word, 0, |marker|);
      assert ToUpper(word)[0..|marker|] == ToUpper(word)[..|marker|] && word[0..|marker|] == word[..|marker|];
      FoldsAlike(word[..|marker|], marker);
    }
  }

  lemma MarkersInCapitals()
    ensures ToUpper("hack") == "HACK"
    ensures ToUpper("beta") == "BETA"
    ensures ToUpper("proto") == "PROTO"
    ensures ToUpper("demo") == "DEMO"
    ensures ToUpper("sample") == "SAMPLE"
    ensures ToUpper("prerelease") == "PRERELEASE"
  {
  }

  lemma MoreMarkersInCapitals()
    ensures ToUpper("pirate") == "PIRATE"
    ensures ToUpper("bootleg") == "BOOTLEG"
    ensures ToUpper("kiosk") == "KIOSK"
    ensures ToUpper("debug") == "DEBUG"
    ensures ToUpper("promo") == "PROMO"
    ensures ToUpper("preview") == "PREVIEW"
  {
  }

  lemma MarkersAre(marker: string)
    ensures marker in NON_RETAIL_PREFIXES <==>
            marker == "BETA" || marker == "PROTO" || marker == "DEMO" || marker == "SAMPLE"
            || marker == "PRERELEASE" || marker == "PIRATE" || marker == "BOOTLEG" || marker == "KIOSK"
            || marker == "DEBUG" || marker == "PROMO" || marker == "PREVIEW"
  {
  }

  lemma NonRetailWordIs(word: string)
    ensures IsNonRetailWord(word) <==> DisownsRetail(word)
  {
    hide ToUpper, SameText, Begins, StartsWith, NON_RETAIL_PREFIXES;
    MarkersInCapitals();
    MoreMarkersInCapitals();
    FoldsAlike(word, "hack");
    BeginsIs(word, "beta", "BETA");
    MarkersAre("BETA");
    BeginsIs(word, "proto", "PROTO");
    MarkersAre("PROTO");
    BeginsIs(word, "demo", "DEMO");
    MarkersAre("DEMO");
    BeginsIs(word, "sample", "SAMPLE");
    MarkersAre("SAMPLE");
    BeginsIs(word, "prerelease", "PRERELEASE");
    MarkersAre("PRERELEASE");
    BeginsIs(word, "pirate", "PIRATE");
    MarkersAre("PIRATE");
    BeginsIs(word, "bootleg", "BOOTLEG");
    MarkersAre("BOOTLEG");
    BeginsIs(word, "kiosk", "KIOSK");
    MarkersAre("KIOSK");
    BeginsIs(word, "debug", "DEBUG");
    MarkersAre("DEBUG");
    BeginsIs(word, "promo", "PROMO");
    MarkersAre("PROMO");
    BeginsIs(word, "preview", "PREVIEW");
    MarkersAre("PREVIEW");
    if marker :| marker in NON_RETAIL_PREFIXES && StartsWith(ToUpper(word), marker) {
      MarkersAre(marker);
    }
  }

  /** A file shows a retail box exactly when no word of any of its tags disowns it. */
  lemma RetailIsRead(title: string, tags: seq<string>)
    requires IsTitle(title) && AreTags(tags)
    ensures IsRetailRelease(Named(title, tags)) <==>
            forall tag, word :: tag in tags && word in Split(tag, " -/", []) ==> !DisownsRetail(word)
  {
    hide TagsOf, DisownsRetail, IsNonRetailWord, IsSolid;
    TagsAreRead(title, tags);
    NoBracket(title, tags);
    forall word ensures IsNonRetailWord(word) <==> DisownsRetail(word) {
      NonRetailWordIs(word);
    }
  }

  /** A file with a bracketed flag behind its tags shows none, whatever the tags say. */
  lemma FlaggedIsNotRetail(title: string, tags: seq<string>, flag: string)
    ensures !IsRetailRelease(Named(title, tags) + (" [" + flag + "]"))
  {
    var name := Named(title, tags);
    assert (name + (" [" + flag + "]"))[|name| + 1] == '[';
  }

  lemma {:induction false} NoBracketInTags(tags: seq<string>)
    requires AreTags(tags)
    ensures '[' !in TagText(tags)
  {
    if tags != [] {
      assert tags[0] in tags && forall t :: t in tags[1..] ==> t in tags;
      NoBracketInTags(tags[1..]);
    }
  }

  lemma NoBracket(title: string, tags: seq<string>)
    requires IsTitle(title) && AreTags(tags)
    ensures '[' !in Named(title, tags)
  {
    NoBracketInTags(tags);
  }
}
