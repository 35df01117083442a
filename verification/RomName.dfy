/**
 The parenthesised tags of a release name: which groups a name has, what rewriting the name
 keeps of them, and the language, region and title that are read off it.
 */
module RomName {
  import opened Text
  import opened Wrappers

  // ----- Scanning

  /** Where `c` first occurs, or the length of the text when it does not. */
  function Find(s: string, c: char): (i: nat)
    ensures i <= |s| && c !in s[..i]
    ensures i < |s| ==> s[i] == c
  {
    if s == [] || s[0] == c then 0 else
      var rest := Find(s[1..], c);
      assert s[..rest + 1] == [s[0]] + s[1..][..rest];
      rest + 1
  }

  function WithoutTrailingSpaces(s: string): (r: string)
    ensures |r| <= |s| && r == s[..|r|]
    ensures forall i :: |r| <= i < |s| ==> s[i] == ' '
    ensures r == [] || r[|r| - 1] != ' '
  {
    if s != [] && s[|s| - 1] == ' ' then WithoutTrailingSpaces(s[..|s| - 1]) else s
  }

  /**
   What rewriting makes of `s` after having built `built`: a closed group stays or goes as
   `keep` decides, a group that never closes stays with everything after it, and square
   brackets go when asked, together with all that follows when they never close.
   */
  function RewriteFrom(s: string, built: string, keep: string -> bool, dropBrackets: bool): string
    decreases |s|
  {
    if s == [] then built
    else if s[0] == '(' then
      var close := Find(s, ')');
      if close == |s| then built + s
      else if keep(Trim(s[1..close])) then RewriteFrom(s[close + 1..], built + s[..close + 1], keep, dropBrackets)
      else RewriteFrom(s[close + 1..], WithoutTrailingSpaces(built), keep, dropBrackets)
    else if dropBrackets && s[0] == '[' then
      var close := Find(s, ']');
      if close == |s| then built
      else RewriteFrom(s[close + 1..], WithoutTrailingSpaces(built), keep, dropBrackets)
    else RewriteFrom(s[1..], built + [s[0]], keep, dropBrackets)
  }

  function Rewritten(name: string, keep: string -> bool, dropBrackets: bool): string {
    Trim(RewriteFrom(name, [], keep, dropBrackets))
  }

  /** The contents of each closed group, outermost parenthesis to the first that closes it. */
  function Groups(s: string): seq<string> {
    if s == [] then []
    else if s[0] == '(' then
      var close := Find(s, ')');
      if close == |s| then [] else [s[1..close]] + Groups(s[close + 1..])
    else Groups(s[1..])
  }

  /** The tag a group is read as: what follows its last opening parenthesis. */
  function Inner(group: string): string
    decreases |group|
  {
    var open := Find(group, '(');
    if open == |group| then Trim(group) else Inner(group[open + 1..])
  }

  function Inners(groups: seq<string>): (r: seq<string>)
    ensures |r| == |groups| && forall i :: 0 <= i < |r| ==> r[i] == Inner(groups[i])
  {
    seq(|groups|, i requires 0 <= i < |groups| => Inner(groups[i]))
  }

  function TagsOf(name: string): seq<string> {
    Inners(Groups(name))
  }

  // ----- Vocabularies

  const LANGUAGE_CODES := LANGUAGE_CODES_A + LANGUAGE_CODES_B + LANGUAGE_CODES_C + REGIONAL_LANGUAGE_CODES

  const LANGUAGE_CODES_A: set<string> := {
    "EN", "JA", "FR", "DE", "ES", "IT", "NL", "PT", "SV", "NO", "DA", "FI", "ZH", "KO", "PL",
    "RU", "CS", "HU", "TR", "EL", "HE", "AR", "CA", "HR", "SL", "SK", "UK", "RO", "BG", "ET"
  }

  const LANGUAGE_CODES_B: set<string> := {
    "LV", "LT", "GA", "CY", "IS", "AF", "ID", "MS", "TH", "VI", "HI", "FA", "GL", "EU", "SQ",
    "SR", "MK", "BE", "KA", "HY", "AZ", "KK", "UR", "BN", "TA", "TE", "MR", "GU", "KN", "ML"
  }

  const LANGUAGE_CODES_C: set<string> := {
    "PA", "NE", "SI", "MY", "KM", "LO", "MN", "BS", "MT", "LB", "FO", "GD", "BR", "CO", "OC",
    "RM", "FY", "YI", "EO", "LA", "TL", "SW", "ZU", "XH"
  }

  const REGIONAL_LANGUAGE_CODES: set<string> := {
    "PT-BR", "PT-PT", "ZH-HANS", "ZH-HANT", "ES-XL", "EN-US", "EN-GB", "FR-CA"
  }

  const REGION_NAMES := REGION_NAMES_A + REGION_NAMES_B

  const REGION_NAMES_A: set<string> := {
    "WORLD", "USA", "EUROPE", "JAPAN", "ASIA", "KOREA", "CHINA", "TAIWAN", "HONG KONG",
    "AUSTRALIA", "NEW ZEALAND", "CANADA", "BRAZIL", "LATIN AMERICA", "MEXICO", "ARGENTINA", "PERU",
    "FRANCE", "GERMANY", "SPAIN", "ITALY", "NETHERLANDS", "BELGIUM", "SWITZERLAND", "AUSTRIA"
  }

  const REGION_NAMES_B: set<string> := {
    "SWEDEN", "NORWAY", "DENMARK", "FINLAND", "SCANDINAVIA", "PORTUGAL", "GREECE", "POLAND",
    "RUSSIA", "UKRAINE", "CZECH REPUBLIC", "HUNGARY", "CROATIA", "SERBIA", "TURKEY", "ISRAEL",
    "INDIA", "UNITED KINGDOM", "IRELAND", "SOUTH AFRICA", "UAE", "UNKNOWN"
  }

  const REGION_ALIASES: map<string, string> := map[
    "US" := "usa", "USA" := "usa", "EU" := "europe", "JP" := "japan", "AS" := "asia",
    "AU" := "australia", "BR" := "brazil", "KR" := "korea", "CN" := "china", "TW" := "taiwan",
    "FR" := "france", "DE" := "germany", "ES" := "spain", "IT" := "italy", "NL" := "netherlands",
    "SE" := "sweden", "RU" := "russia", "UK" := "united kingdom"
  ]

  const EAST_ASIA: set<string> := {"japan", "asia", "korea", "china", "taiwan", "hong kong"}

  const NON_RETAIL_PREFIXES: set<string> := {
    "BETA", "PROTO", "DEMO", "SAMPLE", "PRERELEASE", "PIRATE", "BOOTLEG", "KIOSK", "DEBUG", "PROMO", "PREVIEW"
  }

  /** A tag that is a list of language codes and nothing else. */
  predicate IsLanguageTag(tag: string) {
    tag != [] && forall part :: part in Split(tag, ",+", []) ==> ToUpper(Trim(part)) in LANGUAGE_CODES
  }

  predicate IsNotLanguageTag(tag: string) {
    !IsLanguageTag(tag)
  }

  predicate IsRegion(region: string) {
    ToUpper(region) in REGION_NAMES || region in REGION_ALIASES
  }

  predicate IsRegionTag(tag: string) {
    tag != [] && forall part :: part in Split(tag, ",", []) ==> IsRegion(Trim(part))
  }

  function CanonicalRegion(region: string): string {
    if region in REGION_ALIASES then REGION_ALIASES[region] else ToLower(region)
  }

  predicate NoTag(tag: string) {
    false
  }

  // ----- What is read off a name

  function StripLanguageTags(name: string): string {
    Rewritten(name, IsNotLanguageTag, false)
  }

  function BareTitle(name: string): string {
    Rewritten(name, NoTag, true)
  }

  predicate IsKeyChar(c: char) {
    IsAsciiLetterOrDigit(c) || c == '_' || c == '+' || c == ',' || c == '&'
  }

  function Letters(s: string): string {
    if s == [] then [] else (if IsKeyChar(s[0]) then [LowerChar(s[0])] else []) + Letters(s[1..])
  }

  function TitleKeyOf(name: string): string {
    Letters(BareTitle(name))
  }

  /** The codes of a language tag, in one case. */
  function CodesOf(tag: string): set<string> {
    set part | part in Split(tag, ",+", []) :: ToUpper(Trim(part))
  }

  function LanguagesIn(tags: seq<string>): set<string> {
    if tags == [] then {}
    else (if IsLanguageTag(tags[0]) then CodesOf(tags[0]) else {}) + LanguagesIn(tags[1..])
  }

  function LanguagesOf(name: string): set<string> {
    LanguagesIn(TagsOf(name))
  }

  function RegionsOfTag(tag: string): set<string> {
    set part | part in Split(tag, ",", []) :: CanonicalRegion(Trim(part))
  }

  /** The regions of the first tag that names regions. */
  function RegionsIn(tags: seq<string>): set<string> {
    if tags == [] then {}
    else if IsRegionTag(tags[0]) then RegionsOfTag(tags[0])
    else RegionsIn(tags[1..])
  }

  function RegionsOf(name: string): set<string> {
    RegionsIn(TagsOf(name))
  }

  predicate SharesRegionFamily(left: set<string>, right: set<string>) {
    && left != {} && right != {}
    && ("world" in left || "world" in right || (left !! EAST_ASIA <==> right !! EAST_ASIA))
  }

  predicate IsNonRetailWord(word: string) {
    ToUpper(word) == "HACK" || exists marker :: marker in NON_RETAIL_PREFIXES && StartsWith(ToUpper(word), marker)
  }

  /** No dump flag in square brackets, and no word in a tag that marks something other than a retail box. */
  predicate IsRetailRelease(fileName: string) {
    && '[' !in fileName
    && forall tag, word :: tag in TagsOf(fileName) && word in Split(tag, " -/", []) ==> !IsNonRetailWord(word)
  }

  // ----- The loops

  method TrimTrailingSpace(builder: string) returns (r: string)
    ensures r == WithoutTrailingSpaces(builder)
  {
    r := builder;
    while r != [] && r[|r| - 1] == ' '
      invariant WithoutTrailingSpaces(r) == WithoutTrailingSpaces(builder)
      decreases |r|
    {
      r := r[..|r| - 1];
    }
  }

  /** The rewriting as one pass over the name with a growing result. */
  method Rewrite(name: string, keep: string -> bool, dropBrackets: bool) returns (r: string)
    ensures r == Rewritten(name, keep, dropBrackets)
  {
    hide Trim, WithoutTrailingSpaces, Find;
    var builder, i := "", 0;
    while i < |name|
      invariant i <= |name|
      invariant RewriteFrom(name[i..], builder, keep, dropBrackets) == RewriteFrom(name, [], keep, dropBrackets)
    {
      var c, rest := name[i], name[i..];
      if c == '(' {
        var close := Find(rest, ')');
        if close == |rest| {
          return Trim(builder + rest);
        }
        assert name[i + close + 1..] == rest[close + 1..];
        if keep(Trim(rest[1..close])) {
          builder := builder + rest[..close + 1];
        } else {
          builder := TrimTrailingSpace(builder);
        }
        i := i + close + 1;
      } else if dropBrackets && c == '[' {
        var close := Find(rest, ']');
        if close == |rest| {
          return Trim(builder);
        }
        assert name[i + close + 1..] == rest[close + 1..];
        builder := TrimTrailingSpace(builder);
        i := i + close + 1;
      } else {
        assert name[i + 1..] == rest[1..];
        builder := builder + [c];
        i := i + 1;
      }
    }
    return Trim(builder);
  }

  lemma InnerSkips(before: string, rest: string)
    ensures Inner(before + "(" + rest) == Inner(rest)
    decreases |before|
  {
    hide Trim;
    var group := before + "(" + rest;
    var open := Find(group, '(');
    assert group[|before|] == '(';
    if open < |before| {
      assert group[open + 1..] == before[open + 1..] + "(" + rest;
      InnerSkips(before[open + 1..], rest);
    } else {
      assert group[open + 1..] == rest;
    }
  }

  lemma {:induction false} FindIs(s: string, c: char, i: nat)
    requires i < |s| && s[i] == c && c !in s[..i]
    ensures Find(s, c) == i
  {
    if i > 0 {
      assert s[0] == s[..i][0] && s[1..][..i - 1] == s[..i][1..];
      FindIs(s[1..], c, i - 1);
    }
  }

  lemma FindMisses(s: string, c: char)
    requires c !in s
    ensures Find(s, c) == |s|
  {
  }

  /** The first group of a text ends at the first parenthesis that can close it. */
  lemma FirstGroup(s: string, close: nat)
    requires 0 < close < |s| && s[0] == '(' && s[close] == ')' && ')' !in s[..close]
    ensures TagsOf(s) == [Inner(s[1..close])] + TagsOf(s[close + 1..])
  {
    hide Inner, Find;
    FindIs(s, ')', close);
    assert Groups(s) == [s[1..close]] + Groups(s[close + 1..]);
  }

  /** A group is read from its last opening parenthesis on. */
  lemma InnerIsLast(group: string, k: nat)
    requires k <= |group| && '(' !in group[k..] && (k > 0 ==> group[k - 1] == '(')
    ensures Inner(group) == Trim(group[k..])
  {
    FindMisses(group[k..], '(');
    if k > 0 {
      assert group == group[..k - 1] + "(" + group[k..];
      InnerSkips(group[..k - 1], group[k..]);
    } else {
      assert group[k..] == group;
    }
  }

  /** The step of the scan that ends a group. */
  lemma GroupCloses(name: string, open: nat, start: nat, i: nat)
    requires open < start <= i < |name| && name[open] == '(' && name[i] == ')'
    requires ')' !in name[open..i] && '(' !in name[start..i]
    requires start > open + 1 ==> name[start - 1] == '('
    ensures TagsOf(name[open..]) == [Trim(name[start..i])] + TagsOf(name[i + 1..])
  {
    hide TagsOf, Inner, Trim;
    var rest, close, k := name[open..], i - open, start - open - 1;
    assert rest[..close] == name[open..i] && rest[close + 1..] == name[i + 1..];
    FirstGroup(rest, close);
    var group := rest[1..close];
    assert group[k..] == name[start..i];
    InnerIsLast(group, k);
  }

  /** The tags in one pass; an opening parenthesis inside a group starts the tag anew. */
  method Tags(name: string) returns (tags: seq<string>)
    ensures tags == TagsOf(name)
  {
    hide TagsOf, Trim;
    tags := [];
    var start := -1;
    ghost var open := 0;
    assert name[0..] == name;
    for i := 0 to |name|
      invariant -1 <= start <= i && 0 <= open <= i
      invariant start < 0 ==> open == i
      invariant start >= 0 ==> open < start && name[open] == '(' && ')' !in name[open..i]
      invariant start >= 0 ==> '(' !in name[start..i] && (start > open + 1 ==> name[start - 1] == '(')
      invariant TagsOf(name) == tags + TagsOf(name[open..])
    {
      if start >= 0 {
        assert name[start..i + 1] == name[start..i] + [name[i]];
        assert name[open..i + 1] == name[open..i] + [name[i]];
      }
      if name[i] == '(' {
        start := i + 1;
      } else if name[i] == ')' && start >= 0 {
        GroupCloses(name, open, start, i);
        tags := tags + [Trim(name[start..i])];
        start := -1;
        open := i + 1;
      } else if start < 0 {
        NoGroupStarts(name, i);
        open := i + 1;
      }
    }
    NoGroupCloses(name[open..]);
  }

  lemma NoGroupStarts(name: string, i: nat)
    requires i < |name| && name[i] != '('
    ensures TagsOf(name[i..]) == TagsOf(name[i + 1..])
  {
    assert name[i..][1..] == name[i + 1..];
  }

  lemma NoGroupCloses(s: string)
    requires s == [] || (s[0] == '(' && ')' !in s)
    ensures TagsOf(s) == []
  {
    FindMisses(s, ')');
  }

  method TitleKey(name: string) returns (key: string)
    ensures key == TitleKeyOf(name)
  {
    hide BareTitle, IsKeyChar, LowerChar;
    var title := BareTitle(name);
    key := "";
    for i := 0 to |title|
      invariant Letters(title) == key + Letters(title[i..])
    {
      assert title[i..][1..] == title[i + 1..];
      if IsKeyChar(title[i]) {
        key := key + [LowerChar(title[i])];
      }
    }
  }

  method Languages(name: string) returns (result: set<string>)
    ensures result == LanguagesOf(name)
  {
    result := {};
    var tags := Tags(name);
    for i := 0 to |tags|
      invariant LanguagesIn(tags) == result + LanguagesIn(tags[i..])
    {
      assert tags[i..][1..] == tags[i + 1..];
      if IsLanguageTag(tags[i]) {
        result := AddCodes(result, tags[i]);
      }
    }
  }

  method AddCodes(languages: set<string>, tag: string) returns (result: set<string>)
    ensures result == languages + CodesOf(tag)
  {
    result := languages;
    var parts := Split(tag, ",+", []);
    for k := 0 to |parts|
      invariant result == languages + set part | part in parts[..k] :: ToUpper(Trim(part))
    {
      assert parts[..k + 1] == parts[..k] + [parts[k]];
      result := result + {ToUpper(Trim(parts[k]))};
    }
    assert parts[..|parts|] == parts;
  }

  method Regions(name: string) returns (result: set<string>)
    ensures result == RegionsOf(name)
  {
    hide IsRegionTag, RegionsOfTag, CanonicalRegion;
    result := {};
    var tags := Tags(name);
    for i := 0 to |tags|
      invariant result == {} && RegionsIn(tags) == RegionsIn(tags[i..])
    {
      assert tags[i..][1..] == tags[i + 1..];
      if IsRegionTag(tags[i]) {
        result := AddRegions(tags[i]);
        return;
      }
    }
  }

  method AddRegions(tag: string) returns (result: set<string>)
    ensures result == RegionsOfTag(tag)
  {
    hide CanonicalRegion;
    result := {};
    var parts := Split(tag, ",", []);
    for k := 0 to |parts|
      invariant result == set part | part in parts[..k] :: CanonicalRegion(Trim(part))
    {
      assert parts[..k + 1] == parts[..k] + [parts[k]];
      result := result + {CanonicalRegion(Trim(parts[k]))};
    }
    assert parts[..|parts|] == parts;
  }

  // ----- Rewriting twice

  lemma Regroup<T>(a: seq<T>, b: seq<T>, c: seq<T>)
    ensures a + b + c == a + (b + c)
    ensures a + [] == a && [] + c == c
  {
  }

  /** Whether every opening parenthesis has a closing one after it. */
  predicate Closed(s: string) {
    forall i :: 0 <= i < |s| && s[i] == '(' ==> ')' in s[i..]
  }

  /** Whether rewriting would find nothing to remove. */
  predicate Clean(s: string, keep: string -> bool, dropBrackets: bool) {
    if s == [] then true
    else if s[0] == '(' then
      var close := Find(s, ')');
      close == |s| || (keep(Trim(s[1..close])) && Clean(s[close + 1..], keep, dropBrackets))
    else !(dropBrackets && s[0] == '[') && Clean(s[1..], keep, dropBrackets)
  }

  lemma ClosedSuffix(s: string, k: nat)
    requires Closed(s) && k <= |s|
    ensures Closed(s[k..])
  {
    forall i | 0 <= i < |s[k..]| && s[k..][i] == '(' ensures ')' in s[k..][i..] {
      assert s[k..][i..] == s[k + i..];
    }
  }

  lemma ClosedConcat(a: string, b: string)
    requires Closed(a) && Closed(b)
    ensures Closed(a + b)
  {
    forall i | 0 <= i < |a + b| && (a + b)[i] == '(' ensures ')' in (a + b)[i..] {
      if i < |a| {
        assert (a + b)[i..] == a[i..] + b;
      } else {
        assert (a + b)[i..] == b[i - |a|..];
      }
    }
  }

  /** Without its last character, when that is not a closing parenthesis. */
  lemma ClosedWithoutLast(s: string)
    requires Closed(s) && s != [] && s[|s| - 1] != ')'
    ensures Closed(s[..|s| - 1])
  {
    var t := s[..|s| - 1];
    forall i | 0 <= i < |t| && t[i] == '(' ensures ')' in t[i..] {
      assert s[i..] == t[i..] + [s[|s| - 1]];
    }
  }

  lemma {:induction false} FindConcat(a: string, b: string, c: char)
    ensures Find(a + b, c) == if Find(a, c) < |a| then Find(a, c) else |a| + Find(b, c)
  {
    if a == [] {
      assert a + b == b;
    } else {
      assert (a + b)[1..] == a[1..] + b;
      FindConcat(a[1..], b, c);
    }
  }

  lemma ClosedFinds(s: string)
    requires Closed(s) && s != [] && s[0] == '('
    ensures Find(s, ')') < |s|
  {
    assert s[0..] == s && s[..|s|] == s;
  }

  lemma {:induction false} CleanStays(s: string, built: string, keep: string -> bool, dropBrackets: bool)
    requires Clean(s, keep, dropBrackets)
    ensures RewriteFrom(s, built, keep, dropBrackets) == built + s
    decreases |s|
  {
    hide Trim;
    if s == [] {
      assert built + s == built;
    } else if s[0] == '(' {
      var close := Find(s, ')');
      if close < |s| {
        CleanStays(s[close + 1..], built + s[..close + 1], keep, dropBrackets);
        assert built + s[..close + 1] + s[close + 1..] == built + s;
      }
    } else {
      CleanStays(s[1..], built + [s[0]], keep, dropBrackets);
      assert built + [s[0]] + s[1..] == built + s;
    }
  }

  lemma CleanStep(s: string, keep: string -> bool, dropBrackets: bool)
    requires s != []
    ensures var close := Find(s, ')');
            Clean(s, keep, dropBrackets) <==>
            if s[0] != '(' then !(dropBrackets && s[0] == '[') && Clean(s[1..], keep, dropBrackets)
            else close == |s| || (keep(Trim(s[1..close])) && Clean(s[close + 1..], keep, dropBrackets))
  {
    hide Trim, Find;
  }

  lemma {:induction false} CleanConcat(a: string, b: string, keep: string -> bool, dropBrackets: bool)
    requires Closed(a) && Clean(a, keep, dropBrackets) && Clean(b, keep, dropBrackets)
    ensures Clean(a + b, keep, dropBrackets)
    decreases |a|
  {
    hide Trim, Find, Clean, Closed;
    if a == [] {
      assert a + b == b;
    } else {
      var next := if a[0] == '(' then Find(a, ')') + 1 else 1;
      CleanStep(a, keep, dropBrackets);
      CleanStep(a + b, keep, dropBrackets);
      if a[0] == '(' {
        ClosedFinds(a);
        FindConcat(a, b, ')');
        assert (a + b)[1..next - 1] == a[1..next - 1];
      }
      assert (a + b)[next..] == a[next..] + b;
      ClosedSuffix(a, next);
      CleanConcat(a[next..], b, keep, dropBrackets);
    }
  }

  /** Dropping a last character that closes nothing moves no closing parenthesis. */
  lemma FindWithoutLast(s: string)
    requires s != [] && s[|s| - 1] != ')'
    ensures Find(s[..|s| - 1], ')') == if Find(s, ')') < |s| then Find(s, ')') else |s| - 1
    ensures Find(s, ')') != |s| - 1
  {
    hide Find;
    var t, last := s[..|s| - 1], [s[|s| - 1]];
    assert s == t + last;
    FindConcat(t, last, ')');
  }

  lemma SliceWithoutLast(s: string, i: nat, j: nat)
    requires s != [] && i <= j <= |s| - 1
    ensures s[..|s| - 1][i..j] == s[i..j] && s[..|s| - 1][i..] == s[i..][..|s[i..]| - 1]
  {
  }

  lemma NothingIsClean(keep: string -> bool, dropBrackets: bool)
    ensures Clean([], keep, dropBrackets)
  {
  }

  lemma {:induction false} CleanWithoutLast(s: string, keep: string -> bool, dropBrackets: bool)
    requires Clean(s, keep, dropBrackets) && s != [] && s[|s| - 1] != ')'
    ensures Clean(s[..|s| - 1], keep, dropBrackets)
    decreases |s|
  {
    hide Trim, Find, Clean;
    var t := s[..|s| - 1];
    if t == [] {
      NothingIsClean(keep, dropBrackets);
    } else {
      FindWithoutLast(s);
      CleanStep(s, keep, dropBrackets);
      CleanStep(t, keep, dropBrackets);
      var next := if s[0] == '(' then Find(s, ')') + 1 else 1;
      if next <= |t| {
        SliceWithoutLast(s, 1, if next > 1 then next - 1 else 1);
        SliceWithoutLast(s, next, next);
        CleanWithoutLast(s[next..], keep, dropBrackets);
      }
    }
  }

  lemma {:induction false} CleanWithoutSpaces(s: string, keep: string -> bool, dropBrackets: bool)
    requires Closed(s) && Clean(s, keep, dropBrackets)
    ensures Closed(WithoutTrailingSpaces(s)) && Clean(WithoutTrailingSpaces(s), keep, dropBrackets)
    decreases |s|
  {
    if s != [] && s[|s| - 1] == ' ' {
      ClosedWithoutLast(s);
      CleanWithoutLast(s, keep, dropBrackets);
      CleanWithoutSpaces(s[..|s| - 1], keep, dropBrackets);
    }
  }

  /** A closed group by itself. */
  lemma OneGroup(s: string)
    requires s != [] && s[0] == '(' && Find(s, ')') < |s|
    ensures var group := s[..Find(s, ')') + 1];
            Closed(group) && Find(group, ')') == |group| - 1 && Groups(group) == [s[1..Find(s, ')')]]
  {
    var close := Find(s, ')');
    var group := s[..close + 1];
    assert group[..close] == s[..close];
    FindIs(group, ')', close);
    forall i | 0 <= i < |group| ensures ')' in group[i..] {
      assert group[i..][close - i] == ')';
    }
    assert group[1..close] == s[1..close] && group[close + 1..] == [];
  }

  lemma AddCleanGroup(built: string, s: string, keep: string -> bool, dropBrackets: bool)
    requires Closed(built) && Clean(built, keep, dropBrackets)
    requires s != [] && s[0] == '(' && Find(s, ')') < |s| && keep(Trim(s[1..Find(s, ')')]))
    ensures var next := built + s[..Find(s, ')') + 1]; Closed(next) && Clean(next, keep, dropBrackets)
  {
    hide Closed, Trim, Find;
    var close := Find(s, ')');
    var group := s[..close + 1];
    OneGroup(s);
    assert group[1..close] == s[1..close] && group[close + 1..] == [];
    CleanConcat(built, group, keep, dropBrackets);
    ClosedConcat(built, group);
  }

  lemma AddCleanChar(built: string, c: char, keep: string -> bool, dropBrackets: bool)
    requires Closed(built) && Clean(built, keep, dropBrackets) && c != '(' && !(dropBrackets && c == '[')
    ensures Closed(built + [c]) && Clean(built + [c], keep, dropBrackets)
  {
    hide Trim, Find;
    CleanConcat(built, [c], keep, dropBrackets);
    ClosedConcat(built, [c]);
  }

  lemma {:induction false} RewriteIsClean(s: string, built: string, keep: string -> bool, dropBrackets: bool)
    requires Closed(built) && Clean(built, keep, dropBrackets)
    ensures Clean(RewriteFrom(s, built, keep, dropBrackets), keep, dropBrackets)
    decreases |s|
  {
    hide Clean, Closed, Trim, Find, WithoutTrailingSpaces;
    if s == [] {
    } else if s[0] == '(' {
      var close := Find(s, ')');
      if close == |s| {
        UnclosedIsClean(s, keep, dropBrackets);
        CleanConcat(built, s, keep, dropBrackets);
      } else if keep(Trim(s[1..close])) {
        AddCleanGroup(built, s, keep, dropBrackets);
        RewriteIsClean(s[close + 1..], built + s[..close + 1], keep, dropBrackets);
      } else {
        CleanWithoutSpaces(built, keep, dropBrackets);
        RewriteIsClean(s[close + 1..], WithoutTrailingSpaces(built), keep, dropBrackets);
      }
    } else if dropBrackets && s[0] == '[' {
      var close := Find(s, ']');
      if close < |s| {
        CleanWithoutSpaces(built, keep, dropBrackets);
        RewriteIsClean(s[close + 1..], WithoutTrailingSpaces(built), keep, dropBrackets);
      }
    } else {
      AddCleanChar(built, s[0], keep, dropBrackets);
      RewriteIsClean(s[1..], built + [s[0]], keep, dropBrackets);
    }
  }

  lemma UnclosedIsClean(s: string, keep: string -> bool, dropBrackets: bool)
    requires s != [] && s[0] == '(' && Find(s, ')') == |s|
    ensures Clean(s, keep, dropBrackets)
  {
  }

  lemma {:induction false} CleanTrimEnd(s: string, keep: string -> bool, dropBrackets: bool)
    requires Clean(s, keep, dropBrackets)
    ensures Clean(TrimEnd(s), keep, dropBrackets)
    decreases |s|
  {
    if s != [] && IsWhiteSpace(s[|s| - 1]) {
      CleanWithoutLast(s, keep, dropBrackets);
      CleanTrimEnd(s[..|s| - 1], keep, dropBrackets);
    }
  }

  lemma {:induction false} CleanTrimStart(s: string, keep: string -> bool, dropBrackets: bool)
    requires Clean(s, keep, dropBrackets)
    ensures Clean(TrimStart(s), keep, dropBrackets)
    decreases |s|
  {
    if s != [] && IsWhiteSpace(s[0]) {
      CleanTrimStart(s[1..], keep, dropBrackets);
    }
  }

  lemma TrimTwice(s: string)
    ensures Trim(Trim(s)) == Trim(s)
  {
  }

  /** Rewriting a rewritten name changes nothing, whatever is kept and whether or not brackets go. */
  lemma RewriteIsIdempotent(name: string, keep: string -> bool, dropBrackets: bool)
    ensures var once := Rewritten(name, keep, dropBrackets); Rewritten(once, keep, dropBrackets) == once
  {
    var built, once := RewriteFrom(name, [], keep, dropBrackets), Rewritten(name, keep, dropBrackets);
    RewriteIsClean(name, [], keep, dropBrackets);
    CleanTrimStart(built, keep, dropBrackets);
    CleanTrimEnd(TrimStart(built), keep, dropBrackets);
    CleanStays(once, [], keep, dropBrackets);
    assert [] + once == once;
    TrimTwice(built);
  }

  // ----- What rewriting keeps of the groups

  /** The groups whose whole contents `keep` accepts, in order. */
  function Kept(groups: seq<string>, keep: string -> bool): seq<string> {
    if groups == [] then []
    else (if keep(Trim(groups[0])) then [groups[0]] else []) + Kept(groups[1..], keep)
  }

  lemma GroupsStep(s: string)
    requires s != []
    ensures var close := Find(s, ')');
            Groups(s) ==
            if s[0] != '(' then Groups(s[1..])
            else if close == |s| then []
            else [s[1..close]] + Groups(s[close + 1..])
  {
    hide Find;
  }

  lemma ConcatSplits(a: string, b: string)
    requires a != []
    ensures a + b != [] && (a + b)[0] == a[0] && (a + b)[1..] == a[1..] + b
  {
  }

  lemma ConcatFinds(a: string, b: string)
    requires Closed(a) && a != [] && a[0] == '('
    ensures var close := Find(a, ')');
            && close < |a| && Find(a + b, ')') == close
            && (a + b)[1..close] == a[1..close] && (a + b)[close + 1..] == a[close + 1..] + b
  {
    hide Find;
    ClosedFinds(a);
    FindConcat(a, b, ')');
  }

  lemma {:induction false} GroupsConcat(a: string, b: string)
    requires Closed(a)
    ensures Groups(a + b) == Groups(a) + Groups(b)
    decreases |a|
  {
    if a == [] {
      assert a + b == b;
    } else {
      hide Groups, Find, Closed;
      ConcatSplits(a, b);
      GroupsStep(a);
      GroupsStep(a + b);
      var next := if a[0] == '(' then Find(a, ')') + 1 else 1;
      if a[0] == '(' {
        ConcatFinds(a, b);
      }
      ClosedSuffix(a, next);
      GroupsConcat(a[next..], b);
      Regroup(if a[0] == '(' then [a[1..next - 1]] else [], Groups(a[next..]), Groups(b));
    }
  }

  lemma {:induction false} GroupsWithoutLast(s: string)
    requires s != [] && s[|s| - 1] != ')'
    ensures Groups(s[..|s| - 1]) == Groups(s)
    decreases |s|
  {
    if |s| == 1 {
      assert s[1..] == [];
      FindWithoutLast(s);
    } else {
      hide Groups, Find;
      var t := s[..|s| - 1];
      FindWithoutLast(s);
      GroupsStep(s);
      GroupsStep(t);
      var next := if s[0] == '(' then Find(s, ')') + 1 else 1;
      if next <= |t| {
        SliceWithoutLast(s, 1, if next > 1 then next - 1 else 1);
        SliceWithoutLast(s, next, next);
        GroupsWithoutLast(s[next..]);
      }
    }
  }

  lemma {:induction false} GroupsWithoutSpaces(s: string)
    requires Closed(s)
    ensures Closed(WithoutTrailingSpaces(s)) && Groups(WithoutTrailingSpaces(s)) == Groups(s)
    decreases |s|
  {
    if s != [] && s[|s| - 1] == ' ' {
      ClosedWithoutLast(s);
      GroupsWithoutLast(s);
      GroupsWithoutSpaces(s[..|s| - 1]);
    }
  }

  lemma {:induction false} GroupsTrimStart(s: string)
    ensures Groups(TrimStart(s)) == Groups(s)
    decreases |s|
  {
    if s != [] && IsWhiteSpace(s[0]) {
      GroupsTrimStart(s[1..]);
    }
  }

  lemma {:induction false} GroupsTrimEnd(s: string)
    ensures Groups(TrimEnd(s)) == Groups(s)
    decreases |s|
  {
    if s != [] && IsWhiteSpace(s[|s| - 1]) {
      GroupsWithoutLast(s);
      GroupsTrimEnd(s[..|s| - 1]);
    }
  }

  /** One step of rewriting without dropping brackets. */
  lemma RewriteStep(s: string, built: string, keep: string -> bool)
    requires s != []
    ensures var close := Find(s, ')');
            RewriteFrom(s, built, keep, false) ==
            if s[0] != '(' then RewriteFrom(s[1..], built + [s[0]], keep, false)
            else if close == |s| then built + s
            else RewriteFrom(s[close + 1..],
                             if keep(Trim(s[1..close])) then built + s[..close + 1] else WithoutTrailingSpaces(built),
                             keep, false)
  {
    hide Trim, Find, WithoutTrailingSpaces;
  }

  lemma KeptStep(group: string, groups: seq<string>, keep: string -> bool)
    ensures Kept([group] + groups, keep) == (if keep(Trim(group)) then [group] else []) + Kept(groups, keep)
  {
    assert ([group] + groups)[1..] == groups;
  }

  lemma NoGroups(c: char)
    requires c != '('
    ensures Groups([c]) == [] && Closed([c])
  {
    assert [c][1..] == [];
  }

  lemma {:induction false} GroupsOfRewriting(s: string, built: string, keep: string -> bool)
    requires Closed(built)
    ensures Groups(RewriteFrom(s, built, keep, false)) == Groups(built) + Kept(Groups(s), keep)
    decreases |s|
  {
    if s != [] {
      hide Closed, WithoutTrailingSpaces, Trim, Groups, RewriteFrom, Kept, Find;
      RewriteStep(s, built, keep);
      GroupsStep(s);
      if s[0] == '(' {
        var close := Find(s, ')');
        if close == |s| {
          UnclosedHasNoGroups(s, keep);
          GroupsConcat(built, s);
        } else {
          var inside, rest := s[1..close], s[close + 1..];
          var kept := Kept(Groups(rest), keep);
          KeptStep(inside, Groups(rest), keep);
          Regroup(Groups(built), [inside], kept);
          if keep(Trim(inside)) {
            AddGroup(built, s);
            GroupsOfRewriting(rest, built + s[..close + 1], keep);
          } else {
            GroupsWithoutSpaces(built);
            GroupsOfRewriting(rest, WithoutTrailingSpaces(built), keep);
          }
        }
      } else {
        AddChar(built, s[0]);
        GroupsOfRewriting(s[1..], built + [s[0]], keep);
      }
    }
  }

  lemma AddGroup(built: string, s: string)
    requires Closed(built) && s != [] && s[0] == '(' && Find(s, ')') < |s|
    ensures var group := s[..Find(s, ')') + 1];
            Closed(built + group) && Groups(built + group) == Groups(built) + [s[1..Find(s, ')')]]
  {
    hide Closed, Groups, Find;
    var group := s[..Find(s, ')') + 1];
    OneGroup(s);
    GroupsConcat(built, group);
    ClosedConcat(built, group);
  }

  lemma AddChar(built: string, c: char)
    requires Closed(built) && c != '('
    ensures Closed(built + [c]) && Groups(built + [c]) == Groups(built)
  {
    hide Closed, Groups;
    NoGroups(c);
    GroupsConcat(built, [c]);
    ClosedConcat(built, [c]);
  }

  lemma UnclosedHasNoGroups(s: string, keep: string -> bool)
    requires s != [] && s[0] == '(' && Find(s, ')') == |s|
    ensures Groups(s) == [] && Kept(Groups(s), keep) == []
  {
  }

  /** The groups of a rewritten name are those that were kept, in order and unchanged. */
  lemma RewriteKeepsGroups(name: string, keep: string -> bool)
    ensures Groups(Rewritten(name, keep, false)) == Kept(Groups(name), keep)
  {
    var built := RewriteFrom(name, [], keep, false);
    GroupsOfRewriting(name, [], keep);
    GroupsTrimStart(built);
    GroupsTrimEnd(TrimStart(built));
  }

  // ----- Language tags

  predicate IsGrouping(c: char) {
    c == '(' || c == ')' || c == '[' || c == ']'
  }

  predicate IsPlain(s: string) {
    forall c :: c in s ==> !IsGrouping(c)
  }

  lemma CodesArePlain(code: string)
    requires code in LANGUAGE_CODES
    ensures IsPlain(code)
  {
    hide IsPlain;
    if code in LANGUAGE_CODES_A {
      CodesOfAArePlain(code);
    } else if code in LANGUAGE_CODES_B {
      CodesOfBArePlain(code);
    } else if code in LANGUAGE_CODES_C {
      CodesOfCArePlain(code);
    } else {
      RegionalCodesArePlain(code);
    }
  }

  lemma CodesOfAArePlain(code: string)
    requires code in LANGUAGE_CODES_A
    ensures IsPlain(code)
  {
  }

  lemma CodesOfBArePlain(code: string)
    requires code in LANGUAGE_CODES_B
    ensures IsPlain(code)
  {
  }

  lemma CodesOfCArePlain(code: string)
    requires code in LANGUAGE_CODES_C
    ensures IsPlain(code)
  {
  }

  lemma RegionalCodesArePlain(code: string)
    requires code in REGIONAL_LANGUAGE_CODES
    ensures IsPlain(code)
  {
  }

  lemma {:induction false} PartHolds(s: string, separators: string, field: string, c: char)
    requires c in field || (c in s && c !in separators)
    ensures exists part :: part in Split(s, separators, field) && c in part
    decreases |s|
  {
    if s == [] {
      assert field in [field];
    } else if s[0] in separators {
      if c in field {
        assert field in Split(s, separators, field);
      } else {
        PartHolds(s[1..], separators, [], c);
      }
    } else {
      PartHolds(s[1..], separators, field + [s[0]], c);
    }
  }

  lemma {:induction false} TrimKeeps(s: string, c: char)
    requires c in s && !IsWhiteSpace(c)
    ensures c in Trim(s)
  {
    TrimStartKeeps(s, c);
    TrimEndKeeps(TrimStart(s), c);
  }

  lemma {:induction false} TrimStartKeeps(s: string, c: char)
    requires c in s && !IsWhiteSpace(c)
    ensures c in TrimStart(s)
  {
    if IsWhiteSpace(s[0]) {
      TrimStartKeeps(s[1..], c);
    }
  }

  lemma {:induction false} TrimEndKeeps(s: string, c: char)
    requires c in s && !IsWhiteSpace(c)
    ensures c in TrimEnd(s)
    decreases |s|
  {
    if IsWhiteSpace(s[|s| - 1]) {
      assert s == s[..|s| - 1] + [s[|s| - 1]];
      TrimEndKeeps(s[..|s| - 1], c);
    }
  }

  /** A group that reads as a language tag holds no parenthesis or bracket. */
  lemma LanguageGroupIsPlain(group: string)
    requires IsLanguageTag(Trim(group))
    ensures IsPlain(group)
  {
    forall c | c in group ensures !IsGrouping(c) {
      if IsGrouping(c) {
        TrimKeeps(group, c);
        PartHolds(Trim(group), ",+", [], c);
        var part :| part in Split(Trim(group), ",+", []) && c in part;
        TrimKeeps(part, c);
        var k :| 0 <= k < |Trim(part)| && Trim(part)[k] == c;
        assert ToUpper(Trim(part))[k] == c;
        CodesArePlain(ToUpper(Trim(part)));
      }
    }
  }

  lemma PlainGroup(group: string)
    requires '(' !in group
    ensures Inner(group) == Trim(group)
  {
    FindMisses(group, '(');
  }

  /** Whether everything `keep` rejects is free of parentheses and brackets. */
  ghost predicate RejectsOnlyPlain(keep: string -> bool) {
    forall group :: !keep(Trim(group)) ==> IsPlain(group)
  }

  /** Whether some group is rejected only from its last opening parenthesis on. */
  predicate HidesRejected(groups: seq<string>, keep: string -> bool) {
    exists group :: group in groups && '(' in group && !keep(Inner(group))
  }

  function Accepted(tags: seq<string>, keep: string -> bool): seq<string> {
    if tags == [] then [] else (if keep(tags[0]) then [tags[0]] else []) + Accepted(tags[1..], keep)
  }

  lemma InnersStep(group: string, groups: seq<string>)
    ensures Inners([group] + groups) == [Inner(group)] + Inners(groups)
  {
  }

  lemma AcceptedStep(tag: string, tags: seq<string>, keep: string -> bool)
    ensures Accepted([tag] + tags, keep) == (if keep(tag) then [tag] else []) + Accepted(tags, keep)
  {
    assert ([tag] + tags)[1..] == tags;
  }

  lemma HidesStep(group: string, groups: seq<string>, keep: string -> bool)
    ensures HidesRejected([group] + groups, keep) <==>
            ('(' in group && !keep(Inner(group))) || HidesRejected(groups, keep)
  {
    assert group in [group] + groups && forall g :: g in groups ==> g in [group] + groups;
  }

  lemma PlainReads(group: string, keep: string -> bool)
    requires RejectsOnlyPlain(keep)
    ensures '(' !in group || keep(Trim(group))
    ensures '(' !in group ==> Inner(group) == Trim(group)
  {
    if '(' !in group {
      PlainGroup(group);
    }
  }

  /** The tags of the groups that are kept, compared with the tags that are accepted. */
  lemma {:induction false} KeptInners(groups: seq<string>, keep: string -> bool)
    requires RejectsOnlyPlain(keep)
    ensures var kept, accepted := Inners(Kept(groups, keep)), Accepted(Inners(groups), keep);
            |accepted| <= |kept| && (kept == accepted <==> !HidesRejected(groups, keep)) &&
            (kept != accepted ==> |accepted| < |kept|)
  {
    if groups != [] {
      var first, rest := groups[0], groups[1..];
      hide RejectsOnlyPlain, HidesRejected, Kept, Accepted, Inners, Inner, Trim;
      KeptInners(rest, keep);
      assert groups == [first] + rest;
      KeptStep(first, rest, keep);
      InnersStep(first, rest);
      InnersStep(first, Kept(rest, keep));
      AcceptedStep(Inner(first), Inners(rest), keep);
      HidesStep(first, rest, keep);
      PlainReads(first, keep);
      Regroup([], [], Kept(rest, keep));
      Regroup([], [], Accepted(Inners(rest), keep));
    } else {
      NothingKept(keep);
    }
  }

  lemma NothingKept(keep: string -> bool)
    ensures Kept([], keep) == [] && Inners([]) == [] && Accepted([], keep) == [] && !HidesRejected([], keep)
  {
  }

  lemma LanguageTagsArePlain()
    ensures RejectsOnlyPlain(IsNotLanguageTag)
  {
    forall group | !IsNotLanguageTag(Trim(group)) ensures IsPlain(group) {
      LanguageGroupIsPlain(group);
    }
  }

  /**
   The tags of a stripped name are the tags of the name without the language tags, exactly
   when no language tag follows a second opening parenthesis of the same group.
   */
  lemma StrippingFiltersTags(name: string)
    ensures TagsOf(StripLanguageTags(name)) == Accepted(TagsOf(name), IsNotLanguageTag) <==>
            !HidesRejected(Groups(name), IsNotLanguageTag)
  {
    LanguageTagsArePlain();
    RewriteKeepsGroups(name, IsNotLanguageTag);
    KeptInners(Groups(name), IsNotLanguageTag);
  }

  lemma {:induction false} NoLanguages(tags: seq<string>)
    ensures LanguagesIn(tags) == {} <==> forall tag :: tag in tags ==> !IsLanguageTag(tag)
  {
    if tags != [] {
      NoLanguages(tags[1..]);
      assert tags == [tags[0]] + tags[1..];
      var part := Split(tags[0], ",+", [])[0];
      assert ToUpper(Trim(part)) in CodesOf(tags[0]);
    }
  }

  lemma {:induction false} KeptIs(groups: seq<string>, keep: string -> bool, group: string)
    ensures group in Kept(groups, keep) <==> group in groups && keep(Trim(group))
  {
    if groups != [] {
      KeptIs(groups[1..], keep, group);
    }
  }

  lemma KeptAreAccepted(groups: seq<string>, keep: string -> bool)
    requires RejectsOnlyPlain(keep)
    ensures (forall tag :: tag in Inners(Kept(groups, keep)) ==> keep(tag)) <==> !HidesRejected(groups, keep)
  {
    hide RejectsOnlyPlain, Kept, Inner, Trim;
    var kept := Kept(groups, keep);
    if HidesRejected(groups, keep) {
      var group :| group in groups && '(' in group && !keep(Inner(group));
      PlainReads(group, keep);
      KeptIs(groups, keep, group);
      var k :| 0 <= k < |kept| && kept[k] == group;
      assert Inners(kept)[k] == Inner(group) && Inners(kept)[k] in Inners(kept);
    } else {
      forall tag | tag in Inners(kept) ensures keep(tag) {
        var k :| 0 <= k < |kept| && Inner(kept[k]) == tag;
        KeptIs(groups, keep, kept[k]);
        PlainReads(kept[k], keep);
      }
    }
  }

  /** A stripped name declares no language, exactly when no group hides one. */
  lemma StrippedNameHasNoLanguage(name: string)
    ensures LanguagesOf(StripLanguageTags(name)) == {} <==> !HidesRejected(Groups(name), IsNotLanguageTag)
  {
    LanguageTagsArePlain();
    RewriteKeepsGroups(name, IsNotLanguageTag);
    KeptAreAccepted(Groups(name), IsNotLanguageTag);
    NoLanguages(TagsOf(StripLanguageTags(name)));
  }

  // ----- Title keys

  /** The characters of the title key, read straight off a name: groups and brackets are skipped. */
  function BareKey(s: string): string {
    if s == [] then []
    else if s[0] == '(' then
      var close := Find(s, ')');
      if close == |s| then Letters(s) else BareKey(s[close + 1..])
    else if s[0] == '[' then
      var close := Find(s, ']');
      if close == |s| then [] else BareKey(s[close + 1..])
    else Letters([s[0]]) + BareKey(s[1..])
  }

  lemma {:induction false} LettersConcat(a: string, b: string)
    ensures Letters(a + b) == Letters(a) + Letters(b)
  {
    hide IsKeyChar, LowerChar;
    if a == [] {
      assert a + b == b;
    } else {
      assert (a + b)[1..] == a[1..] + b;
      LettersConcat(a[1..], b);
      Regroup(if IsKeyChar(a[0]) then [LowerChar(a[0])] else [], Letters(a[1..]), Letters(b));
    }
  }

  lemma OneLetter(c: char)
    ensures Letters([c]) == if IsKeyChar(c) then [LowerChar(c)] else []
  {
    assert [c][1..] == [];
  }

  lemma WhiteSpaceIsDropped(c: char)
    requires IsWhiteSpace(c)
    ensures Letters([c]) == []
  {
    OneLetter(c);
  }

  lemma LettersWithoutLast(s: string)
    requires s != [] && IsWhiteSpace(s[|s| - 1])
    ensures Letters(s[..|s| - 1]) == Letters(s)
  {
    hide Letters, IsWhiteSpace;
    LettersConcat(s[..|s| - 1], [s[|s| - 1]]);
    WhiteSpaceIsDropped(s[|s| - 1]);
    assert s == s[..|s| - 1] + [s[|s| - 1]];
  }

  lemma {:induction false} LettersWithoutSpaces(s: string)
    ensures Letters(WithoutTrailingSpaces(s)) == Letters(s)
    decreases |s|
  {
    if s != [] && s[|s| - 1] == ' ' {
      LettersWithoutLast(s);
      LettersWithoutSpaces(s[..|s| - 1]);
    }
  }

  lemma {:induction false} LettersTrimStart(s: string)
    ensures Letters(TrimStart(s)) == Letters(s)
    decreases |s|
  {
    if s != [] && IsWhiteSpace(s[0]) {
      LettersTrimStart(s[1..]);
    }
  }

  lemma {:induction false} LettersTrimEnd(s: string)
    ensures Letters(TrimEnd(s)) == Letters(s)
    decreases |s|
  {
    if s != [] && IsWhiteSpace(s[|s| - 1]) {
      LettersWithoutLast(s);
      LettersTrimEnd(s[..|s| - 1]);
    }
  }

  lemma {:induction false} LettersOfRewriting(s: string, built: string)
    ensures Letters(RewriteFrom(s, built, NoTag, true)) == Letters(built) + BareKey(s)
    decreases |s|
  {
    hide WithoutTrailingSpaces, Trim, Letters;
    if s == [] {
    } else if s[0] == '(' || s[0] == '[' {
      var close := Find(s, if s[0] == '(' then ')' else ']');
      if close < |s| {
        LettersWithoutSpaces(built);
        LettersOfRewriting(s[close + 1..], WithoutTrailingSpaces(built));
      } else {
        LettersConcat(built, s);
      }
    } else {
      LettersConcat(built, [s[0]]);
      LettersOfRewriting(s[1..], built + [s[0]]);
      assert Letters(built) + Letters([s[0]]) + BareKey(s[1..]) == Letters(built) + (Letters([s[0]]) + BareKey(s[1..]));
    }
  }

  lemma TitleKeyIsBareKey(name: string)
    ensures TitleKeyOf(name) == BareKey(name)
  {
    var built := RewriteFrom(name, [], NoTag, true);
    LettersTrimStart(built);
    LettersTrimEnd(TrimStart(built));
    LettersOfRewriting(name, []);
  }

  lemma {:induction false} LettersAreKeyChars(s: string)
    ensures forall c :: c in Letters(s) ==> IsKeyChar(c) && LowerChar(c) == c
  {
    if s != [] {
      LettersAreKeyChars(s[1..]);
    }
  }

  lemma {:induction false} KeyStays(key: string)
    requires forall c :: c in key ==> IsKeyChar(c) && LowerChar(c) == c
    ensures BareKey(key) == key
  {
    if key != [] {
      assert key[0] in key && forall c :: c in key[1..] ==> c in key;
      OneLetter(key[0]);
      KeyStays(key[1..]);
    }
  }

  /** The key of a key is that key. */
  lemma TitleKeyIsIdempotent(name: string)
    ensures TitleKeyOf(TitleKeyOf(name)) == TitleKeyOf(name)
  {
    var key := TitleKeyOf(name);
    LettersAreKeyChars(BareTitle(name));
    TitleKeyIsBareKey(key);
    KeyStays(key);
  }

  function Closing(c: char): char {
    if c == '(' then ')' else ']'
  }

  lemma BareKeyStep(s: string)
    requires s != []
    ensures var grouped := s[0] == '(' || s[0] == '[';
            var found := Find(s, Closing(s[0]));
            BareKey(s) ==
            if !grouped then Letters([s[0]]) + BareKey(s[1..])
            else if found < |s| then BareKey(s[found + 1..])
            else if s[0] == '(' then Letters(s)
            else []
  {
    hide Letters, Find;
  }

  /** A scan that starts in a prefix either goes on in the prefix or leaves it by looking for its closing character. */
  lemma BareKeyOfConcat(before: string, text: string)
    requires before != []
    ensures var grouped := before[0] == '(' || before[0] == '[';
            var closing := Closing(before[0]);
            var found, next := Find(before, closing), Find(text, closing);
            BareKey(before + text) ==
            if !grouped then Letters([before[0]]) + BareKey(before[1..] + text)
            else if found < |before| then BareKey(before[found + 1..] + text)
            else if next < |text| then BareKey(text[next + 1..])
            else if before[0] == '(' then Letters(before) + Letters(text)
            else []
  {
    hide Letters, Find, BareKey;
    var closing, all := Closing(before[0]), before + text;
    var found, next := Find(before, closing), Find(text, closing);
    FindConcat(before, text, closing);
    BareKeyStep(all);
    if before[0] != '(' && before[0] != '[' {
      assert all[1..] == before[1..] + text;
    } else if found < |before| {
      assert all[found + 1..] == before[found + 1..] + text;
    } else if next < |text| {
      assert all[|before| + next + 1..] == text[next + 1..];
    } else {
      LettersConcat(before, text);
    }
  }

  lemma AfterStretch(stretch: string, rest: string, closing: char)
    requires closing !in stretch
    ensures var found, next := Find(stretch + rest, closing), Find(rest, closing);
            (found < |stretch + rest| <==> next < |rest|) &&
            (next < |rest| ==> (stretch + rest)[found + 1..] == rest[next + 1..])
  {
    FindConcat(stretch, rest, closing);
    FindMisses(stretch, closing);
    var next := Find(rest, closing);
    if next < |rest| {
      assert (stretch + rest)[|stretch| + next + 1..] == rest[next + 1..];
    }
  }

  /**
   A stretch without effect on the key of what follows has none after a prefix either: one
   that closes nothing, or a whole group after a prefix whose parentheses all close.
   */
  lemma {:induction false} StretchDrops(before: string, stretch: string, rest: string)
    requires BareKey(stretch + rest) == BareKey(rest) && ']' !in stretch
    requires Closed(before) || (')' !in stretch && Letters(stretch + rest) == Letters(rest))
    ensures BareKey(before + (stretch + rest)) == BareKey(before + rest)
    decreases |before|
  {
    hide Letters, LowerChar, IsKeyChar, BareKey, Closed, Find;
    if before == [] {
      assert before + (stretch + rest) == stretch + rest && before + rest == rest;
    } else {
      var closing := Closing(before[0]);
      BareKeyOfConcat(before, stretch + rest);
      BareKeyOfConcat(before, rest);
      var grouped := before[0] == '(' || before[0] == '[';
      var next := if grouped then Find(before, closing) + 1 else 1;
      if Closed(before) && before[0] == '(' {
        ClosedFinds(before);
      }
      if next <= |before| {
        if Closed(before) {
          ClosedSuffix(before, next);
        }
        StretchDrops(before[next..], stretch, rest);
      } else {
        AfterStretch(stretch, rest, closing);
      }
    }
  }

  lemma GroupDrops(before: string, group: string, rest: string)
    requires Closed(before) && group != [] && group[0] == '(' && Find(group, ')') == |group| - 1
    requires ']' !in group
    ensures BareKey(before + (group + rest)) == BareKey(before + rest)
  {
    FindConcat(group, rest, ')');
    assert (group + rest)[|group|..] == rest;
    StretchDrops(before, group, rest);
  }

  lemma SpaceDrops(before: string, space: char, rest: string)
    requires IsWhiteSpace(space)
    ensures BareKey(before + ([space] + rest)) == BareKey(before + rest)
  {
    assert ([space] + rest)[1..] == rest;
    OneLetter(space);
    LettersConcat([space], rest);
    StretchDrops(before, [space], rest);
  }

  lemma {:induction false} SpacesDrop(before: string, rest: string)
    ensures BareKey(WithoutTrailingSpaces(before) + rest) == BareKey(before + rest)
    decreases |before|
  {
    if before != [] && before[|before| - 1] == ' ' {
      var shorter := before[..|before| - 1];
      SpaceDrops(shorter, ' ', rest);
      assert shorter + ([' '] + rest) == before + rest;
      SpacesDrop(shorter, rest);
    }
  }

  lemma {:induction false} TrimEndKeepsBareKey(s: string)
    ensures BareKey(TrimEnd(s)) == BareKey(s)
    decreases |s|
  {
    if s != [] && IsWhiteSpace(s[|s| - 1]) {
      var shorter, last := s[..|s| - 1], s[|s| - 1];
      SpaceDrops(shorter, last, []);
      assert shorter + ([last] + []) == s && shorter + [] == shorter;
      TrimEndKeepsBareKey(shorter);
    }
  }

  lemma {:induction false} TrimStartKeepsBareKey(s: string)
    ensures BareKey(TrimStart(s)) == BareKey(s)
    decreases |s|
  {
    if s != [] && IsWhiteSpace(s[0]) {
      OneLetter(s[0]);
      TrimStartKeepsBareKey(s[1..]);
    }
  }

  lemma {:induction false} RewritingKeepsBareKey(s: string, built: string, keep: string -> bool)
    requires Closed(built) && RejectsOnlyPlain(keep)
    ensures BareKey(RewriteFrom(s, built, keep, false)) == BareKey(built + s)
    decreases |s|
  {
    if s == [] {
      assert built + s == built;
    } else {
      hide BareKey, RewriteFrom, Groups, Trim, WithoutTrailingSpaces, Closed, Find, RejectsOnlyPlain;
      RewriteStep(s, built, keep);
      if s[0] == '(' {
        var close := Find(s, ')');
        if close < |s| {
          var rest := s[close + 1..];
          SplitsAt(built, s, close + 1);
          if keep(Trim(s[1..close])) {
            AddGroup(built, s);
            RewritingKeepsBareKey(rest, built + s[..close + 1], keep);
          } else {
            RejectedGroupDrops(built, s, keep);
            GroupsWithoutSpaces(built);
            RewritingKeepsBareKey(rest, WithoutTrailingSpaces(built), keep);
          }
        }
      } else {
        AddChar(built, s[0]);
        FirstCharSplits(built, s);
        RewritingKeepsBareKey(s[1..], built + [s[0]], keep);
      }
    }
  }

  lemma SplitsAt(built: string, s: string, k: nat)
    requires k <= |s|
    ensures built + s[..k] + s[k..] == built + s && s[..k] + s[k..] == s
  {
  }

  lemma FirstCharSplits(built: string, s: string)
    requires s != []
    ensures built + [s[0]] + s[1..] == built + s
  {
  }

  /** Dropping a leading group, and the spaces before it, keeps the key. */
  lemma RejectedGroupDrops(built: string, s: string, keep: string -> bool)
    requires Closed(built) && s != [] && s[0] == '(' && Find(s, ')') < |s|
    requires RejectsOnlyPlain(keep) && !keep(Trim(s[1..Find(s, ')')]))
    ensures BareKey(WithoutTrailingSpaces(built) + s[Find(s, ')') + 1..]) == BareKey(built + s)
  {
    hide BareKey, Groups, Trim, WithoutTrailingSpaces, Closed, Find, IsPlain;
    var close := Find(s, ')');
    OneGroup(s);
    assert IsPlain(s[1..close]);
    GroupHasNoBracket(s, close);
    GroupDrops(built, s[..close + 1], s[close + 1..]);
    SpacesDrop(built, s[close + 1..]);
    SplitsAt(built, s, close + 1);
  }

  lemma GroupHasNoBracket(s: string, close: nat)
    requires 0 < close < |s| && s[0] == '(' && s[close] == ')' && IsPlain(s[1..close])
    ensures ']' !in s[..close + 1]
  {
    var group, inside := s[..close + 1], s[1..close];
    forall k | 0 <= k < |group| ensures group[k] != ']' {
      if 0 < k < close {
        assert group[k] == inside[k - 1] && inside[k - 1] in inside;
      }
    }
  }

  /** Rewriting that rejects only plain groups does not change the title key. */
  lemma RewritingKeepsTitleKey(name: string, keep: string -> bool)
    requires RejectsOnlyPlain(keep)
    ensures TitleKeyOf(Rewritten(name, keep, false)) == TitleKeyOf(name)
  {
    hide BareKey, TitleKeyOf, RewriteFrom, RejectsOnlyPlain, Closed;
    var built := RewriteFrom(name, [], keep, false);
    EmptyIsClosed();
    RewritingKeepsBareKey(name, [], keep);
    assert [] + name == name;
    TrimStartKeepsBareKey(built);
    TrimEndKeepsBareKey(TrimStart(built));
    TitleKeyIsBareKey(name);
    TitleKeyIsBareKey(Rewritten(name, keep, false));
  }

  /** Dropping the language tags of a name does not change its title key. */
  lemma StrippingKeepsTitleKey(name: string)
    ensures TitleKeyOf(StripLanguageTags(name)) == TitleKeyOf(name)
  {
    hide TitleKeyOf, Rewritten, RejectsOnlyPlain;
    LanguageTagsArePlain();
    RewritingKeepsTitleKey(name, IsNotLanguageTag);
  }

  lemma EmptyIsClosed()
    ensures Closed([])
  {
  }

  // ----- Region tags

  /** The group the regions are read from: the first that names regions. */
  function RegionGroup(groups: seq<string>): Option<string> {
    if groups == [] then None
    else if IsRegionTag(Inner(groups[0])) then Some(groups[0])
    else RegionGroup(groups[1..])
  }

  lemma {:induction false} RegionsReadGroup(groups: seq<string>)
    ensures RegionsIn(Inners(groups)) == match RegionGroup(groups)
                                         case Some(group) => RegionsOfTag(Inner(group))
                                         case None => {}
  {
    if groups != [] {
      assert Inners(groups)[1..] == Inners(groups[1..]);
      RegionsReadGroup(groups[1..]);
    }
  }

  lemma RegionGroupStep(group: string, groups: seq<string>)
    ensures RegionGroup([group] + groups) == if IsRegionTag(Inner(group)) then Some(group) else RegionGroup(groups)
  {
    assert ([group] + groups)[1..] == groups;
  }

  lemma NoRegionGroup(keep: string -> bool)
    ensures Kept([], keep) == [] && RegionGroup([]).None?
  {
  }

  lemma {:induction false} RegionGroupKept(groups: seq<string>, keep: string -> bool)
    ensures RegionGroup(Kept(groups, keep)) == RegionGroup(groups) <==>
            RegionGroup(groups).None? || keep(Trim(RegionGroup(groups).value))
    ensures RegionGroup(Kept(groups, keep)).Some? ==> keep(Trim(RegionGroup(Kept(groups, keep)).value))
  {
    hide RegionGroup, Kept, IsRegionTag, Inner, Trim;
    if groups == [] {
      NoRegionGroup(keep);
    } else {
      var first, rest := groups[0], groups[1..];
      assert groups == [first] + rest;
      RegionGroupKept(rest, keep);
      KeptStep(first, rest, keep);
      RegionGroupStep(first, rest);
      RegionGroupStep(first, Kept(rest, keep));
      assert [] + Kept(rest, keep) == Kept(rest, keep);
    }
  }

  /**
   Stripping leaves the group that the regions are read from, exactly when that group is not
   a language tag too: codes such as "FR", "DE" and "UK" are both.
   */
  lemma StrippingKeepsRegions(name: string)
    ensures var before := RegionGroup(Groups(name));
            var after := RegionGroup(Groups(StripLanguageTags(name)));
            && (after == before <==> before.None? || !IsLanguageTag(Trim(before.value)))
            && (after == before ==> RegionsOf(StripLanguageTags(name)) == RegionsOf(name))
  {
    RewriteKeepsGroups(name, IsNotLanguageTag);
    RegionGroupKept(Groups(name), IsNotLanguageTag);
    RegionsReadGroup(Groups(name));
    RegionsReadGroup(Groups(StripLanguageTags(name)));
  }

  // ----- Names that show the two conditions

  lemma {:induction false} NoGroupsWithoutParens(s: string)
    requires '(' !in s
    ensures Groups(s) == [] && Closed(s)
  {
    if s != [] {
      assert s[0] in s && forall c :: c in s[1..] ==> c in s;
      NoGroupsWithoutParens(s[1..]);
    }
  }

  lemma OnlyGroup(title: string, inside: string)
    requires '(' !in title && ')' !in inside
    ensures Groups(title + ("(" + inside + ")")) == [inside]
  {
    var group := "(" + inside + ")";
    NoGroupsWithoutParens(title);
    assert group[..|inside| + 1] == "(" + inside && group[|inside| + 1] == ')';
    FindIs(group, ')', |inside| + 1);
    OneGroup(group);
    assert group[..|group|] == group && group[1..|inside| + 1] == inside;
    GroupsConcat(title, group);
  }

  lemma {:induction false} SplitsIntoItself(s: string, separators: string, field: string)
    requires forall c :: c in s ==> c !in separators
    ensures Split(s, separators, field) == [field + s]
    decreases |s|
  {
    if s == [] {
      assert field + s == field;
    } else {
      assert s[0] in s && forall c :: c in s[1..] ==> c in s;
      SplitsIntoItself(s[1..], separators, field + [s[0]]);
      assert field + [s[0]] + s[1..] == field + s;
    }
  }

  lemma TrimsToItself(s: string)
    requires s != [] && !IsWhiteSpace(s[0]) && !IsWhiteSpace(s[|s| - 1])
    ensures Trim(s) == s
  {
  }

  /** A tag that is rejected by itself survives behind a second opening parenthesis. */
  lemma NestedTagSurvives(title: string, before: string, tag: string, keep: string -> bool)
    requires RejectsOnlyPlain(keep) && !keep(tag)
    requires '(' !in title && ')' !in before && ')' !in tag && '(' !in tag && Trim(tag) == tag
    ensures var group := before + "(" + tag;
            var name := title + ("(" + group + ")");
            && Groups(name) == [group] && Inner(group) == tag && HidesRejected([group], keep)
            && Groups(Rewritten(name, keep, false)) == [group]
  {
    hide Groups, Rewritten, RejectsOnlyPlain, Trim;
    var group := before + "(" + tag;
    assert group[|before|] == '(';
    OnlyGroup(title, group);
    InnerSkips(before, tag);
    PlainGroup(tag);
    HidesOne(group, keep);
    PlainReads(group, keep);
    KeptAlone(group, keep);
    RewriteKeepsGroups(title + ("(" + group + ")"), keep);
  }

  lemma HidesOne(group: string, keep: string -> bool)
    requires '(' in group && !keep(Inner(group))
    ensures HidesRejected([group], keep)
  {
    assert group in [group];
  }

  lemma KeptAlone(group: string, keep: string -> bool)
    ensures Kept([group], keep) == if keep(Trim(group)) then [group] else []
  {
    assert [group][1..] == [];
  }

  lemma TagsOfOne(name: string, group: string)
    requires Groups(name) == [group]
    ensures TagsOf(name) == [Inner(group)]
  {
  }

  /** The tag "En" of "(USA (En)" is a language tag, and stripping leaves it where it is. */
  lemma NestedLanguageSurvives()
    ensures var name := "A (USA (En)";
            && IsLanguageTag("En") && TagsOf(name) == ["En"] && TagsOf(StripLanguageTags(name)) == ["En"]
            && LanguagesOf(StripLanguageTags(name)) != {}
  {
    hide TagsOf, IsLanguageTag, LanguagesOf, StripLanguageTags;
    NestedParts();
    EnIsLanguage();
    NestedEnSurvives("A " + ("(" + ("USA " + "(" + "En") + ")"));
  }

  lemma NestedParts()
    ensures "A (USA (En)" == "A " + ("(" + ("USA " + "(" + "En") + ")")
  {
  }

  lemma NestedEnSurvives(name: string)
    requires name == "A " + ("(" + ("USA " + "(" + "En") + ")")
    ensures TagsOf(name) == ["En"] && TagsOf(StripLanguageTags(name)) == ["En"]
    ensures LanguagesOf(StripLanguageTags(name)) != {}
  {
    hide Groups, TagsOf, IsLanguageTag, LanguagesOf, RejectsOnlyPlain, HidesRejected, Rewritten, Inner, Trim;
    EnIsLanguage();
    LanguageTagsArePlain();
    NestedTagSurvives("A ", "USA ", "En", IsNotLanguageTag);
    TagsOfOne(name, "USA " + "(" + "En");
    TagsOfOne(StripLanguageTags(name), "USA " + "(" + "En");
    StrippedNameHasNoLanguage(name);
  }

  /** A single code by itself is a language tag. */
  lemma CodeIsLanguageTag(tag: string, code: string)
    requires tag != [] && Trim(tag) == tag && (forall c :: c in tag ==> c !in ",+")
    requires ToUpper(tag) == code && code in LANGUAGE_CODES
    ensures IsLanguageTag(tag)
  {
    hide ToUpper, Trim;
    SplitsIntoItself(tag, ",+", []);
    assert [] + tag == tag;
  }

  lemma EnAndFrAreCodes()
    ensures "EN" in LANGUAGE_CODES && "FR" in LANGUAGE_CODES
  {
    assert "EN" in LANGUAGE_CODES_A && "FR" in LANGUAGE_CODES_A;
  }

  lemma InUpperCase()
    ensures ToUpper("En") == "EN" && ToUpper("FR") == "FR"
    ensures (forall c :: c in "En" ==> c !in ",+") && (forall c :: c in "FR" ==> c !in ",+")
    ensures Trim("En") == "En" && Trim("FR") == "FR"
  {
    TrimsToItself("En");
    TrimsToItself("FR");
  }

  lemma EnIsLanguage()
    ensures IsLanguageTag("En") && Trim("En") == "En"
  {
    hide ToUpper, Trim, IsLanguageTag;
    InUpperCase();
    EnAndFrAreCodes();
    CodeIsLanguageTag("En", "EN");
  }

  /** A tag that names regions and is rejected too goes with its regions. */
  lemma RegionTagIsStripped(title: string, tag: string, keep: string -> bool)
    requires '(' !in title && ')' !in tag && '(' !in tag && Trim(tag) == tag && IsRegionTag(tag) && !keep(tag)
    ensures var name := title + ("(" + tag + ")");
            RegionsOf(name) == RegionsOfTag(tag) && RegionsOf(Rewritten(name, keep, false)) == {}
  {
    hide Groups, Rewritten, Trim, IsRegionTag, RegionsOfTag, TagsOf;
    var name := title + ("(" + tag + ")");
    OnlyGroup(title, tag);
    PlainGroup(tag);
    KeptAlone(tag, keep);
    RewriteKeepsGroups(name, keep);
    TagsOfOne(name, tag);
    NoTags(Rewritten(name, keep, false));
  }

  lemma NoTags(name: string)
    requires Groups(name) == []
    ensures TagsOf(name) == []
  {
  }

  /** "(FR)" names a region and a language: stripping takes the region along. */
  lemma RegionCodeIsStripped()
    ensures RegionsOf("A (FR)") == {"france"} && RegionsOf(StripLanguageTags("A (FR)")) == {}
  {
    hide RegionsOf, IsLanguageTag, IsRegionTag, RegionsOfTag, Rewritten, Trim;
    assert "A (FR)" == "A " + ("(" + "FR" + ")");
    FrIsBoth();
    RegionTagIsStripped("A ", "FR", IsNotLanguageTag);
  }

  lemma FrIsBoth()
    ensures IsLanguageTag("FR") && IsRegionTag("FR") && RegionsOfTag("FR") == {"france"} && Trim("FR") == "FR"
  {
    hide ToUpper, Trim, IsLanguageTag;
    InUpperCase();
    EnAndFrAreCodes();
    CodeIsLanguageTag("FR", "FR");
    FrIsRegion();
  }

  lemma FrIsRegion()
    ensures IsRegionTag("FR") && RegionsOfTag("FR") == {"france"}
  {
    hide ToUpper;
    InUpperCase();
    SplitsIntoItself("FR", ",", []);
    assert [] + "FR" == "FR";
    FrIsAlias();
  }

  lemma FrIsAlias()
    ensures "FR" in REGION_ALIASES && REGION_ALIASES["FR"] == "france"
  {
  }
}
