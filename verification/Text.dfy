/**
 Text by ordinal comparison, with trimming and splitting. Case is folded
 here for ASCII letters only, which is all that comparing with an ASCII constant needs;
 components that compare two arbitrary texts take the casing function as a parameter.
 */
module Text {
  predicate IsWhiteSpace(c: char) {
    || '\t' <= c <= '\r' || c == ' ' || c == '\U{85}' || c == '\U{A0}' || c == '\U{1680}'
    || '\U{2000}' <= c <= '\U{200A}' || c == '\U{2028}' || c == '\U{2029}' || c == '\U{202F}'
    || c == '\U{205F}' || c == '\U{3000}'
  }

  predicate IsAsciiLetterOrDigit(c: char) {
    'a' <= c <= 'z' || 'A' <= c <= 'Z' || '0' <= c <= '9'
  }

  function UpperChar(c: char): char {
    if 'a' <= c <= 'z' then ((c as int) - 32) as char else c
  }

  function LowerChar(c: char): char {
    if 'A' <= c <= 'Z' then ((c as int) + 32) as char else c
  }

  function ToUpper(s: string): (r: string)
    ensures |r| == |s|
  {
    seq(|s|, i requires 0 <= i < |s| => UpperChar(s[i]))
  }

  function ToLower(s: string): (r: string)
    ensures |r| == |s|
  {
    seq(|s|, i requires 0 <= i < |s| => LowerChar(s[i]))
  }

  /** `s` with every character replaced by its upper-case form under `upper`. */
  function Fold(upper: char -> char, s: string): (r: string)
    ensures |r| == |s|
  {
    seq(|s|, i requires 0 <= i < |s| => upper(s[i]))
  }

  function TrimStart(s: string): (r: string)
    ensures |r| <= |s|
    ensures r == [] || !IsWhiteSpace(r[0])
  {
    if s != [] && IsWhiteSpace(s[0]) then TrimStart(s[1..]) else s
  }

  function TrimEnd(s: string): (r: string)
    ensures |r| <= |s|
    ensures r == [] || !IsWhiteSpace(r[|r| - 1])
    ensures r == s[..|r|]
  {
    if s != [] && IsWhiteSpace(s[|s| - 1]) then TrimEnd(s[..|s| - 1]) else s
  }

  function Trim(s: string): (r: string)
    ensures |r| <= |s|
    ensures r == [] || (!IsWhiteSpace(r[0]) && !IsWhiteSpace(r[|r| - 1]))
  {
    TrimEnd(TrimStart(s))
  }

  /** The fields between separators, empty ones included; `field` is what the first already holds. */
  function Split(s: string, separators: string, field: string): (r: seq<string>)
    ensures r != []
    decreases |s|
  {
    if s == [] then [field]
    else if s[0] in separators then [field] + Split(s[1..], separators, [])
    else Split(s[1..], separators, field + [s[0]])
  }

  /** Parts with a separator between each two. */
  function JoinParts(parts: seq<string>, separators: string): string
    requires |parts| == |separators| + 1
  {
    if |parts| == 1 then parts[0]
    else parts[0] + ([separators[0]] + JoinParts(parts[1..], separators[1..]))
  }

  /** None of the parts has a separator in it, and nothing else stands between them. */
  predicate Separates(parts: seq<string>, between: string, separators: string) {
    && |parts| == |between| + 1 && (forall c :: c in between ==> c in separators)
    && forall part, c :: part in parts && c in part ==> c !in separators
  }

  lemma {:induction false} SplitsPart(part: string, rest: string, separators: string, field: string)
    requires forall c :: c in part ==> c !in separators
    requires rest == [] || rest[0] in separators
    ensures Split(part + rest, separators, field) == Split(rest, separators, field + part)
    decreases |part|
  {
    if part == [] {
      assert part + rest == rest && field + part == field;
    } else {
      assert part[0] in part && (part + rest)[1..] == part[1..] + rest;
      SplitsPart(part[1..], rest, separators, field + [part[0]]);
      assert field + [part[0]] + part[1..] == field + part;
    }
  }

  /** Splitting gives back the parts that were joined. */
  lemma {:induction false} SplitsWhatWasJoined(parts: seq<string>, between: string, separators: string)
    requires Separates(parts, between, separators)
    ensures Split(JoinParts(parts, between), separators, []) == parts
    decreases |parts|
  {
    assert parts[0] in parts && [] + parts[0] == parts[0];
    if |parts| == 1 {
      assert parts[0] + [] == parts[0];
      SplitsPart(parts[0], [], separators, []);
    } else {
      var rest := [between[0]] + JoinParts(parts[1..], between[1..]);
      assert between[0] in between && forall c :: c in between[1..] ==> c in between;
      assert forall part :: part in parts[1..] ==> part in parts;
      SplitsPart(parts[0], rest, separators, []);
      assert rest[1..] == JoinParts(parts[1..], between[1..]);
      SplitsWhatWasJoined(parts[1..], between[1..], separators);
    }
  }

  // ----- Ordinal order

  /** Whether ordinal comparison puts `a` before `b`. */
  predicate OrdinalLess(a: string, b: string) {
    b != [] && (a == [] || a[0] < b[0] || (a[0] == b[0] && OrdinalLess(a[1..], b[1..])))
  }

  lemma {:induction false} OrdinalTotal(a: string, b: string)
    ensures OrdinalLess(a, b) || a == b || OrdinalLess(b, a)
    ensures !(OrdinalLess(a, b) && OrdinalLess(b, a)) && !OrdinalLess(a, a)
    decreases |a|
  {
    if a != [] {
      OrdinalTotal(a[1..], a[1..]);
      if b != [] {
        OrdinalTotal(a[1..], b[1..]);
        if a[0] == b[0] && a[1..] == b[1..] {
          assert a == [a[0]] + a[1..] && b == [b[0]] + b[1..];
        }
      }
    }
  }

  lemma {:induction false} OrdinalTransitive(a: string, b: string, c: string)
    requires !OrdinalLess(b, a) && !OrdinalLess(c, b)
    ensures !OrdinalLess(c, a)
    decreases |a|
  {
    if OrdinalLess(c, a) && c != [] && b != [] && a[0] == b[0] == c[0] {
      OrdinalTransitive(a[1..], b[1..], c[1..]);
    }
  }

  // ----- Searching

  predicate StartsWith(s: string, prefix: string) {
    |prefix| <= |s| && s[..|prefix|] == prefix
  }

  /** Where `needle` first occurs, or the length of the text when it does not. */
  function IndexOf(s: string, needle: string): (i: nat)
    ensures i <= |s|
    ensures i < |s| ==> StartsWith(s[i..], needle)
    ensures forall j :: 0 <= j < i ==> !StartsWith(s[j..], needle)
  {
    if s == [] || StartsWith(s, needle) then 0 else
      var rest := IndexOf(s[1..], needle);
      assert forall j :: 0 < j <= |s| ==> s[j..] == s[1..][j - 1..];
      1 + rest
  }

  /** Whether `needle` occurs in `s`. */
  predicate Contains(s: string, needle: string) {
    StartsWith(s, needle) || (s != [] && Contains(s[1..], needle))
  }

  /** Whether `needle`, an ASCII text, occurs in `s` when ASCII case is ignored. */
  predicate ContainsIgnoringCase(s: string, needle: string) {
    Contains(ToUpper(s), ToUpper(needle))
  }

  // ----- What the operations mean, without the operations

  predicate IsBlank(s: string) {
    forall c :: c in s ==> IsWhiteSpace(c)
  }

  /** The code points Unicode counts as white space. */
  lemma WhiteSpaceIs(c: char)
    ensures IsWhiteSpace(c) <==>
            (c as int) in {9, 10, 11, 12, 13, 32, 133, 160, 5760, 8192, 8193, 8194, 8195, 8196, 8197, 8198, 8199,
                           8200, 8201, 8202, 8232, 8233, 8239, 8287, 12288}
  {
  }

  /** One character, or the two cases of one ASCII letter. */
  predicate SameLetter(a: char, b: char) {
    || a == b
    || ('a' <= a <= 'z' && a as int == b as int + 32)
    || ('A' <= a <= 'Z' && a as int + 32 == b as int)
  }

  predicate SameText(a: string, b: string) {
    |a| == |b| && forall i :: 0 <= i < |a| ==> SameLetter(a[i], b[i])
  }

  /** The two foldings equate exactly the texts that differ in ASCII case only. */
  lemma FoldsAlike(a: string, b: string)
    ensures ToUpper(a) == ToUpper(b) <==> SameText(a, b)
    ensures ToLower(a) == ToLower(b) <==> SameText(a, b)
  {
    if ToUpper(a) == ToUpper(b) || ToLower(a) == ToLower(b) {
      forall i | 0 <= i < |a| ensures SameLetter(a[i], b[i]) {
        assert ToUpper(a)[i] == UpperChar(a[i]) && ToUpper(b)[i] == UpperChar(b[i]);
        assert ToLower(a)[i] == LowerChar(a[i]) && ToLower(b)[i] == LowerChar(b[i]);
      }
    }
  }

  lemma {:induction false} TrimStartIs(before: string, rest: string)
    requires IsBlank(before) && (rest == [] || !IsWhiteSpace(rest[0]))
    ensures TrimStart(before + rest) == rest
    decreases |before|
  {
    if before == [] {
      assert before + rest == rest;
    } else {
      assert before[0] in before && (before + rest)[1..] == before[1..] + rest;
      TrimStartIs(before[1..], rest);
    }
  }

  lemma {:induction false} TrimEndIs(rest: string, after: string)
    requires IsBlank(after) && (rest == [] || !IsWhiteSpace(rest[|rest| - 1]))
    ensures TrimEnd(rest + after) == rest
    decreases |after|
  {
    if after == [] {
      assert rest + after == rest;
    } else {
      var last := |after| - 1;
      assert after[last] in after && (rest + after)[..|rest + after| - 1] == rest + after[..last];
      TrimEndIs(rest, after[..last]);
    }
  }

  lemma {:induction false} TrimStartOfBlank(s: string)
    requires IsBlank(s)
    ensures TrimStart(s) == []
  {
    if s != [] {
      assert s[0] in s;
      TrimStartOfBlank(s[1..]);
    }
  }

  /** Trimming takes the white space at both ends, and nothing else. */
  lemma TrimIs(before: string, text: string, after: string)
    requires IsBlank(before) && IsBlank(after)
    requires text == [] || (!IsWhiteSpace(text[0]) && !IsWhiteSpace(text[|text| - 1]))
    ensures Trim(before + text + after) == text
  {
    if text == [] {
      assert before + text + after == before + after;
      TrimStartOfBlank(before + after);
    } else {
      assert before + text + after == before + (text + after);
      TrimStartIs(before, text + after);
      TrimEndIs(text, after);
    }
  }

  predicate StandsAt(s: string, needle: string, k: int) {
    0 <= k <= |s| - |needle| && s[k..k + |needle|] == needle
  }

  predicate ReadsAt(s: string, needle: string, k: int) {
    0 <= k <= |s| - |needle| && SameText(s[k..k + |needle|], needle)
  }

  /** `needle` can be read somewhere in `s`, ASCII case aside. */
  ghost predicate Shows(s: string, needle: string) {
    exists k :: ReadsAt(s, needle, k)
  }

  lemma {:induction false} ContainsIs(s: string, needle: string)
    ensures Contains(s, needle) <==> exists k :: StandsAt(s, needle, k)
  {
    if StartsWith(s, needle) {
      assert StandsAt(s, needle, 0);
    } else if s == [] {
      assert forall k :: !StandsAt(s, needle, k);
    } else {
      var n := |needle|;
      ContainsIs(s[1..], needle);
      if k :| StandsAt(s[1..], needle, k) {
        assert s[1..][k..k + n] == s[k + 1..k + 1 + n];
        assert StandsAt(s, needle, k + 1);
      }
      if k :| StandsAt(s, needle, k) {
        assert k > 0 && s[1..][k - 1..k - 1 + n] == s[k..k + n];
        assert StandsAt(s[1..], needle, k - 1);
      }
    }
  }

  lemma ContainsIgnoringCaseIs(s: string, needle: string)
    ensures ContainsIgnoringCase(s, needle) <==> Shows(s, needle)
  {
    hide ToUpper, SameText;
    var n := |needle|;
    ContainsIs(ToUpper(s), ToUpper(needle));
    forall k ensures StandsAt(ToUpper(s), ToUpper(needle), k) <==> ReadsAt(s, needle, k) {
      if 0 <= k <= |s| - n {
        UpperOfSlice(s, k, k + n);
        FoldsAlike(s[k..k + n], needle);
      }
    }
  }

  lemma UpperOfSlice(s: string, i: nat, j: nat)
    requires i <= j <= |s|
    ensures ToUpper(s)[i..j] == ToUpper(s[i..j])
  {
  }

  /** The texts agree before `k`, and there the first one ends or has the smaller character. */
  predicate LessAt(a: string, b: string, k: int) {
    0 <= k < |b| && k <= |a| && a[..k] == b[..k] && (k == |a| || a[k] < b[k])
  }

  /** One text precedes another where they first differ, or where it ends first. */
  lemma {:induction false} OrdinalLessIs(a: string, b: string)
    ensures OrdinalLess(a, b) <==> exists k :: LessAt(a, b, k)
    decreases |a|
  {
    if b == [] {
      assert forall k :: !LessAt(a, b, k);
    } else if a == [] || a[0] < b[0] {
      assert LessAt(a, b, 0);
    } else {
      OrdinalLessIs(a[1..], b[1..]);
      if k :| LessAt(a, b, k) {
        assert k > 0 ==> a[..k][0] == b[..k][0];
        assert LessAt(a[1..], b[1..], k - 1) by {
          assert a[1..][..k - 1] == a[..k][1..] && b[1..][..k - 1] == b[..k][1..];
        }
      }
      if a[0] == b[0] && exists k :: LessAt(a[1..], b[1..], k) {
        var k :| LessAt(a[1..], b[1..], k);
        assert a[..k + 1] == [a[0]] + a[1..][..k] && b[..k + 1] == [b[0]] + b[1..][..k];
        assert LessAt(a, b, k + 1);
      }
    }
  }
}
