/**
 The text a thumbnail listing is cached as: what is printed, what reading accepts, and what
 becomes of a file that was cut short.
 */
module ThumbnailSnapshot {
  import opened Text
  import opened Wrappers

  const INT_MAX := 0x7FFF_FFFF

  datatype Listing = Listing(branch: string, treeSha: string, fileNames: seq<string>)

  // ----- Numbers

  function Digit(d: nat): char
    requires d < 10
  {
    ('0' as int + d) as char
  }

  /** The decimal digits of a count. */
  function Decimal(n: nat): (s: string)
    ensures s != []
  {
    if n < 10 then [Digit(n)] else Decimal(n / 10) + [Digit(n % 10)]
  }

  predicate IsDigit(c: char) {
    '0' <= c <= '9'
  }

  /** The value of a run of digits, after those already read; nothing when another character occurs. */
  function DigitsValue(s: string, soFar: nat): Option<nat>
    decreases |s|
  {
    if s == [] then Some(soFar)
    else if !IsDigit(s[0]) then None
    else DigitsValue(s[1..], soFar * 10 + (s[0] as int - '0' as int))
  }

  /** The white space that number parsing skips at either end. */
  predicate IsNumberSpace(c: char) {
    '\t' <= c <= '\r' || c == ' '
  }

  function SkipStart(s: string): string {
    if s != [] && IsNumberSpace(s[0]) then SkipStart(s[1..]) else s
  }

  function SkipEnd(s: string): string {
    if s != [] && IsNumberSpace(s[|s| - 1]) then SkipEnd(s[..|s| - 1]) else s
  }

  function SkipNulls(s: string): string {
    if s != [] && s[|s| - 1] == '\0' then SkipNulls(s[..|s| - 1]) else s
  }

  /** A 32-bit integer with optional white space around it and an optional sign. */
  function TryParseInt(s: string): Option<int> {
    var t := SkipEnd(SkipNulls(SkipStart(s)));
    var signed := t != [] && (t[0] == '-' || t[0] == '+');
    var digits := if signed then t[1..] else t;
    if digits == [] || DigitsValue(digits, 0).None? then None
    else
      var magnitude: int := DigitsValue(digits, 0).value;
      var value := if signed && t[0] == '-' then -magnitude else magnitude;
      if -INT_MAX - 1 <= value <= INT_MAX then Some(value) else None
  }

  /** The characters a count may be made of: digits, a sign, six kinds of space, and nulls. */
  predicate IsNumberCharacter(c: char) {
    || c in "0123456789" || c == '+' || c == '-' || c == '\0'
    || (c as int) in {9, 10, 11, 12, 13, 32}
  }

  lemma DigitIs(c: char)
    ensures IsDigit(c) <==> c in "0123456789"
  {
    if '0' <= c <= '9' {
      assert "0123456789"[c as int - '0' as int] == c;
    }
  }

  lemma {:induction false} DigitsOnly(s: string, soFar: nat)
    requires DigitsValue(s, soFar).Some?
    ensures forall c :: c in s ==> c in "0123456789"
    decreases |s|
  {
    if s != [] {
      DigitIs(s[0]);
      DigitsOnly(s[1..], soFar * 10 + (s[0] as int - '0' as int));
    }
  }

  lemma {:induction false} SkippedStart(s: string)
    ensures forall c :: c in s ==> c in SkipStart(s) || (c as int) in {9, 10, 11, 12, 13, 32}
  {
    if s != [] && IsNumberSpace(s[0]) {
      SkippedStart(s[1..]);
    }
  }

  lemma {:induction false} SkippedEnd(s: string)
    ensures forall c :: c in s ==> c in SkipEnd(s) || (c as int) in {9, 10, 11, 12, 13, 32}
  {
    if s != [] && IsNumberSpace(s[|s| - 1]) {
      assert s == s[..|s| - 1] + [s[|s| - 1]];
      SkippedEnd(s[..|s| - 1]);
    }
  }

  lemma {:induction false} SkippedNulls(s: string)
    ensures forall c :: c in s ==> c in SkipNulls(s) || c == '\0'
  {
    if s != [] && s[|s| - 1] == '\0' {
      assert s == s[..|s| - 1] + [s[|s| - 1]];
      SkippedNulls(s[..|s| - 1]);
    }
  }

  /** A count that parses is a signed 32-bit number written in those characters. */
  lemma CountsAreNumbers(s: string)
    requires TryParseInt(s).Some?
    ensures -2_147_483_648 <= TryParseInt(s).value <= 2_147_483_647
    ensures forall c :: c in s ==> IsNumberCharacter(c)
  {
    hide SkipStart, SkipEnd, SkipNulls, DigitsValue;
    SkippedStart(s);
    SkippedNulls(SkipStart(s));
    var t := SkipEnd(SkipNulls(SkipStart(s)));
    SkippedEnd(SkipNulls(SkipStart(s)));
    var signed := t != [] && (t[0] == '-' || t[0] == '+');
    var digits := if signed then t[1..] else t;
    DigitsOnly(digits, 0);
    assert forall c :: c in t ==> c in digits || c == '-' || c == '+' by {
      assert signed ==> t == [t[0]] + t[1..];
    }
  }

  predicate IsPadding(s: string) {
    forall c :: c in s ==> (c as int) in {9, 10, 11, 12, 13, 32}
  }

  lemma {:induction false} PaddingSkipped(before: string, s: string)
    requires IsPadding(before) && s != [] && !IsNumberSpace(s[0])
    ensures SkipStart(before + s) == s
    decreases |before|
  {
    if before == [] {
      assert before + s == s;
    } else {
      assert before[0] in before && (before + s)[1..] == before[1..] + s;
      assert forall c :: c in before[1..] ==> c in before;
      PaddingSkipped(before[1..], s);
    }
  }

  lemma {:induction false} PaddingSkippedBehind(s: string, after: string)
    requires IsPadding(after) && s != [] && !IsNumberSpace(s[|s| - 1])
    ensures SkipEnd(s + after) == s
    decreases |after|
  {
    if after == [] {
      assert s + after == s;
    } else {
      var last := |after| - 1;
      assert after[last] in after && (s + after)[..|s + after| - 1] == s + after[..last];
      assert forall c :: c in after[..last] ==> c in after;
      PaddingSkippedBehind(s, after[..last]);
    }
  }

  lemma {:induction false} NullsSkipped(s: string, nulls: string)
    requires (forall c :: c in nulls ==> c == '\0') && s != [] && s[|s| - 1] != '\0'
    ensures SkipNulls(s + nulls) == s
    decreases |nulls|
  {
    if nulls == [] {
      assert s + nulls == s;
    } else {
      var last := |nulls| - 1;
      assert nulls[last] in nulls && (s + nulls)[..|s + nulls| - 1] == s + nulls[..last];
      assert forall c :: c in nulls[..last] ==> c in nulls;
      NullsSkipped(s, nulls[..last]);
    }
  }

  lemma PaddingGoes(before: string, s: string, after: string, nulls: string)
    requires IsPadding(before) && IsPadding(after) && forall c :: c in nulls ==> c == '\0'
    requires s != [] && !IsNumberSpace(s[0]) && !IsNumberSpace(s[|s| - 1]) && s[|s| - 1] != '\0'
    ensures SkipEnd(SkipNulls(SkipStart(before + s + after + nulls))) == s
  {
    hide SkipStart, SkipEnd, SkipNulls;
    assert before + s + after + nulls == before + (s + (after + nulls));
    PaddingSkipped(before, s + (after + nulls));
    assert s + (after + nulls) == (s + after) + nulls;
    if after != [] {
      assert after[|after| - 1] in after && (s + after)[|s + after| - 1] == after[|after| - 1];
    } else {
      assert s + after == s;
    }
    NullsSkipped(s + after, nulls);
    PaddingSkippedBehind(s, after);
  }

  lemma SignedDigits(sign: string, digits: string)
    requires sign == "" || sign == "+" || sign == "-"
    requires digits != [] && forall c :: c in digits ==> c in "0123456789"
    ensures var s := sign + digits;
            && s != [] && !IsNumberSpace(s[0]) && !IsNumberSpace(s[|s| - 1]) && s[|s| - 1] != '\0'
            && ((s[0] == '-' || s[0] == '+') <==> sign != "") && (s[0] == '-' <==> sign == "-")
            && (if sign != "" then s[1..] else s) == digits
  {
    var s := sign + digits;
    var last := |digits| - 1;
    assert digits[0] in digits && digits[last] in digits;
    DigitIs(digits[0]);
    DigitIs(digits[last]);
    assert s[|s| - 1] == digits[last];
    assert sign != "" ==> s[1..] == digits;
    assert sign == "" ==> s == digits;
  }

  lemma ParsesStripped(text: string, sign: string, digits: string)
    requires sign == "" || sign == "+" || sign == "-"
    requires digits != [] && forall c :: c in digits ==> c in "0123456789"
    requires SkipEnd(SkipNulls(SkipStart(text))) == sign + digits && DigitsValue(digits, 0).Some?
    ensures var magnitude: int := DigitsValue(digits, 0).value;
            var value := if sign == "-" then -magnitude else magnitude;
            TryParseInt(text) == if -2_147_483_648 <= value <= 2_147_483_647 then Some(value) else None
  {
    hide SkipStart, SkipEnd, SkipNulls, DigitsValue, IsNumberSpace;
    SignedDigits(sign, digits);
  }

  /** Digits with a sign or none, space around them and nulls behind, are the number they spell if it fits 32 bits. */
  lemma NumbersCount(before: string, sign: string, digits: string, after: string, nulls: string)
    requires IsPadding(before) && IsPadding(after) && forall c :: c in nulls ==> c == '\0'
    requires sign == "" || sign == "+" || sign == "-"
    requires digits != [] && forall c :: c in digits ==> c in "0123456789"
    ensures DigitsValue(digits, 0).Some?
    ensures var magnitude: int := DigitsValue(digits, 0).value;
            var value := if sign == "-" then -magnitude else magnitude;
            TryParseInt(before + (sign + digits) + after + nulls)
            == if -2_147_483_648 <= value <= 2_147_483_647 then Some(value) else None
  {
    hide TryParseInt, SkipStart, SkipEnd, SkipNulls, DigitsValue, IsNumberSpace, IsPadding;
    AllDigits(digits, 0);
    SignedDigits(sign, digits);
    PaddingGoes(before, sign + digits, after, nulls);
    ParsesStripped(before + (sign + digits) + after + nulls, sign, digits);
  }

  lemma {:induction false} AllDigits(s: string, soFar: nat)
    requires forall c :: c in s ==> c in "0123456789"
    ensures DigitsValue(s, soFar).Some?
    decreases |s|
  {
    if s != [] {
      assert s[0] in s;
      DigitIs(s[0]);
      AllDigits(s[1..], soFar * 10 + (s[0] as int - '0' as int));
    }
  }

  // ----- Lines and fields

  predicate IsBreak(c: char) {
    c == '\n' || c == '\r'
  }

  /** The lines of a text: ended by a line feed, a carriage return or both; no line after the last break. */
  function Lines(text: string, line: string): seq<string>
    decreases |text|
  {
    if text == [] then if line == [] then [] else [line]
    else if text[0] == '\r' && |text| > 1 && text[1] == '\n' then [line] + Lines(text[2..], [])
    else if IsBreak(text[0]) then [line] + Lines(text[1..], [])
    else Lines(text[1..], line + [text[0]])
  }

  function NonBlank(lines: seq<string>): seq<string> {
    if lines == [] then [] else (if lines[0] == [] then [] else [lines[0]]) + NonBlank(lines[1..])
  }

  // ----- Printing and reading

  function Join(names: seq<string>): string {
    if names == [] then [] else if |names| == 1 then names[0] else names[0] + "\n" + Join(names[1..])
  }

  function HeaderLine(l: Listing): string {
    "# " + l.branch + " " + l.treeSha + " " + Decimal(|l.fileNames|)
  }

  /** The header, then one name a line. */
  function Print(l: Listing): string {
    HeaderLine(l) + "\n" + Join(l.fileNames) + "\n"
  }

  function ReadLines(lines: seq<string>): Option<Listing> {
    if lines == [] || !StartsWith(lines[0], "# ") then None
    else
      var header := Split(lines[0][2..], " ", []);
      if |header| < 3 || TryParseInt(header[2]).None? then None
      else
        var names := NonBlank(lines[1..]);
        if names == [] || |names| != TryParseInt(header[2]).value then None
        else Some(Listing(header[0], header[1], names))
  }

  function Read(text: string): Option<Listing> {
    ReadLines(Lines(text, []))
  }

  predicate IsName(name: string) {
    name != [] && forall c :: c in name ==> !IsBreak(c)
  }

  predicate IsField(field: string) {
    forall c :: c in field ==> !IsBreak(c) && c != ' '
  }

  /** What can be cached: at least one name, no line breaks, no spaces in the header's fields. */
  predicate Cacheable(l: Listing) {
    && IsField(l.branch) && IsField(l.treeSha)
    && 0 < |l.fileNames| <= INT_MAX && forall name :: name in l.fileNames ==> IsName(name)
  }

  // ----- The count survives printing

  lemma {:induction false} DigitsAppend(a: string, b: string, soFar: nat)
    requires DigitsValue(a, soFar).Some?
    ensures DigitsValue(a + b, soFar) == DigitsValue(b, DigitsValue(a, soFar).value)
    decreases |a|
  {
    if a == [] {
      assert a + b == b;
    } else {
      assert (a + b)[1..] == a[1..] + b;
      DigitsAppend(a[1..], b, soFar * 10 + (a[0] as int - '0' as int));
    }
  }

  lemma {:induction false} DecimalReads(n: nat)
    ensures DigitsValue(Decimal(n), 0) == Some(n)
    ensures forall c :: c in Decimal(n) ==> IsDigit(c)
  {
    var last := [Digit(n % 10)];
    assert last[1..] == [] && last[0] as int - '0' as int == n % 10;
    if n < 10 {
      assert DigitsValue(last[1..], n) == Some(n);
    } else {
      DecimalReads(n / 10);
      DigitsAppend(Decimal(n / 10), last, 0);
      assert DigitsValue(last[1..], n / 10 * 10 + n % 10) == Some(n);
    }
  }

  /** A printed count is read back. */
  lemma CountReads(n: nat)
    requires n <= 0x7FFF_FFFF
    ensures TryParseInt(Decimal(n)) == Some(n)
  {
    var s := Decimal(n);
    DecimalReads(n);
    assert s[0] in s && s[|s| - 1] in s;
  }

  /** A line ends at a line feed, at a carriage return, and at the two together, which is one end. */
  lemma {:induction false} LineEnds(line: string, before: string, end: string, rest: string)
    requires forall c :: c in line ==> !IsBreak(c)
    requires end == "\n" || end == "\r\n" || (end == "\r" && (rest == [] || rest[0] != '\n'))
    ensures Lines(line + (end + rest), before) == [before + line] + Lines(rest, [])
    decreases |line|
  {
    var text := line + (end + rest);
    if line == [] {
      assert text == end + rest && before + line == before && text[|end|..] == rest;
    } else {
      assert line[0] in line && forall c :: c in line[1..] ==> c in line;
      assert text[0] == line[0] && text[1..] == line[1..] + (end + rest);
      LineEnds(line[1..], before + [line[0]], end, rest);
      assert before + [line[0]] + line[1..] == before + line;
    }
  }

  // ----- Lines survive printing

  /** Each line with its line feed. */
  function Ended(lines: seq<string>): string {
    if lines == [] then [] else lines[0] + "\n" + Ended(lines[1..])
  }

  predicate IsLine(line: string) {
    forall c :: c in line ==> !IsBreak(c)
  }

  lemma {:induction false} JoinIsEnded(names: seq<string>)
    requires names != []
    ensures Join(names) + "\n" == Ended(names)
  {
    if |names| == 1 {
      assert Ended(names[1..]) == [];
    } else {
      JoinIsEnded(names[1..]);
      assert Join(names) + "\n" == names[0] + "\n" + (Join(names[1..]) + "\n");
    }
  }

  lemma {:induction false} OneLine(line: string, before: string, rest: string)
    requires IsLine(line)
    ensures Lines(line + "\n" + rest, before) == [before + line] + Lines(rest, [])
    ensures before + line != [] ==> Lines(line, before) == [before + line]
    decreases |line|
  {
    var text := line + "\n" + rest;
    if line == [] {
      assert text[0] == '\n' && text[1..] == rest && before + line == before;
    } else {
      assert line[0] in line && text[0] == line[0] && text[1..] == line[1..] + "\n" + rest;
      assert before + [line[0]] + line[1..] == before + line;
      OneLine(line[1..], before + [line[0]], rest);
    }
  }

  /** Complete lines, and one that was cut short. */
  lemma {:induction false} LinesOfEnded(lines: seq<string>, cut: string)
    requires (forall line :: line in lines ==> IsLine(line)) && IsLine(cut)
    ensures Lines(Ended(lines) + cut, []) == lines + if cut == [] then [] else [cut]
  {
    if lines == [] {
      assert Ended(lines) + cut == cut;
      OneLine(cut, [], []);
      assert [] + cut == cut;
    } else {
      LinesOfEnded(lines[1..], cut);
      OneLine(lines[0], [], Ended(lines[1..]) + cut);
      assert Ended(lines) + cut == lines[0] + "\n" + (Ended(lines[1..]) + cut);
      assert [] + lines[0] == lines[0];
    }
  }

  /** Which line a cut falls in, and how much of that line is left. */
  function CutAt(lines: seq<string>, n: nat): (nat, nat) {
    if lines == [] then (0, 0)
    else if n <= |lines[0]| then (0, n)
    else var (k, j) := CutAt(lines[1..], n - |lines[0]| - 1); (k + 1, j)
  }

  lemma {:induction false} CutFalls(lines: seq<string>, n: nat)
    requires n <= |Ended(lines)|
    ensures var (k, j) := CutAt(lines, n);
            && k <= |lines| && (k < |lines| ==> j <= |lines[k]|) && (k == |lines| ==> j == 0)
            && Ended(lines)[..n] == Ended(lines[..k]) + (if k < |lines| then lines[k][..j] else [])
  {
    if lines != [] {
      if n <= |lines[0]| {
        assert Ended(lines)[..n] == lines[0][..n];
      } else {
        var m := n - |lines[0]| - 1;
        CutFalls(lines[1..], m);
        var (k, j) := CutAt(lines[1..], m);
        assert lines[..k + 1][1..] == lines[1..][..k];
        assert Ended(lines)[..n] == lines[0] + "\n" + Ended(lines[1..])[..m];
        if k < |lines[1..]| {
          assert lines[1..][k] == lines[k + 1];
        }
      }
    }
  }

  // ----- Reading printed text, whole or cut short

  lemma {:induction false} FieldSplits(field: string, before: string, rest: string)
    requires forall c :: c in field ==> c != ' '
    ensures Split(field + " " + rest, " ", before) == [before + field] + Split(rest, " ", [])
    ensures Split(field, " ", before) == [before + field]
    decreases |field|
  {
    var text := field + " " + rest;
    if field == [] {
      assert text[0] == ' ' && text[1..] == rest && before + field == before;
    } else {
      assert field[0] in field && text[0] == field[0] && text[1..] == field[1..] + " " + rest;
      assert before + [field[0]] + field[1..] == before + field;
      assert forall c :: c in field[1..] ==> c in field;
      FieldSplits(field[1..], before + [field[0]], rest);
    }
  }

  lemma Regroup(a: string, b: string, c: string)
    ensures a + " " + b + " " + c == a + " " + (b + " " + c)
  {
  }

  lemma ThreeFields(a: string, b: string, c: string)
    requires forall ch :: ch in a || ch in b || ch in c ==> ch != ' '
    ensures Split(a + " " + b + " " + c, " ", []) == [a, b, c]
  {
    hide Split;
    Regroup(a, b, c);
    OneField(a, b + " " + c);
    OneField(b, c);
    OneField(c, []);
  }

  lemma OneField(field: string, rest: string)
    requires forall c :: c in field ==> c != ' '
    ensures Split(field + " " + rest, " ", []) == [field] + Split(rest, " ", [])
    ensures Split(field, " ", []) == [field]
  {
    hide Split;
    FieldSplits(field, [], rest);
    assert [] + field == field;
  }

  lemma HeaderReads(l: Listing)
    requires Cacheable(l)
    ensures StartsWith(HeaderLine(l), "# ") && IsLine(HeaderLine(l))
    ensures Split(HeaderLine(l)[2..], " ", []) == [l.branch, l.treeSha, Decimal(|l.fileNames|)]
  {
    hide Split, Decimal;
    var count, line := Decimal(|l.fileNames|), HeaderLine(l);
    DecimalReads(|l.fileNames|);
    var fields := l.branch + " " + l.treeSha + " " + count;
    assert line == "# " + fields;
    ThreeFields(l.branch, l.treeSha, count);
    forall c | c in line ensures !IsBreak(c) {
      assert c in "# " || c in l.branch || c in " " || c in l.treeSha || c in count;
    }
  }

  lemma {:induction false} NonBlankKeeps(names: seq<string>)
    requires forall name :: name in names ==> name != []
    ensures NonBlank(names) == names
  {
    if names != [] {
      assert names[0] in names && forall name :: name in names[1..] ==> name in names;
      NonBlankKeeps(names[1..]);
    }
  }

  /** A header followed by some names is accepted exactly when their number is the one it gives. */
  lemma NamesRead(l: Listing, names: seq<string>)
    requires Cacheable(l) && forall name :: name in names ==> name != []
    ensures ReadLines([HeaderLine(l)] + names) ==
            if |names| == |l.fileNames| then Some(Listing(l.branch, l.treeSha, names)) else None
  {
    var lines := [HeaderLine(l)] + names;
    assert lines[0] == HeaderLine(l) && lines[1..] == names;
    HeaderReads(l);
    CountReads(|l.fileNames|);
    NonBlankKeeps(names);
  }

  function AllLines(l: Listing): seq<string> {
    [HeaderLine(l)] + l.fileNames
  }

  lemma PrintIsEnded(l: Listing)
    requires l.fileNames != []
    ensures Print(l) == Ended(AllLines(l))
  {
    JoinIsEnded(l.fileNames);
    assert AllLines(l)[1..] == l.fileNames;
  }

  /** Reading what was cached gives the listing back. */
  lemma ReadsBackWhatWasCached(l: Listing)
    requires Cacheable(l)
    ensures Read(Print(l)) == Some(l)
  {
    PrintIsEnded(l);
    HeaderReads(l);
    LinesOfEnded(AllLines(l), []);
    assert Ended(AllLines(l)) + [] == Ended(AllLines(l)) && AllLines(l) + [] == AllLines(l);
    NamesRead(l, l.fileNames);
  }

  /** Where the last name starts in the printed text. */
  function LastNameStart(l: Listing): int
    requires l.fileNames != []
  {
    |Print(l)| - 1 - |l.fileNames[|l.fileNames| - 1]|
  }

  lemma {:induction false} EndedLength(lines: seq<string>, k: nat)
    requires k < |lines|
    ensures |Ended(lines)| >= |Ended(lines[..k])| + |lines[k]| + 1
    ensures k == |lines| - 1 ==> |Ended(lines)| == |Ended(lines[..k])| + |lines[k]| + 1
  {
    if k > 0 {
      EndedLength(lines[1..], k - 1);
      assert lines[..k][1..] == lines[1..][..k - 1];
    } else {
      assert lines[..0] == [];
      if |lines| == 1 {
        assert Ended(lines[1..]) == [];
      }
    }
  }

  /** The lines of the printed text, cut after `n` characters. */
  lemma CutLines(l: Listing, n: nat)
    requires Cacheable(l) && n <= |Print(l)|
    ensures var all := AllLines(l);
            var (k, j) := CutAt(all, n);
            && k <= |all| && (k < |all| ==> j <= |all[k]|) && (k == |all| ==> j == 0)
            && Lines(Print(l)[..n], []) == all[..k] + (if j == 0 then [] else [all[k][..j]])
            && n == |Ended(all[..k])| + j && |Print(l)| == |Ended(all)|
  {
    var all := AllLines(l);
    PrintIsEnded(l);
    HeaderReads(l);
    CutFalls(all, n);
    var (k, j) := CutAt(all, n);
    var cut := if k < |all| then all[k][..j] else [];
    assert forall line :: line in all ==> IsLine(line);
    assert forall line :: line in all[..k] ==> line in all;
    if k < |all| {
      assert forall c :: c in cut ==> c in all[k];
      assert all[k] in all;
    }
    LinesOfEnded(all[..k], cut);
  }

  /** A name list that stops inside the last name, or before it. */
  lemma SomeNamesRead(l: Listing, k: nat, j: nat)
    requires Cacheable(l) && k <= |l.fileNames| && (k < |l.fileNames| ==> j <= |l.fileNames[k]|)
    requires k == |l.fileNames| ==> j == 0
    ensures var last := |l.fileNames| - 1;
            ReadLines([HeaderLine(l)] + l.fileNames[..k] + (if j == 0 then [] else [l.fileNames[k][..j]])) ==
            if k == |l.fileNames| then Some(l)
            else if k == last && j > 0 then Some(l.(fileNames := l.fileNames[..last] + [l.fileNames[last][..j]]))
            else None
  {
    var names := l.fileNames[..k] + if j == 0 then [] else [l.fileNames[k][..j]];
    assert [HeaderLine(l)] + l.fileNames[..k] + (if j == 0 then [] else [l.fileNames[k][..j]])
        == [HeaderLine(l)] + names;
    forall name | name in names ensures name != [] {
      assert forall x :: x in l.fileNames[..k] ==> x in l.fileNames;
    }
    NamesRead(l, names);
    if k == |l.fileNames| {
      assert names == l.fileNames;
    }
  }

  /**
   A text cut short is refused exactly when the cut leaves nothing of the last name; past
   that the listing is accepted, with the last name cut where the text was.
   */
  lemma CutTextIsRefused(l: Listing, n: nat)
    requires Cacheable(l) && n <= |Print(l)|
    ensures Read(Print(l)[..n]).None? <==> n <= LastNameStart(l)
    ensures n > LastNameStart(l) ==>
              var last := |l.fileNames| - 1;
              var left := if n == |Print(l)| then |l.fileNames[last]| else n - LastNameStart(l);
              left <= |l.fileNames[last]| &&
              Read(Print(l)[..n]) == Some(l.(fileNames := l.fileNames[..last] + [l.fileNames[last][..left]]))
  {
    hide Lines, ReadLines, Ended, Cacheable, Print;
    var all, last := AllLines(l), |l.fileNames| - 1;
    CutLines(l, n);
    var (k, j) := CutAt(all, n);
    AtLeastOneName(l);
    EndedLength(all, |all| - 1);
    assert all[|all| - 1] == l.fileNames[last];
    if k == 0 {
      CutHeaderIsRefused(all[..k] + if j == 0 then [] else [all[k][..j]]);
      EndedLength(all, 0);
      EndedPrefix(all, 0);
    } else {
      assert all[..k] == [HeaderLine(l)] + l.fileNames[..k - 1];
      SomeNamesRead(l, k - 1, j);
      if k < |all| {
        EndedLength(all, k);
        EndedPrefix(all, k);
      } else {
        assert all[..k] == all;
        WholeLastName(l.fileNames);
      }
    }
  }

  lemma WholeLastName(names: seq<string>)
    requires names != []
    ensures var last := |names| - 1; names[..last] + [names[last][..|names[last]|]] == names
  {
    var last := |names| - 1;
    assert names[last][..|names[last]|] == names[last];
  }

  lemma AtLeastOneName(l: Listing)
    requires Cacheable(l)
    ensures l.fileNames != [] && l.fileNames[|l.fileNames| - 1] != []
  {
    assert l.fileNames[|l.fileNames| - 1] in l.fileNames;
  }

  /** Without any complete line there are no names to accept. */
  lemma CutHeaderIsRefused(lines: seq<string>)
    requires |lines| <= 1
    ensures ReadLines(lines).None?
  {
    if lines != [] {
      assert lines[1..] == [];
    }
  }

  lemma {:induction false} EndedPrefix(lines: seq<string>, k: nat)
    requires k < |lines|
    ensures |Ended(lines[..k])| <= |Ended(lines[..|lines| - 1])|
    ensures k < |lines| - 1 ==> |Ended(lines[..k])| + |lines[k]| + 1 <= |Ended(lines[..|lines| - 1])|
  {
    if k < |lines| - 1 {
      var init := lines[..|lines| - 1];
      assert init[..k] == lines[..k];
      EndedLength(init, k);
    }
  }
}