/**
 The ClrMamePro dialect: splitting text into tokens and reading nested blocks from them,
 and the proof that printing a forest of blocks and reading it back gives the forest.
 */
module DatParser {
  import opened Text
  import opened Wrappers

  /** The runtime's invariant case mapping, one character at a time. */
  datatype Casing = Casing(lower: char -> char, upper: char -> char)

  /** A block as read: values by case-folded key, nested blocks in order. */
  datatype Block = Block(kind: string, values: map<string, string>, children: seq<Block>) {
    function Value(casing: Casing, key: string): Option<string> {
      var folded := Fold(casing.upper, key);
      if folded in values then Some(values[folded]) else None
    }
  }

  // ----- Tokens

  function Flushed(buffer: string): seq<string> {
    if buffer == [] then [] else [buffer]
  }

  predicate IsParen(c: char) {
    c == '(' || c == ')'
  }

  /** The tokens still to come, given the word so far and whether a quote is open. */
  function Tokens(text: string, buffer: string, inQuotes: bool): seq<string>
    decreases |text|
  {
    if text == [] then Flushed(buffer)
    else
      var c, rest := text[0], text[1..];
      if inQuotes then
        if c == '"' then [buffer] + Tokens(rest, [], false) else Tokens(rest, buffer + [c], true)
      else if c == '"' then Flushed(buffer) + Tokens(rest, [], true)
      else if IsParen(c) then Flushed(buffer) + [[c]] + Tokens(rest, [], false)
      else if IsWhiteSpace(c) then Flushed(buffer) + Tokens(rest, [], false)
      else Tokens(rest, buffer + [c], false)
  }

  method Tokenize(text: string) returns (tokens: seq<string>)
    ensures tokens == Tokens(text, [], false)
  {
    tokens := [];
    var buffer: string, inQuotes := [], false;
    for i := 0 to |text|
      invariant tokens + Tokens(text[i..], buffer, inQuotes) == Tokens(text, [], false)
    {
      var c := text[i];
      assert text[i..][0] == c && text[i..][1..] == text[i + 1..];
      if inQuotes {
        if c == '"' {
          inQuotes := false;
          tokens, buffer := tokens + [buffer], [];
        } else {
          buffer := buffer + [c];
        }
      } else if c == '"' {
        tokens, buffer, inQuotes := tokens + Flushed(buffer), [], true;
      } else if IsParen(c) {
        tokens, buffer := tokens + Flushed(buffer) + [[c]], [];
      } else if IsWhiteSpace(c) {
        tokens, buffer := tokens + Flushed(buffer), [];
      } else {
        buffer := buffer + [c];
      }
    }
    tokens := tokens + Flushed(buffer);
  }

  // ----- Blocks

  /** The first writer of a key wins. */
  function TryAdd(values: map<string, string>, key: string, value: string): map<string, string> {
    if key in values then values else values[key := value]
  }

  /** The rest of a block's body from position `i`, and the position after it. */
  function Body(casing: Casing, tokens: seq<string>, i: nat, kind: string,
                values: map<string, string>, children: seq<Block>): (r: (Block, nat))
    requires i <= |tokens|
    ensures i <= r.1 <= |tokens| && (i < |tokens| ==> i < r.1)
    decreases |tokens| - i
  {
    if i == |tokens| then (Block(kind, values, children), i)
    else if tokens[i] == ")" then (Block(kind, values, children), i + 1)
    else if tokens[i] == "(" then
      Body(casing, tokens, Body(casing, tokens, i + 1, "", map[], []).1, kind, values, children)
    else if i + 1 < |tokens| && tokens[i + 1] == "(" then
      var (child, next) := Body(casing, tokens, i + 2, Fold(casing.lower, tokens[i]), map[], []);
      Body(casing, tokens, next, kind, values, children + [child])
    else if i + 1 < |tokens| && tokens[i + 1] != ")" then
      Body(casing, tokens, i + 2, kind, TryAdd(values, Fold(casing.upper, tokens[i]), tokens[i + 1]), children)
    else Body(casing, tokens, i + 1, kind, values, children)
  }

  method ReadBody(casing: Casing, tokens: seq<string>, start: nat, kind: string) returns (block: Block, index: nat)
    requires start <= |tokens|
    ensures (block, index) == Body(casing, tokens, start, kind, map[], [])
    ensures start <= index <= |tokens|
    decreases |tokens| - start
  {
    index := start;
    var values: map<string, string>, children: seq<Block> := map[], [];
    while index < |tokens|
      invariant start <= index <= |tokens|
      invariant Body(casing, tokens, index, kind, values, children) == Body(casing, tokens, start, kind, map[], [])
      decreases |tokens| - index
    {
      var token := tokens[index];
      if token == ")" {
        return Block(kind, values, children), index + 1;
      }
      if token == "(" {
        var _, next := ReadBody(casing, tokens, index + 1, "");
        index := next;
      } else if index + 1 < |tokens| && tokens[index + 1] == "(" {
        var child, next := ReadBody(casing, tokens, index + 2, Fold(casing.lower, token));
        children, index := children + [child], next;
      } else if index + 1 < |tokens| && tokens[index + 1] != ")" {
        values := TryAdd(values, Fold(casing.upper, token), tokens[index + 1]);
        index := index + 2;
      } else {
        index := index + 1;
      }
    }
    block := Block(kind, values, children);
  }

  /** The next top-level block at or after `i`, and where to go on. */
  function NextBlock(casing: Casing, tokens: seq<string>, i: nat): (r: (Option<Block>, nat))
    requires i <= |tokens|
    ensures i <= r.1 <= |tokens| && (r.0.Some? ==> i < r.1) && (r.0.None? ==> r.1 == |tokens|)
    decreases |tokens| - i
  {
    if i == |tokens| then (None, i)
    else if tokens[i] == "(" || tokens[i] == ")" then NextBlock(casing, tokens, i + 1)
    else if i + 1 < |tokens| && tokens[i + 1] == "(" then
      var (block, next) := Body(casing, tokens, i + 2, Fold(casing.lower, tokens[i]), map[], []);
      (Some(block), next)
    else NextBlock(casing, tokens, i + 1)
  }

  method TryReadBlock(casing: Casing, tokens: seq<string>, start: nat) returns (block: Option<Block>, index: nat)
    requires start <= |tokens|
    ensures (block, index) == NextBlock(casing, tokens, start)
  {
    index := start;
    while index < |tokens|
      invariant start <= index <= |tokens|
      invariant NextBlock(casing, tokens, index) == NextBlock(casing, tokens, start)
      decreases |tokens| - index
    {
      if tokens[index] == "(" || tokens[index] == ")" {
        index := index + 1;
      } else if index + 1 < |tokens| && tokens[index + 1] == "(" {
        var b, next := ReadBody(casing, tokens, index + 2, Fold(casing.lower, tokens[index]));
        return Some(b), next;
      } else {
        index := index + 1;
      }
    }
    block := None;
  }

  function BlocksFrom(casing: Casing, tokens: seq<string>, i: nat): seq<Block>
    requires i <= |tokens|
    decreases |tokens| - i
  {
    var (block, next) := NextBlock(casing, tokens, i);
    if block.None? then [] else [block.value] + BlocksFrom(casing, tokens, next)
  }

  /** Every top-level block of a text, as the dialect's main loop collects them. */
  method ReadBlocks(casing: Casing, text: string) returns (blocks: seq<Block>)
    ensures blocks == BlocksFrom(casing, Tokens(text, [], false), 0)
  {
    var tokens := Tokenize(text);
    blocks := [];
    var index := 0;
    while true
      invariant 0 <= index <= |tokens|
      invariant blocks + BlocksFrom(casing, tokens, index) == BlocksFrom(casing, tokens, 0)
      decreases |tokens| - index
    {
      var block, next := TryReadBlock(casing, tokens, index);
      if block.None? {
        return;
      }
      blocks, index := blocks + [block.value], next;
    }
  }

  // ----- What is printed

  /**
   A block's contents: a key with a bare or quoted value, a nested block or a group without a
   kind, and what follows; at the end perhaps a key that has no value.
   */
  datatype Items =
    | End
    | LastKey(key: string)
    | Pair(key: string, value: string, quoted: bool, next: Items)
    | Nested(kind: string, body: Items, next: Items)
    | Group(body: Items, next: Items)

  /** A block, and the words and parentheses before it that belong to none. */
  datatype Node = Node(noise: seq<string>, kind: string, items: Items)

  function PrintValue(value: string, quoted: bool): string {
    if quoted then "\"" + value + "\"" else value
  }

  function PrintItems(items: Items): string {
    match items
    case End => []
    case LastKey(key) => " " + key
    case Pair(key, value, quoted, next) => " " + key + " " + PrintValue(value, quoted) + PrintItems(next)
    case Nested(kind, body, next) => " " + kind + " (" + PrintItems(body) + ")" + PrintItems(next)
    case Group(body, next) => " (" + PrintItems(body) + ")" + PrintItems(next)
  }

  function PrintNoise(noise: seq<string>): string {
    if noise == [] then [] else noise[0] + " " + PrintNoise(noise[1..])
  }

  function Print(node: Node): string {
    PrintNoise(node.noise) + (node.kind + " (" + PrintItems(node.items) + ")")
  }

  /** The blocks line by line, and what stands after the last one. */
  function PrintAll(forest: seq<Node>, tail: seq<string>): string {
    if forest == [] then PrintNoise(tail) else Print(forest[0]) + "\n" + PrintAll(forest[1..], tail)
  }

  predicate IsDelimiter(c: char) {
    c == '"' || IsParen(c) || IsWhiteSpace(c)
  }

  predicate IsBare(word: string) {
    word != [] && forall c :: c in word ==> !IsDelimiter(c)
  }

  predicate IsShown(value: string, quoted: bool) {
    if quoted then '"' !in value else IsBare(value)
  }

  /** What can be printed and read back: bare names and kinds in any case, values that are no parenthesis. */
  predicate Printable(items: Items) {
    match items
    case End => true
    case LastKey(key) => IsBare(key)
    case Pair(key, value, quoted, next) =>
      IsBare(key) && IsShown(value, quoted) && value != "(" && value != ")" && Printable(next)
    case Nested(kind, body, next) => IsBare(kind) && Printable(body) && Printable(next)
    case Group(body, next) => Printable(body) && Printable(next)
  }

  /** Bare words and parentheses in which no word is followed by an opening one. */
  predicate IsNoise(noise: seq<string>) {
    noise == [] || (
      && (IsBare(noise[0]) || noise[0] == "(" || noise[0] == ")")
      && (|noise| > 1 && noise[1] == "(" ==> !IsBare(noise[0]))
      && IsNoise(noise[1..]))
  }

  predicate PrintableForest(forest: seq<Node>) {
    forall n :: n in forest ==> IsNoise(n.noise) && IsBare(n.kind) && Printable(n.items)
  }

  /** The values a block's items amount to: of a repeated key, the first. */
  function ValuesOf(casing: Casing, items: Items): map<string, string> {
    match items
    case End => map[]
    case LastKey(_) => map[]
    case Pair(key, value, _, next) => ValuesOf(casing, next)[Fold(casing.upper, key) := value]
    case Nested(_, _, next) => ValuesOf(casing, next)
    case Group(_, next) => ValuesOf(casing, next)
  }

  function ChildrenOf(casing: Casing, items: Items): seq<Block> {
    match items
    case End => []
    case LastKey(_) => []
    case Pair(_, _, _, next) => ChildrenOf(casing, next)
    case Nested(kind, body, next) =>
      [Block(Fold(casing.lower, kind), ValuesOf(casing, body), ChildrenOf(casing, body))] + ChildrenOf(casing, next)
    case Group(_, next) => ChildrenOf(casing, next)
  }

  function BlockOf(casing: Casing, node: Node): Block {
    Block(Fold(casing.lower, node.kind), ValuesOf(casing, node.items), ChildrenOf(casing, node.items))
  }

  function ForestOf(casing: Casing, forest: seq<Node>): seq<Block> {
    if forest == [] then [] else [BlockOf(casing, forest[0])] + ForestOf(casing, forest[1..])
  }

  // ----- Printed text tokenises to the words it was made of

  /** The tokens of the items and of the parenthesis that closes them. */
  function ItemTokens(items: Items): (r: seq<string>)
    ensures |r| > 0
  {
    match items
    case End => [")"]
    case LastKey(key) => [key, ")"]
    case Pair(key, value, _, next) => [key, value] + ItemTokens(next)
    case Nested(kind, body, next) => [kind, "("] + (ItemTokens(body) + ItemTokens(next))
    case Group(body, next) => ["("] + (ItemTokens(body) + ItemTokens(next))
  }

  function ForestTokens(forest: seq<Node>, tail: seq<string>): seq<string> {
    if forest == [] then tail
    else forest[0].noise + ([forest[0].kind, "("] + (ItemTokens(forest[0].items) + ForestTokens(forest[1..], tail)))
  }

  /** A bare word ends at the delimiter that follows it. */
  lemma {:induction false} BareWord(word: string, before: string, rest: string)
    requires forall c :: c in word ==> !IsDelimiter(c)
    requires before + word != [] && rest != [] && IsDelimiter(rest[0])
    ensures Tokens(word + rest, before, false) == [before + word] + Tokens(rest, [], false)
    decreases |word|
  {
    if word == [] {
      assert word + rest == rest && before + word == before;
    } else {
      assert (word + rest)[0] == word[0] && (word + rest)[1..] == word[1..] + rest;
      assert before + [word[0]] + word[1..] == before + word;
      assert word[0] in word;
      BareWord(word[1..], before + [word[0]], rest);
    }
  }

  lemma {:induction false} QuotedWord(word: string, before: string, rest: string)
    requires '"' !in word
    ensures Tokens(word + "\"" + rest, before, true) == [before + word] + Tokens(rest, [], false)
    decreases |word|
  {
    var text := word + "\"" + rest;
    if word == [] {
      assert text == ['"'] + rest && before + word == before;
    } else {
      assert text[0] == word[0] && text[1..] == word[1..] + "\"" + rest;
      assert before + [word[0]] + word[1..] == before + word;
      QuotedWord(word[1..], before + [word[0]], rest);
    }
  }

  lemma OneDelimiter(rest: string)
    ensures Tokens(" " + rest, [], false) == Tokens(rest, [], false)
    ensures Tokens("\n" + rest, [], false) == Tokens(rest, [], false)
    ensures Tokens("\"" + rest, [], false) == Tokens(rest, [], true)
    ensures Tokens("(" + rest, [], false) == ["("] + Tokens(rest, [], false)
    ensures Tokens(")" + rest, [], false) == [")"] + Tokens(rest, [], false)
  {
    assert (" " + rest)[1..] == rest && ("\n" + rest)[1..] == rest && ("\"" + rest)[1..] == rest;
    assert ("(" + rest)[1..] == rest && (")" + rest)[1..] == rest;
  }

  lemma ValueToken(value: string, quoted: bool, rest: string)
    requires IsShown(value, quoted) && rest != [] && IsDelimiter(rest[0])
    ensures Tokens(PrintValue(value, quoted) + rest, [], false) == [value] + Tokens(rest, [], false)
  {
    assert [] + value == value;
    if quoted {
      assert PrintValue(value, quoted) + rest == "\"" + (value + "\"" + rest);
      OneDelimiter(value + "\"" + rest);
      QuotedWord(value, [], rest);
    } else {
      BareWord(value, [], rest);
    }
  }

  /** A key, a space and a value are two tokens. */
  lemma PairTokens(key: string, value: string, quoted: bool, rest: string)
    requires IsBare(key) && IsShown(value, quoted) && rest != [] && IsDelimiter(rest[0])
    ensures Tokens(" " + key + " " + PrintValue(value, quoted) + rest, [], false) == [key, value] + Tokens(rest, [], false)
  {
    hide Tokens, PrintValue, IsBare, IsShown;
    var shown := PrintValue(value, quoted);
    var two := " " + (shown + rest);
    assert " " + key + " " + shown + rest == " " + (key + two);
    OneDelimiter(key + two);
    BareKey(key, two);
    OneDelimiter(shown + rest);
    ValueToken(value, quoted, rest);
    assert [key] + ([value] + Tokens(rest, [], false)) == [key, value] + Tokens(rest, [], false);
  }

  lemma BareKey(key: string, rest: string)
    requires IsBare(key) && rest != [] && IsDelimiter(rest[0])
    ensures Tokens(key + rest, [], false) == [key] + Tokens(rest, [], false)
  {
    assert [] + key == key;
    BareWord(key, [], rest);
  }

  /** A kind and the parenthesis that opens its block are two tokens. */
  lemma OpeningTokens(kind: string, rest: string)
    requires IsBare(kind)
    ensures Tokens(kind + " (" + rest, [], false) == [kind, "("] + Tokens(rest, [], false)
    ensures Tokens(" " + kind + " (" + rest, [], false) == [kind, "("] + Tokens(rest, [], false)
  {
    hide Tokens, IsBare;
    assert kind + " (" + rest == kind + (" " + ("(" + rest));
    assert " " + kind + " (" + rest == " " + (kind + " (" + rest);
    OneDelimiter(kind + " (" + rest);
    BareKey(kind, " " + ("(" + rest));
    OneDelimiter("(" + rest);
    OneDelimiter(rest);
    assert [kind] + (["("] + Tokens(rest, [], false)) == [kind, "("] + Tokens(rest, [], false);
  }

  lemma PrintedStartsWithDelimiter(items: Items, rest: string)
    ensures var text := PrintItems(items) + (")" + rest); text != [] && IsDelimiter(text[0])
  {
  }

  lemma JoinTokens(a: seq<string>, b: seq<string>, c: seq<string>, d: seq<string>)
    ensures a + (b + (c + d)) == a + (b + c) + d && a + (b + d) == a + b + d
  {
  }

  lemma NothingPrints(rest: string)
    ensures PrintItems(End) + rest == rest
  {
  }

  lemma PairPrints(key: string, value: string, quoted: bool, next: Items, rest: string)
    ensures PrintItems(Pair(key, value, quoted, next)) + rest ==
            " " + key + " " + PrintValue(value, quoted) + (PrintItems(next) + rest)
  {
    hide PrintValue;
  }

  lemma NestedPrints(kind: string, body: Items, next: Items, rest: string)
    ensures PrintItems(Nested(kind, body, next)) + rest ==
            " " + kind + " (" + (PrintItems(body) + (")" + (PrintItems(next) + rest)))
  {
  }

  lemma LastKeyPrints(key: string, rest: string)
    ensures PrintItems(LastKey(key)) + rest == " " + (key + rest)
  {
  }

  lemma GroupPrints(body: Items, next: Items, rest: string)
    ensures PrintItems(Group(body, next)) + rest == " " + ("(" + (PrintItems(body) + (")" + (PrintItems(next) + rest))))
  {
  }

  lemma {:induction false} ItemsTokenise(items: Items, rest: string)
    requires Printable(items)
    ensures Tokens(PrintItems(items) + (")" + rest), [], false) == ItemTokens(items) + Tokens(rest, [], false)
    decreases items
  {
    hide Tokens, PrintValue, IsBare, IsShown, PrintItems;
    match items
    case End =>
      NothingPrints(")" + rest);
      OneDelimiter(rest);
    case LastKey(key) =>
      LastKeyPrints(key, ")" + rest);
      OneDelimiter(key + (")" + rest));
      BareKey(key, ")" + rest);
      OneDelimiter(rest);
      assert [key] + ([")"] + Tokens(rest, [], false)) == [key, ")"] + Tokens(rest, [], false);
    case Pair(key, value, quoted, next) =>
      var after := PrintItems(next) + (")" + rest);
      ItemsTokenise(next, rest);
      PrintedStartsWithDelimiter(next, rest);
      PairTokens(key, value, quoted, after);
      PairPrints(key, value, quoted, next, ")" + rest);
      JoinTokens([key, value], ItemTokens(next), [], Tokens(rest, [], false));
    case Nested(kind, body, next) =>
      var after := PrintItems(next) + (")" + rest);
      var inner := PrintItems(body) + (")" + after);
      ItemsTokenise(next, rest);
      ItemsTokenise(body, after);
      OpeningTokens(kind, inner);
      NestedPrints(kind, body, next, ")" + rest);
      JoinTokens([kind, "("], ItemTokens(body), ItemTokens(next), Tokens(rest, [], false));
    case Group(body, next) =>
      var after := PrintItems(next) + (")" + rest);
      var inner := PrintItems(body) + (")" + after);
      ItemsTokenise(next, rest);
      ItemsTokenise(body, after);
      GroupPrints(body, next, ")" + rest);
      OneDelimiter("(" + inner);
      OneDelimiter(inner);
      JoinTokens(["("], ItemTokens(body), ItemTokens(next), Tokens(rest, [], false));
  }

  lemma NoisePrints(word: string, noise: seq<string>, rest: string)
    ensures PrintNoise([word] + noise) + rest == word + (" " + (PrintNoise(noise) + rest))
  {
    assert ([word] + noise)[1..] == noise;
  }

  lemma {:induction false} NoiseTokenises(noise: seq<string>, rest: string)
    requires IsNoise(noise)
    ensures Tokens(PrintNoise(noise) + rest, [], false) == noise + Tokens(rest, [], false)
    decreases |noise|
  {
    if noise == [] {
      assert PrintNoise(noise) + rest == rest;
    } else {
      hide Tokens, IsBare, PrintNoise;
      var after := PrintNoise(noise[1..]) + rest;
      assert noise == [noise[0]] + noise[1..];
      NoisePrints(noise[0], noise[1..], rest);
      NoiseTokenises(noise[1..], rest);
      OneDelimiter(after);
      OneDelimiter(" " + after);
      if IsBare(noise[0]) {
        BareKey(noise[0], " " + after);
      }
      JoinTokens([noise[0]], noise[1..], [], Tokens(rest, [], false));
    }
  }

  lemma ForestPrints(n: Node, others: string)
    ensures Print(n) + "\n" + others ==
            PrintNoise(n.noise) + (n.kind + " (" + (PrintItems(n.items) + (")" + ("\n" + others))))
  {
    hide PrintNoise, PrintItems;
  }

  lemma {:induction false} ForestTokenises(forest: seq<Node>, tail: seq<string>)
    requires PrintableForest(forest) && IsNoise(tail)
    ensures Tokens(PrintAll(forest, tail), [], false) == ForestTokens(forest, tail)
    decreases |forest|
  {
    if forest == [] {
      assert Tokens([], [], false) == [];
      assert PrintNoise(tail) + [] == PrintNoise(tail) && tail + [] == tail;
      NoiseTokenises(tail, []);
    } else {
      hide Tokens, IsBare, Printable, PrintItems, ItemTokens, Print, PrintNoise, IsNoise;
      var n, others := forest[0], PrintAll(forest[1..], tail);
      var after := "\n" + others;
      var inner := PrintItems(n.items) + (")" + after);
      ForestTokenises(forest[1..], tail);
      OneDelimiter(others);
      ItemsTokenise(n.items, after);
      OpeningTokens(n.kind, inner);
      NoiseTokenises(n.noise, n.kind + " (" + inner);
      ForestPrints(n, others);
    }
  }

  // ----- Tokens of a block are read back as the block

  /** The tokens from `i` begin with `part`. */
  ghost predicate At(tokens: seq<string>, i: nat, part: seq<string>) {
    i + |part| <= |tokens| && tokens[i..i + |part|] == part
  }

  lemma AtSplit(tokens: seq<string>, i: nat, a: seq<string>, b: seq<string>)
    requires At(tokens, i, a + b)
    ensures At(tokens, i, a) && At(tokens, i + |a|, b)
  {
    assert tokens[i..i + |a|] == (a + b)[..|a|];
    assert tokens[i + |a|..i + |a| + |b|] == (a + b)[|a|..];
  }

  lemma AtPair(tokens: seq<string>, i: nat, first: string, second: string, rest: seq<string>)
    requires At(tokens, i, [first, second] + rest)
    ensures i + 2 <= |tokens| && tokens[i] == first && tokens[i + 1] == second && At(tokens, i + 2, rest)
  {
    AtSplit(tokens, i, [first, second], rest);
    assert tokens[i] == tokens[i..i + 2][0] && tokens[i + 1] == tokens[i..i + 2][1];
  }

  lemma BareIsNoParen(word: string)
    requires IsBare(word)
    ensures word != "(" && word != ")"
  {
    assert word[0] in word;
  }

  predicate IsWord(token: string) {
    token != "(" && token != ")"
  }

  lemma BodyAtPair(casing: Casing, tokens: seq<string>, i: nat, kind: string,
                   values: map<string, string>, children: seq<Block>)
    requires i + 1 < |tokens| && IsWord(tokens[i]) && IsWord(tokens[i + 1])
    ensures Body(casing, tokens, i, kind, values, children)
         == Body(casing, tokens, i + 2, kind, TryAdd(values, Fold(casing.upper, tokens[i]), tokens[i + 1]), children)
  {
  }

  lemma BodyAtLastKey(casing: Casing, tokens: seq<string>, i: nat, kind: string,
                      values: map<string, string>, children: seq<Block>)
    requires i + 1 < |tokens| && IsWord(tokens[i]) && tokens[i + 1] == ")"
    ensures Body(casing, tokens, i, kind, values, children) == (Block(kind, values, children), i + 2)
  {
    assert Body(casing, tokens, i + 1, kind, values, children) == (Block(kind, values, children), i + 2);
  }

  lemma BodyAtGroup(casing: Casing, tokens: seq<string>, i: nat, kind: string,
                    values: map<string, string>, children: seq<Block>)
    requires i < |tokens| && tokens[i] == "("
    ensures Body(casing, tokens, i, kind, values, children)
         == Body(casing, tokens, Body(casing, tokens, i + 1, "", map[], []).1, kind, values, children)
  {
  }

  lemma BodyAtNested(casing: Casing, tokens: seq<string>, i: nat, kind: string,
                     values: map<string, string>, children: seq<Block>)
    requires i + 1 < |tokens| && IsWord(tokens[i]) && tokens[i + 1] == "("
    ensures var (child, next) := Body(casing, tokens, i + 2, Fold(casing.lower, tokens[i]), map[], []);
            Body(casing, tokens, i, kind, values, children) == Body(casing, tokens, next, kind, values, children + [child])
  {
  }

  /** The block that a body with these items comes to, and the position after it. */
  ghost function Expected(casing: Casing, i: nat, kind: string, values: map<string, string>,
                          children: seq<Block>, items: Items): (Block, nat)
  {
    (Block(kind, ValuesOf(casing, items) + values, children + ChildrenOf(casing, items)), i + |ItemTokens(items)|)
  }

  /** Adding a key now and the rest later comes to adding them all. */
  lemma ExpectedAtPair(casing: Casing, i: nat, kind: string, values: map<string, string>,
                       children: seq<Block>, items: Items)
    requires items.Pair?
    ensures Expected(casing, i, kind, values, children, items)
         == Expected(casing, i + 2, kind, TryAdd(values, Fold(casing.upper, items.key), items.value), children, items.next)
  {
    assert ValuesOf(casing, items) + values
        == ValuesOf(casing, items.next) + TryAdd(values, Fold(casing.upper, items.key), items.value);
  }

  lemma ExpectedAtNested(casing: Casing, i: nat, kind: string, values: map<string, string>,
                         children: seq<Block>, items: Items)
    requires items.Nested?
    ensures var (child, next) := Expected(casing, i + 2, Fold(casing.lower, items.kind), map[], [], items.body);
            Expected(casing, i, kind, values, children, items) ==
            Expected(casing, next, kind, values, children + [child], items.next)
  {
    var child := Block(Fold(casing.lower, items.kind), ValuesOf(casing, items.body), ChildrenOf(casing, items.body));
    assert ValuesOf(casing, items.body) + map[] == ValuesOf(casing, items.body);
    assert [] + ChildrenOf(casing, items.body) == ChildrenOf(casing, items.body);
    AppendChild(children, child, ChildrenOf(casing, items.next));
  }

  lemma AppendChild(children: seq<Block>, child: Block, rest: seq<Block>)
    ensures children + ([child] + rest) == children + [child] + rest
  {
  }

  lemma ExpectedAtGroup(casing: Casing, i: nat, kind: string, values: map<string, string>,
                        children: seq<Block>, items: Items)
    requires items.Group?
    ensures Expected(casing, i, kind, values, children, items)
         == Expected(casing, i + 1 + |ItemTokens(items.body)|, kind, values, children, items.next)
  {
  }

  /** The two ends of a block: the parenthesis, and a key without a value before it. */
  lemma BodyEnds(casing: Casing, tokens: seq<string>, i: nat, kind: string,
                 values: map<string, string>, children: seq<Block>, items: Items)
    requires items.End? || items.LastKey?
    requires Printable(items) && At(tokens, i, ItemTokens(items))
    ensures i <= |tokens|
    ensures Body(casing, tokens, i, kind, values, children) == Expected(casing, i, kind, values, children, items)
  {
    hide IsBare, At;
    if items.End? {
      AtFirst(tokens, i, ")");
    } else {
      assert ItemTokens(items) == [items.key, ")"] + [];
      AtPair(tokens, i, items.key, ")", []);
      BareIsNoParen(items.key);
      BodyAtLastKey(casing, tokens, i, kind, values, children);
    }
    assert ValuesOf(casing, items) + values == values && children + ChildrenOf(casing, items) == children;
  }

  lemma ExpectedEnds(casing: Casing, i: nat, kind: string, items: Items)
    ensures Expected(casing, i, kind, map[], [], items).1 == i + |ItemTokens(items)|
  {
  }

  lemma ItemsAre(items: Items)
    requires Printable(items)
    ensures items.Pair? ==>
              && IsBare(items.key) && IsWord(items.value) && Printable(items.next)
              && ItemTokens(items) == [items.key, items.value] + ItemTokens(items.next)
    ensures items.Nested? || items.Group? ==> Printable(items.body) && Printable(items.next)
    ensures items.Nested? ==>
              IsBare(items.kind) && ItemTokens(items) == [items.kind, "("] + (ItemTokens(items.body) + ItemTokens(items.next))
    ensures items.Group? ==> ItemTokens(items) == ["("] + (ItemTokens(items.body) + ItemTokens(items.next))
  {
    hide IsBare, IsShown;
  }

  lemma {:induction false} BodyReads(casing: Casing, tokens: seq<string>, i: nat, kind: string,
                                     values: map<string, string>, children: seq<Block>, items: Items)
    requires Printable(items) && At(tokens, i, ItemTokens(items))
    ensures i <= |tokens|
    ensures Body(casing, tokens, i, kind, values, children) == Expected(casing, i, kind, values, children, items)
    decreases items
  {
    hide IsBare, IsShown, At, Body, TryAdd, ValuesOf, ChildrenOf, Expected, ItemTokens, Printable;
    ItemsAre(items);
    match items
    case End => BodyEnds(casing, tokens, i, kind, values, children, items);
    case LastKey(_) => BodyEnds(casing, tokens, i, kind, values, children, items);
    case Pair(key, value, _, next) =>
      AtPair(tokens, i, key, value, ItemTokens(next));
      BareIsNoParen(key);
      BodyAtPair(casing, tokens, i, kind, values, children);
      BodyReads(casing, tokens, i + 2, kind, TryAdd(values, Fold(casing.upper, key), value), children, next);
      ExpectedAtPair(casing, i, kind, values, children, items);
    case Nested(inner, body, next) =>
      var lower := Fold(casing.lower, inner);
      AtPair(tokens, i, inner, "(", ItemTokens(body) + ItemTokens(next));
      AtSplit(tokens, i + 2, ItemTokens(body), ItemTokens(next));
      BareIsNoParen(inner);
      BodyReads(casing, tokens, i + 2, lower, map[], [], body);
      ExpectedEnds(casing, i + 2, lower, body);
      var child := Expected(casing, i + 2, lower, map[], [], body).0;
      BodyAtNested(casing, tokens, i, kind, values, children);
      BodyReads(casing, tokens, i + 2 + |ItemTokens(body)|, kind, values, children + [child], next);
      ExpectedAtNested(casing, i, kind, values, children, items);
    case Group(body, next) =>
      AtSplit(tokens, i, ["("], ItemTokens(body) + ItemTokens(next));
      AtFirst(tokens, i, "(");
      AtSplit(tokens, i + 1, ItemTokens(body), ItemTokens(next));
      BodyReads(casing, tokens, i + 1, "", map[], [], body);
      ExpectedEnds(casing, i + 1, "", body);
      BodyAtGroup(casing, tokens, i, kind, values, children);
      BodyReads(casing, tokens, i + 1 + |ItemTokens(body)|, kind, values, children, next);
      ExpectedAtGroup(casing, i, kind, values, children, items);
  }

  lemma AtFirst(tokens: seq<string>, i: nat, token: string)
    requires At(tokens, i, [token])
    ensures i < |tokens| && tokens[i] == token
  {
    assert tokens[i] == tokens[i..i + 1][0];
  }

  lemma {:induction false} WholeBody(casing: Casing, tokens: seq<string>, i: nat, kind: string, items: Items)
    requires Printable(items) && At(tokens, i, ItemTokens(items))
    ensures i <= |tokens| && Body(casing, tokens, i, kind, map[], [])
         == (Block(kind, ValuesOf(casing, items), ChildrenOf(casing, items)), i + |ItemTokens(items)|)
  {
    hide Body, ItemTokens, Printable, ValuesOf, ChildrenOf, At;
    BodyReads(casing, tokens, i, kind, map[], [], items);
    assert ValuesOf(casing, items) + map[] == ValuesOf(casing, items);
    assert [] + ChildrenOf(casing, items) == ChildrenOf(casing, items);
  }

  lemma AtEnd(tokens: seq<string>, i: nat, part: seq<string>)
    requires i <= |tokens| && tokens[i..] == part
    ensures At(tokens, i, part)
  {
    assert tokens[i..i + |part|] == tokens[i..];
  }

  lemma NextAtKind(casing: Casing, tokens: seq<string>, i: nat, node: Node, rest: seq<string>)
    requires IsBare(node.kind) && Printable(node.items)
    requires At(tokens, i, [node.kind, "("] + (ItemTokens(node.items) + rest))
    ensures i <= |tokens|
    ensures NextBlock(casing, tokens, i) == (Some(BlockOf(casing, node)), i + 2 + |ItemTokens(node.items)|)
  {
    hide Body, IsBare, ItemTokens, Printable, ValuesOf, ChildrenOf, At;
    AtPair(tokens, i, node.kind, "(", ItemTokens(node.items) + rest);
    AtSplit(tokens, i + 2, ItemTokens(node.items), rest);
    BareIsNoParen(node.kind);
    WholeBody(casing, tokens, i + 2, Fold(casing.lower, node.kind), node.items);
  }

  /** The scan passes over noise, up to a word or the end. */
  lemma {:induction false} NextAfterNoise(casing: Casing, tokens: seq<string>, i: nat, noise: seq<string>)
    requires IsNoise(noise) && At(tokens, i, noise)
    requires i + |noise| < |tokens| ==> tokens[i + |noise|] != "("
    ensures i + |noise| <= |tokens|
    ensures NextBlock(casing, tokens, i) == NextBlock(casing, tokens, i + |noise|)
    decreases |noise|
  {
    hide Body, IsBare;
    if noise != [] {
      assert tokens[i..i + |noise|][0] == tokens[i];
      if |noise| > 1 {
        assert tokens[i..i + |noise|][1] == tokens[i + 1];
      }
      assert tokens[i + 1..i + 1 + |noise[1..]|] == noise[1..];
      NextAfterNoise(casing, tokens, i + 1, noise[1..]);
    }
  }

  lemma NextAtNode(casing: Casing, tokens: seq<string>, i: nat, node: Node, rest: seq<string>)
    requires IsNoise(node.noise) && IsBare(node.kind) && Printable(node.items)
    requires At(tokens, i, node.noise + ([node.kind, "("] + (ItemTokens(node.items) + rest)))
    ensures i <= |tokens|
    ensures NextBlock(casing, tokens, i)
         == (Some(BlockOf(casing, node)), i + |node.noise| + 2 + |ItemTokens(node.items)|)
  {
    hide NextBlock, IsNoise, IsBare, ItemTokens, Printable, BlockOf, At;
    var j := i + |node.noise|;
    AtSplit(tokens, i, node.noise, [node.kind, "("] + (ItemTokens(node.items) + rest));
    AtPair(tokens, j, node.kind, "(", ItemTokens(node.items) + rest);
    BareIsNoParen(node.kind);
    NextAfterNoise(casing, tokens, i, node.noise);
    NextAtKind(casing, tokens, j, node, rest);
  }

  lemma NoBlocksLeft(casing: Casing, tokens: seq<string>, i: nat)
    requires i <= |tokens| && IsNoise(tokens[i..])
    ensures BlocksFrom(casing, tokens, i) == []
  {
    hide IsNoise;
    AtEnd(tokens, i, tokens[i..]);
    NextAfterNoise(casing, tokens, i, tokens[i..]);
  }

  lemma BlocksStep(casing: Casing, tokens: seq<string>, i: nat)
    requires i <= |tokens| && NextBlock(casing, tokens, i).0.Some?
    ensures BlocksFrom(casing, tokens, i) ==
            [NextBlock(casing, tokens, i).0.value] + BlocksFrom(casing, tokens, NextBlock(casing, tokens, i).1)
  {
    hide NextBlock;
  }

  lemma TokensAfterNode(tokens: seq<string>, i: nat, noise: seq<string>, kind: string, body: seq<string>, rest: seq<string>)
    requires i <= |tokens| && tokens[i..] == noise + ([kind, "("] + (body + rest))
    ensures i + |noise| + 2 + |body| <= |tokens| && tokens[i + |noise| + 2 + |body|..] == rest
  {
    var n := |noise| + 2 + |body|;
    assert tokens[i + n..] == tokens[i..][n..];
    assert (noise + ([kind, "("] + (body + rest)))[n..] == rest;
  }

  lemma {:induction false} ForestReads(casing: Casing, tokens: seq<string>, i: nat, forest: seq<Node>, tail: seq<string>)
    requires PrintableForest(forest) && IsNoise(tail) && i <= |tokens| && tokens[i..] == ForestTokens(forest, tail)
    ensures BlocksFrom(casing, tokens, i) == ForestOf(casing, forest)
    decreases |forest|
  {
    hide Body, IsBare, ItemTokens, Printable, BlockOf, NextBlock, At, BlocksFrom, IsNoise;
    if forest == [] {
      NoBlocksLeft(casing, tokens, i);
    } else {
      var n, body, rest := forest[0], ItemTokens(forest[0].items), ForestTokens(forest[1..], tail);
      AtEnd(tokens, i, n.noise + ([n.kind, "("] + (body + rest)));
      NextAtNode(casing, tokens, i, n, rest);
      TokensAfterNode(tokens, i, n.noise, n.kind, body, rest);
      BlocksStep(casing, tokens, i);
      ForestReads(casing, tokens, i + |n.noise| + 2 + |body|, forest[1..], tail);
    }
  }

  /**
   Printing any forest and reading the text gives the forest back, each kind in lower case, and
   nothing of the words and parentheses between the blocks or of the groups without a kind.
   */
  lemma ReadsBackWhatWasPrinted(casing: Casing, forest: seq<Node>, tail: seq<string>)
    requires PrintableForest(forest) && IsNoise(tail)
    ensures BlocksFrom(casing, Tokens(PrintAll(forest, tail), [], false), 0) == ForestOf(casing, forest)
  {
    ForestTokenises(forest, tail);
    ForestReads(casing, ForestTokens(forest, tail), 0, forest, tail);
  }

  // ----- What is asked of a block, and texts that break off

  /** The value of the first pair whose key is the one asked for, case aside. */
  function FirstValue(casing: Casing, items: Items, key: string): Option<string> {
    match items
    case End => None
    case LastKey(_) => None
    case Pair(k, value, _, next) =>
      if Fold(casing.upper, k) == Fold(casing.upper, key) then Some(value) else FirstValue(casing, next, key)
    case Nested(_, _, next) => FirstValue(casing, next, key)
    case Group(_, next) => FirstValue(casing, next, key)
  }

  /** A block answers every spelling of a key with the first value given for it. */
  lemma {:induction false} AnswersAnyCase(casing: Casing, kind: string, children: seq<Block>, items: Items, key: string)
    ensures Block(kind, ValuesOf(casing, items), children).Value(casing, key) == FirstValue(casing, items, key)
    decreases items
  {
    match items
    case End =>
    case LastKey(_) =>
    case Pair(_, _, _, next) => AnswersAnyCase(casing, kind, children, next, key);
    case Nested(_, _, next) => AnswersAnyCase(casing, kind, children, next, key);
    case Group(_, next) => AnswersAnyCase(casing, kind, children, next, key);
  }

  /** The tokens of a block whose last parenthesis is missing. */
  function Unclosed(items: Items): seq<string> {
    ItemTokens(items)[..|ItemTokens(items)| - 1]
  }

  lemma UnclosedStep(first: seq<string>, items: Items)
    ensures (first + ItemTokens(items))[..|first + ItemTokens(items)| - 1] == first + Unclosed(items)
  {
  }

  lemma RestOf(tokens: seq<string>, i: nat, first: seq<string>, rest: seq<string>)
    requires i <= |tokens| && tokens[i..] == first + rest
    ensures i + |first| <= |tokens| && tokens[i + |first|..] == rest && At(tokens, i, first)
  {
    assert tokens[i..i + |first|] == tokens[i..][..|first|] == first;
    assert tokens[i + |first|..] == tokens[i..][|first|..];
  }

  lemma NestedTokens(items: Items)
    requires items.Nested? || items.Group?
    ensures Unclosed(items) ==
            (if items.Nested? then [items.kind, "("] else ["("]) + ItemTokens(items.body) + Unclosed(items.next)
  {
    hide ItemTokens;
    var first := if items.Nested? then [items.kind, "("] else ["("];
    var (body, next) := (ItemTokens(items.body), ItemTokens(items.next));
    assert ItemTokens(items) == first + body + next by {
      NestedAre(items);
    }
    UnclosedStep(first + body, items.next);
  }

  lemma NestedAre(items: Items)
    requires items.Nested? || items.Group?
    ensures ItemTokens(items) ==
            (if items.Nested? then [items.kind, "("] else ["("]) + ItemTokens(items.body) + ItemTokens(items.next)
  {
  }

  lemma UnclosedEnds(casing: Casing, tokens: seq<string>, i: nat, kind: string,
                     values: map<string, string>, children: seq<Block>, items: Items)
    requires items.End? || items.LastKey?
    requires Printable(items) && i <= |tokens| && tokens[i..] == Unclosed(items)
    ensures Body(casing, tokens, i, kind, values, children).0 == Expected(casing, i, kind, values, children, items).0
  {
    if items.LastKey? {
      assert tokens[i] == tokens[i..][0] == items.key && |tokens| == i + 1;
      BareIsNoParen(items.key);
      assert Body(casing, tokens, i + 1, kind, values, children).0 == Block(kind, values, children);
    }
    assert ValuesOf(casing, items) + values == values && children + ChildrenOf(casing, items) == children;
  }

  /** A block at the end of the text reads the same without its last parenthesis. */
  lemma {:induction false} UnclosedReads(casing: Casing, tokens: seq<string>, i: nat, kind: string,
                                         values: map<string, string>, children: seq<Block>, items: Items)
    requires Printable(items) && i <= |tokens| && tokens[i..] == Unclosed(items)
    ensures Body(casing, tokens, i, kind, values, children).0 == Expected(casing, i, kind, values, children, items).0
    decreases items
  {
    hide IsBare, IsShown, At, Body, TryAdd, ValuesOf, ChildrenOf, Unclosed, Expected, ItemTokens;
    match items
    case End => UnclosedEnds(casing, tokens, i, kind, values, children, items);
    case LastKey(_) => UnclosedEnds(casing, tokens, i, kind, values, children, items);
    case Pair(key, value, _, next) =>
      UnclosedPair(items);
      RestOf(tokens, i, [key, value], Unclosed(next));
      assert [key, value] == [key, value] + [];
      AtPair(tokens, i, key, value, []);
      BareIsNoParen(key);
      BodyAtPair(casing, tokens, i, kind, values, children);
      UnclosedReads(casing, tokens, i + 2, kind, TryAdd(values, Fold(casing.upper, key), value), children, next);
      ExpectedAtPair(casing, i, kind, values, children, items);
    case Nested(inner, body, next) =>
      var lower := Fold(casing.lower, inner);
      NestedTokens(items);
      RestOf(tokens, i, [inner, "("] + ItemTokens(body), Unclosed(next));
      AtSplit(tokens, i, [inner, "("], ItemTokens(body));
      AtPair(tokens, i, inner, "(", ItemTokens(body));
      BareIsNoParen(inner);
      BodyReads(casing, tokens, i + 2, lower, map[], [], body);
      ExpectedEnds(casing, i + 2, lower, body);
      var child := Expected(casing, i + 2, lower, map[], [], body).0;
      BodyAtNested(casing, tokens, i, kind, values, children);
      UnclosedReads(casing, tokens, i + 2 + |ItemTokens(body)|, kind, values, children + [child], next);
      ExpectedAtNested(casing, i, kind, values, children, items);
    case Group(body, next) =>
      NestedTokens(items);
      RestOf(tokens, i, ["("] + ItemTokens(body), Unclosed(next));
      AtSplit(tokens, i, ["("], ItemTokens(body));
      AtFirst(tokens, i, "(");
      BodyReads(casing, tokens, i + 1, "", map[], [], body);
      ExpectedEnds(casing, i + 1, "", body);
      BodyAtGroup(casing, tokens, i, kind, values, children);
      UnclosedReads(casing, tokens, i + 1 + |ItemTokens(body)|, kind, values, children, next);
      ExpectedAtGroup(casing, i, kind, values, children, items);
  }

  lemma UnclosedPair(items: Items)
    requires items.Pair?
    ensures Unclosed(items) == [items.key, items.value] + Unclosed(items.next)
  {
    UnclosedStep([items.key, items.value], items.next);
  }

  /** White space of any kind separates and is no token. */
  lemma WhiteSpaceSeparates(space: char, rest: string)
    requires IsWhiteSpace(space)
    ensures Tokens([space] + rest, [], false) == Tokens(rest, [], false)
  {
    assert ([space] + rest)[1..] == rest;
  }

  /** A quotation that is never closed is a token up to the end, unless there is nothing in it. */
  lemma {:induction false} UnclosedQuotation(word: string, before: string)
    requires '"' !in word
    ensures Tokens(word, before, true) == if before + word == [] then [] else [before + word]
    decreases |word|
  {
    if word == [] {
      assert before + word == before;
    } else {
      assert before + [word[0]] + word[1..] == before + word;
      UnclosedQuotation(word[1..], before + [word[0]]);
    }
  }

  // ----- Quoted values

  lemma OnePairTokens(kind: string, key: string, value: string)
    requires IsBare(kind) && IsBare(key) && '"' !in value
    ensures Tokens(Print(Node([], kind, Pair(key, value, true, End))), [], false) == [kind, "(", key, value, ")"]
  {
    hide IsBare;
    var inner := " " + key + " " + PrintValue(value, true) + ")";
    assert ")" == ")" + [] && Tokens([], [], false) == [];
    OneDelimiter([]);
    PairTokens(key, value, true, ")");
    OpeningTokens(kind, inner);
    assert PrintItems(End) == [];
    assert PrintItems(Pair(key, value, true, End)) == " " + key + " " + PrintValue(value, true);
    assert Print(Node([], kind, Pair(key, value, true, End))) == kind + " (" + inner;
  }

  /**
   Tokens do not remember their quotes: the one quoted value of a block comes back exactly
   when it is not a lone parenthesis, which is read as structure instead.
   */
  lemma QuotedParenIsLost(casing: Casing, kind: string, key: string, value: string)
    requires IsBare(kind) && IsBare(key) && '"' !in value
    ensures var node := Node([], kind, Pair(key, value, true, End));
            NextBlock(casing, Tokens(Print(node), [], false), 0).0 == Some(BlockOf(casing, node)) <==> IsWord(value)
  {
    var node := Node([], kind, Pair(key, value, true, End));
    var tokens, folded := [kind, "(", key, value, ")"], Fold(casing.lower, kind);
    OnePairTokens(kind, key, value);
    BareIsNoParen(kind);
    BareIsNoParen(key);
    if IsWord(value) {
      assert tokens == node.noise + ([kind, "("] + (ItemTokens(node.items) + []));
      AtEnd(tokens, 0, tokens);
      NextAtNode(casing, tokens, 0, node, []);
    } else if value == ")" {
      assert Body(casing, tokens, 3, folded, map[], []) == (Block(folded, map[], []), 4);
      assert Body(casing, tokens, 2, folded, map[], []) == (Block(folded, map[], []), 4);
      assert Fold(casing.upper, key) in ValuesOf(casing, node.items);
    } else {
      var child := Block(Fold(casing.lower, key), map[], []);
      assert Body(casing, tokens, 4, child.kind, map[], []) == (child, 5);
      BodyAtNested(casing, tokens, 2, folded, map[], []);
      assert [] + [child] == [child];
      assert ChildrenOf(casing, node.items) == [];
    }
  }

  // ----- Which forests are read back

  /** A block none of whose values, at any depth, is a lone parenthesis. */
  predicate NoParens(block: Block) {
    && (forall key :: key in block.values ==> IsWord(block.values[key]))
    && forall child :: child in block.children ==> NoParens(child)
  }

  lemma {:induction false} BodyHasNoParens(casing: Casing, tokens: seq<string>, i: nat, kind: string,
                                           values: map<string, string>, children: seq<Block>)
    requires i <= |tokens| && NoParens(Block(kind, values, children))
    ensures NoParens(Body(casing, tokens, i, kind, values, children).0)
    decreases |tokens| - i
  {
    if i == |tokens| || tokens[i] == ")" {
    } else if tokens[i] == "(" {
      BodyHasNoParens(casing, tokens, Body(casing, tokens, i + 1, "", map[], []).1, kind, values, children);
    } else if i + 1 < |tokens| && tokens[i + 1] == "(" {
      var (child, next) := Body(casing, tokens, i + 2, Fold(casing.lower, tokens[i]), map[], []);
      BodyHasNoParens(casing, tokens, i + 2, Fold(casing.lower, tokens[i]), map[], []);
      BodyHasNoParens(casing, tokens, next, kind, values, children + [child]);
    } else if i + 1 < |tokens| && tokens[i + 1] != ")" {
      var added := TryAdd(values, Fold(casing.upper, tokens[i]), tokens[i + 1]);
      BodyHasNoParens(casing, tokens, i + 2, kind, added, children);
    } else {
      BodyHasNoParens(casing, tokens, i + 1, kind, values, children);
    }
  }

  lemma {:induction false} NextHasNoParens(casing: Casing, tokens: seq<string>, i: nat)
    requires i <= |tokens|
    ensures var block := NextBlock(casing, tokens, i).0; block.Some? ==> NoParens(block.value)
    decreases |tokens| - i
  {
    hide Body, NoParens;
    if i == |tokens| {
    } else if IsWord(tokens[i]) && i + 1 < |tokens| && tokens[i + 1] == "(" {
      EmptyHasNoParens(Fold(casing.lower, tokens[i]));
      BodyHasNoParens(casing, tokens, i + 2, Fold(casing.lower, tokens[i]), map[], []);
    } else {
      NextHasNoParens(casing, tokens, i + 1);
    }
  }

  lemma EmptyHasNoParens(kind: string)
    ensures NoParens(Block(kind, map[], []))
  {
  }

  /** Whatever the text, no block that is read holds a lone parenthesis as a value. */
  lemma {:induction false} BlocksHaveNoParens(casing: Casing, tokens: seq<string>, i: nat)
    requires i <= |tokens|
    ensures forall block :: block in BlocksFrom(casing, tokens, i) ==> NoParens(block)
    decreases |tokens| - i
  {
    hide NoParens;
    var (block, next) := NextBlock(casing, tokens, i);
    if block.Some? {
      NextHasNoParens(casing, tokens, i);
      BlocksHaveNoParens(casing, tokens, next);
    }
  }

  /** What can be printed: as above, with no restriction on the quoted values that count. */
  predicate Showable(items: Items) {
    match items
    case End => true
    case LastKey(key) => IsBare(key)
    case Pair(key, value, quoted, next) => IsBare(key) && IsShown(value, quoted) && Showable(next)
    case Nested(kind, body, next) => IsBare(kind) && Showable(body) && Showable(next)
    case Group(body, next) => Printable(body) && Showable(next)
  }

  /** No value that counts is a lone parenthesis. */
  predicate PlainValues(items: Items) {
    match items
    case End => true
    case LastKey(_) => true
    case Pair(_, value, _, next) => IsWord(value) && PlainValues(next)
    case Nested(_, body, next) => PlainValues(body) && PlainValues(next)
    case Group(_, next) => PlainValues(next)
  }

  /** No key occurs twice in a block, case aside. */
  predicate DistinctKeys(casing: Casing, items: Items) {
    match items
    case End => true
    case Pair(key, _, _, next) => Fold(casing.upper, key) !in ValuesOf(casing, next) && DistinctKeys(casing, next)
    case LastKey(_) => true
    case Nested(_, body, next) => DistinctKeys(casing, body) && DistinctKeys(casing, next)
    case Group(_, next) => DistinctKeys(casing, next)
  }

  predicate ShowableForest(forest: seq<Node>) {
    forall n :: n in forest ==> IsNoise(n.noise) && IsBare(n.kind) && Showable(n.items)
  }

  lemma {:induction false} PlainIsPrintable(items: Items)
    requires Showable(items) && PlainValues(items)
    ensures Printable(items)
    decreases items
  {
    match items
    case End =>
    case LastKey(_) =>
    case Pair(_, _, _, next) => PlainIsPrintable(next);
    case Nested(_, body, next) =>
      PlainIsPrintable(body);
      PlainIsPrintable(next);
    case Group(_, next) => PlainIsPrintable(next);
  }

  lemma {:induction false} NoParensIsPlain(casing: Casing, kind: string, items: Items)
    requires DistinctKeys(casing, items)
    requires NoParens(Block(kind, ValuesOf(casing, items), ChildrenOf(casing, items)))
    ensures PlainValues(items)
    decreases items
  {
    match items
    case End =>
    case Pair(key, value, _, next) =>
      var values, folded := ValuesOf(casing, items), Fold(casing.upper, key);
      assert values[folded] == value;
      assert forall k :: k in ValuesOf(casing, next) ==> k in values && values[k] == ValuesOf(casing, next)[k];
      NoParensIsPlain(casing, kind, next);
    case Nested(inner, body, next) =>
      var child := Block(Fold(casing.lower, inner), ValuesOf(casing, body), ChildrenOf(casing, body));
      assert child in ChildrenOf(casing, items);
      assert forall c :: c in ChildrenOf(casing, next) ==> c in ChildrenOf(casing, items);
      NoParensIsPlain(casing, child.kind, body);
      NoParensIsPlain(casing, kind, next);
    case LastKey(_) =>
    case Group(_, next) => NoParensIsPlain(casing, kind, next);
  }

  lemma {:induction false} BlockIsOfForest(casing: Casing, forest: seq<Node>, n: Node)
    requires n in forest
    ensures BlockOf(casing, n) in ForestOf(casing, forest)
  {
    if n != forest[0] {
      BlockIsOfForest(casing, forest[1..], n);
    }
  }

  /**
   A forest without repeated keys is read back exactly when none of its values is a lone
   parenthesis; and no forest that is read back amounts to such a value.
   */
  lemma ReadsBackExactlyPlainValues(casing: Casing, forest: seq<Node>, tail: seq<string>)
    requires ShowableForest(forest) && IsNoise(tail)
    ensures var read := BlocksFrom(casing, Tokens(PrintAll(forest, tail), [], false), 0);
            && (read == ForestOf(casing, forest) ==> forall block :: block in ForestOf(casing, forest) ==> NoParens(block))
            && ((forall n :: n in forest ==> DistinctKeys(casing, n.items)) ==>
                  (read == ForestOf(casing, forest) <==> forall n :: n in forest ==> PlainValues(n.items)))
  {
    hide NoParens, Showable, Printable, DistinctKeys, BlocksFrom, Tokens, ForestOf;
    var tokens := Tokens(PrintAll(forest, tail), [], false);
    BlocksHaveNoParens(casing, tokens, 0);
    if forall n :: n in forest ==> PlainValues(n.items) {
      forall n | n in forest ensures Printable(n.items) {
        PlainIsPrintable(n.items);
      }
      ReadsBackWhatWasPrinted(casing, forest, tail);
    }
    if BlocksFrom(casing, tokens, 0) == ForestOf(casing, forest) && forall n :: n in forest ==> DistinctKeys(casing, n.items) {
      forall n | n in forest ensures PlainValues(n.items) {
        BlockIsOfForest(casing, forest, n);
        NoParensIsPlain(casing, Fold(casing.lower, n.kind), n.items);
      }
    }
  }

  /** A repeated key can hide a lone parenthesis, because its first value wins and the parenthesis closes the block. */
  lemma RepeatedKeyHidesParen(casing: Casing, kind: string, key: string, value: string)
    requires IsBare(kind) && IsBare(key) && '"' !in value && IsWord(value)
    ensures var node := Node([], kind, Pair(key, value, true, Pair(key, ")", true, End)));
            BlocksFrom(casing, Tokens(Print(node), [], false), 0) == [BlockOf(casing, node)] && !PlainValues(node.items)
  {
    var node := Node([], kind, Pair(key, value, true, Pair(key, ")", true, End)));
    var tokens := [kind, "(", key, value, key, ")", ")"];
    TwoPairTokens(kind, key, value);
    BareIsNoParen(kind);
    BareIsNoParen(key);
    var lower, folded := Fold(casing.lower, kind), Fold(casing.upper, key);
    var values: map<string, string> := map[folded := value];
    assert ValuesOf(casing, End) == map[] && ChildrenOf(casing, End) == [];
    assert ValuesOf(casing, node.items.next) == map[folded := ")"] && ChildrenOf(casing, node.items.next) == [];
    assert ValuesOf(casing, node.items) == values;
    BodyAtPair(casing, tokens, 2, lower, map[], []);
    assert TryAdd(map[], folded, value) == values;
    assert Body(casing, tokens, 5, lower, values, []) == (Block(lower, values, []), 6);
    assert Body(casing, tokens, 4, lower, values, []) == (Block(lower, values, []), 6);
    assert NextBlock(casing, tokens, 0) == (Some(Block(lower, values, [])), 6);
    assert NextBlock(casing, tokens, 7) == (None, 7);
    assert NextBlock(casing, tokens, 6) == (None, 7);
    assert BlocksFrom(casing, tokens, 6) == [];
  }

  lemma NoTokens()
    ensures Tokens([], [], false) == []
  {
  }

  lemma TwoPairsPrint(kind: string, key: string, value: string)
    ensures var last := " " + key + " " + PrintValue(")", true) + ")";
            Print(Node([], kind, Pair(key, value, true, Pair(key, ")", true, End))))
            == kind + " (" + (" " + key + " " + PrintValue(value, true) + last)
  {
    hide PrintValue, PrintNoise;
    var last := Pair(key, ")", true, End);
    var items := Pair(key, value, true, last);
    NoNoise();
    assert PrintItems(last) == " " + key + " " + PrintValue(")", true);
    assert PrintItems(items) + ")" == " " + key + " " + PrintValue(value, true) + (PrintItems(last) + ")");
    assert Print(Node([], kind, items)) == kind + " (" + (PrintItems(items) + ")");
  }

  lemma NoNoise()
    ensures PrintNoise([]) == ""
  {
  }

  lemma TwoPairTokens(kind: string, key: string, value: string)
    requires IsBare(kind) && IsBare(key) && '"' !in value
    ensures var node := Node([], kind, Pair(key, value, true, Pair(key, ")", true, End)));
            Tokens(Print(node), [], false) == [kind, "(", key, value, key, ")", ")"]
  {
    hide IsBare, Tokens, Print, PrintItems, PrintValue;
    var last := " " + key + " " + PrintValue(")", true) + ")";
    var first := " " + key + " " + PrintValue(value, true) + last;
    TwoPairsPrint(kind, key, value);
    NoTokens();
    assert ")" == ")" + [];
    OneDelimiter([]);
    PairTokens(key, ")", true, ")");
    PairTokens(key, value, true, last);
    OpeningTokens(kind, first);
  }
}
