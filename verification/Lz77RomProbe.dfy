/**
 Nintendo LZ77 (type 0x10) streams: what a stream of tokens means, how an encoder lays it
 out in bytes, and the bounds-checked decoder.
 */
module Lz77RomProbe {
  import opened Models
  import opened Wrappers

  const LZ77_TYPE: byte := 0x10
  const HEADER_SIZE := 4
  const MAX_DECOMPRESSED_BYTES := 16 * 1024 * 1024

  // ----- What the tokens mean

  /** A literal byte, or `runLength` bytes repeated from `distance` back. */
  datatype Token = Literal(value: byte) | BackReference(distance: nat, runLength: nat)

  /** Appends `n` bytes, each the byte `distance` back; the run may overlap what it writes. */
  function Repeat(out: seq<byte>, distance: nat, n: nat): (r: seq<byte>)
    requires 0 < distance <= |out|
    ensures |r| == |out| + n && out <= r
    decreases n
  {
    if n == 0 then out else Repeat(out + [out[|out| - distance]], distance, n - 1)
  }

  /** Every reference stays inside what was already written. */
  predicate Legal(written: nat, tokens: seq<Token>)
    decreases |tokens|
  {
    tokens == [] || match tokens[0]
                    case Literal(_) => Legal(written + 1, tokens[1..])
                    case BackReference(d, n) =>
                      1 <= d <= 4096 && 3 <= n <= 18 && d <= written && Legal(written + n, tokens[1..])
  }

  /** The bytes the tokens stand for, after those already written. */
  function Expand(out: seq<byte>, tokens: seq<Token>): (r: seq<byte>)
    requires Legal(|out|, tokens)
    ensures out <= r && |r| >= |out| + |tokens|
    decreases |tokens|
  {
    if tokens == [] then out
    else match tokens[0]
      case Literal(b) => Expand(out + [b], tokens[1..])
      case BackReference(d, n) => Expand(Repeat(out, d, n), tokens[1..])
  }

  // ----- How they are laid out

  /** A flag byte's worth of tokens at most: the reference bits, first token uppermost. */
  function FlagBits(tokens: seq<Token>, bits: nat): (r: nat)
    requires bits <= 8
    ensures r < Power(bits)
    decreases bits
  {
    if bits == 0 then 0
    else if tokens == [] then 0
    else (if tokens[0].BackReference? then Power(bits - 1) else 0) + FlagBits(tokens[1..], bits - 1)
  }

  function Power(n: nat): (r: nat)
    requires n <= 8
    ensures 1 <= r <= 256
  {
    if n == 0 then 1 else if n == 1 then 2 else if n == 2 then 4 else if n == 3 then 8 else if n == 4 then 16
    else if n == 5 then 32 else if n == 6 then 64 else if n == 7 then 128 else 256
  }

  predicate Encodable(tokens: seq<Token>) {
    forall t :: t in tokens && t.BackReference? ==> 1 <= t.distance <= 4096 && 3 <= t.runLength <= 18
  }

  /** The bytes of up to `bits` more tokens of a group, then the groups after it. */
  function EncodeFrom(tokens: seq<Token>, bits: nat): seq<byte>
    requires bits <= 8 && Encodable(tokens)
    decreases |tokens|, 8 - bits
  {
    if tokens == [] then []
    else if bits == 0 then [FlagBits(tokens, 8)] + EncodeFrom(tokens, 8)
    else match tokens[0]
      case Literal(b) => [b] + EncodeFrom(tokens[1..], bits - 1)
      case BackReference(d, n) =>
        [(n - 3) * 16 + (d - 1) / 256, (d - 1) % 256] + EncodeFrom(tokens[1..], bits - 1)
  }

  /** The type byte, then the length of the result in three bytes, lowest first. */
  function Header(length: nat): seq<byte>
    requires length < 0x100_0000
  {
    [LZ77_TYPE, length % 256, length / 256 % 256, length / 0x1_0000]
  }

  /** How far back a reference reaches, in the low 12 bits of its two bytes. */
  function Distance(high: byte, low: byte): (d: nat)
    ensures 1 <= d <= 4096
  {
    (high as int) % 16 * 256 + low as int + 1
  }

  /** How many bytes a reference repeats, in the top 4 bits. */
  function RunLength(high: byte): (n: nat)
    ensures 3 <= n <= 18
  {
    (high as int) / 16 + 3
  }

  // ----- Reading a stream, as a relation

  /**
   The bytes of `source` from `offset` begin with these tokens, `left` bits of the flag
   register `flags` still being unused. Bits and bytes after the last token are free.
   */
  ghost predicate Holds(source: seq<byte>, offset: nat, flags: byte, left: nat, tokens: seq<Token>)
    decreases |source| - offset, left
  {
    if tokens == [] then true
    else if offset >= |source| then false
    else if left == 0 then Holds(source, offset + 1, source[offset], 8, tokens)
    else match tokens[0]
      case Literal(b) =>
        flags < 128 && source[offset] == b && Holds(source, offset + 1, flags * 2 % 256, left - 1, tokens[1..])
      case BackReference(d, n) =>
        && flags >= 128 && offset + 1 < |source|
        && d == Distance(source[offset], source[offset + 1])
        && n == RunLength(source[offset])
        && Holds(source, offset + 2, flags * 2 % 256, left - 1, tokens[1..])
  }

  /** The whole stream: header, a usable length, and tokens standing for exactly that much. */
  ghost predicate Unpacks(source: seq<byte>, tokens: seq<Token>) {
    && HEADER_SIZE <= |source| && source[0] == LZ77_TYPE
    && Holds(source, HEADER_SIZE, 0, 0, tokens)
    && Legal(0, tokens)
    && 0 < |Expand([], tokens)| <= MAX_DECOMPRESSED_BYTES
    && |Expand([], tokens)| == DeclaredLength(source)
  }

  function DeclaredLength(source: seq<byte>): nat
    requires HEADER_SIZE <= |source|
  {
    source[1] as int + source[2] as int * 256 + source[3] as int * 0x1_0000
  }

  // ----- The decoder's run as a function of its state

  function Run(source: seq<byte>, offset: nat, flags: byte, left: nat, out: seq<byte>, length: nat): Option<seq<byte>>
    requires |out| <= length
    decreases |source| - offset, left
  {
    if |out| == length then Some(out)
    else if offset >= |source| then None
    else if left == 0 then Run(source, offset + 1, source[offset], 8, out, length)
    else if flags < 128 then Run(source, offset + 1, flags * 2 % 256, left - 1, out + [source[offset]], length)
    else if offset + 1 >= |source| then None
    else
      var distance, n := Distance(source[offset], source[offset + 1]), RunLength(source[offset]);
      if distance > |out| || |out| + n > length then None
      else Run(source, offset + 2, flags * 2 % 256, left - 1, Repeat(out, distance, n), length)
  }

  /** Tokens that fit the bytes and the length are what the run produces. */
  lemma {:induction false} RunComplete(source: seq<byte>, offset: nat, flags: byte, left: nat, out: seq<byte>,
                                       length: nat, tokens: seq<Token>)
    requires |out| <= length && Holds(source, offset, flags, left, tokens)
    requires Legal(|out|, tokens) && |Expand(out, tokens)| == length
    ensures Run(source, offset, flags, left, out, length) == Some(Expand(out, tokens))
    decreases |source| - offset, left
  {
    if tokens != [] {
      if left == 0 {
        RunComplete(source, offset + 1, source[offset], 8, out, length, tokens);
      } else {
        match tokens[0]
        case Literal(b) =>
          RunComplete(source, offset + 1, flags * 2 % 256, left - 1, out + [b], length, tokens[1..]);
        case BackReference(d, n) =>
          RunComplete(source, offset + 2, flags * 2 % 256, left - 1, Repeat(out, d, n), length, tokens[1..]);
      }
    }
  }

  /** Whatever the run produces, tokens in the bytes stand for it. */
  lemma {:induction false} RunSound(source: seq<byte>, offset: nat, flags: byte, left: nat, out: seq<byte>, length: nat)
    returns (tokens: seq<Token>)
    requires |out| <= length && Run(source, offset, flags, left, out, length).Some?
    ensures Holds(source, offset, flags, left, tokens) && Legal(|out|, tokens)
    ensures Run(source, offset, flags, left, out, length) == Some(Expand(out, tokens))
    ensures |Expand(out, tokens)| == length
    decreases |source| - offset, left
  {
    if |out| == length {
      tokens := [];
    } else if left == 0 {
      tokens := RunSound(source, offset + 1, source[offset], 8, out, length);
    } else if flags < 128 {
      var rest := RunSound(source, offset + 1, flags * 2 % 256, left - 1, out + [source[offset]], length);
      tokens := [Literal(source[offset])] + rest;
      assert tokens[1..] == rest;
    } else {
      var d, n := Distance(source[offset], source[offset + 1]), RunLength(source[offset]);
      var rest := RunSound(source, offset + 2, flags * 2 % 256, left - 1, Repeat(out, d, n), length);
      tokens := [BackReference(d, n)] + rest;
      assert tokens[1..] == rest;
    }
  }

  // ----- The decoder

  /** What the decoder answers: the expansion, or nothing for anything malformed. */
  function Decompressed(source: seq<byte>): Option<seq<byte>> {
    if |source| < HEADER_SIZE || source[0] != LZ77_TYPE then None
    else if DeclaredLength(source) == 0 || DeclaredLength(source) > MAX_DECOMPRESSED_BYTES then None
    else Run(source, HEADER_SIZE, 0, 0, [], DeclaredLength(source))
  }

  /** Success means exactly that tokens in the stream unpack to the declared length. */
  lemma DecompressedExactly(source: seq<byte>)
    ensures Decompressed(source).Some? <==> exists tokens :: Unpacks(source, tokens)
    ensures forall tokens :: Unpacks(source, tokens) ==> Decompressed(source) == Some(Expand([], tokens))
  {
    forall tokens | Unpacks(source, tokens) ensures Decompressed(source) == Some(Expand([], tokens)) {
      RunComplete(source, HEADER_SIZE, 0, 0, [], DeclaredLength(source), tokens);
    }
    if Decompressed(source).Some? {
      var tokens := RunSound(source, HEADER_SIZE, 0, 0, [], DeclaredLength(source));
      assert Unpacks(source, tokens);
    }
  }

  lemma RepeatStep(out: seq<byte>, distance: nat, n: nat)
    requires 0 < distance <= |out|
    ensures Repeat(out, distance, n) ==
            if n == 0 then out else Repeat(out + [out[|out| - distance]], distance, n - 1)
  {
  }

  /** Copies one run inside the buffer, byte by byte, so that it may overlap itself. */
  method CopyRun(destination: array<byte>, written: nat, distance: nat, runLength: nat)
    requires 0 < distance <= written && written + runLength <= destination.Length
    modifies destination
    ensures destination[..written + runLength] == Repeat(old(destination[..written]), distance, runLength)
  {
    hide Repeat;
    ghost var target := Repeat(destination[..written], distance, runLength);
    for i := 0 to runLength
      invariant Repeat(destination[..written + i], distance, runLength - i) == target
    {
      ghost var before := destination[..written + i];
      RepeatStep(before, distance, runLength - i);
      destination[written + i] := destination[written + i - distance];
      assert destination[..written + i + 1] == before + [before[|before| - distance]];
    }
    RepeatStep(destination[..written + runLength], distance, 0);
  }

  method TryDecompress(source: seq<byte>) returns (rom: Option<seq<byte>>)
    ensures rom == Decompressed(source)
    ensures rom.Some? <==> exists tokens :: Unpacks(source, tokens)
    ensures forall tokens :: Unpacks(source, tokens) ==> rom == Some(Expand([], tokens))
  {
    DecompressedExactly(source);
    hide Unpacks, Legal, Expand, Repeat, Distance, RunLength;
    if |source| < HEADER_SIZE || source[0] != LZ77_TYPE {
      return None;
    }
    var length := DeclaredLength(source);
    if length <= 0 || length > MAX_DECOMPRESSED_BYTES {
      return None;
    }
    var destination := new byte[length];
    var written, offset := 0, HEADER_SIZE;
    while written < length
      invariant 0 <= written <= length && HEADER_SIZE <= offset <= |source|
      invariant Run(source, offset, 0, 0, destination[..written], length) == Decompressed(source)
      decreases length - written
    {
      if offset >= |source| {
        return None;
      }
      var flags: byte := source[offset];
      offset := offset + 1;
      var bit := 0;
      ghost var start := written;
      while bit < 8 && written < length
        invariant 0 <= bit <= 8 && start <= written <= length && HEADER_SIZE <= offset <= |source|
        invariant bit == 0 || start < written
        invariant Run(source, offset, flags, 8 - bit, destination[..written], length) == Decompressed(source)
        decreases 8 - bit
      {
        if flags < 128 {
          if offset >= |source| {
            return None;
          }
          ghost var before := destination[..written];
          destination[written] := source[offset];
          assert destination[..written + 1] == before + [source[offset]];
          written, offset := written + 1, offset + 1;
        } else {
          if offset + 1 >= |source| {
            return None;
          }
          var high, low := source[offset], source[offset + 1];
          offset := offset + 2;
          var distance, runLength := Distance(high, low), RunLength(high);
          if distance > written || written + runLength > length {
            return None;
          }
          CopyRun(destination, written, distance, runLength);
          written := written + runLength;
        }
        bit, flags := bit + 1, flags * 2 % 256;
      }
      RunIgnoresFlags(source, offset, flags, 8 - bit, destination[..written], length);
    }
    assert destination[..written] == destination[..];
    rom := Some(destination[..]);
  }

  /** With no bits left, or nothing left to write, the flag register no longer matters. */
  lemma RunIgnoresFlags(source: seq<byte>, offset: nat, flags: byte, left: nat, out: seq<byte>, length: nat)
    requires |out| <= length && (left == 0 || |out| == length)
    ensures Run(source, offset, flags, left, out, length) == Run(source, offset, 0, 0, out, length)
  {
  }

  // ----- The encoder's output is read back

  /** A flag group shifted up to the top of its byte. */
  lemma ShiftFits(f: nat, bits: nat)
    requires bits <= 8 && f < Power(bits)
    ensures f * Power(8 - bits) < 256
  {
    if bits == 0 {} else if bits == 1 {} else if bits == 2 {} else if bits == 3 {} else if bits == 4 {}
    else if bits == 5 {} else if bits == 6 {} else if bits == 7 {} else {}
  }

  lemma PowersMeet(bits: nat)
    requires 0 < bits <= 8
    ensures Power(bits - 1) * Power(8 - bits) == 128 && Power(9 - bits) == 2 * Power(8 - bits)
  {
    if bits == 1 {} else if bits == 2 {} else if bits == 3 {} else if bits == 4 {}
    else if bits == 5 {} else if bits == 6 {} else if bits == 7 {} else {}
  }

  lemma TopBit(top: bool, g: nat, q: nat, p: nat)
    requires q * p == 128 && g < q
    ensures var register := ((if top then q else 0) + g) * p;
            (register >= 128 <==> top) && register == (if top then 128 else 0) + g * p && 0 <= g * p < 128
  {
    assert (q + g) * p == q * p + g * p;
    assert q * p == (q - g) * p + g * p;
    assert p > 0 && (q - g) * p > 0;
  }

  lemma ShiftOne(top: bool, g: nat, bits: nat)
    requires 0 < bits <= 8 && g < Power(bits - 1)
    ensures var register := ((if top then Power(bits - 1) else 0) + g) * Power(8 - bits);
            && (register >= 128 <==> top)
            && register * 2 % 256 == g * Power(9 - bits)
  {
    hide Power;
    PowersMeet(bits);
    TopBit(top, g, Power(bits - 1), Power(8 - bits));
    assert g * Power(9 - bits) == 2 * (g * Power(8 - bits));
  }

  /** The flag register once `8 - bits` of a group's bits have been shifted out. */
  function Register(tokens: seq<Token>, bits: nat): byte
    requires bits <= 8
  {
    ShiftFits(FlagBits(tokens, bits), bits);
    FlagBits(tokens, bits) * Power(8 - bits)
  }

  /** The uppermost bit tells the next token's kind, and shifting moves on to the one after. */
  lemma RegisterStep(tokens: seq<Token>, bits: nat)
    requires 0 < bits <= 8 && tokens != []
    ensures Register(tokens, bits) >= 128 <==> tokens[0].BackReference?
    ensures Register(tokens, bits) * 2 % 256 == Register(tokens[1..], bits - 1)
  {
    ShiftOne(tokens[0].BackReference?, FlagBits(tokens[1..], bits - 1), bits);
  }

  lemma FullRegister(tokens: seq<Token>)
    ensures Register(tokens, 8) == FlagBits(tokens, 8)
  {
  }

  lemma ReferenceBytes(d: nat, n: nat, high: byte, low: byte)
    requires 1 <= d <= 4096 && 3 <= n <= 18
    requires high == (n - 3) * 16 + (d - 1) / 256 && low == (d - 1) % 256
    ensures Distance(high, low) == d && RunLength(high) == n
  {
  }

  lemma PrefixTail(head: seq<byte>, rest: seq<byte>, source: seq<byte>, offset: nat)
    requires offset <= |source| && head + rest <= source[offset..]
    ensures offset + |head| <= |source| && head == source[offset..offset + |head|]
    ensures rest <= source[offset + |head|..]
  {
    var body := source[offset..];
    assert body[..|head| + |rest|] == head + rest;
    assert source[offset + |head|..] == body[|head|..];
    assert body[|head|..][..|rest|] == rest;
  }

  /** Bytes that begin with an encoding hold its tokens. */
  lemma {:induction false} EncodingHolds(source: seq<byte>, offset: nat, tokens: seq<Token>, bits: nat)
    requires bits <= 8 && Encodable(tokens)
    requires offset <= |source| && EncodeFrom(tokens, bits) <= source[offset..]
    ensures Holds(source, offset, Register(tokens, bits), bits, tokens)
    decreases |tokens|, 8 - bits
  {
    hide FlagBits, Power, Distance, RunLength;
    if tokens != [] {
      if bits == 0 {
        var flag: byte := FlagBits(tokens, 8);
        PrefixTail([flag], EncodeFrom(tokens, 8), source, offset);
        assert source[offset] == [flag][0];
        EncodingHolds(source, offset + 1, tokens, 8);
        FullRegister(tokens);
      } else {
        RegisterStep(tokens, bits);
        var rest := EncodeFrom(tokens[1..], bits - 1);
        match tokens[0]
        case Literal(b) =>
          PrefixTail([b], rest, source, offset);
          assert source[offset] == [b][0];
          EncodingHolds(source, offset + 1, tokens[1..], bits - 1);
        case BackReference(d, n) =>
          assert tokens[0] in tokens;
          var high: byte, low: byte := (n - 3) * 16 + (d - 1) / 256, (d - 1) % 256;
          PrefixTail([high, low], rest, source, offset);
          assert source[offset] == [high, low][0] && source[offset + 1] == [high, low][1];
          ReferenceBytes(d, n, high, low);
          EncodingHolds(source, offset + 2, tokens[1..], bits - 1);
      }
    }
  }

  lemma {:induction false} LegalIsEncodable(written: nat, tokens: seq<Token>)
    requires Legal(written, tokens)
    ensures Encodable(tokens)
    decreases |tokens|
  {
    if tokens != [] {
      LegalIsEncodable(written + (if tokens[0].Literal? then 1 else tokens[0].runLength), tokens[1..]);
      assert tokens == [tokens[0]] + tokens[1..];
    }
  }

  lemma HeaderReads(length: nat, rest: seq<byte>)
    requires length < 0x100_0000
    ensures var source := Header(length) + rest;
            && HEADER_SIZE <= |source| && source[0] == LZ77_TYPE && DeclaredLength(source) == length
            && source[HEADER_SIZE..] == rest
  {
  }

  lemma NoBitsLeft(tokens: seq<Token>)
    ensures Register(tokens, 0) == 0
  {
  }

  /** Decoding undoes every encoder that emits legal tokens, whatever follows the stream. */
  lemma DecodesEveryEncoding(tokens: seq<Token>, tail: seq<byte>)
    requires Legal(0, tokens) && tokens != [] && |Expand([], tokens)| < 0x100_0000
    ensures Encodable(tokens)
    ensures Decompressed(Header(|Expand([], tokens)|) + EncodeFrom(tokens, 0) + tail) == Some(Expand([], tokens))
  {
    hide Expand, EncodeFrom, Holds, Legal, Register, Header, DeclaredLength, Decompressed, Encodable;
    LegalIsEncodable(0, tokens);
    var body := EncodeFrom(tokens, 0) + tail;
    var source := Header(|Expand([], tokens)|) + EncodeFrom(tokens, 0) + tail;
    assert source == Header(|Expand([], tokens)|) + body;
    HeaderReads(|Expand([], tokens)|, body);
    EncodingHolds(source, HEADER_SIZE, tokens, 0);
    NoBitsLeft(tokens);
    assert Unpacks(source, tokens);
    DecompressedExactly(source);
  }

  /** Only streams of type 16 of up to 16 MiB are decoded. */
  lemma StreamsHaveLimits(source: seq<byte>)
    ensures Decompressed(source).Some? ==>
              |source| >= 4 && source[0] == 16 && 0 < |Decompressed(source).value| <= 16_777_216
    ensures |source| >= 4 && source[0] == 16 && 0 < DeclaredLength(source) <= 16_777_216 ==>
              Decompressed(source) == Run(source, 4, 0, 0, [], DeclaredLength(source))
  {
    hide Run;
    if Decompressed(source).Some? {
      RunHasLength(source, HEADER_SIZE, 0, 0, [], DeclaredLength(source));
    }
  }

  lemma {:induction false} RunHasLength(source: seq<byte>, offset: nat, flags: byte, left: nat, out: seq<byte>, length: nat)
    requires |out| <= length
    ensures Run(source, offset, flags, left, out, length).Some? ==>
              |Run(source, offset, flags, left, out, length).value| == length
    decreases |source| - offset, left
  {
    if |out| == length || offset >= |source| {
    } else if left == 0 {
      RunHasLength(source, offset + 1, source[offset], 8, out, length);
    } else if flags < 128 {
      RunHasLength(source, offset + 1, flags * 2 % 256, left - 1, out + [source[offset]], length);
    } else if offset + 1 < |source| {
      var distance, n := Distance(source[offset], source[offset + 1]), RunLength(source[offset]);
      if distance <= |out| && |out| + n <= length {
        RunHasLength(source, offset + 2, flags * 2 % 256, left - 1, Repeat(out, distance, n), length);
      }
    }
  }
}
