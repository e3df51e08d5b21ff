/** Corrected counterparts of the defects that keep a decoded message from matching the encoded
    one, each next to a lemma that exhibits the defect in the code as written:
    - the allocator records the offset of a byte relative to the search start instead of its
      position in the text (cipher/cipher.go:171-186);
    - the token codec drops zero digits and reads back only six glyphs (cipher/cipher.go:43-111);
    - the encoder prints tokens back to back while the decoder splits at '/'
      (cmd/encode/command.go:105, cmd/decode/command.go:98);
    - the decoder's guard lets a CharIndex equal to the text length through, which panics
      (cmd/decode/command.go:101);
    - the encoder refuses a message flag next to `in=false` (cmd/encode/command.go:64-66).
    The corrected pieces compose into an encoder and a decoder that round-trip. */
module Corrected {
  import opened Types
  import opened Alphabet
  import Codec
  import Arith
  import Packing
  import Allocator
  import Corpus
  import DecodeCommand
  import EncodeCommand
  import LineReader

  // ---------------------------------------------------------------------------------------
  // The allocator records absolute positions

  /** `NextReference` with `CharIndex: uint16(start + index)`: the position of the allocated
      byte in the text, found by the same search as the source's. */
  function Allocate(c: byte, used: seq<EncodedReference>, references: seq<PageReference>)
    : (e: Option<EncodedReference>)
    ensures e.None? <==> forall k :: 0 <= k < |references| ==> !Allocator.Offers(c, used, references[k])
    ensures e.Some? ==> e.value.ch == c
    ensures e.Some? ==> e.value.reference == Allocator.NextReference(c, used, references).value.reference
    ensures e.Some? && |e.value.reference.text| <= 0x1_0000 ==>
      var st := Allocator.Start(c, e.value.reference, used);
      && st <= e.value.charIndex < |e.value.reference.text|
      && e.value.reference.text[e.value.charIndex] == c
      && forall i :: st <= i < e.value.charIndex ==> e.value.reference.text[i] != c
  {
    match Allocator.NextReference(c, used, references)
    case None => None
    case Some(r) =>
      var st := Allocator.Start(c, r.reference, used);
      Some(r.(charIndex := Wrap16(st + Allocator.Offset(c, used, r.reference))))
  }

  /** The text node of an allocation is one of the references. */
  lemma AllocatesFromCorpus(c: byte, used: seq<EncodedReference>, references: seq<PageReference>)
    requires Allocate(c, used, references).Some?
    ensures exists k :: 0 <= k < |references| && references[k] == Allocate(c, used, references).value.reference
  {
    var k := Allocator.NextReferenceTakesFirst(c, used, references);
  }

  /** A repeated byte moves forward through a text node: when the latest earlier allocation of
      `c` in the chosen node is `u`, the new allocation lies strictly after it. */
  lemma AllocationsAdvance(c: byte, used: seq<EncodedReference>, references: seq<PageReference>, u: EncodedReference)
    requires Allocate(c, used, references).Some?
    requires |Allocate(c, used, references).value.reference.text| <= 0x1_0000
    requires Allocator.GetLastUsedFor(c, Allocate(c, used, references).value.reference, used) == Some(u)
    requires u.charIndex < 0xFFFF
    ensures u.charIndex < Allocate(c, used, references).value.charIndex
  {
    var e := Allocate(c, used, references).value;
    assert Allocator.Start(c, e.reference, used) == u.charIndex + 1;
  }

  /** Allocating 'a' three times from "abcabc" now yields positions 0 and 3, and then nothing,
      since the node holds no third 'a'. */
  lemma AbsoluteSample()
    ensures Allocate('a', [], [Allocator.Sample]) == Some(EncodedReference(0, 'a', Allocator.Sample))
    ensures Allocate('a', [EncodedReference(0, 'a', Allocator.Sample)], [Allocator.Sample])
         == Some(EncodedReference(3, 'a', Allocator.Sample))
    ensures Allocate('a', [EncodedReference(0, 'a', Allocator.Sample), EncodedReference(3, 'a', Allocator.Sample)],
                     [Allocator.Sample]).None?
  {
    FirstAbsolute();
    SecondAbsolute();
    ThirdAbsolute();
  }

  lemma FirstAbsolute()
    ensures Allocate('a', [], [Allocator.Sample]) == Some(EncodedReference(0, 'a', Allocator.Sample))
  {
    var s := Allocator.Sample;
    Allocator.FirstSample();
    assert Allocator.Offset('a', [], s) == 0 by { assert s.text[0..] == s.text; }
  }

  lemma SecondAbsolute()
    ensures Allocate('a', [EncodedReference(0, 'a', Allocator.Sample)], [Allocator.Sample])
         == Some(EncodedReference(3, 'a', Allocator.Sample))
  {
    var s := Allocator.Sample;
    var e0 := EncodedReference(0, 'a', s);
    Allocator.SecondSample();
    assert Allocator.GetLastUsedFor('a', s, [e0]) == Some(e0);
    assert Allocator.Start('a', s, [e0]) == 1;
    assert Allocator.Offset('a', [e0], s) == 2 by {
      assert s.text[1..] == ['b', 'c', 'a', 'b', 'c'];
      assert Allocator.IndexByte(['b', 'c', 'a', 'b', 'c'], 'a') == 2;
    }
  }

  lemma ThirdAbsolute()
    ensures Allocate('a', [EncodedReference(0, 'a', Allocator.Sample), EncodedReference(3, 'a', Allocator.Sample)],
                     [Allocator.Sample]).None?
  {
    var s := Allocator.Sample;
    var e0 := EncodedReference(0, 'a', s);
    var e3 := EncodedReference(3, 'a', s);
    assert Allocator.GetLastUsedFor('a', s, [e0, e3]) == Some(e3);
    assert Allocator.Start('a', s, [e0, e3]) == 4;
    assert !Allocator.Offers('a', [e0, e3], s);
  }

  // ---------------------------------------------------------------------------------------
  // A token codec that keeps every digit

  /** Eleven base-77 digits hold any `uint64`, since 77^11 > 2^64. */
  const TokenWidth: nat := 11

  lemma PowEleven()
    ensures Codec.Pow77(TokenWidth) > 0xFFFF_FFFF_FFFF_FFFF
  {
    Codec.PowSix();
    Codec.PowAdd(6, 5);
    assert Codec.Pow77(5) == 2706784157;
  }

  /** The token of `v`: all eleven digits, units first, zeros included. */
  function FullToken(v: u64): (s: seq<byte>)
    ensures |s| == TokenWidth
  {
    Codec.Glyphs(Codec.Digits(v, 0, TokenWidth))
  }

  /** Reading a token: its little-endian base-77 value, accumulated in a `uint64`. */
  function ReadToken(s: seq<byte>): u64
  {
    Codec.Value(Codec.Indices(s)) % 0x1_0000_0000_0000_0000
  }

  /** Every `uint64` reads back from its token. */
  lemma FullRoundTrip(v: u64)
    ensures ReadToken(FullToken(v)) == v
  {
    TokenValue(v);
    Arith.DivBelow(v, 0x1_0000_0000_0000_0000);
  }

  /** The digits of a token are worth the value it was written for. */
  lemma TokenValue(v: u64)
    ensures Codec.Value(Codec.Indices(FullToken(v))) == v
  {
    Codec.IndicesOfGlyphs(Codec.Digits(v, 0, TokenWidth));
    DigitsWorth(v);
  }

  lemma DigitsWorth(v: u64)
    ensures Codec.Value(Codec.Digits(v, 0, TokenWidth)) == v
  {
    Codec.DigitsValue(v, 0, TokenWidth);
    var p := Codec.Pow77(TokenWidth);
    assert Codec.Pow77(0) == 1;
    Arith.DivModUnique(v, 1, v, 0);
    PowEleven();
    Arith.DivBelow(v, p);
  }

  /** Tokens are made of alphabet glyphs, so '/' can separate them. */
  lemma FullTokenHasNoSlash(v: u64)
    ensures DecodeCommand.NoSlash(FullToken(v))
  {
    var ds := Codec.Digits(v, 0, TokenWidth);
    forall k | 0 <= k < |ds| ensures FullToken(v)[k] != '/' {
      SlashIsNoSymbol(ds[k]);
    }
  }

  /** The value 77^2 = 5929 (the packing of node 5929 of page 0 at CharIndex 0) has a zero digit
      at place 77^1; the source writes it as "ab" and reads that back as 77. */
  lemma InteriorZeroIsLost()
    ensures Codec.Base77(5929).Ok?
    ensures Codec.ToBase10(Codec.Base77(5929).value) != 5929
  {
    assert Codec.Pow77(1) == 77;
    assert Codec.Digit(5929, 1) == 0;
    Codec.RoundTrip(5929);
  }

  // ---------------------------------------------------------------------------------------
  // The decoder's guard

  /** What the glyph loop prints for a decoded position with the guard
      `len(r.Text) <= int(CharIndex)`: the byte at CharIndex when the named node holds it, `#`
      otherwise. It never panics, and the text length is compared untruncated. */
  function Show(e: EncodedReference, references: seq<PageReference>): (r: DecodeCommand.Item)
    ensures var found := Corpus.Lookup(e.reference.index, e.reference.level, e.reference.url, references);
      && (r.Byte? <==> found.Some? && e.charIndex < |found.value.text|)
      && (r.Byte? ==> r.b == found.value.text[e.charIndex])
  {
    match Corpus.Lookup(e.reference.index, e.reference.level, e.reference.url, references)
    case None => DecodeCommand.Hash
    case Some(r) =>
      if |r.text| <= e.charIndex then DecodeCommand.Hash
      else DecodeCommand.Byte(r.text[e.charIndex])
  }

  /** The source's glyph loop body with the corrected guard. */
  function ResolveFixed(glyph: seq<byte>, references: seq<PageReference>): DecodeCommand.Item
  {
    Show(Codec.FromBase77(glyph), references)
  }

  /** Where the source prints a byte the corrected loop prints the same byte; where the source
      panics it prints `#`. */
  lemma FixedGuardAgrees(glyph: seq<byte>, references: seq<PageReference>)
    ensures DecodeCommand.Resolve(glyph, references).Ok? && DecodeCommand.Resolve(glyph, references).value.Byte? ==>
      ResolveFixed(glyph, references) == DecodeCommand.Resolve(glyph, references).value
    ensures DecodeCommand.Resolve(glyph, references) == IndexPanic ==>
      ResolveFixed(glyph, references) == DecodeCommand.Hash
  {
  }

  /** The glyphs of the digits 4, 73, 60, 13, 45, 1 read as 2^32. */
  lemma GlyphsOfTwoToThe32()
    ensures Codec.ToBase10(Codec.Glyphs([4, 73, 60, 13, 45, 1])) == 0x1_0000_0000
  {
    var ds: seq<Codec.digit> := [4, 73, 60, 13, 45, 1];
    var glyph := Codec.Glyphs(ds);
    Codec.ToBase10IsLittleEndian(glyph);
    assert glyph[..6] == glyph;
    Codec.IndicesOfGlyphs(ds);
    DigitsOfTwoToThe32();
  }

  lemma DigitsOfTwoToThe32()
    ensures Codec.Value([4, 73, 60, 13, 45, 1]) == 0x1_0000_0000
  {
    var ds: seq<Codec.digit> := [4, 73, 60, 13, 45, 1];
    assert Codec.Value(ds[5..]) == 1;
    assert Codec.Value(ds[4..]) == 45 + 77;
    assert Codec.Value(ds[3..]) == 13 + 77 * (45 + 77);
    assert Codec.Value(ds[2..]) == 60 + 77 * (13 + 77 * (45 + 77));
    assert Codec.Value(ds[1..]) == 73 + 77 * (60 + 77 * (13 + 77 * (45 + 77)));
  }

  /** The glyph "e+4mRb" has digits 4, 73, 60, 13, 45, 1, worth 2^32: CharIndex 1 of node (0, 0)
      of page 0. Against a corpus whose node (0, 0) is "x", the source's guard
      `1 < 1` is false and `r.Text[1]` panics. */
  lemma GuardLetsEndThrough()
    ensures DecodeCommand.Resolve(Codec.Glyphs([4, 73, 60, 13, 45, 1]), [PageReference(['x'], 0, 0, 0)])
         == IndexPanic
  {
    GlyphsOfTwoToThe32();
    var e := Codec.FromBase77(Codec.Glyphs([4, 73, 60, 13, 45, 1]));
    assert e == Packing.FromUint64(0x1_0000_0000);
    assert e.charIndex == 1 && e.reference.level == 0 && e.reference.index == 0;
    assert Corpus.Names(PageReference(['x'], 0, 0, 0), 0, 0, 0);
  }

  // ---------------------------------------------------------------------------------------
  // Tokens separated by '/'

  /** As written, the tokens are printed with nothing between them and hold no '/', so the
      decoder sees the whole output as a single glyph, however long the message. */
  lemma OutputIsOneGlyph(msg: seq<byte>, references: seq<PageReference>)
    requires EncodeCommand.Encode(msg, references).Ok?
    ensures var printed := EncodeCommand.Printed(EncodeCommand.Encode(msg, references).value);
      DecodeCommand.Split(printed) == [printed]
  {
    EncodeCommand.PrintedHasNoSlash(msg, references);
    DecodeCommand.SplitWithoutSlash(EncodeCommand.Printed(EncodeCommand.Encode(msg, references).value));
  }

  // ---------------------------------------------------------------------------------------
  // The corrected encoder and decoder

  /** The corrected loop's allocations, one per byte, each made against the history of all
      earlier ones; None when some byte finds no text node (the source prints a diagnostic
      line for it instead of a token). */
  function Allocations(msg: seq<byte>, references: seq<PageReference>): (r: Option<seq<EncodedReference>>)
    ensures r.Some? ==> |r.value| == |msg|
  {
    if msg == [] then Some([])
    else
      match Allocations(msg[..|msg| - 1], references)
      case None => None
      case Some(es) =>
        match Allocate(msg[|msg| - 1], es, references)
        case None => None
        case Some(e) => Some(es + [e])
  }

  /** Whether `e` records byte `c` at a position of a corpus node that holds it. */
  predicate Holds(e: EncodedReference, c: byte, references: seq<PageReference>)
  {
    && (exists k :: 0 <= k < |references| && references[k] == e.reference)
    && e.charIndex < |e.reference.text|
    && e.reference.text[e.charIndex] == c
  }

  /** Whether every text node is shorter than 2^16 bytes, so that positions fit a `uint16`. */
  predicate ShortTexts(references: seq<PageReference>)
  {
    forall k :: 0 <= k < |references| ==> |references[k].text| < 0x1_0000
  }

  /** Every allocation records its byte at a position of a corpus node that holds it. */
  lemma {:induction false} AllocationsHold(msg: seq<byte>, references: seq<PageReference>)
    requires ShortTexts(references)
    requires Allocations(msg, references).Some?
    ensures forall k :: 0 <= k < |msg| ==> Holds(Allocations(msg, references).value[k], msg[k], references)
  {
    if msg != [] {
      var n := |msg| - 1;
      var front := msg[..n];
      AllocationsHold(front, references);
      var es := Allocations(front, references).value;
      var e := Allocate(msg[n], es, references).value;
      AllocatesFromCorpus(msg[n], es, references);
      assert Holds(e, msg[n], references);
      assert Allocations(msg, references).value == es + [e];
    }
  }

  /** The tokens of a list of allocations. */
  function Tokens(es: seq<EncodedReference>): (ts: seq<seq<byte>>)
    ensures |ts| == |es|
  {
    seq(|es|, k requires 0 <= k < |es| => FullToken(Packing.Uint64(Some(es[k]))))
  }

  /** The corrected encoder's output: the tokens of the allocations joined by '/'. */
  function EncodeFixed(msg: seq<byte>, references: seq<PageReference>): Option<seq<byte>>
  {
    match Allocations(msg, references)
    case None => None
    case Some(es) => if es == [] then Some([]) else Some(DecodeCommand.Join(Tokens(es)))
  }

  /** The corrected decoder's reading of one glyph. */
  function DecodeGlyph(glyph: seq<byte>, references: seq<PageReference>): DecodeCommand.Item
  {
    Show(Packing.FromUint64(ReadToken(glyph)), references)
  }

  /** The corrected decoder: one item per '/'-separated glyph. */
  function DecodeFixed(encoded: seq<byte>, references: seq<PageReference>): (items: seq<DecodeCommand.Item>)
    ensures |items| == |DecodeCommand.Split(encoded)|
  {
    DecodeAll(DecodeCommand.Split(encoded), references)
  }

  /** The corrected decoder's reading of each glyph. */
  function DecodeAll(glyphs: seq<seq<byte>>, references: seq<PageReference>): (items: seq<DecodeCommand.Item>)
    ensures |items| == |glyphs|
  {
    seq(|glyphs|, k requires 0 <= k < |glyphs| => DecodeGlyph(glyphs[k], references))
  }

  /** The token of a recorded position decodes to the byte there. */
  lemma TokenDecodes(e: EncodedReference, c: byte, references: seq<PageReference>)
    requires Holds(e, c, references) && ShortTexts(references)
    requires DecodeCommand.UniqueNodes(references)
    ensures DecodeGlyph(FullToken(Packing.Uint64(Some(e))), references) == DecodeCommand.Byte(c)
  {
    var j :| 0 <= j < |references| && references[j] == e.reference;
    assert |e.reference.text| < 0x1_0000;
    FullRoundTrip(Packing.Uint64(Some(e)));
    Packing.UnpackPack(e);
    var d := Packing.FromUint64(Packing.Uint64(Some(e)));
    DecodeCommand.FindsNode(e.reference, d.reference, references);
  }

  /** The corrected encoder and decoder round-trip: decoding the output of a non-empty message
      that found a text node for every byte prints the message, byte by byte, provided no two
      references name the same node and every text fits 16-bit positions. */
  lemma {:induction false} RoundTrip(msg: seq<byte>, references: seq<PageReference>)
    requires msg != []
    requires DecodeCommand.UniqueNodes(references) && ShortTexts(references)
    requires EncodeFixed(msg, references).Some?
    ensures DecodeFixed(EncodeFixed(msg, references).value, references)
         == seq(|msg|, k requires 0 <= k < |msg| => DecodeCommand.Byte(msg[k]))
  {
    var es := Allocations(msg, references).value;
    var ts := Tokens(es);
    forall k | 0 <= k < |ts| ensures DecodeCommand.NoSlash(ts[k]) {
      FullTokenHasNoSlash(Packing.Uint64(Some(es[k])));
    }
    DecodeCommand.SplitJoin(ts);
    TokensDecode(msg, references);
  }

  /** Each token of the allocations decodes to its byte of the message. */
  lemma TokensDecode(msg: seq<byte>, references: seq<PageReference>)
    requires DecodeCommand.UniqueNodes(references) && ShortTexts(references)
    requires Allocations(msg, references).Some?
    ensures DecodeAll(Tokens(Allocations(msg, references).value), references)
         == seq(|msg|, k requires 0 <= k < |msg| => DecodeCommand.Byte(msg[k]))
  {
    var es := Allocations(msg, references).value;
    var ts := Tokens(es);
    AllocationsHold(msg, references);
    forall k | 0 <= k < |msg|
      ensures DecodeGlyph(ts[k], references) == DecodeCommand.Byte(msg[k])
    {
      TokenDecodes(es[k], msg[k], references);
    }
  }

  // ---------------------------------------------------------------------------------------
  // The encoder's flag check

  /** The encoder's flag check as the decoder has it: `in=false` is treated as an absent flag,
      so only `in=true` conflicts with a message flag. */
  function EncodeMessageFixed(message: seq<byte>, inFlag: Option<bool>, stdin: seq<byte>): (r: Result<seq<byte>>)
    ensures r.Success? ==> r.value != []
    ensures inFlag == Some(true) && message != [] ==> r.Failure?
    ensures inFlag == Some(true) && message == [] ==>
      (r.Success? <==> LineReader.ReadMessage(stdin) != [])
      && (r.Success? ==> r.value == LineReader.ReadMessage(stdin))
    ensures inFlag != Some(true) ==> (r.Success? <==> message != []) && (r.Success? ==> r.value == message)
  {
    var flag: Option<bool> := if inFlag.Some? && !inFlag.value then None else inFlag;
    EncodeCommand.EncodeMessage(message, flag, stdin)
  }

  /** A message flag with `in=false` is refused by the encoder as written and accepted by the
      decoder and by the corrected check. */
  lemma InFalseIsRefused(message: seq<byte>, stdin: seq<byte>)
    requires message != []
    ensures EncodeCommand.EncodeMessage(message, Some(false), stdin).Failure?
    ensures DecodeCommand.DecodeMessage(message, Some(false), stdin) == Success(message)
    ensures EncodeMessageFixed(message, Some(false), stdin) == Success(message)
  {
  }
}
