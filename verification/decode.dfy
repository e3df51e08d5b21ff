/** The `decode` command: the flag checks of `run` and the loop that resolves each
    '/'-separated glyph of the encoded message against the corpus
    (cmd/decode/command.go:62-74, 98-106). */
module DecodeCommand {
  import opened Types
  import Allocator
  import Codec
  import Packing
  import Corpus
  import LineReader
  import Runs

  // ---------------------------------------------------------------------------------------
  // Splitting the message on '/'

  /** Whether `s` holds no '/'. */
  predicate NoSlash(s: seq<byte>)
  {
    forall k :: 0 <= k < |s| ==> s[k] != '/'
  }

  /** Whether no piece holds a slash. */
  predicate AllNoSlash(pieces: seq<seq<byte>>)
  {
    forall k :: 0 <= k < |pieces| ==> NoSlash(pieces[k])
  }

  /** `strings.Split(s, "/")`: the pieces between the slashes, in order. A string without a
      slash, the empty string included, is a single piece. Written byte by byte: a slash
      starts a new piece, any other byte extends the first piece of the rest. */
  function Split(s: seq<byte>): (pieces: seq<seq<byte>>)
    ensures |pieces| >= 1
  {
    if s == [] then [[]]
    else
      var rest := Split(s[1..]);
      if s[0] == '/' then [[]] + rest else [[s[0]] + rest[0]] + rest[1..]
  }

  /** `strings.Join(pieces, "/")`: the pieces with one '/' between neighbours. */
  function Join(pieces: seq<seq<byte>>): seq<byte>
    requires |pieces| >= 1
  {
    if |pieces| == 1 then pieces[0] else pieces[0] + ['/'] + Join(pieces[1..])
  }

  /** The number of slashes in `s`. */
  function SlashCount(s: seq<byte>): nat
  {
    if s == [] then 0 else (if s[0] == '/' then 1 else 0) + SlashCount(s[1..])
  }

  /** A message splits into one more piece than it has slashes, and no piece holds a slash. */
  lemma {:induction false} SplitPieces(s: seq<byte>)
    ensures |Split(s)| == SlashCount(s) + 1
    ensures AllNoSlash(Split(s))
  {
    if s != [] {
      var rest := Split(s[1..]);
      SplitPieces(s[1..]);
      if s[0] == '/' {
        ConsNoSlash([], rest);
      } else {
        assert NoSlash([s[0]] + rest[0]);
        ConsNoSlash([s[0]] + rest[0], rest[1..]);
      }
    }
  }

  lemma ConsNoSlash(p: seq<byte>, ps: seq<seq<byte>>)
    requires NoSlash(p) && AllNoSlash(ps)
    ensures AllNoSlash([p] + ps)
  {
    assert forall k :: 0 < k <= |ps| ==> ([p] + ps)[k] == ps[k - 1];
  }

  /** Joining the pieces back gives the message: splitting loses nothing. */
  lemma {:induction false} JoinSplit(s: seq<byte>)
    ensures Join(Split(s)) == s
  {
    if s != [] {
      var rest := Split(s[1..]);
      JoinSplit(s[1..]);
      if s[0] == '/' {
        assert ([[]] + rest)[1..] == rest;
        assert s == ['/'] + s[1..];
      } else {
        JoinHead(s[0], rest);
        assert s == [s[0]] + s[1..];
      }
    }
  }

  /** Extending the first piece extends the join at its front. */
  lemma JoinHead(c: byte, ps: seq<seq<byte>>)
    requires |ps| >= 1
    ensures Join([[c] + ps[0]] + ps[1..]) == [c] + Join(ps)
  {
    var qs := [[c] + ps[0]] + ps[1..];
    if |ps| > 1 {
      assert qs[1..] == ps[1..];
    }
  }

  /** Splitting a join of slash-free pieces gives the pieces back. */
  lemma {:induction false} SplitJoin(pieces: seq<seq<byte>>)
    requires |pieces| >= 1 && AllNoSlash(pieces)
    ensures Split(Join(pieces)) == pieces
    decreases |pieces|
  {
    if |pieces| == 1 {
      SplitWithoutSlash(pieces[0]);
    } else {
      SplitJoin(pieces[1..]);
      SplitAtSlash(pieces[0], Join(pieces[1..]));
      assert pieces == [pieces[0]] + pieces[1..];
    }
  }

  /** A slash-free message is a single piece. */
  lemma {:induction false} SplitWithoutSlash(s: seq<byte>)
    requires NoSlash(s)
    ensures Split(s) == [s]
  {
    if s != [] {
      SplitWithoutSlash(s[1..]);
      assert s == [s[0]] + s[1..];
    }
  }

  /** A slash-free piece followed by a slash is the first piece. */
  lemma {:induction false} SplitAtSlash(p: seq<byte>, rest: seq<byte>)
    requires NoSlash(p)
    ensures Split(p + ['/'] + rest) == [p] + Split(rest)
  {
    var s := p + ['/'] + rest;
    if p == [] {
      assert s[1..] == rest;
    } else {
      SplitAtSlash(p[1..], rest);
      assert s[1..] == p[1..] + ['/'] + rest;
      assert p == [p[0]] + p[1..];
    }
  }

  // ---------------------------------------------------------------------------------------
  // Resolving one glyph

  /** One item the loop prints: `#`, or the byte found in a text node. */
  datatype Item = Hash | Byte(b: byte)

  /** The body of the glyph loop: read the glyph with `FromBase77`, look the text node up and
      print `#` when there is none or when `uint16(len(r.Text)) < CharIndex`; otherwise print
      `r.Text[CharIndex]`. The guard lets CharIndex == len(Text) through, and that case, and
      only that one, panics. A text node of 65536 bytes or more can print `#` for a position
      it holds, because its length is truncated to 16 bits. */
  function Resolve(glyph: seq<byte>, references: seq<PageReference>): (r: Checked<Item>)
    ensures var e := Codec.FromBase77(glyph);
      var found := Corpus.Lookup(e.reference.index, e.reference.level, e.reference.url, references);
      && (r == IndexPanic <==> found.Some? && e.charIndex == |found.value.text|)
      && (r.Ok? && r.value.Byte? <==>
           found.Some? && e.charIndex < |found.value.text| && e.charIndex <= Wrap16(|found.value.text|))
      && (r.Ok? && r.value.Byte? ==> r.value.b == found.value.text[e.charIndex])
      && (found.Some? && e.charIndex < |found.value.text| < 0x1_0000 ==>
           r == Ok(Byte(found.value.text[e.charIndex])))
  {
    var e := Codec.FromBase77(glyph);
    match Corpus.Lookup(e.reference.index, e.reference.level, e.reference.url, references)
    case None => Ok(Hash)
    case Some(r) =>
      if Wrap16(|r.text|) < e.charIndex then Ok(Hash)
      else if e.charIndex < |r.text| then Ok(Byte(r.text[e.charIndex]))
      else IndexPanic
  }

  /** The page a glyph names is always the first one: `ToBase10` reads at most six glyphs, so
      the packed value stays below 2^48 and its Url field is 0. Only references of page 0 are
      ever printed. */
  lemma OnlyFirstPageResolves(glyph: seq<byte>, a: seq<PageReference>, b: seq<PageReference>)
    requires forall k :: 0 <= k < |b| ==> b[k].url != 0
    ensures Resolve(glyph, a + b) == Resolve(glyph, a)
  {
    var e := Codec.FromBase77(glyph);
    Corpus.LookupAppend(e.reference.index, e.reference.level, e.reference.url, a, b);
    assert forall k :: 0 <= k < |b| ==> !Corpus.Names(b[k], e.reference.index, e.reference.level, e.reference.url);
  }

  // ---------------------------------------------------------------------------------------
  // Decoding a token produced by the allocator

  /** Whether no two references name the same text node with different contents. */
  predicate UniqueNodes(references: seq<PageReference>)
  {
    forall i, j :: 0 <= i < |references| && 0 <= j < |references| ==>
      SameNode(references[i], references[j]) ==> references[i] == references[j]
  }

  /** Decoding the token of an allocation prints the byte at its CharIndex, provided the packed
      value survives the token round trip, the text node is in the corpus, node names are
      unique and CharIndex lies inside the text. Whether that byte is the one allocated depends
      on CharIndex being absolute, which it is only for the first allocation in a node. */
  lemma DecodeToken(e: EncodedReference, references: seq<PageReference>)
    requires exists k :: 0 <= k < |references| && references[k] == e.reference
    requires UniqueNodes(references)
    requires e.charIndex < |e.reference.text| < 0x1_0000
    requires Packing.Uint64(Some(e)) < Codec.Pow77(6) && Codec.NoInteriorZeros(Packing.Uint64(Some(e)))
    ensures Codec.TokenOf(e).Ok?
    ensures Resolve(Codec.TokenOf(e).value, references) == Ok(Byte(e.reference.text[e.charIndex]))
  {
    TokenReadsBack(e);
    var d := Codec.FromBase77(Codec.TokenOf(e).value);
    FindsNode(e.reference, d.reference, references);
  }

  /** The token of an allocation whose packed value survives the round trip reads back as the
      same CharIndex and the same text node name. */
  lemma TokenReadsBack(e: EncodedReference)
    requires Packing.Uint64(Some(e)) < Codec.Pow77(6) && Codec.NoInteriorZeros(Packing.Uint64(Some(e)))
    ensures Codec.TokenOf(e).Ok?
    ensures Codec.FromBase77(Codec.TokenOf(e).value).charIndex == e.charIndex
    ensures SameNode(Codec.FromBase77(Codec.TokenOf(e).value).reference, e.reference)
  {
    var v := Packing.Uint64(Some(e));
    Codec.RoundTrip(v);
    Packing.UnpackPack(e);
  }

  /** In a corpus with unique node names, looking up the name of a member finds that member. */
  lemma FindsNode(r: PageReference, name: PageReference, references: seq<PageReference>)
    requires exists k :: 0 <= k < |references| && references[k] == r
    requires UniqueNodes(references) && SameNode(name, r)
    ensures Corpus.Lookup(name.index, name.level, name.url, references) == Some(r)
  {
    var k :| 0 <= k < |references| && references[k] == r;
    assert Corpus.Names(references[k], name.index, name.level, name.url);
  }

  // ---------------------------------------------------------------------------------------
  // The glyph loop

  /** The outcome of each glyph. */
  function Outcomes(glyphs: seq<seq<byte>>, references: seq<PageReference>): (os: seq<Checked<Item>>)
    ensures |os| == |glyphs|
  {
    seq(|glyphs|, k requires 0 <= k < |glyphs| => Resolve(glyphs[k], references))
  }

  /** What the glyph loop prints for `glyphs`; a panic ends the run. */
  function ResolveAll(glyphs: seq<seq<byte>>, references: seq<PageReference>): Checked<seq<Item>>
  {
    Runs.Collect(Outcomes(glyphs, references))
  }

  /** The loop of cmd/decode/command.go:98-106 over `strings.Split(encodedMsg, "/")`: one item per
      glyph, in order, or a panic when some glyph panics. */
  method DecodeGlyphs(encodedMsg: seq<byte>, references: seq<PageReference>) returns (out: Checked<seq<Item>>)
    ensures out == ResolveAll(Split(encodedMsg), references)
  {
    out := Runs.PrintUntilPanic(Outcomes(Split(encodedMsg), references));
  }

  /** Every glyph, the empty ones included, prints exactly one item: one more than the number of
      slashes in the message. */
  lemma OneItemPerGlyph(encodedMsg: seq<byte>, references: seq<PageReference>)
    requires ResolveAll(Split(encodedMsg), references).Ok?
    ensures |ResolveAll(Split(encodedMsg), references).value| == SlashCount(encodedMsg) + 1
  {
    SplitPieces(encodedMsg);
    EmptyGlyph();
  }

  /** An empty piece reads as 0 and names node (0, 0) of page 0. */
  lemma EmptyGlyph()
    ensures Codec.FromBase77([]) == EncodedReference(0, 0 as char, PageReference([], 0, 0, 0))
  {
    var e := Codec.FromBase77([]);
    assert Codec.ToBase10([]) == 0;
    assert e.reference.url == 0 && e.charIndex == 0;
    assert e.reference.level == 0 && e.reference.index == 0;
  }

  // ---------------------------------------------------------------------------------------
  // Flag checks

  /** The message the command goes on to decode, or the error `run` returns. `inFlag` is the
      value of "flags.in" when it is set as a bool, and `stdin` what standard input holds.
      Both a message and `in=true` is an error; with `in=true` alone the message is read from
      standard input; otherwise the message flag is used, even alongside `in=false`; and an
      empty message is an error. */
  function DecodeMessage(message: seq<byte>, inFlag: Option<bool>, stdin: seq<byte>): (r: Result<seq<byte>>)
    ensures r.Success? ==> r.value != []
    ensures inFlag == Some(true) && message != [] ==> r.Failure?
    ensures inFlag == Some(true) && message == [] ==>
      (r.Success? <==> LineReader.ReadMessage(stdin) != [])
      && (r.Success? ==> r.value == LineReader.ReadMessage(stdin))
    ensures inFlag != Some(true) ==> (r.Success? <==> message != []) && (r.Success? ==> r.value == message)
  {
    var msg :=
      if inFlag == Some(true) && message == [] then LineReader.ReadMessage(stdin) else message;
    if inFlag == Some(true) && message != [] then Failure("cannot specify a message flag and reading from input")
    else if msg == [] then Failure("you must specify a message to decode")
    else Success(msg)
  }
}
