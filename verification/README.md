# web-cipher (weph) in Dafny

A model of the cipher engine of web-cipher, a book cipher over web pages. The encoder maps
each byte of a message to one position in the text nodes of a set of pages. It packs that
position into a 64-bit value and writes the value as a short token over a 77-symbol alphabet.
The decoder reads each token back, finds the text node and prints the byte it names.

The model covers:

- the value types `PageReference` and `EncodedReference` (`types.dfy`);
- the packing of a position into a `uint64` and back (`packing.dfy`);
- the alphabet and its reverse lookup (`alphabet.dfy`);
- the base-77 token writer `Base77`, the reader `ToBase10` and `FromBase77` (`codec.dfy`);
- `Lookup` (`corpus.dfy`);
- the allocator `findMatches` / `getLastUsedFor` / `NextReference` (`allocator.dfy`);
- the tokenizer loop of `GetReferences`, run over an abstract token stream, and the
  commands' page loop that builds the corpus (`indexer.dfy`);
- `readMessageFromStdin`, run over the bytes standard input holds (`linereader.dfy`);
- the glyph loop and the flag checks of the `decode` command (`decode.dfy`);
- the allocation loop and the flag checks of the `encode` command (`encode.dfy`);
- the `main` function of the older single-file program in main.go (`legacy.dfy`).

`runs.dfy` holds two generic loop shapes. One prints outcomes until the first runtime panic.
The other threads a state through a loop. `corrected.dfy` holds corrected versions of the
defects listed under Findings. They compose into an encoder and a decoder that round-trip.

Go's `uint16` and `uint64` are bounded naturals. Every wrap-around is written out. This covers
`CharIndex + 1`, the tag depth, the node counter and the `uint16(len(Text))` conversion. An
index-out-of-range panic is an explicit `IndexPanic` outcome, not a precondition.

The older copies in main.go (`toUint64`, `toBase77`, `findMatches`, `getLastUsedFor`,
`nextReference`, `getReferences`) have the same logic as their cipher/cipher.go counterparts.
The same members model both copies.

Behaviours of the code worth knowing:

- `ToBase10` is little-endian: the first glyph is the units digit.
- `Base77` writes 0 as the empty token.
- `Base77` drops zero digits above the units place.
- The decoder prints `#` when no node matches or when `uint16(len(Text)) < CharIndex`. A
  CharIndex equal to `len(Text)` gets through the guard and panics.
- The allocator records the offset from the search start, not the position in the text. So
  "abcabc" yields 0, 2, 0 for three 'a's, not 0, 3 and then nothing.
- The encoder prints its tokens with no separator.

## Model

| member | source | states |
|---|---|---|
| Packing.Uint64 | cipher/cipher.go:29-41 | nil packs to 0; otherwise Url, CharIndex, Level and Index take bits 48-63, 32-47, 16-31 and 0-15 |
| Packing.FromUint64 | cipher/cipher.go:114-125 | the fields read from the big-endian buffer are the four 16-bit slices of the value; the text is empty and Ch is 0 |
| Packing.UnpackPack | cipher/cipher.go:29-41 | unpacking a packed position restores CharIndex and the (Index, Url, Level) name of the node |
| Packing.PackUnpack | cipher/cipher.go:113-128 | every `uint64` is the packing of the fields it unpacks to |
| Alphabet.IndexOfEncodingChar | cipher/cipher.go:73-81 | the result is below 77; it is the first position holding the byte, or 0 when no position does |
| Alphabet.IndexOfSymbol | cipher/cipher.go:13 | the 77 glyphs are distinct, so the lookup of glyph k is k |
| Alphabet.UnknownReadsAsA | cipher/cipher.go:80 | a byte outside the alphabet reads as digit 0, like 'a' |
| Alphabet.SlashIsNoSymbol | cipher/cipher.go:13 | '/' is not a glyph |
| Codec.Base77Loop | cipher/cipher.go:43-71 | the place loop yields the units glyph followed by the non-zero higher digits in increasing place order, "" for 0, and panics exactly when the value is at least 77^9 |
| Codec.PlaceEightPanics | cipher/cipher.go:54-58 | the place-8 quotient indexes past the alphabet exactly when the value is at least 77^9 |
| Codec.TokenHasNoSlash | cipher/cipher.go:58-70 | every byte of a token is a glyph and none is '/' |
| Codec.ToBase10 | cipher/cipher.go:83-111 | the result is below 77^6; the empty string reads as 0 |
| Codec.ToBase10IsLittleEndian | cipher/cipher.go:83-111 | glyph i has weight 77^i, and glyphs after the sixth are ignored |
| Codec.FromBase77 | cipher/cipher.go:113-128 | the token is read and split into the four fields; the page number is always 0 and CharIndex at most 48 |
| Codec.RoundTrip | cipher/cipher.go:43-111 | a value reads back from its token if and only if it is below 77^6 and has no zero digit between place 77^1 and its highest non-zero digit |
| Corpus.Lookup | cipher/cipher.go:130-138 | nil exactly when no reference has the (Index, Level, Url); otherwise the first one that does |
| Corpus.LookupSkipsOtherPages | cipher/cipher.go:130-138 | references of other pages never match, whatever comes before |
| Allocator.IndexByte | cipher/cipher.go:180 | -1 exactly when the byte is absent; otherwise its first position |
| Allocator.FindMatches | cipher/cipher.go:146-155 | a reference is among the matches exactly when it is one of the references and its text holds the byte |
| Allocator.MatchPositions | cipher/cipher.go:147-152 | the positions, in increasing order, of exactly the references whose text holds the byte |
| Allocator.FindMatchesInOrder | cipher/cipher.go:146-155 | the matches are the references at those positions, each once and in their original order |
| Allocator.FindMatchesAppend | cipher/cipher.go:147-152 | the matches of two slices appended are the matches of the first followed by those of the second |
| Allocator.GetLastUsedFor | cipher/cipher.go:157-166 | the most recent history entry for the byte in the node; nil exactly when there is none |
| Allocator.OffersByIndex | cipher/cipher.go:171-181 | a node is used exactly when the start lies inside its text and the byte occurs at or after the start |
| Allocator.NextReference | cipher/cipher.go:168-193 | nil exactly when no reference offers the byte; otherwise Ch is the byte, `Text[start + off]` is the byte with no earlier occurrence after the start, and CharIndex is `uint16(off)` |
| Allocator.NextReferenceTakesFirst | cipher/cipher.go:168-193 | the chosen node is the first reference, in slice order, that offers the byte |
| Allocator.MatchingIsRedundant | cipher/cipher.go:169-170 | filtering with `findMatches` first changes nothing |
| Allocator.FreshAllocation | cipher/cipher.go:168-193 | with an empty history the allocation is the first occurrence in the first reference containing the byte |
| Allocator.RelativeCharIndex | cipher/cipher.go:171-186 | three allocations of 'a' from "abcabc" record 0, then 2 (which holds 'c'), then 0 again |
| Indexer.GetReferencesLoop | cipher/cipher.go:203-250 | the tokenizer loop returns exactly the references of the accepted text tokens before the first error token |
| Indexer.GetReferences | cipher/cipher.go:195-251 | a fetch failure is returned unchanged as the error; otherwise the result is the collected references |
| Indexer.CollectedReferences | cipher/cipher.go:218-232 | the k-th reference has Index k (as `uint16`), the page number, and the text and depth of an accepted token; every accepted token is carried |
| Indexer.ErrorEndsPage | cipher/cipher.go:214-216 | nothing after the first error token is indexed |
| Indexer.ScriptIsSkipped | cipher/cipher.go:234-246 | in `<p>x<script>js</script>y` the script text is dropped and x, y become references 0 and 1 at depth 1 |
| Indexer.BuildCorpus | cmd/encode/command.go:86-96 | the corpus is built exactly when every page is fetched; otherwise the error is "error getting references: " and the error of the first page that failed, then a newline |
| Indexer.FirstUnreachable | cmd/encode/command.go:88-92 | the first page that cannot be fetched: every page before it was fetched |
| Indexer.CorpusIsConcatenation | cmd/encode/command.go:86-96 | the corpus is page 0's references, then page 1's, and so on, each carrying its page number |
| LineReader.SplitLinesLosesOnlyTail | cmd/decode/command.go:39-43 | the lines read are a prefix of the input; only a final line without a newline is lost |
| LineReader.SplitUnlines | cmd/decode/command.go:40 | reading back newline-terminated lines gives those lines |
| LineReader.TrimSpace | cmd/decode/command.go:45 | the result is a slice of the line with no space at either end |
| LineReader.ReadMessageFromStdin | cmd/decode/command.go:35-60 | the loop computes the joined message of the trimmed lines up to the second blank line in a row |
| LineReader.ReadMessageHasNoEmptyLine | cmd/decode/command.go:45-56 | the message holds no two newlines in a row and does not end with a newline |
| LineReader.ReadExample | cmd/encode/command.go:35-60 | "ab\n \ncd\n\n\ng" reads as "ab\ncd": the blank line becomes one newline and the second blank line in a row stops reading |
| DecodeCommand.SplitPieces | cmd/decode/command.go:98 | `strings.Split` yields one more piece than there are slashes, none holding a slash |
| DecodeCommand.JoinSplit | cmd/decode/command.go:98 | joining the pieces with '/' restores the message |
| DecodeCommand.SplitJoin | cmd/decode/command.go:98 | splitting slash-free pieces joined with '/' gives the pieces back |
| DecodeCommand.Resolve | cmd/decode/command.go:99-105 | `#` when the node is missing or `uint16(len) < CharIndex`; a panic exactly when CharIndex equals the length; otherwise the byte at CharIndex |
| DecodeCommand.OnlyFirstPageResolves | cmd/decode/command.go:99-100 | references of pages other than 0 never change what a glyph prints |
| DecodeCommand.DecodeToken | cmd/decode/command.go:99-104 | the token of a position that survives the codec prints the byte at that CharIndex |
| DecodeCommand.DecodeGlyphs | cmd/decode/command.go:98-106 | the loop prints the item of each glyph in order, and stops at the first panic |
| DecodeCommand.OneItemPerGlyph | cmd/decode/command.go:98-106 | every piece, empty ones included, prints one item |
| DecodeCommand.EmptyGlyph | cmd/decode/command.go:99 | an empty piece reads as CharIndex 0 of node (0, 0) of page 0 |
| DecodeCommand.DecodeMessage | cmd/decode/command.go:62-74 | a message with `in=true` is an error; `in=true` alone reads standard input; an empty message is an error |
| EncodeCommand.EncodeLoop | cmd/encode/command.go:98-108 | the loop prints one line per byte, in order, and leaves the history of the successful allocations |
| EncodeCommand.HistoryStep | cmd/encode/command.go:100-107 | byte i is allocated against the history of the bytes before it, and extends it only when it succeeds |
| EncodeCommand.HistoryIsChain | cmd/encode/command.go:98-108 | each history entry is the allocation of its byte against the entries before it; the history is no longer than the message |
| EncodeCommand.NotFoundExactly | cmd/encode/command.go:101-103 | a byte prints the failure line exactly when no reference offers it |
| EncodeCommand.PrintedHasNoSlash | cmd/encode/command.go:105 | the printed tokens hold no '/' |
| EncodeCommand.EncodeMessage | cmd/encode/command.go:62-74 | a message alongside any bool `in` flag is an error; `in=true` alone reads standard input; an empty message is an error |
| Legacy.MainCorpus | main.go:34-46 | nothing when either page fails; otherwise the corpus of the two pages numbered 0 and 1 |
| Legacy.Main | main.go:31-65 | `main` runs the encode loop over that corpus |
| Legacy.SecondPageNeverDecodes | main.go:40-46 | the second page's references never change what a glyph decodes to |
| Corrected.Allocate | cipher/cipher.go:180-186 | with `uint16(start + index)` the recorded CharIndex holds the byte and is its next occurrence at or after the start |
| Corrected.AllocatesFromCorpus | cipher/cipher.go:168-193 | the allocated node is one of the references |
| Corrected.AllocationsAdvance | cipher/cipher.go:171-174 | a repeated byte in the same node gets a strictly later position |
| Corrected.AbsoluteSample | cipher/cipher.go:171-186 | "abcabc" now yields 0, then 3, then nothing for 'a' |
| Corrected.FullRoundTrip | cipher/cipher.go:43-111 | a fixed eleven-digit token reads back as any `uint64` |
| Corrected.FullTokenHasNoSlash | cipher/cipher.go:13 | the fixed-width token holds no '/' |
| Corrected.InteriorZeroIsLost | cipher/cipher.go:54-67 | 77^2 does not read back from its token |
| Corrected.Show | cmd/decode/command.go:101-105 | with the guard `len(Text) <= int(CharIndex)` a byte is printed exactly when the node holds CharIndex, and it is the byte there |
| Corrected.FixedGuardAgrees | cmd/decode/command.go:101-105 | the corrected guard prints the same byte wherever the original prints one, and `#` where it panics |
| Corrected.GuardLetsEndThrough | cmd/decode/command.go:101-104 | the glyph "e+4mRb" against a node "x" panics |
| Corrected.OutputIsOneGlyph | cmd/encode/command.go:105 | the whole output of the encoder splits into a single glyph |
| Corrected.AllocationsHold | cmd/encode/command.go:98-108 | with absolute positions every allocation records its byte at a position of a corpus node |
| Corrected.RoundTrip | cmd/encode/command.go:98-108 | decoding the '/'-joined fixed-width tokens of the corrected allocations prints the message byte by byte |
| Corrected.EncodeMessageFixed | cmd/encode/command.go:62-74 | with `in=false` read as an absent flag, only `in=true` conflicts with a message; `in=true` alone reads standard input; an empty message is an error |
| Corrected.InFalseIsRefused | cmd/encode/command.go:64-66 | a message with `in=false` is refused by the encoder but accepted by the decoder and the corrected check |

## Left out

- HTTP fetching (`downloadContents`). Each page is a parameter: its token stream, or the
  failure the fetch would return. The nil `res` dereference on error is not modelled.
- The `golang.org/x/net/html` tokenizer. It is replaced by the token sequence it would
  deliver. Self-closing tags, comments and doctypes are one `Other` token that the loop
  ignores.
- `readUrlList`, `bufio` and the `context` package. Standard input is a parameter, and so are
  the flag values.
- The decimal printing of bytes by `fmt.Print` and the text of the "Couldn't find anything"
  line. Output is modelled as a sequence of items or lines, not as bytes.
- The output printed before a panic. A panicking run is one `IndexPanic` outcome.
- The trailing "\n\n" printed by both commands.
- cmd/version/command.go and command registration. They are command-line glue.
- Floating-point `math.Pow`. It is exact for 77^m with m <= 8 (77^8 < 2^53), so it is modelled
  as an integer power.
- LineReader.TrimSpace: only the six ASCII white-space bytes are trimmed. Multi-byte Unicode
  white space, which Go's `strings.TrimSpace` also trims, is not modelled.
- Legacy.Main: the fixed message of `main` is the parameter `msg`, not a constant.
- The discarded `fmt.Errorf` values in `main` (main.go:36-44). The model stops, as `main` does.

## Findings

| source | as written | input that shows it | evidently intended | confidence | as-written member | corrected member |
|---|---|---|---|---|---|---|
| cipher/cipher.go:185 | `CharIndex: uint16(index)` records the offset inside `Text[start:]` | node "abcabc", three allocations of 'a': 0, then 2 (holding 'c'), then 0 | `uint16(start + index)`, giving 0, 3 and then nothing | high; not executed | Allocator.RelativeCharIndex | Corrected.Allocate |
| cipher/cipher.go:54-67 | zero digits above the units place are dropped, and `ToBase10` reads six glyphs | 77^2 is written "ab" and reads back as 77 | a token that keeps every digit of the `uint64` | high; not executed | Corrected.InteriorZeroIsLost | Corrected.FullRoundTrip |
| cmd/decode/command.go:101 | `uint16(len(r.Text)) < e.CharIndex` | glyph "e+4mRb" (CharIndex 1 of node (0, 0) of page 0) against a node "x": `r.Text[1]` panics | `len(r.Text) <= int(e.CharIndex)` | high; not executed | Corrected.GuardLetsEndThrough | Corrected.Show |
| cmd/encode/command.go:105 | tokens are printed with no separator | any message of two bytes or more: the decoder sees one glyph | print '/' between tokens | medium; not executed | Corrected.OutputIsOneGlyph | Corrected.RoundTrip |
| cmd/encode/command.go:65 | `if msg != ""` refuses a message whenever `in` is set, even to false | `-m x` with `in=false` | `msg != "" && readFromIn`, as in the decoder | medium; not executed | Corrected.InFalseIsRefused | Corrected.EncodeMessageFixed |
