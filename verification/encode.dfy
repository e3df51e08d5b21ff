/** The `encode` command: the flag checks of `run` and the loop that allocates a position for
    each byte of the message and prints its token (cmd/encode/command.go:62-74, 98-108). The
    same loop is the body of `main` in main.go:50-61. */
module EncodeCommand {
  import opened Types
  import Allocator
  import Codec
  import Packing
  import LineReader
  import Runs
  import DecodeCommand

  /** One thing the loop prints for a message byte: the token of its allocation, or the line
      "Couldn't find anything for %x" when no text node offers the byte. */
  datatype Line = Token(glyphs: seq<byte>) | NotFound(b: byte)

  /** The history after byte `b`: its allocation is appended when there is one; a byte without
      one leaves the history as it was. */
  function Advance(used: seq<EncodedReference>, b: byte, references: seq<PageReference>): seq<EncodedReference>
  {
    match Allocator.NextReference(b, used, references)
    case None => used
    case Some(e) => used + [e]
  }

  /** What the loop prints for byte `b` given the history `used`: `Codec.TokenOf` panics when
      the packed value has a tenth base-77 digit. */
  function LineFor(b: byte, used: seq<EncodedReference>, references: seq<PageReference>): Checked<Line>
  {
    match Allocator.NextReference(b, used, references)
    case None => Ok(NotFound(b))
    case Some(e) =>
      match Codec.TokenOf(e)
      case IndexPanic => IndexPanic
      case Ok(t) => Ok(Token(t))
  }

  /** The loop body: what byte `b` prints, and the history it leaves. */
  function Step(references: seq<PageReference>): (seq<EncodedReference>, byte) -> (Checked<Line>, seq<EncodedReference>)
  {
    (used: seq<EncodedReference>, b: byte) => (LineFor(b, used, references), Advance(used, b, references))
  }

  /** The history `used` after the loop has seen `msg`. */
  function History(msg: seq<byte>, references: seq<PageReference>): seq<EncodedReference>
  {
    Runs.StateAfter(msg, Step(references), [])
  }

  /** What the loop prints for `msg`; a panic ends the run. */
  function Encode(msg: seq<byte>, references: seq<PageReference>): Checked<seq<Line>>
  {
    Runs.Collect(Runs.Outcomes(msg, Step(references), []))
  }

  /** The loop of cmd/encode/command.go:98-108: each byte is passed to `NextReference` with the
      history of all earlier successful allocations; a failure prints a line and leaves the
      history unchanged, a success prints the token and is appended to the history. */
  method EncodeLoop(msg: seq<byte>, references: seq<PageReference>)
    returns (out: Checked<seq<Line>>, used: seq<EncodedReference>)
    ensures out == Encode(msg, references)
    ensures out.Ok? ==> used == History(msg, references)
  {
    out, used := Runs.Thread(msg, Step(references), []);
  }

  /** Byte `i` is printed from the history of the bytes before it, and extends that history. */
  lemma HistoryStep(msg: seq<byte>, i: nat, references: seq<PageReference>)
    requires i < |msg|
    ensures Runs.Outcomes(msg, Step(references), [])[i] == LineFor(msg[i], History(msg[..i], references), references)
    ensures History(msg[..i + 1], references) == Advance(History(msg[..i], references), msg[i], references)
  {
    Runs.StateStep(msg, i, Step(references), []);
  }

  // ---------------------------------------------------------------------------------------
  // What the history holds

  /** Whether every entry of `used` is the allocation the allocator makes for its byte given
      the entries before it. */
  predicate Chain(used: seq<EncodedReference>)
  {
    forall j :: 0 <= j < |used| ==> Allocator.AllocatedFrom(used[j].ch, used[..j], used[j])
  }

  /** The history is a chain of allocations, one per byte that found a text node, and it never
      grows by more than one entry per byte. */
  lemma {:induction false} HistoryIsChain(msg: seq<byte>, references: seq<PageReference>)
    ensures Chain(History(msg, references))
    ensures |History(msg, references)| <= |msg|
  {
    if msg != [] {
      var n := |msg| - 1;
      var front := msg[..n];
      var used := History(front, references);
      HistoryIsChain(front, references);
      HistoryStep(msg, n, references);
      assert msg[..n + 1] == msg;
      var next := Allocator.NextReference(msg[n], used, references);
      if next.Some? {
        ChainSnoc(used, next.value);
      }
    }
  }

  lemma ChainSnoc(used: seq<EncodedReference>, e: EncodedReference)
    requires Chain(used) && Allocator.AllocatedFrom(e.ch, used, e)
    ensures Chain(used + [e])
  {
    var h := used + [e];
    assert h[..|used|] == used;
    forall j | 0 <= j < |used|
      ensures Allocator.AllocatedFrom(h[j].ch, h[..j], h[j])
    {
      assert h[..j] == used[..j];
    }
  }

  /** A byte prints "not found" exactly when no text node offers it given the history;
      otherwise it prints a token, or the run panics. */
  lemma NotFoundExactly(b: byte, used: seq<EncodedReference>, references: seq<PageReference>)
    ensures LineFor(b, used, references) == Ok(NotFound(b)) <==>
      forall j :: 0 <= j < |references| ==> !Allocator.Offers(b, used, references[j])
  {
  }

  // ---------------------------------------------------------------------------------------
  // What reaches standard output

  /** The bytes the tokens put on standard output: the tokens one after another, with nothing
      between them. */
  function Printed(lines: seq<Line>): seq<byte>
  {
    if lines == [] then []
    else Printed(lines[..|lines| - 1]) + (match lines[|lines| - 1] case Token(t) => t case NotFound(_) => [])
  }

  /** The printed tokens hold no '/'. */
  lemma {:induction false} PrintedHasNoSlash(msg: seq<byte>, references: seq<PageReference>)
    requires Encode(msg, references).Ok?
    ensures DecodeCommand.NoSlash(Printed(Encode(msg, references).value))
  {
    var lines := Encode(msg, references).value;
    TokensHaveNoSlash(msg, references);
    PrintedOfClean(lines);
  }

  /** Whether every token line holds no '/'. */
  predicate CleanTokens(lines: seq<Line>)
  {
    forall k :: 0 <= k < |lines| ==> lines[k].Token? ==> DecodeCommand.NoSlash(lines[k].glyphs)
  }

  /** Every token the loop prints is made of alphabet glyphs. */
  lemma TokensHaveNoSlash(msg: seq<byte>, references: seq<PageReference>)
    requires Encode(msg, references).Ok?
    ensures CleanTokens(Encode(msg, references).value)
  {
    var lines := Encode(msg, references).value;
    var os := Runs.Outcomes(msg, Step(references), []);
    forall k | 0 <= k < |lines| && lines[k].Token?
      ensures DecodeCommand.NoSlash(lines[k].glyphs)
    {
      TokenLine(msg, references, k, lines[k]);
    }
  }

  lemma TokenLine(msg: seq<byte>, references: seq<PageReference>, k: nat, line: Line)
    requires k < |msg| && line.Token?
    requires Runs.Outcomes(msg, Step(references), [])[k] == Ok(line)
    ensures DecodeCommand.NoSlash(line.glyphs)
  {
    HistoryStep(msg, k, references);
    var used := History(msg[..k], references);
    var e := Allocator.NextReference(msg[k], used, references).value;
    Codec.TokenHasNoSlash(Packing.Uint64(Some(e)));
  }

  lemma {:induction false} PrintedOfClean(lines: seq<Line>)
    requires CleanTokens(lines)
    ensures DecodeCommand.NoSlash(Printed(lines))
  {
    if lines != [] {
      var front := lines[..|lines| - 1];
      assert forall k :: 0 <= k < |front| ==> front[k] == lines[k];
      PrintedOfClean(front);
    }
  }

  // ---------------------------------------------------------------------------------------
  // Flag checks

  /** The message the command goes on to encode, or the error `run` returns. Unlike the decoder,
      a message flag is refused whenever "flags.in" is set as a bool, even to false; with
      `in=true` and no message flag the message is read from standard input; and an empty
      message is an error. */
  function EncodeMessage(message: seq<byte>, inFlag: Option<bool>, stdin: seq<byte>): (r: Result<seq<byte>>)
    ensures r.Success? ==> r.value != []
    ensures inFlag.Some? && message != [] ==> r.Failure?
    ensures inFlag == Some(true) && message == [] ==>
      (r.Success? <==> LineReader.ReadMessage(stdin) != [])
      && (r.Success? ==> r.value == LineReader.ReadMessage(stdin))
    ensures inFlag.None? ==> (r.Success? <==> message != []) && (r.Success? ==> r.value == message)
    ensures inFlag == Some(false) && message == [] ==> r.Failure?
  {
    var msg := if inFlag == Some(true) && message == [] then LineReader.ReadMessage(stdin) else message;
    if inFlag.Some? && message != [] then Failure("cannot specify a message flag and reading from input")
    else if msg == [] then Failure("you must specify a message to encode")
    else Success(msg)
  }
}
