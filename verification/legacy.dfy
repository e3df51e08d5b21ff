/** The older, single-file program: `main` indexes two pages and encodes a fixed message
    (main.go:31-65). Its helpers are line-for-line copies of the cipher engine (`toUint64`,
    `toBase77`, `findMatches`, `getLastUsedFor`, `nextReference`, `getReferences`), so the
    members of `Packing`, `Codec`, `Allocator` and `Indexer` model both copies. */
module Legacy {
  import opened Types
  import Indexer
  import EncodeCommand
  import DecodeCommand

  /** The corpus `main` builds: the references of the first page with page number 0, followed
      by those of the second page with page number 1. When either page cannot be fetched,
      `main` returns without printing anything (the error it formats is discarded). It is the
      corpus the commands build from the same two pages. */
  function MainCorpus(first: Indexer.Page, second: Indexer.Page): (r: Option<seq<PageReference>>)
    ensures r.None? <==> first.Unreachable? || second.Unreachable?
    ensures r.Some? ==> Indexer.BuildCorpus([first, second]) == Success(r.value)
  {
    TwoPages(first, second);
    match Indexer.GetReferences(first, 0)
    case Failure(_) => None
    case Success(references) =>
      match Indexer.GetReferences(second, 1)
      case Failure(_) => None
      case Success(otherRefs) => Some(references + otherRefs)
  }

  /** The page loop of the commands on two pages. */
  lemma TwoPages(first: Indexer.Page, second: Indexer.Page)
    ensures Indexer.BuildCorpus([first, second]) ==
      match Indexer.GetReferences(first, 0)
      case Failure(e) => Failure(Indexer.ReferencesError(e))
      case Success(a) =>
        match Indexer.GetReferences(second, 1)
        case Failure(e) => Failure(Indexer.ReferencesError(e))
        case Success(b) => Success(a + b)
  {
    var pages := [first, second];
    assert pages[..1] == [first];
    OnePage(first);
  }

  /** The page loop of the commands on one page. */
  lemma OnePage(first: Indexer.Page)
    ensures Indexer.BuildCorpus([first]) ==
      match Indexer.GetReferences(first, 0)
      case Failure(e) => Failure(Indexer.ReferencesError(e))
      case Success(a) => Success(a)
  {
    assert [first][..0] == [];
    if first.Fetched? {
      var a := Indexer.GetReferences(first, 0).value;
      assert [] + a == a;
    }
  }

  /** What `main` prints: nothing when a page cannot be fetched; otherwise what the encode loop
      prints for the message over the two-page corpus. `main` always encodes the same sentence
      ("the quick fox jumps over the gate ..."); here it is the parameter `msg`. */
  function Main(first: Indexer.Page, second: Indexer.Page, msg: seq<byte>): (r: Option<Checked<seq<EncodeCommand.Line>>>)
    ensures r.None? <==> first.Unreachable? || second.Unreachable?
    ensures r.Some? ==> r.value == EncodeCommand.Encode(msg, Indexer.BuildCorpus([first, second]).value)
  {
    match MainCorpus(first, second)
    case None => None
    case Some(references) => Some(EncodeCommand.Encode(msg, references))
  }

  /** The second page never answers a decode: every glyph names page 0, so resolving against
      `main`'s corpus is resolving against the first page alone. */
  lemma SecondPageNeverDecodes(first: Indexer.Page, second: Indexer.Page, glyph: seq<byte>)
    requires MainCorpus(first, second).Some?
    ensures DecodeCommand.Resolve(glyph, MainCorpus(first, second).value)
         == DecodeCommand.Resolve(glyph, Indexer.GetReferences(first, 0).value)
  {
    var b := Indexer.GetReferences(second, 1).value;
    Indexer.CollectedReferences(Indexer.Live(second.tokens), 1);
    assert forall k :: 0 <= k < |b| ==> b[k].url == 1;
    DecodeCommand.OnlyFirstPageResolves(glyph, Indexer.GetReferences(first, 0).value, b);
  }
}
