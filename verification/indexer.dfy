/** The page indexer: the tokenizer loop of `GetReferences` (cipher/cipher.go:195-251; the same
    loop is `getReferences` in main.go:166-222). The HTML tokenizer itself is replaced by the
    sequence of tokens it would deliver. */
module Indexer {
  import opened Types

  /** The tokens the loop distinguishes. `Other` stands for every token the loop ignores
      (self-closing tags, comments, doctypes). */
  datatype Token = StartTag(name: string) | EndTag | Text(text: seq<byte>) | ErrorToken | Other

  /** The start tags whose contents are not indexed. */
  predicate Hides(name: string)
  {
    name == "script" || name == "style"
  }

  /** The tokens the loop consumes: everything before the first error token (the tokenizer
      reports end of input as an error token, so a stream without one is read to its end). */
  function Live(ts: seq<Token>): (live: seq<Token>)
    ensures |live| <= |ts| && live == ts[..|live|]
    ensures |live| < |ts| ==> ts[|live|] == ErrorToken
    ensures forall k :: 0 <= k < |live| ==> ts[k] != ErrorToken
  {
    if ts == [] || ts[0] == ErrorToken then []
    else [ts[0]] + Live(ts[1..])
  }

  /** The number of tokens in `ts` satisfying start (`starts`) or end (`!starts`) tags. */
  function CountTags(ts: seq<Token>, starts: bool): (n: nat)
    ensures n <= |ts|
  {
    if ts == [] then 0
    else CountTags(ts[..|ts| - 1], starts)
         + (if (starts && ts[|ts| - 1].StartTag?) || (!starts && ts[|ts| - 1].EndTag?) then 1 else 0)
  }

  /** The tag depth after `ts`: start tags minus end tags, as a `uint16` that wraps. */
  function Depth(ts: seq<Token>): u16
  {
    Wrap16(CountTags(ts, true) - CountTags(ts, false))
  }

  /** Whether text is being dropped after `ts`: some `script` or `style` start tag in `ts` has
      no end tag (of any name) after it. */
  predicate Ignoring(ts: seq<Token>)
  {
    exists i | 0 <= i < |ts| :: ts[i].StartTag? && Hides(ts[i].name)
      && forall j | i < j < |ts| :: !ts[j].EndTag?
  }

  /** Whether `ts[i]` is a text token that becomes a page reference. */
  predicate Accepted(ts: seq<Token>, i: int)
    requires 0 <= i < |ts|
  {
    ts[i].Text? && !Ignoring(ts[..i])
  }

  /** The positions of the accepted text tokens, in increasing order. */
  function AcceptedPositions(ts: seq<Token>): (ps: seq<nat>)
    ensures forall k :: 0 <= k < |ps| ==> ps[k] < |ts| && Accepted(ts, ps[k])
    ensures forall k, l :: 0 <= k < l < |ps| ==> ps[k] < ps[l]
    ensures forall i :: 0 <= i < |ts| && Accepted(ts, i) ==> i in ps
  {
    if ts == [] then []
    else
      var p := ts[..|ts| - 1];
      PrefixAccepted(ts);
      AcceptedPositions(p) + (if Accepted(ts, |ts| - 1) then [|ts| - 1] else [])
  }

  /** Acceptance of a token depends only on the tokens before it. */
  lemma PrefixAccepted(ts: seq<Token>)
    requires ts != []
    ensures forall i :: 0 <= i < |ts| - 1 ==> (Accepted(ts, i) <==> Accepted(ts[..|ts| - 1], i))
  {
    forall i | 0 <= i < |ts| - 1 ensures Accepted(ts, i) <==> Accepted(ts[..|ts| - 1], i) {
      assert ts[..i] == ts[..|ts| - 1][..i];
    }
  }

  /** The references a page with number `url` yields from its tokens `ts`: the k-th accepted
      text token becomes the reference with Index k (as a `uint16`), the depth before the
      token as its Level, and the page number as its Url. */
  function Collected(ts: seq<Token>, url: u16): (refs: seq<PageReference>)
  {
    var ps := AcceptedPositions(ts);
    seq(|ps|, k requires 0 <= k < |ps| =>
      PageReference(ts[ps[k]].text, Depth(ts[..ps[k]]), Wrap16(k), url))
  }

  /** The references are exactly the accepted text tokens: the k-th reference has Index k (as
      a `uint16`) and the page number as Url, and carries the text of an accepted token with the
      depth before that token as its Level; every accepted token is carried by some reference. */
  lemma CollectedReferences(ts: seq<Token>, url: u16)
    ensures forall k :: 0 <= k < |Collected(ts, url)| ==>
      var r := Collected(ts, url)[k];
      && r.index == Wrap16(k) && r.url == url
      && exists i :: 0 <= i < |ts| && Accepted(ts, i) && r.text == ts[i].text && r.level == Depth(ts[..i])
    ensures forall i :: 0 <= i < |ts| && Accepted(ts, i) ==>
      exists k :: 0 <= k < |Collected(ts, url)|
        && Collected(ts, url)[k].text == ts[i].text && Collected(ts, url)[k].level == Depth(ts[..i])
  {
    var refs := Collected(ts, url);
    var ps := AcceptedPositions(ts);
    forall k | 0 <= k < |refs|
      ensures exists i :: 0 <= i < |ts| && Accepted(ts, i) && refs[k].text == ts[i].text
                          && refs[k].level == Depth(ts[..i])
    {
      var i := ps[k];
      assert Accepted(ts, i) && refs[k].text == ts[i].text;
    }
    forall i | 0 <= i < |ts| && Accepted(ts, i)
      ensures exists k :: 0 <= k < |refs| && refs[k].text == ts[i].text && refs[k].level == Depth(ts[..i])
    {
      var k :| 0 <= k < |ps| && ps[k] == i;
      assert refs[k].text == ts[i].text;
    }
  }

  /** How one token changes the tag depth. */
  lemma DepthStep(p: seq<Token>, t: Token)
    ensures Depth(p + [t]) == if t.StartTag? then Wrap16(Depth(p) + 1)
                              else if t.EndTag? then Wrap16(Depth(p) - 1)
                              else Depth(p)
  {
    assert (p + [t])[..|p|] == p;
    var a: int := CountTags(p, true);
    var b: int := CountTags(p, false);
    if t.StartTag? {
      WrapShift(a - b, 1);
    } else if t.EndTag? {
      WrapShift(a - b, -1);
    }
  }

  /** How one token changes the ignore flag: a `script`/`style` start tag sets it, any end tag
      clears it, every other token leaves it alone. */
  lemma IgnoringStep(p: seq<Token>, t: Token)
    ensures Ignoring(p + [t]) == if t.StartTag? && Hides(t.name) then true
                                 else if t.EndTag? then false
                                 else Ignoring(p)
  {
    var q := p + [t];
    if t.StartTag? && Hides(t.name) {
      assert q[|p|] == t;
    } else if t.EndTag? {
      forall i | 0 <= i < |q| && q[i].StartTag? && Hides(q[i].name)
        ensures exists j | i < j < |q| :: q[j].EndTag?
      {
        assert q[|p|] == t;
      }
    } else {
      if Ignoring(p) {
        var i :| 0 <= i < |p| && p[i].StartTag? && Hides(p[i].name)
          && forall j | i < j < |p| :: !p[j].EndTag?;
        assert q[i] == p[i];
        assert forall j | i < j < |q| :: !q[j].EndTag? by {
          forall j | i < j < |q| ensures !q[j].EndTag? {
            if j < |p| { assert q[j] == p[j]; } else { assert q[j] == t; }
          }
        }
      }
      assert q[|p|] == t;
      if Ignoring(q) {
        var i :| 0 <= i < |q| && q[i].StartTag? && Hides(q[i].name)
          && forall j | i < j < |q| :: !q[j].EndTag?;
        assert i < |p|;
        assert p[i] == q[i];
        assert forall j | i < j < |p| :: !p[j].EndTag? by {
          forall j | i < j < |p| ensures !p[j].EndTag? { assert p[j] == q[j]; }
        }
      }
    }
  }

  /** How one token extends the collected references: an accepted text token appends one
      reference, with the next counter value and the current depth; any other token appends
      nothing. */
  lemma CollectedStep(p: seq<Token>, t: Token, url: u16)
    ensures Collected(p + [t], url) ==
      if t.Text? && !Ignoring(p)
      then Collected(p, url) + [PageReference(t.text, Depth(p), Wrap16(|Collected(p, url)|), url)]
      else Collected(p, url)
  {
    var a := Collected(p + [t], url);
    var b := Collected(p, url);
    CollectedKeepsEarlier(p, t, url);
    if t.Text? && !Ignoring(p) {
      assert a == b + [a[|b|]];
    } else {
      assert a == b;
    }
  }

  /** Appending a token keeps the earlier references and adds one exactly for an accepted text
      token. */
  lemma CollectedKeepsEarlier(p: seq<Token>, t: Token, url: u16)
    ensures |Collected(p + [t], url)| == |Collected(p, url)| + (if t.Text? && !Ignoring(p) then 1 else 0)
    ensures forall k :: 0 <= k < |Collected(p, url)| ==> Collected(p + [t], url)[k] == Collected(p, url)[k]
    ensures t.Text? && !Ignoring(p) ==>
      Collected(p + [t], url)[|Collected(p, url)|]
        == PageReference(t.text, Depth(p), Wrap16(|Collected(p, url)|), url)
  {
    var q := p + [t];
    assert q[..|q| - 1] == p;
    assert q[..|p|] == p;
    var ps := AcceptedPositions(p);
    assert AcceptedPositions(q) == ps + (if Accepted(q, |p|) then [|p|] else []);
    var a := Collected(q, url);
    var b := Collected(p, url);
    forall k | 0 <= k < |ps| ensures a[k] == b[k] {
      assert q[ps[k]] == p[ps[k]];
      assert q[..ps[k]] == p[..ps[k]];
    }
  }

  /** Where the loop stands after `n` tokens: either it has met the end of the live tokens,
      or the next token is live. */
  lemma LiveStep(ts: seq<Token>, n: nat)
    requires n <= |Live(ts)|
    ensures n == |ts| || ts[n] == ErrorToken ==> Live(ts) == ts[..n]
    ensures n < |ts| && ts[n] != ErrorToken ==> n + 1 <= |Live(ts)|
  {
  }

  /** The variables of the `GetReferences` loop. */
  datatype ScanState = ScanState(refs: seq<PageReference>, depth: u16, counter: u16, ignoreContents: bool)

  /** One pass of the loop body for a token other than the error token: a text token outside
      `script`/`style` contents appends a reference (Index `counter`, Level `depth`, Url the
      page number) and increments the counter, a start tag increments the depth and sets the
      flag for `script`/`style`, an end tag clears the flag and decrements the depth. */
  function Step(st: ScanState, t: Token, url: u16): ScanState
  {
    match t
    case Text(text) =>
      if st.ignoreContents then st
      else st.(refs := st.refs + [PageReference(text, st.depth, st.counter, url)],
               counter := Wrap16(st.counter + 1))
    case StartTag(name) =>
      st.(depth := Wrap16(st.depth + 1), ignoreContents := st.ignoreContents || Hides(name))
    case EndTag => st.(depth := Wrap16(st.depth - 1), ignoreContents := false)
    case Other => st
    case ErrorToken => st
  }

  /** The loop state after the tokens `ts`, none of them an error token. */
  function Scan(ts: seq<Token>, url: u16): ScanState
  {
    if ts == [] then ScanState([], 0, 0, false)
    else Step(Scan(ts[..|ts| - 1], url), ts[|ts| - 1], url)
  }

  /** The loop's running state is the declarative one: the references collected so far, their
      number as a `uint16` in the counter, the wrapped tag depth and the ignore flag. */
  lemma {:induction false} ScanAgrees(ts: seq<Token>, url: u16)
    ensures Scan(ts, url) ==
      ScanState(Collected(ts, url), Depth(ts), Wrap16(|Collected(ts, url)|), Ignoring(ts))
    decreases |ts|
  {
    if ts == [] {
      assert Collected(ts, url) == [];
      assert !Ignoring(ts);
    } else {
      var p := ts[..|ts| - 1];
      var t := ts[|ts| - 1];
      assert ts == p + [t];
      ScanAgrees(p, url);
      StepAgrees(Scan(p, url), p, t, url);
    }
  }

  /** One pass of the loop body moves the declarative state of `p` to that of `p + [t]`. */
  lemma StepAgrees(st: ScanState, p: seq<Token>, t: Token, url: u16)
    requires st == ScanState(Collected(p, url), Depth(p), Wrap16(|Collected(p, url)|), Ignoring(p))
    ensures Step(st, t, url) ==
      ScanState(Collected(p + [t], url), Depth(p + [t]), Wrap16(|Collected(p + [t], url)|), Ignoring(p + [t]))
  {
    var q := p + [t];
    var next := Step(st, t, url);
    CollectedStep(p, t, url);
    DepthStep(p, t);
    IgnoringStep(p, t);
    if t.Text? && !Ignoring(p) {
      WrapShift(|Collected(p, url)|, 1);
      assert next.counter == Wrap16(|Collected(q, url)|);
    } else {
      assert next.counter == Wrap16(|Collected(q, url)|);
    }
    assert next.refs == Collected(q, url);
    assert next.depth == Depth(q);
    assert next.ignoreContents == Ignoring(q);
  }

  /** The `GetReferences` loop: it consumes tokens until the first error token, or the end
      of the stream, and returns the references of the accepted text tokens. */
  method GetReferencesLoop(ts: seq<Token>, url: u16) returns (refs: seq<PageReference>)
    ensures refs == Collected(Live(ts), url)
  {
    refs := [];
    var depth: u16 := 0;
    var counter: u16 := 0;
    var ignoreContents := false;
    var done := false;
    var n := 0;
    while !done
      invariant 0 <= n <= |ts|
      invariant done ==> refs == Scan(Live(ts), url).refs
      invariant !done ==> n <= |Live(ts)|
      invariant !done ==> ScanState(refs, depth, counter, ignoreContents) == Scan(ts[..n], url)
      decreases |ts| - n, !done
    {
      LiveStep(ts, n);
      if n == |ts| || ts[n] == ErrorToken {
        done := true;
        continue;
      }
      assert ts[..n + 1][..n] == ts[..n];
      match ts[n] {
      case Text(text) =>
        if !ignoreContents {
          refs := refs + [PageReference(text, depth, counter, url)];
          counter := Wrap16(counter + 1);
        }
      case StartTag(name) =>
        depth := Wrap16(depth + 1);
        if Hides(name) {
          ignoreContents := true;
        }
      case EndTag =>
        ignoreContents := false;
        depth := Wrap16(depth - 1);
      case Other =>
      case ErrorToken =>
      }
      n := n + 1;
    }
    ScanAgrees(Live(ts), url);
  }

  /** What fetching a page yields: its token stream, or the error of the failed request. */
  datatype Page = Fetched(tokens: seq<Token>) | Unreachable(reason: string)

  /** `GetReferences`: the references of one page, or the fetch error. */
  function GetReferences(page: Page, index: u16): (r: Result<seq<PageReference>>)
    ensures r.Failure? <==> page.Unreachable?
    ensures r.Failure? ==> r.error == page.reason
    ensures r.Success? ==> r.value == Collected(Live(page.tokens), index)
  {
    match page
    case Unreachable(reason) => Failure(reason)
    case Fetched(ts) => Success(Collected(Live(ts), index))
  }

  /** Nothing after the first error token reaches the index. */
  lemma {:induction false} ErrorEndsPage(ts: seq<Token>, rest: seq<Token>, url: u16)
    requires forall k :: 0 <= k < |ts| ==> ts[k] != ErrorToken
    ensures GetReferences(Fetched(ts + [ErrorToken] + rest), url) == GetReferences(Fetched(ts), url)
    decreases |ts|
  {
    LiveUpToError(ts, rest);
    LiveWithoutError(ts);
  }

  lemma {:induction false} LiveUpToError(ts: seq<Token>, rest: seq<Token>)
    requires forall k :: 0 <= k < |ts| ==> ts[k] != ErrorToken
    ensures Live(ts + [ErrorToken] + rest) == ts
    decreases |ts|
  {
    if ts != [] {
      assert (ts + [ErrorToken] + rest)[1..] == ts[1..] + [ErrorToken] + rest;
      LiveUpToError(ts[1..], rest);
    }
  }

  lemma {:induction false} LiveWithoutError(ts: seq<Token>)
    requires forall k :: 0 <= k < |ts| ==> ts[k] != ErrorToken
    ensures Live(ts) == ts
    decreases |ts|
  {
    if ts != [] {
      LiveWithoutError(ts[1..]);
    }
  }

  /** A page `<p>x<script>js</script>y`: the script text is dropped, the two paragraph texts
      become references 0 and 1, both at depth 1 (the end tag closes the script element). */
  lemma ScriptIsSkipped(x: seq<byte>, js: seq<byte>, y: seq<byte>, url: u16)
    ensures GetReferences(Fetched(ScriptPage(x, js, y)), url)
         == Success([PageReference(x, 1, 0, url), PageReference(y, 1, 1, url)])
  {
    LiveWithoutError(ScriptPage(x, js, y));
    ScriptScan(x, js, y, url);
    ScanAgrees(ScriptPage(x, js, y), url);
  }

  /** The tokens of `<p>x<script>js</script>y`. */
  function ScriptPage(x: seq<byte>, js: seq<byte>, y: seq<byte>): seq<Token>
  {
    [StartTag("p"), Text(x), StartTag("script"), Text(js), EndTag, Text(y)]
  }

  lemma ScriptScan(x: seq<byte>, js: seq<byte>, y: seq<byte>, url: u16)
    ensures Scan(ScriptPage(x, js, y), url).refs == [PageReference(x, 1, 0, url), PageReference(y, 1, 1, url)]
  {
    var ts := ScriptPage(x, js, y);
    ScriptCloses(x, js, y, url);
    assert ts[..5] == ts[..|ts| - 1];
  }

  lemma ScriptCloses(x: seq<byte>, js: seq<byte>, y: seq<byte>, url: u16)
    ensures Scan(ScriptPage(x, js, y)[..5], url) == ScanState([PageReference(x, 1, 0, url)], 1, 1, false)
  {
    var ts := ScriptPage(x, js, y);
    ScriptOpens(x, js, y, url);
    assert Scan(ts[..4], url) == ScanState([PageReference(x, 1, 0, url)], 2, 1, true) by {
      assert ts[..4][..3] == ts[..3];
    }
    assert ts[..5][..4] == ts[..4];
  }

  lemma ScriptOpens(x: seq<byte>, js: seq<byte>, y: seq<byte>, url: u16)
    ensures Scan(ScriptPage(x, js, y)[..3], url) == ScanState([PageReference(x, 1, 0, url)], 2, 1, true)
  {
    var ts := ScriptPage(x, js, y);
    assert Scan(ts[..1], url) == ScanState([], 1, 0, false) by {
      assert ts[..1][..0] == [];
    }
    assert Scan(ts[..2], url) == ScanState([PageReference(x, 1, 0, url)], 1, 1, false) by {
      assert ts[..2][..1] == ts[..1];
    }
    assert ts[..3][..2] == ts[..2];
  }

  /** The tokens of a fetched page; none for an unreachable one. */
  function TokensOf(page: Page): seq<Token>
  {
    if page.Fetched? then page.tokens else []
  }

  /** The references of each page, page k carrying page number k as a `uint16`. */
  function PageParts(pages: seq<Page>): seq<seq<PageReference>>
  {
    seq(|pages|, k requires 0 <= k < |pages| => Collected(Live(TokensOf(pages[k])), Wrap16(k)))
  }

  /** The concatenation of the sequences in `parts`, in order. */
  function Flatten(parts: seq<seq<PageReference>>): seq<PageReference>
  {
    if parts == [] then [] else Flatten(parts[..|parts| - 1]) + parts[|parts| - 1]
  }

  /** The page loop in the commands' `run` (cmd/decode/command.go:86-96 and
      cmd/encode/command.go:86-96): page k is indexed with page number k (a `uint16` that
      wraps) and its references are appended after those of the earlier pages; the first
      unreachable page aborts the whole run with its error, wrapped as
      "error getting references: <error>\n". */
  function BuildCorpus(pages: seq<Page>): (r: Result<seq<PageReference>>)
    ensures r.Success? <==> AllReachable(pages)
    ensures r.Failure? ==> r.error == ReferencesError(pages[FirstUnreachable(pages)].reason)
  {
    if pages == [] then Success([])
    else
      var earlier := BuildCorpus(pages[..|pages| - 1]);
      ReachableSnoc(pages);
      if earlier.Failure? then
        FirstUnreachableSnoc(pages);
        earlier
      else
        match GetReferences(pages[|pages| - 1], Wrap16(|pages| - 1))
        case Failure(error) =>
          FirstUnreachableSnoc(pages);
          Failure(ReferencesError(error))
        case Success(refs) => Success(earlier.value + refs)
  }

  /** The error the commands return when a page cannot be fetched. */
  function ReferencesError(reason: string): string
  {
    "error getting references: " + reason + "\n"
  }

  /** Every page was fetched. */
  predicate AllReachable(pages: seq<Page>)
  {
    forall k :: 0 <= k < |pages| ==> pages[k].Fetched?
  }

  /** The position of the first page that could not be fetched. */
  function FirstUnreachable(pages: seq<Page>): (k: nat)
    requires !AllReachable(pages)
    ensures k < |pages| && pages[k].Unreachable?
    ensures forall j :: 0 <= j < k ==> pages[j].Fetched?
  {
    if pages[0].Unreachable? then 0
    else
      assert !AllReachable(pages[1..]) by {
        var k :| 0 <= k < |pages| && !pages[k].Fetched?;
        assert pages[1..][k - 1] == pages[k];
      }
      1 + FirstUnreachable(pages[1..])
  }

  /** The first unreachable page of `pages` is that of all but the last page, or the last page
      when all the others were fetched. */
  lemma FirstUnreachableSnoc(pages: seq<Page>)
    requires pages != [] && !AllReachable(pages)
    ensures var p := pages[..|pages| - 1];
      FirstUnreachable(pages) == if AllReachable(p) then |pages| - 1 else FirstUnreachable(p)
  {
    var p := pages[..|pages| - 1];
    var k := FirstUnreachable(pages);
    if !AllReachable(p) {
      var i := FirstUnreachable(p);
      assert pages[i] == p[i];
    }
  }

  lemma ReachableSnoc(pages: seq<Page>)
    requires pages != []
    ensures AllReachable(pages) <==> AllReachable(pages[..|pages| - 1]) && pages[|pages| - 1].Fetched?
  {
    if AllReachable(pages[..|pages| - 1]) && pages[|pages| - 1].Fetched? {
      forall k | 0 <= k < |pages| ensures pages[k].Fetched? {
        if k < |pages| - 1 {
          assert pages[k] == pages[..|pages| - 1][k];
        }
      }
    }
  }

  /** When every page is reachable, the corpus is the references of page 0, then those of
      page 1, and so on, each page's references carrying its own page number. */
  lemma {:induction false} CorpusIsConcatenation(pages: seq<Page>)
    requires BuildCorpus(pages).Success?
    ensures BuildCorpus(pages).value == Flatten(PageParts(pages))
    decreases |pages|
  {
    if pages != [] {
      var p := pages[..|pages| - 1];
      CorpusSnoc(pages);
      CorpusIsConcatenation(p);
      PartsSnoc(pages);
    }
  }

  /** The corpus of all pages is the corpus of all but the last, then the last page's part. */
  lemma CorpusSnoc(pages: seq<Page>)
    requires pages != [] && BuildCorpus(pages).Success?
    ensures BuildCorpus(pages[..|pages| - 1]).Success?
    ensures BuildCorpus(pages).value
         == BuildCorpus(pages[..|pages| - 1]).value + PageParts(pages)[|pages| - 1]
  {
    ReachableSnoc(pages);
  }

  lemma PartsSnoc(pages: seq<Page>)
    requires pages != []
    ensures Flatten(PageParts(pages))
         == Flatten(PageParts(pages[..|pages| - 1])) + PageParts(pages)[|pages| - 1]
  {
    assert PageParts(pages)[..|pages| - 1] == PageParts(pages[..|pages| - 1]);
  }
}
