/** The encode-side allocator: `findMatches`, `getLastUsedFor` and `NextReference`
    (cipher/cipher.go:146-193; the same code is `findMatches`, `getLastUsedFor` and
    `nextReference` in main.go:117-164). */
module Allocator {
  import opened Types

  /** `strings.IndexByte`: the first position of `c` in `s`, or -1. */
  function IndexByte(s: seq<byte>, c: byte): (k: int)
    ensures -1 <= k < |s|
    ensures k == -1 <==> !Contains(s, c)
    ensures k >= 0 ==> s[k] == c && forall i :: 0 <= i < k ==> s[i] != c
  {
    if s == [] then -1
    else if s[0] == c then 0
    else
      var k := IndexByte(s[1..], c);
      assert forall i :: 0 < i < |s| ==> s[i] == s[1..][i - 1];
      if k == -1 then -1 else k + 1
  }

  /** Whether the byte `c` occurs in `s`. */
  predicate Contains(s: seq<byte>, c: byte)
  {
    exists i :: 0 <= i < |s| && s[i] == c
  }

  /** `findMatches`: the references whose text contains `c`, in their original order. */
  function FindMatches(c: byte, references: seq<PageReference>): (matches: seq<PageReference>)
    ensures |matches| <= |references|
    ensures forall r :: r in matches <==> r in references && Contains(r.text, c)
  {
    if references == [] then []
    else (if IndexByte(references[0].text, c) > -1 then [references[0]] else [])
         + FindMatches(c, references[1..])
  }

  /** The positions of the references whose text contains `c`, in increasing order. */
  function MatchPositions(c: byte, references: seq<PageReference>): (ps: seq<nat>)
    ensures forall k :: 0 <= k < |ps| ==> ps[k] < |references| && Contains(references[ps[k]].text, c)
    ensures forall k, l :: 0 <= k < l < |ps| ==> ps[k] < ps[l]
    ensures forall i :: 0 <= i < |references| && Contains(references[i].text, c) ==> i in ps
  {
    if references == [] then []
    else
      var n := |references| - 1;
      MatchPositions(c, references[..n]) + (if Contains(references[n].text, c) then [n] else [])
  }

  /** The matches of a concatenation are the matches of each part, one after the other. */
  lemma {:induction false} FindMatchesAppend(c: byte, a: seq<PageReference>, b: seq<PageReference>)
    ensures FindMatches(c, a + b) == FindMatches(c, a) + FindMatches(c, b)
    decreases |a|
  {
    if a != [] {
      assert (a + b)[0] == a[0];
      assert (a + b)[1..] == a[1..] + b;
      FindMatchesAppend(c, a[1..], b);
    } else {
      assert a + b == b;
    }
  }

  /** `findMatches` keeps the references at `MatchPositions`, each once and in their original
      order, so it is the order-preserving filter of the references containing `c`. */
  lemma {:induction false} FindMatchesInOrder(c: byte, references: seq<PageReference>)
    ensures FindMatches(c, references) == Picked(references, MatchPositions(c, references))
    decreases |references|
  {
    if references != [] {
      var n := |references| - 1;
      var p := references[..n];
      var r := references[n];
      FindMatchesInOrder(c, p);
      FindMatchesSnoc(c, references);
      PickSnoc(references, MatchPositions(c, p), Contains(r.text, c));
    }
  }

  lemma FindMatchesSnoc(c: byte, references: seq<PageReference>)
    requires references != []
    ensures var n := |references| - 1;
      FindMatches(c, references)
      == FindMatches(c, references[..n]) + (if Contains(references[n].text, c) then [references[n]] else [])
  {
    var n := |references| - 1;
    var r := references[n];
    assert references == references[..n] + [r];
    FindMatchesAppend(c, references[..n], [r]);
    assert FindMatches(c, [r]) == (if Contains(r.text, c) then [r] else []);
  }

  /** The references at positions `ps`, in the order of `ps`. */
  function Picked(references: seq<PageReference>, ps: seq<nat>): seq<PageReference>
    requires forall k :: 0 <= k < |ps| ==> ps[k] < |references|
  {
    seq(|ps|, k requires 0 <= k < |ps| => references[ps[k]])
  }

  lemma PickSnoc(references: seq<PageReference>, q: seq<nat>, extra: bool)
    requires references != []
    requires forall k :: 0 <= k < |q| ==> q[k] < |references| - 1
    ensures var n := |references| - 1;
      Picked(references, q + (if extra then [n] else []))
      == Picked(references[..n], q) + (if extra then [references[n]] else [])
  {
    var ps := q + (if extra then [|references| - 1] else []);
    assert forall k :: 0 <= k < |q| ==> ps[k] == q[k];
  }

  /** Whether history entry `u` records an allocation of `c` in the text node `ref`. */
  predicate UsedFor(u: EncodedReference, c: byte, ref: PageReference)
  {
    SameNode(u.reference, ref) && u.ch == c
  }

  /** The position of the last history entry for byte `c` in the text node `ref`, or -1. */
  function LastUsedIndex(c: byte, ref: PageReference, used: seq<EncodedReference>): (k: int)
    ensures -1 <= k < |used|
    ensures k >= 0 ==> UsedFor(used[k], c, ref)
    ensures forall j :: k < j < |used| ==> !UsedFor(used[j], c, ref)
  {
    if used == [] then -1
    else if UsedFor(used[|used| - 1], c, ref) then |used| - 1
    else LastUsedIndex(c, ref, used[..|used| - 1])
  }

  /** `getLastUsedFor`: the most recent history entry for byte `c` in the text node `ref`,
      found by scanning the history backwards; nil when there is none. */
  function GetLastUsedFor(c: byte, ref: PageReference, used: seq<EncodedReference>)
    : (u: Option<EncodedReference>)
    ensures u.None? <==> forall k :: 0 <= k < |used| ==> !UsedFor(used[k], c, ref)
    ensures u.Some? ==> u == Some(used[LastUsedIndex(c, ref, used)])
  {
    var k := LastUsedIndex(c, ref, used);
    if k < 0 then None else Some(used[k])
  }

  /** Where the search for `c` in `r` starts: one past the CharIndex of the most recent matching
      history entry (a `uint16` sum, so 65535 + 1 wraps to 0), or 0. */
  function Start(c: byte, r: PageReference, used: seq<EncodedReference>): u16
  {
    match GetLastUsedFor(c, r, used)
    case None => 0
    case Some(previous) => Wrap16(previous.charIndex + 1)
  }

  /** Whether the text node `r` still yields an occurrence of `c`: `c` occurs at or after the
      start. Otherwise the allocator skips `r`. */
  predicate Offers(c: byte, used: seq<EncodedReference>, r: PageReference)
  {
    exists i :: Start(c, r, used) <= i < |r.text| && r.text[i] == c
  }

  /** The Go test for `r`: the start lies inside the text and `IndexByte` finds `c` after it. */
  lemma OffersByIndex(c: byte, used: seq<EncodedReference>, r: PageReference)
    ensures Offers(c, used, r) <==>
      var st := Start(c, r, used);
      st < |r.text| && IndexByte(r.text[st..], c) >= 0
  {
    var st := Start(c, r, used);
    if st < |r.text| {
      var tail := r.text[st..];
      if Offers(c, used, r) {
        var i :| st <= i < |r.text| && r.text[i] == c;
        assert tail[i - st] == c;
      }
      if IndexByte(tail, c) >= 0 {
        assert r.text[st + IndexByte(tail, c)] == c;
      }
    }
  }

  /** The offset of the next `c` inside `r.Text[start:]`: relative to the start, not to the
      beginning of the text. */
  function Offset(c: byte, used: seq<EncodedReference>, r: PageReference): int
    requires Start(c, r, used) < |r.text|
  {
    IndexByte(r.text[Start(c, r, used)..], c)
  }

  /** What an allocation records: the byte, and as CharIndex the `uint16` conversion of the
      offset of the next occurrence of the byte after the start. */
  predicate AllocatedFrom(c: byte, used: seq<EncodedReference>, e: EncodedReference)
  {
    var st := Start(c, e.reference, used);
    && e.ch == c
    && st < |e.reference.text|
    && var off := Offset(c, used, e.reference);
    && 0 <= off
    && st + off < |e.reference.text|
    && e.reference.text[st + off] == c
    && (forall i :: st <= i < st + off ==> e.reference.text[i] != c)
    && e.charIndex == Wrap16(off)
  }

  /** Whether `ms[k]` is the first candidate that offers `c`. */
  predicate FirstOffer(c: byte, used: seq<EncodedReference>, ms: seq<PageReference>, k: int)
  {
    && 0 <= k < |ms|
    && Offers(c, used, ms[k])
    && forall j :: 0 <= j < k ==> !Offers(c, used, ms[j])
  }

  /** The `for _, r := range matches` loop of `NextReference` over the candidates `ms`. */
  function NextIn(c: byte, used: seq<EncodedReference>, ms: seq<PageReference>)
    : (e: Option<EncodedReference>)
    ensures e.None? <==> forall k :: 0 <= k < |ms| ==> !Offers(c, used, ms[k])
    ensures e.Some? ==> AllocatedFrom(c, used, e.value)
  {
    if ms == [] then None
    else
      var r := ms[0];
      OffersByIndex(c, used, r);
      var start := Start(c, r, used);
      if start >= |r.text| then NextIn(c, used, ms[1..])
      else
        var index := IndexByte(r.text[start..], c);
        if index >= 0 then Some(EncodedReference(Wrap16(index), c, r))
        else NextIn(c, used, ms[1..])
  }

  /** `NextIn` takes the head candidate when it offers `c` and otherwise moves on. */
  lemma NextInHead(c: byte, used: seq<EncodedReference>, ms: seq<PageReference>)
    requires ms != []
    ensures Offers(c, used, ms[0]) ==>
      NextIn(c, used, ms).Some? && NextIn(c, used, ms).value.reference == ms[0]
    ensures !Offers(c, used, ms[0]) ==> NextIn(c, used, ms) == NextIn(c, used, ms[1..])
  {
  }

  /** The candidate `NextIn` allocates from is the first one that offers `c`. */
  lemma {:induction false} NextInTakesFirst(c: byte, used: seq<EncodedReference>, ms: seq<PageReference>)
    returns (k: int)
    requires NextIn(c, used, ms).Some?
    ensures FirstOffer(c, used, ms, k) && ms[k] == NextIn(c, used, ms).value.reference
    decreases |ms|
  {
    NextInHead(c, used, ms);
    if Offers(c, used, ms[0]) {
      k := 0;
    } else {
      var k' := NextInTakesFirst(c, used, ms[1..]);
      k := k' + 1;
      forall j | 0 <= j < k ensures !Offers(c, used, ms[j]) {
        if j > 0 { assert ms[j] == ms[1..][j - 1]; }
      }
    }
  }

  /** `NextReference`: the allocation for byte `c` given the history `used`. The chosen text
      node is the first reference, in slice order, that still offers `c`; nil when none does. */
  function NextReference(c: byte, used: seq<EncodedReference>, references: seq<PageReference>)
    : (e: Option<EncodedReference>)
    ensures e.None? <==> forall k :: 0 <= k < |references| ==> !Offers(c, used, references[k])
    ensures e.Some? ==> AllocatedFrom(c, used, e.value)
  {
    MatchingIsRedundant(c, used, references);
    NextIn(c, used, FindMatches(c, references))
  }

  /** Filtering by `findMatches` first changes nothing: a reference without `c` never offers it. */
  lemma {:induction false} MatchingIsRedundant(c: byte, used: seq<EncodedReference>, references: seq<PageReference>)
    ensures NextIn(c, used, FindMatches(c, references)) == NextIn(c, used, references)
    decreases |references|
  {
    if references != [] {
      MatchingIsRedundant(c, used, references[1..]);
      var r := references[0];
      if IndexByte(r.text, c) == -1 {
        assert FindMatches(c, references) == FindMatches(c, references[1..]);
        assert !Offers(c, used, r);
      } else {
        assert FindMatches(c, references) == [r] + FindMatches(c, references[1..]);
        assert (FindMatches(c, references))[1..] == FindMatches(c, references[1..]);
      }
    }
  }

  /** The text node `NextReference` allocates from is the first reference that offers `c`. */
  lemma NextReferenceTakesFirst(c: byte, used: seq<EncodedReference>, references: seq<PageReference>)
    returns (k: int)
    requires NextReference(c, used, references).Some?
    ensures FirstOffer(c, used, references, k)
    ensures references[k] == NextReference(c, used, references).value.reference
  {
    MatchingIsRedundant(c, used, references);
    k := NextInTakesFirst(c, used, references);
  }

  /** With an empty history the allocation is the first occurrence of `c` in the first
      reference that contains it, and there the recorded CharIndex does point at `c`. */
  lemma FreshAllocation(c: byte, references: seq<PageReference>, k: int)
    requires 0 <= k < |references| && Contains(references[k].text, c)
    requires IndexByte(references[k].text, c) < 0x1_0000
    requires forall j :: 0 <= j < k ==> !Contains(references[j].text, c)
    ensures NextReference(c, [], references).Some?
    ensures var e := NextReference(c, [], references).value;
      e.reference == references[k] && e.charIndex < |e.reference.text|
      && e.reference.text[e.charIndex] == c
      && forall i :: 0 <= i < e.charIndex ==> e.reference.text[i] != c
  {
    assert Offers(c, [], references[k]) by { assert references[k].text[0..] == references[k].text; }
    forall j | 0 <= j < k ensures !Offers(c, [], references[j]) {
      assert references[j].text[0..] == references[j].text;
    }
    var i := NextReferenceTakesFirst(c, [], references);
    if i < k {
      assert false;
    } else if k < i {
      assert false;
    }
    assert references[k].text[0..] == references[k].text;
  }

  /** A text node of one page holding "abcabc". */
  const Sample: PageReference := PageReference(['a', 'b', 'c', 'a', 'b', 'c'], 0, 0, 0)

  /** Allocating 'a' three times from "abcabc": the offsets are relative to the search start,
      so the second allocation records CharIndex 2, which holds 'c', and the third records
      CharIndex 0 again, repeating the first. */
  lemma RelativeCharIndex()
    ensures var first := NextReference('a', [], [Sample]);
      && first == Some(EncodedReference(0, 'a', Sample))
      && var second := NextReference('a', [first.value], [Sample]);
      && second == Some(EncodedReference(2, 'a', Sample))
      && Sample.text[second.value.charIndex] == 'c'
      && NextReference('a', [first.value, second.value], [Sample])
         == Some(EncodedReference(0, 'a', Sample))
  {
    FirstSample();
    SecondSample();
    ThirdSample();
  }

  lemma FirstSample()
    ensures NextReference('a', [], [Sample]) == Some(EncodedReference(0, 'a', Sample))
  {
    assert FindMatches('a', [Sample]) == [Sample];
    assert Start('a', Sample, []) == 0;
    assert Sample.text[0..] == Sample.text;
  }

  lemma SecondSample()
    ensures NextReference('a', [EncodedReference(0, 'a', Sample)], [Sample])
         == Some(EncodedReference(2, 'a', Sample))
  {
    var e0 := EncodedReference(0, 'a', Sample);
    assert FindMatches('a', [Sample]) == [Sample];
    assert GetLastUsedFor('a', Sample, [e0]) == Some(e0);
    assert Start('a', Sample, [e0]) == 1;
    assert Sample.text[1..] == ['b', 'c', 'a', 'b', 'c'];
    assert IndexByte(['b', 'c', 'a', 'b', 'c'], 'a') == 2;
  }

  lemma ThirdSample()
    ensures NextReference('a', [EncodedReference(0, 'a', Sample), EncodedReference(2, 'a', Sample)], [Sample])
         == Some(EncodedReference(0, 'a', Sample))
  {
    var e1 := EncodedReference(2, 'a', Sample);
    assert FindMatches('a', [Sample]) == [Sample];
    assert GetLastUsedFor('a', Sample, [EncodedReference(0, 'a', Sample), e1]) == Some(e1);
    assert Start('a', Sample, [EncodedReference(0, 'a', Sample), e1]) == 3;
    assert Sample.text[3..] == ['a', 'b', 'c'];
  }
}
