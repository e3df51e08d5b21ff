/** The corpus lookup `Lookup` (cipher/cipher.go:130-138). */
module Corpus {
  import opened Types

  /** Whether `r` is the text node named by (index, level, siteIndex). */
  predicate Names(r: PageReference, index: u16, level: u16, siteIndex: u16)
  {
    r.index == index && r.level == level && r.url == siteIndex
  }

  /** `Lookup`: the first reference, in slice order, whose Index, Level and Url all match;
      `None` (nil) when there is none. */
  function Lookup(index: u16, level: u16, siteIndex: u16, references: seq<PageReference>)
    : (r: Option<PageReference>)
    ensures r.None? <==> forall k :: 0 <= k < |references| ==> !Names(references[k], index, level, siteIndex)
    ensures r.Some? ==>
      exists k :: 0 <= k < |references| && references[k] == r.value
        && Names(r.value, index, level, siteIndex)
        && forall j :: 0 <= j < k ==> !Names(references[j], index, level, siteIndex)
  {
    if references == [] then None
    else if Names(references[0], index, level, siteIndex) then Some(references[0])
    else Lookup(index, level, siteIndex, references[1..])
  }

  /** Lookup in a concatenation searches the first part, then the second. */
  lemma {:induction false} LookupAppend(index: u16, level: u16, siteIndex: u16, a: seq<PageReference>, b: seq<PageReference>)
    ensures Lookup(index, level, siteIndex, a + b)
         == if Lookup(index, level, siteIndex, a).Some? then Lookup(index, level, siteIndex, a)
            else Lookup(index, level, siteIndex, b)
    decreases |a|
  {
    if a != [] {
      assert (a + b)[1..] == a[1..] + b;
      LookupAppend(index, level, siteIndex, a[1..], b);
    } else {
      assert a + b == b;
    }
  }

  /** References of another page never answer a lookup: pages that share (Level, Index) pairs
      but have different page numbers do not collide. */
  lemma LookupSkipsOtherPages(index: u16, level: u16, siteIndex: u16, a: seq<PageReference>, b: seq<PageReference>)
    requires forall k :: 0 <= k < |a| ==> a[k].url != siteIndex
    ensures Lookup(index, level, siteIndex, a + b) == Lookup(index, level, siteIndex, b)
  {
    LookupAppend(index, level, siteIndex, a, b);
  }
}
