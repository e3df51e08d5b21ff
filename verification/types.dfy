/** Value types shared by the cipher engine and the two commands that drive it
    (cipher/cipher.go:16-27, main.go:18-29). */
module Types {

  /** A Go `byte` (`uint8`). Texts, messages and tokens are Go strings, i.e. byte strings. */
  type byte = c: char | c as int < 256

  /** Go's `uint16`. */
  type u16 = n: nat | n < 0x1_0000

  /** Go's `uint64`. */
  type u64 = n: nat | n < 0x1_0000_0000_0000_0000

  /** The result of `x + 1`, `x - 1` or a conversion to `uint16`: Go wraps modulo 2^16.
      Dafny's `%` is Euclidean, so a negative `n` wraps the way Go's unsigned arithmetic does. */
  function Wrap16(n: int): (r: u16)
    ensures 0 <= n < 0x1_0000 ==> r == n
    ensures (r - n) % 0x1_0000 == 0
  {
    n % 0x1_0000
  }

  /** Wrapping first and adding afterwards is the same as adding and wrapping. */
  lemma WrapShift(n: int, d: int)
    ensures Wrap16(Wrap16(n) + d) == Wrap16(n + d)
  {
    var q := n / 0x1_0000;
    assert n == q * 0x1_0000 + Wrap16(n);
  }

  datatype Option<+T> = None | Some(value: T)

  /** `PageReference`: one text node of one page: its bytes, the tag depth it sits at,
      its 0-based position among the accepted text nodes of the page, and the page number. */
  datatype PageReference = PageReference(text: seq<byte>, level: u16, index: u16, url: u16)

  /** `EncodedReference`: one allocated character position. `reference` is the text node,
      `charIndex` the offset recorded for the character, `ch` the byte it was allocated for. */
  datatype EncodedReference = EncodedReference(charIndex: u16, ch: byte, reference: PageReference)

  /** Two page references name the same text node when their (Index, Url, Level) agree;
      the text itself is never compared (cipher/cipher.go:132, 160). */
  predicate SameNode(a: PageReference, b: PageReference)
  {
    a.index == b.index && a.url == b.url && a.level == b.level
  }

  /** A Go `(value, error)` pair where exactly one side is meaningful. */
  datatype Result<+T> = Success(value: T) | Failure(error: string)

  /** A Go runtime outcome: either a value or an index-out-of-range panic. */
  datatype Checked<+T> = Ok(value: T) | IndexPanic
}
