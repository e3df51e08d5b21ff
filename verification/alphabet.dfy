/** The 77-symbol digit alphabet of the token codec and its reverse lookup
    (`encodingChars` and `indexOfEncodingChar`, cipher/cipher.go:12-14, 73-81). */
module Alphabet {
  import opened Types

  const Radix: nat := 77

  /** The digit glyph for value `k`. The source spells the alphabet as the literal
      "abcdefghi=jklmnopqrst!uvwxyzABCDEFGHIJKLMNOPQRSTUVWXYZ0987654321@#$%^&*~.+_-,";
      here it is written run by run, so that the verifier can reason about any position. */
  function Symbol(k: nat): byte
    requires k < Radix
  {
    if k < 9 then ('a' as int + k) as char
    else if k == 9 then '='
    else if k < 21 then ('j' as int + (k - 10)) as char
    else if k == 21 then '!'
    else if k < 28 then ('u' as int + (k - 22)) as char
    else if k < 54 then ('A' as int + (k - 28)) as char
    else if k == 54 then '0'
    else if k < 64 then ('9' as int - (k - 55)) as char
    else if k == 64 then '@'
    else if k == 65 then '#'
    else if k == 66 then '$'
    else if k == 67 then '%'
    else if k == 68 then '^'
    else if k == 69 then '&'
    else if k == 70 then '*'
    else if k == 71 then '~'
    else if k == 72 then '.'
    else if k == 73 then '+'
    else if k == 74 then '_'
    else if k == 75 then '-'
    else ','
  }

  /** Whether `a` occurs in `encodingChars`. */
  predicate IsSymbol(a: byte)
  {
    exists k :: 0 <= k < Radix && Symbol(k) == a
  }

  /** No two positions of the alphabet hold the same byte. */
  lemma SymbolInjective(i: nat, j: nat)
    requires i < Radix && j < Radix && Symbol(i) == Symbol(j)
    ensures i == j
  {
  }

  /** The token separator used by the decoder is not a digit glyph. */
  lemma SlashIsNoSymbol(k: nat)
    requires k < Radix
    ensures Symbol(k) != '/'
  {
  }

  /** Linear scan of the alphabet from position `i`, as the `range` loop does. */
  function IndexFrom(a: byte, i: nat): (k: nat)
    requires i <= Radix
    ensures k < Radix
    ensures (exists j :: i <= j < Radix && Symbol(j) == a) ==> i <= k && Symbol(k) == a
    ensures forall j :: i <= j < k ==> Symbol(j) != a
    ensures (forall j :: i <= j < Radix ==> Symbol(j) != a) ==> k == 0
    decreases Radix - i
  {
    if i == Radix then 0
    else if Symbol(i) == a then i
    else IndexFrom(a, i + 1)
  }

  /** `indexOfEncodingChar`: the first position holding `a`, or 0 when `a` is no glyph. */
  function IndexOfEncodingChar(a: byte): (k: nat)
    ensures k < Radix
    ensures IsSymbol(a) ==> Symbol(k) == a && forall j :: 0 <= j < k ==> Symbol(j) != a
    ensures !IsSymbol(a) ==> k == 0
  {
    IndexFrom(a, 0)
  }

  /** Reading a glyph back gives the digit it was written for. */
  lemma IndexOfSymbol(k: nat)
    requires k < Radix
    ensures IndexOfEncodingChar(Symbol(k)) == k
  {
    var a := Symbol(k);
    var j := IndexOfEncodingChar(a);
    SymbolInjective(j, k);
  }

  /** Bytes outside the alphabet read as digit 0, the same digit as 'a'. */
  lemma UnknownReadsAsA(a: byte)
    requires !IsSymbol(a)
    ensures IndexOfEncodingChar(a) == IndexOfEncodingChar('a') == 0
  {
    IndexOfSymbol(0);
  }
}
