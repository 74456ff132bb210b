/** Prize codes (server.js:32-34): "DRM-" followed by four symbols drawn by nanoid from an
    alphabet without the look-alike characters 0, O, I and 1. */
module Codes {

  const Alphabet: string := "23456789ABCDEFGHJKLMNPQRSTUVWXYZ"
  const Prefix: string := "DRM-"
  const SymbolCount: nat := 4

  /** The alphabet has 32 symbols and no symbol twice. */
  lemma AlphabetDistinct()
    ensures |Alphabet| == 32
    ensures forall i, j :: 0 <= i < j < |Alphabet| ==> Alphabet[i] != Alphabet[j]
  {
  }

  /** None of the look-alike characters 0, O, I and 1 is a symbol. */
  lemma AlphabetExcludesLookAlikes()
    ensures '0' !in Alphabet && 'O' !in Alphabet && 'I' !in Alphabet && '1' !in Alphabet
  {
    assert forall i | 0 <= i < |Alphabet| :: Alphabet[i] !in "01IO";
  }

  /** One of the 32 symbols. */
  predicate IsSymbol(c: char)
  {
    c in Alphabet
  }

  /** The shape of every code `generatePrizeCode` returns. */
  predicate IsPrizeCode(s: string)
  {
    |s| == |Prefix| + SymbolCount && s[..|Prefix|] == Prefix &&
    forall k :: |Prefix| <= k < |s| ==> IsSymbol(s[k])
  }

  /** `generatePrizeCode`: nanoid's random draw is a nondeterministic choice of four symbols. */
  method GeneratePrizeCode() returns (code: string)
    ensures IsPrizeCode(code)
    ensures code != []
  {
    assert |"2222"| == SymbolCount && forall c :: c in "2222" ==> c in Alphabet;
    var symbols :| |symbols| == SymbolCount && forall c :: c in symbols ==> c in Alphabet;
    code := Prefix + symbols;
    assert forall k :: |Prefix| <= k < |code| ==> code[k] == symbols[k - |Prefix|];
  }
}
