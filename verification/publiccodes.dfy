/** The public display code (server.js:36-46): "PLY-" and four alphabet symbols taken from a
    SHA-256 digest of the salted player id. It is a label, never a credential. SHA-256 itself
    is not modelled: the server is given it as a function from strings to 32-byte digests. */
module PublicCodes {
  import Codes

  newtype Byte = x: int | 0 <= x < 256

  /** A SHA-256 digest: 32 bytes. */
  type Digest = s: seq<Byte> | |s| == 32 witness seq(32, _ => 0 as Byte)

  const Prefix: string := "PLY-"

  /** The symbol byte `b` selects: the remainder of `b` by the alphabet's size picks the symbol. */
  function Symbol(b: Byte): (c: char)
    ensures Codes.IsSymbol(c)
    ensures c == Codes.Alphabet[(b as int) % 32]
  {
    Codes.Alphabet[(b as int) % |Codes.Alphabet|]
  }

  /** The code for a digest: its first four bytes, each turned into one symbol. */
  function PublicCode(digest: Digest): (code: string)
    ensures |code| == |Prefix| + 4 && code[..|Prefix|] == Prefix
    ensures forall k :: 0 <= k < 4 ==> code[|Prefix| + k] == Symbol(digest[k])
  {
    Prefix + [Symbol(digest[0]), Symbol(digest[1]), Symbol(digest[2]), Symbol(digest[3])]
  }

  /** Every public code is "PLY-" and four symbols of the prize-code alphabet. */
  lemma PublicCodeShape(digest: Digest)
    ensures var code := PublicCode(digest);
      |code| == 8 && code[..4] == "PLY-" && forall k :: 4 <= k < 8 ==> Codes.IsSymbol(code[k])
  {
    var code := PublicCode(digest);
    forall k | 4 <= k < 8 ensures Codes.IsSymbol(code[k]) {
      assert code[k] == Symbol(digest[k - 4]);
    }
  }

  /** `publicCodeFor`: the loop that appends one symbol per digest byte until four are taken. */
  method PublicCodeFor(sha256: string -> Digest, salt: string, playerId: string) returns (code: string)
    ensures code == PublicCode(sha256(salt + "|" + playerId))
  {
    var hash := sha256(salt + "|" + playerId);
    var symbols := "";
    var i := 0;
    while i < |hash| && |symbols| < 4
      invariant 0 <= i <= 4 && |symbols| == i
      invariant forall k :: 0 <= k < i ==> symbols[k] == Symbol(hash[k])
    {
      symbols := symbols + [Symbol(hash[i])];
      i := i + 1;
    }
    assert |symbols| == 4;
    assert symbols == [Symbol(hash[0]), Symbol(hash[1]), Symbol(hash[2]), Symbol(hash[3])];
    code := Prefix + symbols;
  }

  /** Two players whose salted digests differ in one of the first four bytes get different
      codes, unless both bytes fall on the same symbol. */
  lemma {:induction false} PublicCodeDiffers(d1: Digest, d2: Digest, k: nat)
    requires k < 4 && Symbol(d1[k]) != Symbol(d2[k])
    ensures PublicCode(d1) != PublicCode(d2)
  {
    assert PublicCode(d1)[|Prefix| + k] != PublicCode(d2)[|Prefix| + k];
  }
}
