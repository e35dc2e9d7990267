/** A corrected Caesar pair, beside the faithful one in CryptoManager: the key is
    reduced with a true (Euclidean) modulus, so the shift is never negative, and the
    decryption difference is kept in an `int`, as decryptBellaso already does, so it
    never passes through the 16-bit `char` wrap. With both corrections every key
    keeps in-bounds text in bounds and decryption inverts encryption. */
module CorrectedCaesar {
  import opened JavaInt
  import opened CryptoManager
  import CipherLaws

  /** Encrypt one window code; the result is the window code congruent to c + key. */
  function EncryptCode(c: Char16, key: int): (r: Char16)
    requires InBounds(c)
    ensures InBounds(r)
    ensures r == Wrap(c + key)
  {
    var k := key % Range;
    var withOffset := c + k;
    var r := if withOffset > UpperBound then withOffset - Range else withOffset;
    CipherLaws.WrapUnique(c + key, r);
    r
  }

  /** Decrypt one window code; the result is the window code congruent to c - key. */
  function DecryptCode(c: Char16, key: int): (r: Char16)
    requires InBounds(c)
    ensures InBounds(r)
    ensures r == Wrap(c - key)
  {
    var k := key % Range;
    var withOffset := c - k;
    var r := if withOffset < LowerBound then withOffset + Range else withOffset;
    CipherLaws.WrapUnique(c - key, r);
    r
  }

  /** Round trip for every window code and every key, negative ones included. */
  lemma RoundTrip(c: Char16, key: int)
    requires InBounds(c)
    ensures DecryptCode(EncryptCode(c, key), key) == c
  {
    var e := EncryptCode(c, key);
    assert (c - (e - key)) % Range == 0 by {
      assert c - (e - key) == -(e - (c + key));
    }
    CipherLaws.WrapUnique(e - key, c);
  }

  /** The corrected and the faithful encryption agree whenever the key is non-negative. */
  lemma AgreesForNonNegativeKey(c: Char16, key: int)
    requires InBounds(c) && key >= 0
    ensures EncryptCode(c, key) == CaesarEncryptCode(c, key)
  {
    CipherLaws.CaesarEncryptNonNegativeKey(c, key);
  }
}
