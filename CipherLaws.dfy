/** What the CryptoManager transforms compute, proved about the per-position steps and
    the whole-text functions that the methods are verified against. */
module CipherLaws {
  import opened JavaInt
  import opened CryptoManager

  /*** The window and its wrap. ***/

  /** The window runs from 32 to 95 and holds 64 codes. */
  lemma WindowConstants()
    ensures LowerBound == 32 && UpperBound == 95 && Range == 64
  {
  }

  /** Java's remainder by the range differs from the dividend by a multiple of the
      range, so a reduced key, negative or not, shifts by the same residue. */
  lemma JavaRemCongruent(a: int)
    ensures (a - JavaRem(a, Range)) % Range == 0
  {
  }

  /** Wrap gives the only window code in x's residue class. */
  lemma WrapUnique(x: int, v: int)
    requires InBounds(v)
    requires (v - x) % Range == 0
    ensures v == Wrap(x)
  {
    var r := Wrap(x);
    assert (v - r) % Range == 0 by {
      assert v - r == (v - x) - (r - x);
    }
  }

  /** A window code wraps to itself. */
  lemma WrapOfInBounds(c: int)
    requires InBounds(c)
    ensures Wrap(c) == c
  {
    WrapUnique(c, c);
  }

  /** Adding or removing one range does not change the wrap. */
  lemma WrapPlusRange(x: int)
    ensures Wrap(x + Range) == Wrap(x)
    ensures Wrap(x - Range) == Wrap(x)
  {
    WrapUnique(x + Range, Wrap(x));
    WrapUnique(x - Range, Wrap(x));
  }

  /*** stringInBounds. ***/

  /** The empty text, an in-window text, lowercase letters, and the two codes just
      outside the window. */
  lemma TextInBoundsExamples()
    ensures TextInBounds([])
    ensures TextInBounds(CodeUnits("HELLO WORLD"))
    ensures !TextInBounds(CodeUnits("abc"))
    ensures !TextInBounds([LowerBound - 1]) && !TextInBounds([UpperBound + 1])
  {
    assert CodeUnits("abc")[0] == 'a' as int;
    assert [LowerBound - 1][0] == LowerBound - 1;
    assert [UpperBound + 1][0] == UpperBound + 1;
  }

  /*** The Caesar cipher. ***/

  /** For a non-negative key and a window code, encryption lands on the window code
      congruent to code plus key: the single conditional subtraction is enough. */
  lemma CaesarEncryptNonNegativeKey(c: Char16, key: int)
    requires InBounds(c) && key >= 0
    ensures CaesarEncryptCode(c, key) == Wrap(c + key)
    ensures InBounds(CaesarEncryptCode(c, key))
  {
    var k := JavaRem(key, Range);
    var e := CaesarEncryptCode(c, key);
    assert e == if c + k > UpperBound then c + k - Range else c + k;
    WrapUnique(c + key, e);
  }

  /** With a non-negative key, encrypted in-bounds text stays in bounds. */
  lemma CaesarEncryptedInBounds(t: seq<Char16>, key: int)
    requires TextInBounds(t) && key >= 0
    ensures |CaesarEncrypted(t, key)| == |t|
    ensures TextInBounds(CaesarEncrypted(t, key))
  {
    forall i | 0 <= i < |t| ensures InBounds(CaesarEncrypted(t, key)[i]) {
      CaesarEncryptNonNegativeKey(t[i], key);
    }
  }

  /** Key 0 leaves in-bounds text unchanged. */
  lemma CaesarKeyZeroIdentity(t: seq<Char16>)
    requires TextInBounds(t)
    ensures CaesarEncrypted(t, 0) == t
  {
    forall i | 0 <= i < |t| ensures CaesarEncrypted(t, 0)[i] == t[i] {
      CaesarEncryptNonNegativeKey(t[i], 0);
      WrapOfInBounds(t[i]);
    }
  }

  /** Any two keys with the same remainder encrypt alike: reducing the key again on
      each iteration, or reducing an already reduced key, gives the same text. */
  lemma CaesarKeyReduction(t: seq<Char16>, key: int)
    ensures CaesarEncrypted(t, JavaRem(key, Range)) == CaesarEncrypted(t, key)
    ensures CaesarDecrypted(t, JavaRem(key, Range)) == CaesarDecrypted(t, key)
  {
    JavaRemIdempotent(key, Range);
  }

  /** "HELLO" with key 3 is "KHOOR". */
  lemma CaesarHelloExample()
    ensures CaesarEncrypted(CodeUnits("HELLO"), 3) == CodeUnits("KHOOR")
  {
    var t := CodeUnits("HELLO");
    var e := CaesarEncrypted(t, 3);
    forall i | 0 <= i < 5 ensures e[i] == CodeUnits("KHOOR")[i] {
      CaesarEncryptNonNegativeKey(t[i], 3);
    }
  }

  /** For a negative key the remainder keeps its sign and is added as it is; only the
      upper bound is tested, so a result below the window is never corrected, and a
      sum below zero wraps around the 16-bit `char` range instead. */
  lemma CaesarEncryptNegativeKey(c: Char16, key: int)
    requires InBounds(c) && key < 0
    ensures var k := JavaRem(key, Range);
      CaesarEncryptCode(c, key) == if c + k >= 0 then c + k else 0x1_0000 - Range + c + k
    ensures var k := JavaRem(key, Range);
      c + k < LowerBound ==> !InBounds(CaesarEncryptCode(c, key))
    ensures var k := JavaRem(key, Range);
      c + k >= 0 ==> (CaesarEncryptCode(c, key) - (c + key)) % Range == 0
  {
    JavaRemCongruent(key);
  }

  /** "A" with key -40 becomes code 25, below the window. */
  lemma CaesarNegativeKeyExample()
    ensures CaesarEncryptCode('A' as int, -40) == 25
    ensures !InBounds(CaesarEncryptCode('A' as int, -40))
  {
    CaesarEncryptNegativeKey('A' as int, -40);
  }

  /** Decryption on its own: for a key whose Java remainder lies in [0, 32] each window
      code is replaced by the window code congruent to c - key, the code `key`
      places before it. The difference never drops below zero, so the single
      addition of the range is enough. */
  lemma CaesarDecryptInWindow(c: Char16, key: int)
    requires InBounds(c) && 0 <= JavaRem(key, Range) <= 32
    ensures CaesarDecryptCode(c, key) == Wrap(c - key)
    ensures InBounds(CaesarDecryptCode(c, key))
  {
    var k := JavaRem(key, Range);
    var d := CaesarDecryptCode(c, key);
    JavaRemCongruent(key);
    assert d == if c - k < LowerBound then c - k + Range else c - k;
    assert (d - (c - key)) % Range == 0 by {
      assert d - (c - key) == (d - (c - k)) + (key - k);
    }
    WrapUnique(c - key, d);
  }

  /** Whole-text form: in-bounds text stays in bounds under decryption with such a key. */
  lemma CaesarDecryptedInBounds(t: seq<Char16>, key: int)
    requires TextInBounds(t) && 0 <= JavaRem(key, Range) <= 32
    ensures |CaesarDecrypted(t, key)| == |t|
    ensures TextInBounds(CaesarDecrypted(t, key))
  {
    forall i | 0 <= i < |t| ensures InBounds(CaesarDecrypted(t, key)[i]) {
      CaesarDecryptInWindow(t[i], key);
    }
  }

  /** For every other key some window code decrypts to a code outside the window:
      a negative remainder moves "_" above it (only the lower bound is tested), and a
      remainder above 32 takes " " below zero, where the `char` cast wraps it to the
      top of the 16-bit range before the test. */
  lemma CaesarDecryptLeavesWindow(key: int)
    requires !(0 <= JavaRem(key, Range) <= 32)
    ensures exists c: Char16 :: InBounds(c) && !InBounds(CaesarDecryptCode(c, key))
  {
    var k := JavaRem(key, Range);
    if k < 0 {
      assert CaesarDecryptCode(UpperBound, key) == UpperBound - k;
      assert InBounds(UpperBound);
    } else {
      assert CaesarDecryptCode(LowerBound, key) == 0x1_0000 + LowerBound - k;
      assert InBounds(LowerBound);
    }
  }

  /** "_" with key -1 decrypts to code 96, just above the window. */
  lemma CaesarDecryptNegativeKeyExample()
    ensures CaesarDecryptCode('_' as int, -1) == 96
    ensures !InBounds(CaesarDecryptCode('_' as int, -1))
  {
    assert JavaRem(-1, Range) == -1;
  }

  /** Decryption undoes encryption of a window code whenever the key's Java remainder
      lies in [-32, 32]. */
  lemma CaesarRoundTripCode(c: Char16, key: int)
    requires InBounds(c)
    requires -32 <= JavaRem(key, Range) <= 32
    ensures CaesarDecryptCode(CaesarEncryptCode(c, key), key) == c
  {
    var k := JavaRem(key, Range);
    var e := CaesarEncryptCode(c, key);
    if k >= 0 {
      if c + k > UpperBound {
        assert e == c + k - Range;
        assert 0 <= e - k < LowerBound;
      } else {
        assert e == c + k;
      }
    } else {
      assert e == c + k;
    }
  }

  /** decryptCaesar inverts encryptCaesar on every in-bounds text for such keys. */
  lemma CaesarRoundTrip(t: seq<Char16>, key: int)
    requires TextInBounds(t)
    requires -32 <= JavaRem(key, Range) <= 32
    ensures CaesarDecrypted(CaesarEncrypted(t, key), key) == t
  {
    var e := CaesarEncrypted(t, key);
    forall i | 0 <= i < |t| ensures CaesarDecrypted(e, key)[i] == t[i] {
      CaesarRoundTripCode(t[i], key);
    }
  }

  /** For every other key some window code does not survive the round trip: the
      condition of CaesarRoundTrip is exact. */
  lemma CaesarRoundTripFails(key: int)
    requires !(-32 <= JavaRem(key, Range) <= 32)
    ensures exists c: Char16 :: InBounds(c) && CaesarDecryptCode(CaesarEncryptCode(c, key), key) != c
  {
    var k := JavaRem(key, Range);
    var c: Char16 := if k > 32 then UpperBound + 1 - k else LowerBound;
    if k > 32 {
      assert CaesarEncryptCode(c, key) == LowerBound;
      assert CaesarDecryptCode(LowerBound, key) == 0x1_0000 + LowerBound - k;
    } else {
      assert CaesarEncryptCode(c, key) == 0x1_0000 - Range + c + k;
      assert CaesarDecryptCode(0x1_0000 - Range + c + k, key) == 0x1_0000 - Range + c;
    }
  }

  /** "!" with key 63 encrypts to " ", which decrypts to code 65505: 32 - 63 is cast
      to `char` before the lower-bound test, so the test never fires. */
  lemma CaesarDecryptCounterexample()
    ensures CaesarEncryptCode('!' as int, 63) == ' ' as int
    ensures CaesarDecryptCode(' ' as int, 63) == 65505
    ensures CaesarDecrypted(CaesarEncrypted(CodeUnits("!"), 63), 63) != CodeUnits("!")
  {
    var e := CaesarEncrypted(CodeUnits("!"), 63);
    assert e[0] == ' ' as int;
    assert CaesarDecrypted(e, 63)[0] == 65505;
  }

  /*** The Bellaso cipher. ***/

  /** The subtracting loop ends on the wrap of its start, for any start at or above
      the lower bound. */
  lemma {:induction false} WrapDownIsWrap(v: Char16)
    requires v >= LowerBound
    ensures WrapDown(v) == Wrap(v)
  {
    if v > UpperBound {
      WrapDownIsWrap(v - Range);
      WrapPlusRange(v - Range);
    } else {
      WrapOfInBounds(v);
    }
  }

  /** The adding loop ends on the wrap of its start, for any start at or below the
      upper bound. */
  lemma {:induction false} WrapUpIsWrap(v: int)
    requires v <= UpperBound
    ensures WrapUp(v) == Wrap(v)
    decreases LowerBound - v
  {
    if v < LowerBound {
      WrapUpIsWrap(v + Range);
      WrapPlusRange(v);
    } else {
      WrapOfInBounds(v);
    }
  }

  /** For window codes, encryptBellaso's step gives the window code congruent to the
      sum of text code and keyword code. */
  lemma BellasoEncryptCodeInWindow(c: Char16, w: Char16)
    requires InBounds(c) && InBounds(w)
    ensures BellasoEncryptCode(c, w) == Wrap(c + w)
    ensures InBounds(BellasoEncryptCode(c, w))
  {
    WrapDownIsWrap(c + w);
  }

  /** For a window text code and any keyword code, decryptBellaso's step gives the
      window code congruent to the difference; the `int` arithmetic never passes
      through the `char` wrap. */
  lemma BellasoDecryptCodeInWindow(c: Char16, w: Char16)
    requires InBounds(c)
    ensures BellasoDecryptCode(c, w) == Wrap(c - w)
    ensures InBounds(BellasoDecryptCode(c, w))
  {
    WrapUpIsWrap(c - w);
  }

  /** Encrypting in-bounds text with an in-bounds keyword stays in bounds. */
  lemma BellasoEncryptedInBounds(t: seq<Char16>, w: seq<Char16>)
    requires TextInBounds(t) && TextInBounds(w) && |w| > 0
    ensures |BellasoEncrypted(t, w)| == |t|
    ensures TextInBounds(BellasoEncrypted(t, w))
  {
    forall i | 0 <= i < |t| ensures InBounds(BellasoEncrypted(t, w)[i]) {
      BellasoEncryptCodeInWindow(t[i], w[i % |w|]);
    }
  }

  /** Decrypting in-bounds text stays in bounds, whatever the keyword's codes. */
  lemma BellasoDecryptedInBounds(t: seq<Char16>, w: seq<Char16>)
    requires TextInBounds(t) && (|w| > 0 || |t| == 0)
    ensures |BellasoDecrypted(t, w)| == |t|
    ensures TextInBounds(BellasoDecrypted(t, w))
  {
    forall i | 0 <= i < |t| ensures InBounds(BellasoDecrypted(t, w)[i]) {
      BellasoDecryptCodeInWindow(t[i], w[i % |w|]);
    }
  }

  /** The `(char)` cast moves a value by a multiple of 65536, hence of 64: it keeps
      the residue that the window arithmetic depends on. */
  lemma ToCharKeepsResidue(x: int)
    ensures (x - ToChar(x)) % Range == 0
  {
    var q := (x - ToChar(x)) / 0x1_0000;
    assert x - ToChar(x) == Range * (1024 * q);
  }

  /** decryptBellaso undoes encryptBellaso at one position, for a window text code and
      any keyword code: even when the `(char)` of the sum wraps past 65535, the
      encrypted code keeps the residue of the sum and is at most UPPER_BOUND, so the
      adding loop lands back on the text code. */
  lemma BellasoRoundTripCode(c: Char16, w: Char16)
    requires InBounds(c)
    ensures BellasoDecryptCode(BellasoEncryptCode(c, w), w) == c
  {
    var e := BellasoEncryptCode(c, w);
    assert (e - (c + w)) % Range == 0 by {
      ToCharKeepsResidue(c + w);
      assert e - (c + w) == (e - ToChar(c + w)) + (ToChar(c + w) - (c + w));
    }
    WrapUpIsWrap(e - w);
    assert (c - (e - w)) % Range == 0 by {
      assert c - (e - w) == -(e - (c + w));
    }
    WrapUnique(e - w, c);
  }

  /** decryptBellaso inverts encryptBellaso on in-bounds text, whatever the codes of
      the (non-empty) keyword. */
  lemma BellasoRoundTrip(t: seq<Char16>, w: seq<Char16>)
    requires TextInBounds(t) && (|w| > 0 || |t| == 0)
    ensures BellasoDecrypted(BellasoEncrypted(t, w), w) == t
  {
    var e := BellasoEncrypted(t, w);
    forall i | 0 <= i < |t| ensures BellasoDecrypted(e, w)[i] == t[i] {
      BellasoRoundTripCode(t[i], w[i % |w|]);
    }
  }

  /** The other direction at one position: encryptBellaso undoes decryptBellaso for a
      window text code and a window keyword code. */
  lemma BellasoEncryptAfterDecryptCode(c: Char16, w: Char16)
    requires InBounds(c) && InBounds(w)
    ensures BellasoEncryptCode(BellasoDecryptCode(c, w), w) == c
  {
    BellasoDecryptCodeInWindow(c, w);
    var d := BellasoDecryptCode(c, w);
    BellasoEncryptCodeInWindow(d, w);
    assert (c - (d + w)) % Range == 0 by {
      assert c - (d + w) == -(d - (c - w));
    }
    WrapUnique(d + w, c);
  }

  /** encryptBellaso inverts decryptBellaso on in-bounds text with a non-empty
      in-bounds keyword, so on such text the two are mutually inverse. */
  lemma BellasoEncryptAfterDecrypt(t: seq<Char16>, w: seq<Char16>)
    requires TextInBounds(t) && TextInBounds(w) && |w| > 0
    ensures BellasoEncrypted(BellasoDecrypted(t, w), w) == t
  {
    var d := BellasoDecrypted(t, w);
    forall i | 0 <= i < |t| ensures BellasoEncrypted(d, w)[i] == t[i] {
      BellasoEncryptAfterDecryptCode(t[i], w[i % |w|]);
    }
  }
}
