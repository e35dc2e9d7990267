/** The CryptoManager cipher library: a bounds check, a Caesar (shift) cipher and a
    Bellaso (keyword) cipher over the 64-code window from ' ' to '_'.

    Text is a sequence of UTF-16 code units. Each of the four cipher methods copies
    its input into a fresh array and overwrites it position by position, as the
    library does with `toCharArray`; its result is stated as a whole-text function
    built from a per-position step, and module CipherLaws proves what those mean. */
module CryptoManager {
  import opened JavaInt

  const LowerBound: Char16 := ' ' as int
  const UpperBound: Char16 := '_' as int
  const Range: int := UpperBound - LowerBound + 1

  /** A code inside the alphabet window. */
  predicate InBounds(c: int) {
    LowerBound <= c <= UpperBound
  }

  /** Every code of the text is inside the window (vacuously so for the empty text). */
  predicate TextInBounds(t: seq<Char16>) {
    forall i | 0 <= i < |t| :: InBounds(t[i])
  }

  /** The reference meaning of "wrap into the window": the one code in the window
      that is congruent to x modulo the window size. */
  function Wrap(x: int): (r: Char16)
    ensures InBounds(r)
    ensures (r - x) % Range == 0
  {
    LowerBound + (x - LowerBound) % Range
  }

  /*** The per-position steps, exactly as the loop bodies compute them. ***/

  /** One iteration of encryptCaesar's loop: the key reduced by Java's `%`, the
      `(char)` of code plus key, and one subtraction of the range when above the window. */
  function CaesarEncryptCode(c: Char16, key: int): (r: Char16) {
    var k := JavaRem(key, Range);
    var withOffset := ToChar(c + k);
    if withOffset > UpperBound then ToChar(withOffset - Range) else withOffset
  }

  /** One iteration of decryptCaesar's loop: the same key reduction, the `(char)` of
      code minus key, and one addition of the range when below the window. */
  function CaesarDecryptCode(c: Char16, key: int): (r: Char16) {
    var k := JavaRem(key, Range);
    var withOffset := ToChar(c - k);
    if withOffset < LowerBound then ToChar(withOffset + Range) else withOffset
  }

  /** encryptBellaso's inner `while`: subtract the range while above the window,
      each step cast back to `char`. It terminates for every code: a code above the
      window stays non-negative after one subtraction. */
  function WrapDown(v: Char16): (r: Char16)
    ensures r <= UpperBound
    ensures (r - v) % Range == 0
    ensures v <= UpperBound ==> r == v
    decreases v
  {
    if v > UpperBound then WrapDown(ToChar(v - Range)) else v
  }

  /** decryptBellaso's inner `while`, on an `int`: add the range while below the window. */
  function WrapUp(v: int): (r: int)
    ensures r >= LowerBound
    ensures (r - v) % Range == 0
    ensures v >= LowerBound ==> r == v
    decreases LowerBound - v
  {
    if v < LowerBound then WrapUp(v + Range) else v
  }

  /** One iteration of encryptBellaso's loop, for text code c and keyword code w:
      the `(char)` of the sum of the raw codes, then the wrapping loop. */
  function BellasoEncryptCode(c: Char16, w: Char16): (r: Char16) {
    WrapDown(ToChar(c + w))
  }

  /** One iteration of decryptBellaso's loop: the difference in `int`, the wrapping
      loop, then the cast to `char`. */
  function BellasoDecryptCode(c: Char16, w: Char16): (r: Char16) {
    ToChar(WrapUp(c - w))
  }

  /*** Whole-text meanings of the four transforms. ***/

  function CaesarEncrypted(t: seq<Char16>, key: int): (r: seq<Char16>)
    ensures |r| == |t|
  {
    seq(|t|, i requires 0 <= i < |t| => CaesarEncryptCode(t[i], key))
  }

  function CaesarDecrypted(t: seq<Char16>, key: int): (r: seq<Char16>)
    ensures |r| == |t|
  {
    seq(|t|, i requires 0 <= i < |t| => CaesarDecryptCode(t[i], key))
  }

  /** Keyword position i % |w| for text position i; an empty keyword is only
      allowed with an empty text (otherwise the library divides by zero). */
  function BellasoEncrypted(t: seq<Char16>, w: seq<Char16>): (r: seq<Char16>)
    requires |w| > 0 || |t| == 0
    ensures |r| == |t|
  {
    seq(|t|, i requires 0 <= i < |t| => BellasoEncryptCode(t[i], w[i % |w|]))
  }

  function BellasoDecrypted(t: seq<Char16>, w: seq<Char16>): (r: seq<Char16>)
    requires |w| > 0 || |t| == 0
    ensures |r| == |t|
  {
    seq(|t|, i requires 0 <= i < |t| => BellasoDecryptCode(t[i], w[i % |w|]))
  }

  /*** The library's five static methods. ***/

  /** stringInBounds: a flag that starts true and is cleared by any code outside the
      window; the loop always runs to the end. */
  method StringInBounds(plainText: seq<Char16>) returns (flag: bool)
    ensures flag <==> TextInBounds(plainText)
  {
    flag := true;
    for i := 0 to |plainText|
      invariant flag <==> forall j | 0 <= j < i :: InBounds(plainText[j])
    {
      if plainText[i] < LowerBound || plainText[i] > UpperBound {
        flag := false;
      }
    }
  }

  /** encryptCaesar: the key is reduced again on every iteration. */
  method EncryptCaesar(plainText: seq<Char16>, key: int) returns (r: seq<Char16>)
    ensures r == CaesarEncrypted(plainText, key)
  {
    var chars := new Char16[|plainText|](i requires 0 <= i < |plainText| => plainText[i]);
    var k := key;
    for i := 0 to |plainText|
      invariant JavaRem(k, Range) == JavaRem(key, Range)
      invariant forall j | 0 <= j < i :: chars[j] == CaesarEncryptCode(plainText[j], key)
      invariant forall j | i <= j < |plainText| :: chars[j] == plainText[j]
    {
      k := JavaRem(k, Range);
      JavaRemIdempotent(key, Range);
      var withOffset := ToChar(chars[i] + k);
      if withOffset > UpperBound {
        withOffset := ToChar(withOffset - Range);
      }
      chars[i] := withOffset;
    }
    r := chars[..];
  }

  /** decryptCaesar: like encryptCaesar with the key subtracted and the lower bound tested. */
  method DecryptCaesar(encryptedText: seq<Char16>, key: int) returns (r: seq<Char16>)
    ensures r == CaesarDecrypted(encryptedText, key)
  {
    var chars := new Char16[|encryptedText|](i requires 0 <= i < |encryptedText| => encryptedText[i]);
    var k := key;
    for i := 0 to |encryptedText|
      invariant JavaRem(k, Range) == JavaRem(key, Range)
      invariant forall j | 0 <= j < i :: chars[j] == CaesarDecryptCode(encryptedText[j], key)
      invariant forall j | i <= j < |encryptedText| :: chars[j] == encryptedText[j]
    {
      k := JavaRem(k, Range);
      JavaRemIdempotent(key, Range);
      var withOffset := ToChar(chars[i] - k);
      if withOffset < LowerBound {
        withOffset := ToChar(withOffset + Range);
      }
      chars[i] := withOffset;
    }
    r := chars[..];
  }

  /** encryptBellaso: position i is shifted by the raw code of keyword[i % |keyword|]. */
  method EncryptBellaso(plainText: seq<Char16>, bellasoStr: seq<Char16>) returns (r: seq<Char16>)
    requires |bellasoStr| > 0 || |plainText| == 0
    ensures r == BellasoEncrypted(plainText, bellasoStr)
  {
    var chars := new Char16[|plainText|](i requires 0 <= i < |plainText| => plainText[i]);
    for i := 0 to |plainText|
      invariant forall j | 0 <= j < i ::
        chars[j] == BellasoEncryptCode(plainText[j], bellasoStr[j % |bellasoStr|])
      invariant forall j | i <= j < |plainText| :: chars[j] == plainText[j]
    {
      var withOffset: Char16 := ToChar(chars[i] as int + bellasoStr[i % |bellasoStr|]);
      ghost var start := withOffset;
      while withOffset > UpperBound
        invariant WrapDown(withOffset) == WrapDown(start)
        decreases withOffset
      {
        withOffset := ToChar(withOffset - Range);
      }
      chars[i] := withOffset;
    }
    r := chars[..];
  }

  /** decryptBellaso: the difference is kept in an `int` until the range has been
      added back enough times. */
  method DecryptBellaso(encryptedText: seq<Char16>, bellasoStr: seq<Char16>) returns (r: seq<Char16>)
    requires |bellasoStr| > 0 || |encryptedText| == 0
    ensures r == BellasoDecrypted(encryptedText, bellasoStr)
  {
    var chars := new Char16[|encryptedText|](i requires 0 <= i < |encryptedText| => encryptedText[i]);
    for i := 0 to |encryptedText|
      invariant forall j | 0 <= j < i ::
        chars[j] == BellasoDecryptCode(encryptedText[j], bellasoStr[j % |bellasoStr|])
      invariant forall j | i <= j < |encryptedText| :: chars[j] == encryptedText[j]
    {
      var withOffset: int := chars[i] as int - bellasoStr[i % |bellasoStr|];
      ghost var start := withOffset;
      while withOffset < LowerBound
        invariant WrapUp(withOffset) == WrapUp(start)
        decreases LowerBound - withOffset
      {
        withOffset := withOffset + Range;
      }
      chars[i] := ToChar(withOffset);
    }
    r := chars[..];
  }
}
