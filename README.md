# CryptoManager in Dafny

A model of `CryptoManager`, a small static library of two classical substitution
ciphers over an "alphabet window" of 64 character codes, from `' '` (32) to `'_'`
(95). It has five operations:

- `stringInBounds`: tests that every code of a text lies in the window.
- `encryptCaesar` / `decryptCaesar`: a shift cipher. The integer key is reduced with
  Java's `%`, and the shifted code is wrapped once.
- `encryptBellaso` / `decryptBellaso`: a keyword (Vigenère-style) cipher. The raw code
  of `keyword[i % |keyword|]` is added or subtracted, and a `while` loop wraps the
  result back into the window.

Text is a `seq<Char16>`: UTF-16 code units, the integers 0..65535 that a Java `char`
holds. Dafny's `char` is not used. Two pieces of Java semantics are written out in
module `JavaInt`:

- `JavaRem` is Java's truncating `%`.
- `ToChar` is the `(char)` narrowing cast, reduction modulo 65536.

`StringInBounds` reads the text code by code and clears a flag, as the library does
with `charAt`; its `ensures` ties the flag to the predicate `TextInBounds`. Each of the
four cipher methods copies its input into a fresh array. It overwrites the array
position by position in a `for` loop, as the library does with `toCharArray`. The Caesar
methods reassign the reduced key on every iteration. The Bellaso methods run the inner
wrapping `while` loop. Each cipher method's single `ensures` equates its result with a
whole-text function (`CaesarEncrypted`, `CaesarDecrypted`, `BellasoEncrypted`,
`BellasoDecrypted`), built position by position from a step function. Module
`CipherLaws` states its lemmas about those whole-text functions, so they apply to the
methods' results directly. It relates them to `Wrap`, the reference definition of "the
window code in the same residue class modulo 64".

Files:

- `JavaInt.dfy`: Java's integer and character semantics.
- `CryptoManager.dfy`: constants, step functions, whole-text functions and the five methods.
- `CipherLaws.dfy`: the properties.
- `CorrectedCaesar.dfy`: a corrected Caesar pair for the findings below.

decryptCaesar's doc comment (CryptoManager.java:70) calls it the inverse of
encryptCaesar, with no restriction on the key. The code inverts encryption only when
the key's Java remainder lies in [-32, 32]. Both directions are proved:
`CaesarRoundTrip` shows the round trip holds for those keys, and
`CaesarRoundTripFails` shows it fails for every other key.

## Model

| member | source | states |
|---|---|---|
| JavaInt.JavaRem | CryptoManager.java:35 | Java's `%`: the remainder is smaller than the divisor in magnitude and has the dividend's sign (the congruence, for the divisor 64, is CipherLaws.JavaRemCongruent) |
| JavaInt.JavaRemIdempotent | CryptoManager.java:78 | reducing an already reduced key again gives the same remainder, so `key = key % RANGE` on every iteration keeps one offset for all positions |
| JavaInt.ToChar | CryptoManager.java:36 | the `(char)` cast lands in 0..65535, is congruent to its argument modulo 65536, is the identity on that range, and adds 65536 to a small negative value |
| CryptoManager.TextInBounds | CryptoManager.java:15-23 | a text is in bounds iff every one of its codes is InBounds; the empty text is in bounds |
| CryptoManager.InBounds | CryptoManager.java:18 | a code is in the window iff it is neither below LOWER_BOUND nor above UPPER_BOUND (the negation of the test at line 18) |
| CryptoManager.Wrap | CryptoManager.java:5-7 | the reference wrap: a code inside [LOWER_BOUND, UPPER_BOUND] and congruent to its argument modulo RANGE = 64 |
| CryptoManager.CaesarEncryptCode | CryptoManager.java:35-39 | one iteration of encryptCaesar: the key reduced by Java's `%`, the `(char)` of code plus key, and one subtraction of RANGE when the result is above UPPER_BOUND; its meaning is stated by the CipherLaws.Caesar* lemmas |
| CryptoManager.CaesarDecryptCode | CryptoManager.java:78-82 | one iteration of decryptCaesar: the same reduction, the `(char)` of code minus key, and one addition of RANGE when below LOWER_BOUND; its meaning on its own is CipherLaws.CaesarDecryptInWindow and CipherLaws.CaesarDecryptLeavesWindow |
| CryptoManager.WrapDown | CryptoManager.java:59-61 | the subtracting `while` loop: it terminates for every code, ends at or below UPPER_BOUND, keeps the residue modulo 64, and leaves a code already at or below UPPER_BOUND unchanged |
| CryptoManager.WrapUp | CryptoManager.java:100-102 | the adding `while` loop on an `int`: it terminates, ends at or above LOWER_BOUND, keeps the residue modulo 64, and leaves a value already at or above LOWER_BOUND unchanged |
| CryptoManager.BellasoEncryptCode | CryptoManager.java:58-61 | one iteration of encryptBellaso: the `(char)` of text code plus raw keyword code, then WrapDown; its meaning is CipherLaws.BellasoEncryptCodeInWindow |
| CryptoManager.BellasoDecryptCode | CryptoManager.java:99-103 | one iteration of decryptBellaso: the `int` difference, WrapUp, then the `(char)` cast; its meaning is CipherLaws.BellasoDecryptCodeInWindow |
| CryptoManager.CaesarEncrypted | CryptoManager.java:32-43 | the whole-text encryptCaesar: its contract gives the same length as the text; by definition position i is the Caesar step on text[i] |
| CryptoManager.CaesarDecrypted | CryptoManager.java:75-86 | the whole-text decryptCaesar: its contract gives the same length as the text; by definition position i is the decryption step on text[i] |
| CryptoManager.BellasoEncrypted | CryptoManager.java:53-65 | the whole-text encryptBellaso: its contract gives the same length as the text and admits an empty keyword only with an empty text; by definition position i is the step on text[i] and keyword[i % len] |
| CryptoManager.BellasoDecrypted | CryptoManager.java:96-106 | the whole-text decryptBellaso: its contract gives the same length as the text, with the same keyword precondition; by definition position i is the step on text[i] and keyword[i % len] |
| CryptoManager.StringInBounds | CryptoManager.java:15-23 | the flag is true iff TextInBounds holds, that is, iff every code lies in [32, 95]; vacuously true for the empty text; the loop runs to the end |
| CryptoManager.EncryptCaesar | CryptoManager.java:32-43 | the result is CaesarEncrypted(text, key): same length as the input, position i the Caesar step on text[i] with the original key, even though the key is reduced again on every iteration |
| CryptoManager.DecryptCaesar | CryptoManager.java:75-86 | the result is CaesarDecrypted(text, key): same length, position i the decryption step, with the `(char)` cast taken before the lower-bound test, on text[i] |
| CryptoManager.EncryptBellaso | CryptoManager.java:53-65 | the result is BellasoEncrypted(text, keyword): same length, position i depends only on text[i] and keyword[i % len]; the inner `while` loop ends for every code; an empty keyword is allowed only with an empty text |
| CryptoManager.DecryptBellaso | CryptoManager.java:96-106 | the result is BellasoDecrypted(text, keyword): same length, position i depends only on text[i] and keyword[i % len]; differences are computed in `int` and the adding loop ends for every input |
| CipherLaws.WindowConstants | CryptoManager.java:5-7 | LOWER_BOUND is 32 (' '), UPPER_BOUND is 95 ('_'), RANGE is 64 |
| CipherLaws.JavaRemCongruent | CryptoManager.java:35 | the Java remainder of a key by RANGE differs from the key by a multiple of 64, for negative keys too |
| CipherLaws.WrapUnique | CryptoManager.java:5-7 | any window code in x's residue class modulo 64 is Wrap(x) |
| CipherLaws.WrapOfInBounds | CryptoManager.java:5-7 | a window code wraps to itself |
| CipherLaws.WrapPlusRange | CryptoManager.java:38 | adding or subtracting RANGE leaves the wrap unchanged |
| CipherLaws.TextInBoundsExamples | CryptoManager.java:15-23 | "" and "HELLO WORLD" are in bounds; "abc", code 31 and code 96 are not |
| CipherLaws.CaesarEncryptNonNegativeKey | CryptoManager.java:35-40 | for key >= 0 and a window code c, encryption gives the unique window code congruent to c + key, so the single subtraction suffices |
| CipherLaws.CaesarEncryptedInBounds | CryptoManager.java:32-43 | for key >= 0, encrypted in-bounds text has the same length and stays in bounds |
| CipherLaws.CaesarKeyZeroIdentity | CryptoManager.java:32-43 | key 0 leaves in-bounds text unchanged |
| CipherLaws.CaesarKeyReduction | CryptoManager.java:35 | encrypting or decrypting with the key's remainder gives the same text as with the key itself |
| CipherLaws.CaesarHelloExample | CryptoManager.java:32-43 | "HELLO" with key 3 gives "KHOOR" |
| CipherLaws.CaesarEncryptNegativeKey | CryptoManager.java:35-39 | for key < 0 the negative remainder k is added as it is: the result is c + k when that is >= 0, and otherwise wraps in the `char` range to 65472 + c + k; a result below 32 is never corrected; when c + k >= 0 the result is congruent to c + key modulo 64 but may lie outside the window |
| CipherLaws.CaesarNegativeKeyExample | CryptoManager.java:35-39 | "A" with key -40 gives code 25, outside the window |
| CipherLaws.CaesarDecryptInWindow | CryptoManager.java:67-69 | for a window code and a key whose Java remainder lies in [0, 32], decryption gives the unique window code congruent to c - key, the code offset places before c (lines 78-82 compute it with one addition) |
| CipherLaws.CaesarDecryptedInBounds | CryptoManager.java:75-85 | for such keys, decrypted in-bounds text has the same length and stays in bounds |
| CipherLaws.CaesarDecryptLeavesWindow | CryptoManager.java:78-82 | for every other key some window code decrypts outside the window: a negative remainder is never corrected at the upper bound, and a remainder above 32 wraps in the `char` range before the lower-bound test |
| CipherLaws.CaesarDecryptNegativeKeyExample | CryptoManager.java:78-82 | "_" with key -1 decrypts to code 96, just above the window |
| CipherLaws.CaesarRoundTripCode | CryptoManager.java:75-85 | for a window code and a key whose Java remainder lies in [-32, 32], decryption undoes encryption at one position |
| CipherLaws.CaesarRoundTrip | CryptoManager.java:67-86 | decryptCaesar inverts encryptCaesar on in-bounds text when the key's remainder lies in [-32, 32] (the inverse that the doc comment at line 70 claims) |
| CipherLaws.CaesarRoundTripFails | CryptoManager.java:78-82 | for every other key some window code fails the round trip, so the condition above is exact |
| CipherLaws.CaesarDecryptCounterexample | CryptoManager.java:79-80 | "!" with key 63 encrypts to " ", which decrypts to code 65505, because 32 - 63 is cast to `char` before the lower-bound test |
| CipherLaws.WrapDownIsWrap | CryptoManager.java:59-61 | from any start >= 32 the subtracting loop ends on the wrap of its start |
| CipherLaws.WrapUpIsWrap | CryptoManager.java:100-102 | from any start <= 95 the adding loop ends on the wrap of its start |
| CipherLaws.BellasoEncryptCodeInWindow | CryptoManager.java:58-61 | for window text and keyword codes, the encryption step is the unique window code congruent to text + keyword code |
| CipherLaws.BellasoDecryptCodeInWindow | CryptoManager.java:99-103 | for a window text code and any keyword code, the decryption step is the unique window code congruent to text - keyword code |
| CipherLaws.BellasoEncryptedInBounds | CryptoManager.java:53-65 | in-bounds text with a non-empty in-bounds keyword encrypts to in-bounds text of the same length |
| CipherLaws.BellasoDecryptedInBounds | CryptoManager.java:96-106 | in-bounds text decrypts to in-bounds text of the same length, whatever the keyword codes |
| CipherLaws.ToCharKeepsResidue | CryptoManager.java:58 | the `(char)` cast keeps the residue modulo 64, since 65536 is a multiple of 64 |
| CipherLaws.BellasoRoundTripCode | CryptoManager.java:58-61 | decryption undoes encryption at one position, for a window text code and any keyword code, even when the `(char)` of the sum wraps |
| CipherLaws.BellasoRoundTrip | CryptoManager.java:88-106 | decryptBellaso(encryptBellaso(t, w), w) == t for in-bounds t and any non-empty w (any w when t is empty), as the doc comment at lines 90-91 says |
| CipherLaws.BellasoEncryptAfterDecryptCode | CryptoManager.java:96-106 | encryption undoes decryption at one position, for window text and keyword codes |
| CipherLaws.BellasoEncryptAfterDecrypt | CryptoManager.java:53-65 | encryptBellaso(decryptBellaso(t, w), w) == t for in-bounds t and a non-empty in-bounds w: on such text the two are mutually inverse |
| CorrectedCaesar.EncryptCode | CryptoManager.java:35-39 | corrected encryption (true modulus key): for every key, the result is the window code congruent to c + key |
| CorrectedCaesar.DecryptCode | CryptoManager.java:78-82 | corrected decryption (true modulus, difference in `int`): the window code congruent to c - key |
| CorrectedCaesar.RoundTrip | CryptoManager.java:67-86 | the corrected pair round-trips every window code for every key |
| CorrectedCaesar.AgreesForNonNegativeKey | CryptoManager.java:35-39 | the corrected and the faithful encryption agree for key >= 0 |

## Left out

- The `String` / `char[]` conversions (`toCharArray`, `String.valueOf`) are not modelled as objects. A method copies its input sequence into a fresh array and returns the array's contents. There is no aliasing, because Java strings are immutable.
- The key is an unbounded `int`. On Java's 32-bit range this behaves the same, because `key % RANGE` runs before the key is added, so no `int` arithmetic in the methods can overflow.
- `i % bellasoStr.length()` is written with Dafny's `%`. It agrees with Java's here because `i` is never negative.
- EncryptBellaso: an empty keyword with non-empty text makes the library throw an `ArithmeticException` (`i % 0`). The model states this as the precondition `|keyword| > 0 || |text| == 0` and does not model the exception.
- DecryptBellaso: the same precondition, for the same reason.
- For text codes outside the window, the Bellaso methods are modelled exactly and their loops are proved to end. No property is stated about their output, because the library promises none. Keyword codes outside the window are covered by the decryption bound and the round trip; encryption's bound and encrypt-after-decrypt are stated for window keywords only.
- Composing two Caesar shifts as one shift by the sum is not modelled. The library neither promises nor relies on it.

## Findings

| source | as written | input that shows it | evidently intended | confidence | as-written member | corrected member |
|---|---|---|---|---|---|---|
| CryptoManager.java:78-82 | `(char)(c - key)` is taken before the `< LOWER_BOUND` test. A negative difference becomes a code near 65535 that the test never catches | "!" with key 63: encryption gives " ", decryption gives code 65505 instead of "!" | decryptCaesar is the inverse of encryptCaesar (doc comment, line 70) for every key | not executed | CipherLaws.CaesarDecryptCounterexample | CorrectedCaesar.RoundTrip |
| CryptoManager.java:78-82 | a negative key's remainder stays negative, so decryption adds to the code, and only the lower bound is tested after the shift | "_" with key -1 decrypts to code 96, outside the window | each code is replaced by the window code offset places before it (doc comment, lines 68-69) for every key | not executed | CipherLaws.CaesarDecryptNegativeKeyExample | CorrectedCaesar.DecryptCode |
| CryptoManager.java:35-39 | Java's `%` keeps a negative key negative, and only the upper bound is tested after the shift | "A" with key -40 gives code 25, outside the window | every key maps in-bounds text into the window | not executed | CipherLaws.CaesarNegativeKeyExample | CorrectedCaesar.EncryptCode |

The corrected pair in `CorrectedCaesar` stands beside the faithful definitions and does not replace them. The methods in `CryptoManager` model the library as written.
