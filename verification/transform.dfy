/** The letter-by-letter loops that both implementations share: the text is
    upper-cased, every letter is replaced through the affine rule on its
    alphabet index, every other character is copied. */
module Transform {
  import opened Alphabet
  import opened Modular

  /** Encryption of one letter index: `(a * p + b) % 26`. */
  function EncodeIndex(a: int, b: int, p: int): (c: nat)
    ensures c < 26
  {
    (a * p + b) % 26
  }

  /** Decryption of one letter index with the inverse `inv` of `a`:
      `(inv * (c - b)) % 26`; Python's `%` and Dafny's agree for the positive
      modulus, so a negative `c - b` still lands in [0, 25]. */
  function DecodeIndex(inv: int, b: int, c: int): (p: nat)
    ensures p < 26
  {
    (inv * (c - b)) % 26
  }

  function EncryptChar(a: int, b: int, ch: char): char
  {
    var u := ToUpper(ch);
    if IsUpperLetter(u) then Letter(EncodeIndex(a, b, Index(u))) else u
  }

  function DecryptChar(inv: int, b: int, ch: char): char
  {
    var u := ToUpper(ch);
    if IsUpperLetter(u) then Letter(DecodeIndex(inv, b, Index(u))) else u
  }

  /** The loop `for char in plaintext.upper(): ...` of encryption. */
  function EncryptText(text: string, a: int, b: int): (r: string)
    ensures |r| == |text|
    ensures forall i :: 0 <= i < |text| && !IsAlpha(text[i]) ==> r[i] == text[i]
    ensures forall i :: 0 <= i < |text| && IsAlpha(text[i]) ==>
              IsUpperLetter(r[i]) && Index(r[i]) == EncodeIndex(a, b, Index(ToUpper(text[i])))
  {
    seq(|text|, i requires 0 <= i < |text| => EncryptChar(a, b, text[i]))
  }

  /** The loop `for char in ciphertext.upper(): ...` of decryption. */
  function DecryptText(text: string, inv: int, b: int): (r: string)
    ensures |r| == |text|
    ensures forall i :: 0 <= i < |text| && !IsAlpha(text[i]) ==> r[i] == text[i]
    ensures forall i :: 0 <= i < |text| && IsAlpha(text[i]) ==>
              IsUpperLetter(r[i]) && Index(r[i]) == DecodeIndex(inv, b, Index(ToUpper(text[i])))
  {
    seq(|text|, i requires 0 <= i < |text| => DecryptChar(inv, b, text[i]))
  }

  /** Decoding undoes encoding on every letter index. */
  lemma DecodeEncode(a: int, inv: int, b: int, p: nat)
    requires IsInverse(a, 26, inv) && p < 26
    ensures DecodeIndex(inv, b, EncodeIndex(a, b, p)) == p
  {
    var q := (a * p + b) / 26;
    var e := EncodeIndex(a, b, p);
    assert e - b == a * p + 26 * (-q);
    assert inv * (e - b) == (inv * a) * p + 26 * (-(inv * q));
    ModAddMultiple((inv * a) * p, -(inv * q), 26);
    assert (inv * a) * p == p * (a * inv);
    ModMulRight(p, a * inv, 26);
    assert (a * inv) % 26 == 1;
    ModUnique(p, 26, 0, p);
  }

  /** Encoding undoes decoding on every letter index. */
  lemma EncodeDecode(a: int, inv: int, b: int, c: nat)
    requires IsInverse(a, 26, inv) && c < 26
    ensures EncodeIndex(a, b, DecodeIndex(inv, b, c)) == c
  {
    var x := inv * (c - b);
    ModMulRight(a, x, 26);
    ModAddLeft(a * (x % 26), b, 26);
    ModAddLeft(a * x, b, 26);
    assert a * x == (c - b) * (a * inv);
    ModMulRight(c - b, a * inv, 26);
    assert (a * inv) % 26 == 1;
    ModAddLeft(c - b, b, 26);
    ModUnique(c, 26, 0, c);
  }

  /** With matching keys, decrypting an encrypted text gives the upper-cased
      text back. */
  lemma DecryptEncryptText(text: string, a: int, inv: int, b: int)
    requires IsInverse(a, 26, inv)
    ensures DecryptText(EncryptText(text, a, b), inv, b) == UpperText(text)
  {
    var r := DecryptText(EncryptText(text, a, b), inv, b);
    forall i | 0 <= i < |text|
      ensures r[i] == ToUpper(text[i])
    {
      var u := ToUpper(text[i]);
      if IsUpperLetter(u) {
        DecodeEncode(a, inv, b, Index(u));
        LetterOfIndex(u);
      }
    }
  }

  /** With matching keys, encrypting a decrypted text gives the upper-cased
      text back. */
  lemma EncryptDecryptText(text: string, a: int, inv: int, b: int)
    requires IsInverse(a, 26, inv)
    ensures EncryptText(DecryptText(text, inv, b), a, b) == UpperText(text)
  {
    var r := EncryptText(DecryptText(text, inv, b), a, b);
    forall i | 0 <= i < |text|
      ensures r[i] == ToUpper(text[i])
    {
      var u := ToUpper(text[i]);
      if IsUpperLetter(u) {
        EncodeDecode(a, inv, b, Index(u));
        LetterOfIndex(u);
      }
    }
  }

  /** Both loops work character by character, so they distribute over
      concatenation. */
  lemma EncryptTextConcat(s: string, t: string, a: int, b: int)
    ensures EncryptText(s + t, a, b) == EncryptText(s, a, b) + EncryptText(t, a, b)
  {
  }
}
