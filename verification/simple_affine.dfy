/** The simple command-line variant (main.py): the same cipher, with an
    inverse found by exhaustive search and `None` instead of an exception
    when the multiplicative key is refused. */
module SimpleAffine {
  import opened Wrappers
  import opened Alphabet
  import opened Modular
  import opened Transform
  import Affine

  /** The loop `for i in range(i, m): if (a * i) % m == 1: return i`. */
  function SearchFrom(a: nat, m: nat, i: nat): (r: Option<nat>)
    requires i >= 1
    decreases m - i
    ensures r.Some? ==> i <= r.value < m && IsInverse(a, m, r.value)
    ensures r.Some? ==> forall j :: i <= j < r.value ==> !IsInverse(a, m, j)
    ensures r.None? ==> forall j :: i <= j < m ==> !IsInverse(a, m, j)
  {
    if i >= m then
      None
    else
      ModUnique(1, m, 0, 1);
      if (a * i) % m == 1 then Some(i) else SearchFrom(a, m, i + 1)
  }

  /** `mod_inverse(a, m=26)` of main.py: the least `i` in [1, m) with
      `(a * i) % m == 1`, or `None` when there is none. */
  function SearchInverse(a: nat, m: nat := 26): (r: Option<nat>)
    ensures r.Some? ==> 1 <= r.value < m && IsInverse(a, m, r.value)
    ensures r.Some? ==> forall j :: 1 <= j < r.value ==> !IsInverse(a, m, j)
    ensures r.None? ==> forall j :: 1 <= j < m ==> !IsInverse(a, m, j)
  {
    SearchFrom(a, m, 1)
  }

  /** For every modulus from 2 up, the search of main.py and the extended
      Euclidean algorithm of app.py return the same inverse, or both none. */
  lemma InversesAgree(a: nat, m: nat)
    requires m >= 2
    ensures SearchInverse(a, m) == ModInverse(a, m)
  {
    var s, e := SearchInverse(a, m), ModInverse(a, m);
    ModUnique(1, m, 0, 1);
    if e.Some? {
      assert e.value != 0 by {
        ModUnique(0, m, 0, 0);
      }
    }
  }

  /** With the modulus 1 the two inverses part ways: app.py answers 0,
      main.py finds nothing in the empty range [1, 1). */
  lemma InversesDifferModuloOne(a: nat)
    ensures ModInverse(a, 1) == Some(0)
    ensures SearchInverse(a, 1) == None
  {
    assert Gcd(a, 1) == 1;
  }

  /** `is_valid_key(a)` of main.py: coprime with 26, which holds exactly
      when `a % 26` is one of the keys printed in the usage text. */
  function IsValidKey(a: nat): (r: bool)
    ensures r <==> a % 26 in Affine.KeyList
    ensures r <==> Affine.IsValidKey(a)
    ensures r <==> SearchInverse(a).Some?
  {
    ValidKeyResidue(a);
    InversesAgree(a, 26);
    Gcd(a, 26) == 1
  }

  lemma ValidKeyResidue(a: nat)
    ensures Gcd(a, 26) == 1 <==> a % 26 in Affine.KeyList
  {
    var k, q := a % 26, a / 26;
    assert a == k + 26 * q;
    ModAddMultiple(k, 13 * q, 2);
    ModAddMultiple(k, 2 * q, 13);
    Affine.CoprimeWith26(a);
    Affine.KeyListMembers(k);
    if k != 0 {
      Affine.OddNotThirteen(k);
    }
  }

  /** `affine_encrypt` of main.py: `None` for a refused key, otherwise the
      same letter-by-letter transform as app.py. */
  function Encrypt(text: string, a: nat, b: int): (r: Option<string>)
    ensures r.None? <==> !IsValidKey(a)
    ensures r.Some? ==> |r.value| == |text|
    ensures r.Some? ==> forall i :: 0 <= i < |text| && !IsAlpha(text[i]) ==> r.value[i] == text[i]
    ensures r.Some? ==> forall i :: 0 <= i < |text| && IsAlpha(text[i]) ==>
              IsUpperLetter(r.value[i]) &&
              Index(r.value[i]) == (a * Index(ToUpper(text[i])) + b) % 26
  {
    if !IsValidKey(a) then
      None
    else
      Some(EncryptText(text, a, b))
  }

  /** `affine_decrypt` of main.py: `None` for a refused key or a missing
      inverse (the latter never happens once the key is accepted),
      otherwise each letter becomes `(a_inv * (c - b)) % 26` with the
      searched inverse, which is the letter that encrypts to it. */
  function Decrypt(text: string, a: nat, b: int): (r: Option<string>)
    ensures r.None? <==> !IsValidKey(a)
    ensures r.Some? ==> |r.value| == |text|
    ensures r.Some? ==> forall i :: 0 <= i < |text| && !IsAlpha(text[i]) ==> r.value[i] == text[i]
    ensures r.Some? ==> forall i :: 0 <= i < |text| && IsAlpha(text[i]) ==>
              IsUpperLetter(r.value[i]) &&
              Index(r.value[i]) == (SearchInverse(a).value * (Index(ToUpper(text[i])) - b)) % 26 &&
              (a * Index(r.value[i]) + b) % 26 == Index(ToUpper(text[i]))
  {
    if !IsValidKey(a) then
      None
    else
      match SearchInverse(a)
      case None => None
      case Some(inv) =>
        Affine.DecryptedLettersEncrypt(text, a, inv, b);
        Some(DecryptText(text, inv, b))
  }

  /** Encryption in main.py agrees with app.py on every input. */
  lemma EncryptAgrees(text: string, a: nat, b: int)
    ensures Encrypt(text, a, b) == Affine.Encrypt(text, a, b).ToOption()
  {
  }

  /** Decryption in main.py agrees with app.py on every input, although the
      two compute the inverse of `a` by different algorithms. */
  lemma DecryptAgrees(text: string, a: nat, b: int)
    ensures Decrypt(text, a, b) == Affine.Decrypt(text, a, b).ToOption()
  {
    InversesAgree(a, 26);
  }

  /** Round trip of main.py: for an accepted key, decryption returns the
      upper-cased plaintext. */
  lemma DecryptAfterEncrypt(text: string, a: nat, b: int)
    requires IsValidKey(a)
    ensures Encrypt(text, a, b).Some?
    ensures Decrypt(Encrypt(text, a, b).value, a, b) == Some(UpperText(text))
  {
    EncryptAgrees(text, a, b);
    DecryptAgrees(Encrypt(text, a, b).value, a, b);
    Affine.DecryptAfterEncrypt(text, a, b);
  }

  /** The two examples of the usage text. */
  lemma UsageExamples()
    ensures Encrypt("HELLO WORLD", 5, 8) == Some("RCLLA OAPLX")
    ensures Decrypt("RCLLA OAPLX", 5, 8) == Some("HELLO WORLD")
  {
    Affine.HelloWorldExample();
    EncryptAgrees("HELLO WORLD", 5, 8);
    DecryptAgrees("RCLLA OAPLX", 5, 8);
  }
}
