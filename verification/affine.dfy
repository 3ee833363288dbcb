/** The full implementation (app.py): key validation, encryption and
    decryption that raise `ValueError` on a bad multiplicative key, and the
    list of admissible keys. */
module Affine {
  import opened Wrappers
  import opened Alphabet
  import opened Modular
  import opened Transform

  /** The two `ValueError`s of app.py. */
  datatype CipherError =
    | InvalidKey(a: nat)   // gcd(a, 26) != 1
    | NoInverse(a: nat)    // mod_inverse(a, 26) gave None

  /** The admissible multiplicative keys, as listed in the module comment. */
  const KeyList: seq<nat> := [1, 3, 5, 7, 9, 11, 15, 17, 19, 21, 23, 25]

  /** `is_valid_key(a, m=26)`: `a` is coprime with `m`. */
  predicate IsValidKey(a: nat, m: nat := 26)
  {
    Gcd(a, m) == 1
  }

  /** For a positive modulus, a key is valid exactly when it has an inverse
      modulo `m`. */
  lemma ValidIffInvertible(a: nat, m: nat)
    ensures m >= 1 ==> (IsValidKey(a, m) <==> exists j: int :: IsInverse(a, m, j))
  {
    if m >= 1 {
      var inv := ModInverse(a, m);
      if inv.Some? {
        assert IsInverse(a, m, inv.value);
      }
    }
  }

  /** `affine_encrypt`: fails with `InvalidKey` before producing any output
      when `a` is not coprime with 26; otherwise each letter at position `i`
      becomes the letter of index `(a * p + b) % 26` and every other
      character stays where it was. */
  function Encrypt(plaintext: string, a: nat, b: int): (r: Result<string, CipherError>)
    ensures r.Failure? <==> !IsValidKey(a)
    ensures r.Failure? ==> r.error == InvalidKey(a)
    ensures r.Success? ==> |r.value| == |plaintext|
    ensures r.Success? ==> forall i :: 0 <= i < |plaintext| && !IsAlpha(plaintext[i]) ==>
              r.value[i] == plaintext[i]
    ensures r.Success? ==> forall i :: 0 <= i < |plaintext| && IsAlpha(plaintext[i]) ==>
              IsUpperLetter(r.value[i]) &&
              Index(r.value[i]) == (a * Index(ToUpper(plaintext[i])) + b) % 26
  {
    if !IsValidKey(a) then
      Failure(InvalidKey(a))
    else
      Success(EncryptText(plaintext, a, b))
  }

  /** `affine_decrypt`: fails with `InvalidKey` on the same keys as
      encryption, and never with `NoInverse`; otherwise each letter becomes
      the letter whose encryption under `(a, b)` is that letter, computed as
      `(a_inv * (c - b)) % 26`, and every other character stays put. */
  function Decrypt(ciphertext: string, a: nat, b: int): (r: Result<string, CipherError>)
    ensures r.Failure? <==> !IsValidKey(a)
    ensures r.Failure? ==> r.error == InvalidKey(a)
    ensures r.Success? ==> |r.value| == |ciphertext|
    ensures r.Success? ==> forall i :: 0 <= i < |ciphertext| && !IsAlpha(ciphertext[i]) ==>
              r.value[i] == ciphertext[i]
    ensures r.Success? ==> forall i :: 0 <= i < |ciphertext| && IsAlpha(ciphertext[i]) ==>
              IsUpperLetter(r.value[i]) &&
              Index(r.value[i]) == (ModInverse(a, 26).value * (Index(ToUpper(ciphertext[i])) - b)) % 26 &&
              (a * Index(r.value[i]) + b) % 26 == Index(ToUpper(ciphertext[i]))
  {
    if !IsValidKey(a) then
      Failure(InvalidKey(a))
    else
      match ModInverse(a, 26)
      case None => Failure(NoInverse(a))
      case Some(inv) =>
        var r := DecryptText(ciphertext, inv, b);
        DecryptedLettersEncrypt(ciphertext, a, inv, b);
        Success(r)
  }

  lemma DecryptedLettersEncrypt(ciphertext: string, a: nat, inv: nat, b: int)
    requires IsInverse(a, 26, inv)
    ensures forall i :: 0 <= i < |ciphertext| && IsAlpha(ciphertext[i]) ==>
              var r := DecryptText(ciphertext, inv, b);
              IsUpperLetter(r[i]) && EncodeIndex(a, b, Index(r[i])) == Index(ToUpper(ciphertext[i]))
  {
    forall i | 0 <= i < |ciphertext| && IsAlpha(ciphertext[i])
      ensures EncodeIndex(a, b, Index(DecryptText(ciphertext, inv, b)[i])) == Index(ToUpper(ciphertext[i]))
    {
      EncodeDecode(a, inv, b, Index(ToUpper(ciphertext[i])));
    }
  }

  /** Round trip: for a valid key, decryption of the encryption is the
      upper-cased plaintext. */
  lemma DecryptAfterEncrypt(text: string, a: nat, b: int)
    requires IsValidKey(a)
    ensures Encrypt(text, a, b).Success?
    ensures Decrypt(Encrypt(text, a, b).value, a, b) == Success(UpperText(text))
  {
    DecryptEncryptText(text, a, ModInverse(a, 26).value, b);
  }

  /** The other direction: for a valid key, encryption of the decryption is
      the upper-cased ciphertext. */
  lemma EncryptAfterDecrypt(text: string, a: nat, b: int)
    requires IsValidKey(a)
    ensures Decrypt(text, a, b).Success?
    ensures Encrypt(Decrypt(text, a, b).value, a, b) == Success(UpperText(text))
  {
    EncryptDecryptText(text, a, ModInverse(a, 26).value, b);
  }

  predicate Ascending(s: seq<nat>)
  {
    forall i, j :: 0 <= i < j < |s| ==> s[i] < s[j]
  }

  lemma AppendAscending(s: seq<nat>, x: nat)
    requires Ascending(s) && forall k :: k in s ==> k < x
    ensures Ascending(s + [x])
  {
    var t := s + [x];
    forall i, j | 0 <= i < j < |t|
      ensures t[i] < t[j]
    {
      if j == |s| {
        assert t[i] in s;
      }
    }
  }

  /** The valid keys in [1, n), ascending: the loop of `get_valid_keys` run
      up to `n`. */
  function KeysBelow(n: nat): (keys: seq<nat>)
    requires n <= 26
    ensures forall k :: k in keys <==> 1 <= k < n && IsValidKey(k)
    ensures Ascending(keys)
  {
    if n <= 1 then
      []
    else
      var keys := KeysBelow(n - 1);
      var valid := IsValidKey(n - 1);
      var next := if valid then keys + [n - 1] else keys;
      KeysBelowStep(keys, n - 1, valid, next);
      next
  }

  lemma KeysBelowStep(keys: seq<nat>, x: nat, valid: bool, next: seq<nat>)
    requires Ascending(keys)
    requires forall k :: k in keys <==> 1 <= k < x && IsValidKey(k)
    requires valid == IsValidKey(x)
    requires next == if valid then keys + [x] else keys
    ensures Ascending(next)
    ensures forall k :: k in next <==> 1 <= k < x + 1 && IsValidKey(k)
  {
    if valid {
      AppendAscending(keys, x);
    }
    forall k
      ensures k in next <==> 1 <= k < x + 1 && IsValidKey(k)
    {
      if k == x {
        assert x !in keys;
        assert valid ==> next[|keys|] == x;
      }
    }
  }

  /** `get_valid_keys()`: exactly the twelve keys of the module comment. */
  function ValidKeys(): (keys: seq<nat>)
    ensures keys == KeyList
    ensures forall k :: k in keys <==> 1 <= k < 26 && IsValidKey(k)
    ensures Ascending(keys)
  {
    var keys := KeysBelow(26);
    KeyListIsValidKeys();
    AscendingUnique(keys, KeyList);
    keys
  }

  /** The module comment's list holds exactly the valid keys in [1, 25]. */
  lemma KeyListIsValidKeys()
    ensures Ascending(KeyList)
    ensures forall k :: k in KeyList <==> 1 <= k < 26 && IsValidKey(k)
  {
    KeyTable();
  }

  lemma KeyTable()
    ensures forall k :: 1 <= k < 26 ==> (k in KeyList <==> Gcd(k, 26) == 1)
  {
    forall k | 1 <= k < 26
      ensures k in KeyList <==> Gcd(k, 26) == 1
    {
      CoprimeWith26(k);
      KeyListMembers(k);
      OddNotThirteen(k);
    }
  }

  lemma KeyListMembers(k: nat)
    ensures k in KeyList <==> (k == 1 || k == 3 || k == 5 || k == 7 || k == 9 || k == 11 ||
                                     k == 15 || k == 17 || k == 19 || k == 21 || k == 23 || k == 25)
  {
  }

  lemma OddNotThirteen(k: nat)
    requires 1 <= k < 26
    ensures k % 2 == 1 && k % 13 != 0 <==> (k == 1 || k == 3 || k == 5 || k == 7 || k == 9 || k == 11 ||
                                     k == 15 || k == 17 || k == 19 || k == 21 || k == 23 || k == 25)
  {
  }

  /** The divisors of 26 = 2 * 13. */
  lemma DivisorsOf26(d: nat)
    requires Divides(d, 26)
    ensures d == 1 || d == 2 || d == 13 || d == 26
  {
    DividesBound(d, 26);
    assert 1 <= d <= 26;
  }

  /** A number is coprime with 26 exactly when it is odd and not a multiple
      of 13. */
  lemma CoprimeWith26(k: nat)
    ensures Gcd(k, 26) == 1 <==> k % 2 == 1 && k % 13 != 0
  {
    var g := Gcd(k, 26);
    if g == 1 {
      CommonDivisorDividesGcd(2, k, 26);
      CommonDivisorDividesGcd(13, k, 26);
    } else if k % 2 == 1 && k % 13 != 0 {
      DivisorsOf26(g);
    }
  }

  /** An ascending sequence is determined by its elements. */
  lemma {:induction false} AscendingUnique(s: seq<nat>, t: seq<nat>)
    requires Ascending(s) && Ascending(t)
    requires forall k :: k in s <==> k in t
    ensures s == t
  {
    if s == [] {
      NonEmptyHasHead(t);
    } else {
      assert t != [] by {
        assert s[0] in t;
      }
      assert s[0] == t[0] by {
        assert s[0] in t && t[0] in s;
      }
      forall k
        ensures k in s[1..] <==> k in t[1..]
      {
        assert k in s[1..] <==> k in s && k != s[0];
        assert k in t[1..] <==> k in t && k != t[0];
      }
      AscendingUnique(s[1..], t[1..]);
      assert s == [s[0]] + s[1..];
      assert t == [t[0]] + t[1..];
    }
  }

  lemma NonEmptyHasHead(t: seq<nat>)
    ensures |t| > 0 ==> t[0] in t
  {
  }

  /** The demonstration of app.py: "HELLO WORLD" under (5, 8). */
  lemma HelloWorldExample()
    ensures Encrypt("HELLO WORLD", 5, 8) == Success("RCLLA OAPLX")
    ensures Decrypt("RCLLA OAPLX", 5, 8) == Success("HELLO WORLD")
  {
    assert IsValidKey(5);
    HelloWorldLetters();
    DecryptAfterEncrypt("HELLO WORLD", 5, 8);
    assert UpperText("HELLO WORLD") == "HELLO WORLD";
  }

  lemma HelloWorldLetters()
    ensures EncryptText("HELLO WORLD", 5, 8) == "RCLLA OAPLX"
  {
    assert EncryptText("HELLO", 5, 8) == "RCLLA" by {}
    assert EncryptText(" WORL", 5, 8) == " OAPL" by {}
    assert EncryptText("D", 5, 8) == "X" by {}
    EncryptTextConcat("HELLO", " WORL", 5, 8);
    EncryptTextConcat("HELLO WORL", "D", 5, 8);
    assert "HELLO" + " WORL" + "D" == "HELLO WORLD";
  }

  /** The brute-force demonstration of app.py: "ATTACK AT DAWN" under
      (7, 10) comes back unchanged through decryption. */
  lemma AttackAtDawnExample()
    ensures Encrypt("ATTACK AT DAWN", 7, 10).Success?
    ensures Decrypt(Encrypt("ATTACK AT DAWN", 7, 10).value, 7, 10) == Success("ATTACK AT DAWN")
  {
    assert IsValidKey(7);
    DecryptAfterEncrypt("ATTACK AT DAWN", 7, 10);
    assert UpperText("ATTACK AT DAWN") == "ATTACK AT DAWN";
  }

  /** An even multiplicative key is refused before any output is produced. */
  lemma InvalidKeyExample(b: int)
    ensures Encrypt("X", 4, b) == Failure(InvalidKey(4))
    ensures Decrypt("X", 4, b) == Failure(InvalidKey(4))
  {
    assert !IsValidKey(4) by {
      CoprimeWith26(4);
    }
  }
}
