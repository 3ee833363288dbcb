/** Exhaustive key search of app.py (`brute_force_affine`): every admissible
    multiplicative key against every additive key, in order, each attempt
    flagged when it contains an expected word. The progress printing is not
    modelled. */
module KeySearch {
  import opened Wrappers
  import opened Alphabet
  import opened Modular
  import opened Affine

  /** One `(a, b, decrypted, matched)` tuple of the result list. */
  datatype Attempt = Attempt(a: nat, b: nat, candidate: string, matched: bool)

  /** `needle` occurs in `haystack` starting at position `i`. */
  predicate OccursAt(haystack: string, needle: string, i: int)
  {
    0 <= i && i + |needle| <= |haystack| && haystack[i..i + |needle|] == needle
  }

  /** Python's `needle in haystack` on strings, scanning from the left. */
  function Contains(haystack: string, needle: string): (r: bool)
    decreases |haystack|
    ensures r <==> exists i :: OccursAt(haystack, needle, i)
  {
    if |needle| > |haystack| then
      assert forall i :: !OccursAt(haystack, needle, i);
      false
    else if haystack[..|needle|] == needle then
      assert OccursAt(haystack, needle, 0);
      true
    else
      var r := Contains(haystack[1..], needle);
      ContainsStep(haystack, needle);
      r
  }

  lemma ContainsStep(haystack: string, needle: string)
    requires |needle| <= |haystack| && haystack[..|needle|] != needle
    ensures (exists i :: OccursAt(haystack, needle, i)) <==> (exists i :: OccursAt(haystack[1..], needle, i))
  {
    forall i | OccursAt(haystack, needle, i)
      ensures OccursAt(haystack[1..], needle, i - 1)
    {
      assert i != 0;
      assert haystack[1..][i - 1..i - 1 + |needle|] == haystack[i..i + |needle|];
    }
    forall i | OccursAt(haystack[1..], needle, i)
      ensures OccursAt(haystack, needle, i + 1)
    {
      assert haystack[1..][i..i + |needle|] == haystack[i + 1..i + 1 + |needle|];
    }
  }

  /** The flag of an attempt: an expected word was given, it is not empty,
      and its upper-case form occurs in the upper-cased candidate. */
  ghost predicate Matches(expected: Option<string>, candidate: string)
  {
    && expected.Some?
    && |expected.value| > 0
    && exists i :: OccursAt(UpperText(candidate), UpperText(expected.value), i)
  }

  /** An attempt made honestly with its own key `(t.a, t.b)`: the candidate
      is the decryption under that key and the flag says whether the
      expected word occurs in it. */
  ghost predicate Tried(ciphertext: string, expected: Option<string>, t: Attempt)
  {
    && Decrypt(ciphertext, t.a, t.b) == Success(t.candidate)
    && (t.matched <==> Matches(expected, t.candidate))
  }

  /** Slot `k` of the sweep belongs to the `k / 26`-th admissible key and
      additive key `k % 26`. */
  predicate KeyedAt(k: nat, t: Attempt)
  {
    k < 312 && t.a == KeyList[k / 26] && t.b == k % 26
  }

  /** Attempt number `k` of the sweep is the one made with the key of slot
      `k`. */
  ghost predicate IsAttempt(ciphertext: string, expected: Option<string>, k: nat, t: Attempt)
  {
    KeyedAt(k, t) && Tried(ciphertext, expected, t)
  }

  /** `brute_force_affine(ciphertext, expected_word)`: all 12 * 26 = 312
      attempts, ordered by `a` over the admissible keys and then by `b`. */
  method BruteForce(ciphertext: string, expected: Option<string>) returns (results: seq<Attempt>)
    ensures |results| == 312
    ensures forall k :: 0 <= k < |results| ==> IsAttempt(ciphertext, expected, k, results[k])
  {
    var keys := ValidKeys();
    results := Sweep(ciphertext, expected, keys);
  }

  /** The outer loop `for a in valid_keys`. */
  method Sweep(ciphertext: string, expected: Option<string>, keys: seq<nat>) returns (results: seq<Attempt>)
    requires keys == KeyList
    ensures |results| == 312
    ensures forall k :: 0 <= k < |results| ==> IsAttempt(ciphertext, expected, k, results[k])
  {
    results := [];
    var i := 0;
    while i < |keys|
      invariant 0 <= i <= |keys|
      invariant |results| == 26 * i
      invariant forall k :: 0 <= k < |results| ==> KeyedAt(k, results[k])
      invariant forall t :: t in results ==> Tried(ciphertext, expected, t)
    {
      var row := TryAllShifts(ciphertext, expected, i);
      AppendRow(i, results, row);
      results := results + row;
      i := i + 1;
    }
    forall k | 0 <= k < |results|
      ensures IsAttempt(ciphertext, expected, k, results[k])
    {
      assert results[k] in results;
    }
  }

  /** The inner loop `for b in range(26)` for the `i`-th admissible key. */
  method TryAllShifts(ciphertext: string, expected: Option<string>, i: nat) returns (row: seq<Attempt>)
    requires i < 12
    ensures |row| == 26
    ensures forall b :: 0 <= b < 26 ==> row[b].a == KeyList[i] && row[b].b == b
    ensures forall t :: t in row ==> Tried(ciphertext, expected, t)
  {
    var a := KeyList[i];
    ListedKeyIsValid(i);
    row := [];
    var b := 0;
    while b < 26
      invariant 0 <= b <= 26
      invariant |row| == b
      invariant forall c :: 0 <= c < b ==> row[c].a == a && row[c].b == c
      invariant forall t :: t in row ==> Tried(ciphertext, expected, t)
    {
      var t := TryKey(ciphertext, expected, a, b);
      row := row + [t];
      b := b + 1;
    }
  }

  /** One pass of the loop body: decrypt under `(a, b)` and set the flag the
      way `if expected_word:` and `expected_word.upper() in decrypted.upper()`
      do. */
  method TryKey(ciphertext: string, expected: Option<string>, a: nat, b: nat) returns (t: Attempt)
    requires IsValidKey(a)
    ensures t.a == a && t.b == b
    ensures Tried(ciphertext, expected, t)
  {
    var decrypted := Decrypt(ciphertext, a, b);
    match decrypted {
      case Success(plain) =>
        var matched := false;
        if expected.Some? && |expected.value| > 0 {
          if Contains(UpperText(plain), UpperText(expected.value)) {
            matched := true;
          } else {
            matched := false;
          }
        }
        t := Attempt(a, b, plain, matched);
      case Failure(_) =>
        // the `except ValueError: continue` branch: every listed key is valid
        assert false;
    }
  }

  lemma ListedKeyIsValid(i: nat)
    requires i < 12
    ensures IsValidKey(KeyList[i])
  {
    KeyListIsValidKeys();
    assert KeyList[i] in KeyList;
  }

  /** Appending the row of the `i`-th admissible key fills slots
      `26 * i` to `26 * i + 25`. */
  lemma AppendRow(i: nat, results: seq<Attempt>, row: seq<Attempt>)
    requires i < 12 && |results| == 26 * i && |row| == 26
    requires forall k :: 0 <= k < |results| ==> KeyedAt(k, results[k])
    requires forall b :: 0 <= b < 26 ==> row[b].a == KeyList[i] && row[b].b == b
    ensures forall k :: 0 <= k < |results + row| ==> KeyedAt(k, (results + row)[k])
  {
    forall k | 0 <= k < |results + row|
      ensures KeyedAt(k, (results + row)[k])
    {
      if k >= |results| {
        var b := k - 26 * i;
        assert (results + row)[k] == row[b];
        ModUnique(k, 26, i, b);
      }
    }
  }

  /** The whole key space: each admissible multiplicative key with each
      additive key in [0, 26). */
  function KeySpace(): set<(nat, nat)>
  {
    set a, b | a in KeyList && 0 <= b < 26 :: (a, b)
  }

  /** What `BruteForce` returns tries every key of the key space once, in
      increasing `(a, b)` order. */
  lemma BruteForceKeys(ciphertext: string, expected: Option<string>, results: seq<Attempt>)
    requires |results| == 312
    requires forall k :: 0 <= k < |results| ==> IsAttempt(ciphertext, expected, k, results[k])
    ensures (set k | 0 <= k < |results| :: (results[k].a, results[k].b)) == KeySpace()
    ensures forall i, j :: 0 <= i < j < |results| ==>
              results[i].a < results[j].a || (results[i].a == results[j].a && results[i].b < results[j].b)
  {
    assert forall k :: 0 <= k < |results| ==> KeyedAt(k, results[k]);
    SweepCoversKeySpace(results);
    SweepOrdered(results);
  }

  /** The sweep covers the key space: the attempted pairs are exactly the
      key space. */
  lemma SweepCoversKeySpace(results: seq<Attempt>)
    requires |results| == 312
    requires forall k :: 0 <= k < |results| ==> KeyedAt(k, results[k])
    ensures (set k | 0 <= k < |results| :: (results[k].a, results[k].b)) == KeySpace()
  {
    var tried := set k | 0 <= k < |results| :: (results[k].a, results[k].b);
    forall p | p in KeySpace()
      ensures p in tried
    {
      var (a, b) := p;
      var n :| 0 <= n < 12 && KeyList[n] == a;
      var k := 26 * n + b;
      ModUnique(k, 26, n, b);
      assert KeyedAt(k, results[k]);
      assert (results[k].a, results[k].b) == p;
    }
    forall p | p in tried
      ensures p in KeySpace()
    {
      var k :| 0 <= k < |results| && p == (results[k].a, results[k].b);
      assert KeyedAt(k, results[k]);
      assert results[k].a in KeyList;
    }
  }

  /** The attempts come in strictly increasing `(a, b)` order, so no key is
      tried twice. */
  lemma SweepOrdered(results: seq<Attempt>)
    requires forall k :: 0 <= k < |results| ==> KeyedAt(k, results[k])
    ensures forall i, j :: 0 <= i < j < |results| ==>
              results[i].a < results[j].a || (results[i].a == results[j].a && results[i].b < results[j].b)
  {
    KeyListIsValidKeys();
    forall i, j | 0 <= i < j < |results|
      ensures results[i].a < results[j].a || (results[i].a == results[j].a && results[i].b < results[j].b)
    {
      assert KeyedAt(i, results[i]) && KeyedAt(j, results[j]);
      var qi, qj := i / 26, j / 26;
      assert i == 26 * qi + i % 26 && j == 26 * qj + j % 26;
      if qi == qj {
        assert i % 26 < j % 26;
      } else {
        assert qi < qj;
        assert KeyList[qi] < KeyList[qj];
      }
    }
  }

  /** The attack succeeds: when the ciphertext was produced with a listed key
      and the expected word occurs in the plaintext, the attempt with the
      true key recovers the upper-cased plaintext and is flagged. */
  lemma TrueKeyFlagged(plaintext: string, a: nat, b: nat, expected: Option<string>, results: seq<Attempt>)
    requires a in KeyList && b < 26
    requires expected.Some? && |expected.value| > 0
    requires exists i :: OccursAt(UpperText(plaintext), UpperText(expected.value), i)
    requires Encrypt(plaintext, a, b).Success?
    requires |results| == 312
    requires forall k :: 0 <= k < |results| ==> IsAttempt(Encrypt(plaintext, a, b).value, expected, k, results[k])
    ensures exists k :: 0 <= k < |results| && results[k].a == a && results[k].b == b
              && results[k].candidate == UpperText(plaintext) && results[k].matched
  {
    KeyListIsValidKeys();
    DecryptAfterEncrypt(plaintext, a, b);
    UpperTextIdempotent(plaintext);
    var n :| 0 <= n < 12 && KeyList[n] == a;
    var k := 26 * n + b;
    ModUnique(k, 26, n, b);
    assert IsAttempt(Encrypt(plaintext, a, b).value, expected, k, results[k]);
  }
}
