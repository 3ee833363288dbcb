# Affine cipher, modelled in Dafny

The repository holds two implementations of the classical affine cipher over
the alphabet A=0 … Z=25. Encryption maps a letter index `p` to
`(a * p + b) mod 26`. Decryption maps `c` to `a⁻¹ * (c - b) mod 26`. The
multiplicative key `a` must be coprime with 26.

- `app.py` is the full version. It has Euclid's gcd, a modular inverse by the
  extended Euclidean algorithm, and key validation. Encryption and decryption
  raise `ValueError` on a bad key. It also lists the twelve admissible keys,
  has a brute-force sweep over all 312 keys, and does letter-frequency
  analysis.
- `main.py` is the simple command-line version. It shares the gcd. Its modular
  inverse searches `1 … m-1`, and encryption and decryption return `None` on a
  bad key.

The model is a set of pure functions over `nat`, `int` and `string`. An error
becomes a `Result`, for `ValueError`, or an `Option`, for `None`. The modules
are:

- `Wrappers`: the `Option` and `Result` types.
- `Modular`: gcd, extended gcd and the modular inverse of `app.py`. Also the
  divisibility facts they rest on.
- `Alphabet`: the ASCII reading of `str.upper()` and `str.isalpha()`, and the
  letter/index conversion.
- `Transform`: the per-character loops both files share, with their round-trip
  lemmas.
- `Affine`: `is_valid_key`, `affine_encrypt`, `affine_decrypt` and
  `get_valid_keys` of `app.py`, and the demonstration fixtures.
- `SimpleAffine`: the `main.py` variants, and the lemmas that they agree with
  `app.py`.
- `KeySearch`: `brute_force_affine`.
- `Frequency`: `frequency_analysis`.

`gcd` is the same loop in both files (`app.py:32-36`, `main.py:8-12`), so it is
modelled once, as `Modular.Gcd`, and used by both modules. The loop
`while b: a, b = b, a % b` is written as the equivalent tail recursion.

Both files compute "HELLO WORLD" under `(a, b) = (5, 8)` as "RCLLA OAPLX".
This is the string the usage text of `main.py` prints, and it is the value
proved here.

## Model

| member | source | states |
|---|---|---|
| Modular.Gcd | app.py:32-36 | `gcd(x, 0) == x`, and the result is a greatest common divisor: it divides both arguments, and every common divisor divides it. The same loop is main.py:8-12. |
| Modular.GcdCharacterization | app.py:32-36 | Any number that is a greatest common divisor of `x` and `y` is `Gcd(x, y)`, so the loop computes the unique gcd. |
| Modular.ExtendedGcd | app.py:44-50 | The nested `extended_gcd(a, b)` returns `gcd(a, b)` together with Bézout coefficients `x`, `y` such that `a*x + b*y == gcd`. |
| Modular.ModInverse | app.py:38-53 | `mod_inverse(a, m)` is `None` exactly when `gcd(a, m) != 1`. In that case no integer is an inverse of `a` modulo `m`. Otherwise it returns `r` with `0 <= r < m` and `(a*r) % m == 1 % m`, and `r` is the only such value in `[0, m)`. |
| Modular.NoInverseWithoutCoprime | app.py:40-41 | If `gcd(a, m) != 1` and `m > 1`, no `j` has `(a*j) % m == 1`. This justifies the early `return None`. |
| Modular.InverseUnique | app.py:52-53 | Any two inverses of `a` modulo `m` are congruent modulo `m`, so two inverses in `[0, m)` are equal. |
| Alphabet.ToUpper | app.py:77 | `char.upper()` on ASCII: a lower-case letter becomes the corresponding upper-case letter (its code drops by `ord('a') - ord('A')`, so 'b' becomes 'B'). Every other character is unchanged, and the result is never lower-case. |
| Alphabet.UpperText | app.py:77 | `text.upper()` keeps the length, upper-cases each position and leaves no lower-case letter. |
| Alphabet.IsAlpha | app.py:78 | `char.isalpha()` on a character of the upper-cased text, defined as "upper-cases to `A`–`Z`". What it accepts is stated by `Alphabet.AlphaIsLetter`. |
| Alphabet.AlphaIsLetter | app.py:77-78 | A character passes `isalpha()` after `upper()` exactly when it is an ASCII letter of either case. |
| Alphabet.Index | app.py:80 | `ord(char) - ord('A')` of an upper-case letter is an alphabet index in `[0, 25]`. |
| Alphabet.LetterOfIndex | app.py:80-84 | `chr(p + ord('A'))` undoes `ord(char) - ord('A')` on every upper-case letter. |
| Alphabet.Letter | app.py:84 | `chr(p + ord('A'))` for `p < 26` is an upper-case letter whose index `ord(c) - ord('A')` is `p` again. |
| Transform.EncodeIndex | app.py:82 | `(a * p + b) % 26` is an alphabet index for every integer `b`. Its inverse is `DecodeIndex` (see `Transform.DecodeEncode`). The same line is main.py:39. |
| Transform.DecodeIndex | app.py:119 | `(a_inv * (c - b)) % 26` is an alphabet index even when `c - b < 0`. Its inverse is `EncodeIndex` (see `Transform.EncodeDecode`). The same line is main.py:65. |
| Transform.EncryptText | app.py:75-89 | The encryption loop keeps the length and copies every non-letter to its position. A letter of index `p` after upper-casing becomes the upper-case letter of index `(a*p + b) % 26`. The same loop is main.py:34-44. |
| Transform.DecryptText | app.py:112-126 | The decryption loop keeps the length and copies every non-letter to its position. A letter of index `c` after upper-casing becomes the upper-case letter of index `(a_inv*(c - b)) % 26`. The same loop is main.py:60-70. |
| Transform.DecodeEncode | app.py:82 | For an inverse `inv` of `a` mod 26, decoding undoes encoding on every letter index. |
| Transform.EncodeDecode | app.py:119 | For an inverse `inv` of `a` mod 26, encoding undoes decoding on every letter index, including `c - b < 0`. |
| Transform.DecryptEncryptText | app.py:77-89 | For matching keys, the decryption loop applied to the encryption loop's output gives the upper-cased text. |
| Transform.EncryptDecryptText | app.py:114-124 | For matching keys, the encryption loop applied to the decryption loop's output gives the upper-cased text. |
| Affine.IsValidKey | app.py:55-57 | `is_valid_key(a, m=26)` is defined as `gcd(a, m) == 1`. What that means is stated by `Affine.ValidIffInvertible`, and for `m = 26` by `Affine.CoprimeWith26`. |
| Affine.ValidIffInvertible | app.py:55-57 | For every `m >= 1`, `is_valid_key(a, m)` holds exactly when `a` has a multiplicative inverse modulo `m`. |
| Affine.Encrypt | app.py:59-89 | Fails, with `InvalidKey(a)`, exactly when `a` is not a valid key, and produces no output then. Otherwise the output has the input's length. A non-letter is copied to the same position. A letter with index `p` becomes the upper-case letter with index `(a*p + b) % 26`. |
| Affine.Decrypt | app.py:91-126 | Fails, with `InvalidKey(a)`, exactly when `a` is not valid, and never with the `None`-inverse error. Otherwise the output has the input's length and non-letters stay. Each letter `c` becomes the letter of index `(a_inv*(c - b)) % 26`, which is the letter that `(a, b)` encrypts to `c`. |
| Affine.DecryptAfterEncrypt | app.py:158-167 | For every valid `a` and every `b`, encryption succeeds, and decrypting its output gives the upper-cased plaintext. |
| Affine.EncryptAfterDecrypt | app.py:104-124 | For every valid `a` and every `b`, decryption succeeds, and encrypting its output gives the upper-cased ciphertext. |
| Affine.KeysBelow | app.py:130-133 | After the loop has run up to `n`, the list holds exactly the valid keys in `[1, n)`, in ascending order. |
| Affine.ValidKeys | app.py:128-134 | `get_valid_keys()` is exactly `[1, 3, 5, 7, 9, 11, 15, 17, 19, 21, 23, 25]`, as the module comment says at app.py:18-19. These are the valid keys in `[1, 25]`, ascending. |
| Affine.KeyListIsValidKeys | app.py:18-19 | The listed keys are exactly the keys in `[1, 25]` coprime with 26, ascending. |
| Affine.CoprimeWith26 | app.py:14 | A number is coprime with 26 exactly when it is odd and not a multiple of 13. |
| Affine.AscendingUnique | app.py:128-134 | Two ascending lists with the same elements are equal, so the key list is determined by which keys are valid. |
| Affine.HelloWorldExample | app.py:147-163 | "HELLO WORLD" under `(5, 8)` encrypts to "RCLLA OAPLX", and that decrypts back to "HELLO WORLD". |
| Affine.AttackAtDawnExample | app.py:281-287 | "ATTACK AT DAWN" under `(7, 10)` encrypts successfully and decrypts back to itself. |
| Affine.InvalidKeyExample | app.py:72-73 | With `a = 4` and the text "X", both operations fail with `InvalidKey(4)` for every `b`. |
| SimpleAffine.SearchFrom | main.py:16-19 | The loop from `i` returns the least `j` in `[i, m)` with `(a*j) % m == 1`, or `None` when there is none. |
| SimpleAffine.SearchInverse | main.py:14-19 | `mod_inverse(a, m)` of main.py returns the least inverse of `a` in `[1, m)`, or `None` when `[1, m)` holds no inverse. |
| SimpleAffine.InversesAgree | main.py:14-19 | For every modulus `m >= 2`, the search of main.py and the extended Euclid of app.py (app.py:38-53) return the same value. |
| SimpleAffine.InversesDifferModuloOne | main.py:16 | At `m = 1`, app.py answers `0` while the empty search range of main.py answers `None`. |
| SimpleAffine.IsValidKey | main.py:21-23 | `is_valid_key(a)` holds exactly when `a % 26` is one of the keys listed at main.py:85. This is exactly when app.py's check holds, and exactly when main.py's inverse search finds an inverse. |
| SimpleAffine.Encrypt | main.py:25-44 | Returns `None` exactly when `a` is invalid. Otherwise it keeps the length, copies non-letters, and maps each letter `p` to `(a*p + b) % 26`. |
| SimpleAffine.Decrypt | main.py:46-70 | Returns `None` exactly when `a` is invalid, so the missing-inverse branch is never taken. Otherwise it keeps the length and non-letters, and maps each letter `c` to `(a_inv*(c - b)) % 26` with main.py's own inverse, which `(a, b)` encrypts back to `c`. |
| SimpleAffine.EncryptAgrees | main.py:34-44 | On every input, main.py's encryption equals app.py's, with `None` in place of the exception. |
| SimpleAffine.DecryptAgrees | main.py:55-70 | On every input, main.py's decryption equals app.py's, although the two compute the inverse differently. |
| SimpleAffine.DecryptAfterEncrypt | main.py:25-70 | For every accepted key, decrypting the encryption gives the upper-cased text. |
| SimpleAffine.UsageExamples | main.py:88-89 | `enc "HELLO WORLD" 5 8` gives "RCLLA OAPLX", and `dec "RCLLA OAPLX" 5 8` gives "HELLO WORLD". |
| KeySearch.Contains | app.py:261 | `needle in haystack` holds exactly when `needle` occurs at some position of `haystack`. |
| KeySearch.TryKey | app.py:256-271 | One loop body. For a valid key, decryption succeeds, so the `except ValueError` branch is dead. The attempt carries the key `(a, b)`, and its candidate is the decryption. Its flag is set exactly when an expected word is given, is non-empty, and its upper-case form occurs in the upper-cased candidate. |
| KeySearch.TryAllShifts | app.py:255-271 | The inner loop for the `i`-th admissible key yields 26 attempts, in order of `b` from 0 to 25, each with its candidate and flag. |
| KeySearch.Sweep | app.py:254-271 | The outer loop over the admissible keys yields 312 attempts. Attempt `k` uses the `k / 26`-th key and `b = k % 26`. |
| KeySearch.BruteForce | app.py:237-273 | `brute_force_affine` returns exactly 312 tuples. Tuple `k` uses the `k / 26`-th admissible key and `b = k % 26`. Its candidate is `affine_decrypt(ciphertext, a, b)`, and its flag is the expected-word test. |
| KeySearch.BruteForceKeys | app.py:254-255 | The list `brute_force_affine` returns tries each of the 12 × 26 keys exactly once, in increasing `(a, b)` order. |
| KeySearch.SweepCoversKeySpace | app.py:254-255 | The attempted `(a, b)` pairs are exactly the 12 × 26 key space. |
| KeySearch.SweepOrdered | app.py:254-255 | Attempts come in strictly increasing `(a, b)` order, first by `a` and then by `b`, so no key is tried twice. |
| KeySearch.TrueKeyFlagged | app.py:287-293 | If the ciphertext came from a listed key, and the expected word occurs in the plaintext, then the attempt with the true key recovers the upper-cased plaintext and is flagged. |
| Frequency.Count | app.py:318 | A character's count is positive exactly when the character occurs in the text. |
| Frequency.RemoveSpaces | app.py:314 | `replace(" ", "")` keeps every occurrence of every character except the space, with its multiplicity. |
| Frequency.RemoveSpacesConcat | app.py:314 | `replace(" ", "")` works piece by piece over concatenation, so the kept characters stay in their order. |
| Frequency.FirstIndex | app.py:318 | The position of the first occurrence of a character, or the text's length when it does not occur. |
| Frequency.Get | app.py:318 | `freq.get(c, 0)`: the count of `c`, or 0 when `c` is not a key. |
| Frequency.Record | app.py:318 | `freq[c] = freq.get(c, 0) + 1` raises the count of `c` by one and changes no other count. A new key is added at the end of the insertion order, an existing key keeps its place, and a well-formed dictionary stays well-formed. |
| Frequency.Step | app.py:316-318 | One pass of the loop body raises the count of the character by one when it is alphabetic, changes no other count, and keeps the dictionary well-formed. |
| Frequency.CountLetters | app.py:313-318 | After the loop, the keys are exactly the alphabetic characters of the text, each listed once. Every count is that character's number of occurrences. Keys are in order of first occurrence. |
| Frequency.CountLettersSum | app.py:316-318 | The counts add up to the number of alphabetic characters. |
| Frequency.RemoveSpacesIrrelevant | app.py:314 | Counting after removing spaces gives the same dictionary as counting the text itself. |
| Frequency.Items | app.py:321 | `freq.items()` lists the keys in insertion order. For a well-formed dictionary, its pairs are exactly the `(letter, count)` pairs of the dictionary. |
| Frequency.Insert | app.py:321 | Inserting into a list sorted by count keeps it sorted by count and adds exactly that entry. |
| Frequency.InsertSum | app.py:321 | Inserting an entry adds its count to the total. |
| Frequency.SortByCount | app.py:321 | `sorted(..., key=count, reverse=True)` returns a permutation of its input with non-increasing counts and the same total. |
| Frequency.SortKeepsTies | app.py:321 | The sort is stable. Entries given in first-occurrence order keep that order among equal counts. |
| Frequency.InsertKeepsTies | app.py:321 | Inserting an entry that was seen before all others keeps ties in first-occurrence order. |
| Frequency.FrequencyAnalysis | app.py:302-323 | Every entry is an upper-case letter of the upper-cased text, with its exact occurrence count, which is positive. Every such letter has exactly one entry, and the counts add up to the number of letters. Entries come highest count first, with ties in order of first appearance. |
| Frequency.EntriesAccurate | app.py:321-323 | Each entry of the sorted dictionary is an upper-case letter of the text with its occurrence count. |
| Frequency.EntriesComplete | app.py:316-323 | Every upper-case letter of the text has an entry in the sorted dictionary. |

## Left out

- Console I/O: the demos, the interactive menu, `print_frequency_analysis`
  (floating-point percentages), the `__main__` blocks, and `main()` of main.py
  with its `sys.argv` parsing and `int()` conversion. The `print` calls inside
  `brute_force_affine` and main.py's error paths are also left out. The error
  paths are modelled only by the value they return.
- Unicode: `str.upper()` and `str.isalpha()` are modelled on ASCII only.
  Upper-casing maps `a`–`z` to `A`–`Z`, and a character is alphabetic when it
  is `A`–`Z` after upper-casing. Non-ASCII letters, and characters that expand
  under `upper()`, are not modelled.
- Negative multiplicative keys: `a` is a natural number throughout. The
  additive key `b` is any integer, since Python's `%` with a positive divisor
  agrees with Dafny's.
- Modular.ModInverse: requires `m >= 1`. With `m = 0` and `a = 1`, app.py
  divides by zero, and every call site uses 26.
- SimpleAffine.InversesAgree: stated for `m >= 2` only, because at `m = 1` the
  two inverses differ (see `SimpleAffine.InversesDifferModuloOne`).
- Frequency.FrequencyAnalysis: the returned `dict` is modelled as the list of
  its `(letter, count)` items, in the dictionary's iteration order.
