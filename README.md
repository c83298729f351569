# Text ciphers and secure random sampler

This project models the three utilities in `backend/utils/` of a small Django
site, in Dafny, and proves properties of the model:

- `caesar_cipher(text, shift, mode='encrypt')`: every ASCII letter is shifted by
  `shift` within its own case's alphabet, wrapping modulo 26. Every other
  character is copied. The exact mode string `"decrypt"` negates the shift,
  and any other string encrypts.
- `vigenere_cipher(text, key, mode='encrypt')`: the key is repeated to the length of
  the text (`key_repeated`). The key position advances on every character,
  letter or not. A letter is shifted, with direction -1 for `"decrypt"` and +1
  otherwise, by the alphabet index of the aligned key character when that
  character is a letter. Any other key character shifts upper-case text by
  `ord(k) - 65` and lower-case text by `ord(k) - 97`, so the two cases get
  different shifts. An empty key
  raises `ZeroDivisionError`.
- `generate_random_numbers(min_value, max_value, count=1, unique=True)`: it first
  rejects `min_value >= max_value`, and it rejects a unique request whose
  range is smaller than `count`. It then draws
  `randbelow(max - min + 1) + min` until it holds `count` numbers. With
  `unique` set the draws go into a set; otherwise they go into a list.

Modules, one per source file plus two shared ones:

- `Results`: the `Ok`/`Err` outcome used for the exceptions the code raises.
- `Letters`: the ASCII letter classes, the case conversions and the rotation
  `chr((ord(c) + k - base) % 26 + base)`. Python's `%` with the positive
  modulus 26 is the same as Dafny's `%`.
- `Caesar`, `Vigenere`: each cipher has a pure specification function
  (`Caesar`, `Vigenere`) and a loop method (`CaesarCipher`, `VigenereCipher`)
  that follows the source step by step. Each method is proved equal to its
  specification, and the lemmas are proved about the specifications.
- `RandomNumbers`: the validation and the draw loops as methods. The random
  source `secrets.randbelow` is an input: `draws` lists its answers in order,
  each in `[0, max - min + 1)`. Because the unique loop ends only with
  probability 1, callers must pass a stream that lets the loop finish
  (`Suffices`). The results then say which prefix of the stream was used.

The defaulted parameters keep their defaults in the model (`mode := "encrypt"`,
`count := 1`, `unique := true`); the stream `draws` comes before the
defaulted ones.

Facts about the code that the model keeps:

- A mode other than the exact string `"decrypt"` does not fail. It encrypts
  (caesar_cipher.py:13, vigenere_cipher.py:13-16).
- An empty Vigenère key raises `ZeroDivisionError` at vigenere_cipher.py:19,
  even for empty text.
- The Vigenère key position advances on every character of the text, letter
  or not.
- The unique sampling loop has no limit on the number of draws.

## Model

| member | source | states |
|---|---|---|
| Letters.Rotate | backend/utils/caesar_cipher.py:21 | the wrap-around formula always yields a letter of the alphabet it was applied in |
| Letters.ToUpper | backend/utils/vigenere_cipher.py:26 | `upper()` turns a letter into an upper-case letter of the same lower-case form, and leaves non-letters unchanged |
| Letters.ToLower | backend/utils/vigenere_cipher.py:32 | `lower()` turns a letter into a lower-case letter, and leaves non-letters unchanged |
| Letters.AlphabetIndex | backend/utils/vigenere_cipher.py:26-32 | a letter's index is in [0, 26), and rotating 'A' or 'a' by it gives the letter back |
| Letters.RotateCompose | backend/utils/caesar_cipher.py:21-25 | rotating by j and then by k is rotating by j + k |
| Letters.RotateInverse | backend/utils/caesar_cipher.py:21-25 | rotating a letter by k and then by -k restores it |
| Letters.RotatePeriodic | backend/utils/caesar_cipher.py:21-25 | shifts k and k + 26 rotate every character alike |
| Caesar.CaesarChar | backend/utils/caesar_cipher.py:19-28 | an upper-case letter stays upper-case, a lower-case one stays lower-case, and any other character is copied |
| Caesar.Caesar | backend/utils/caesar_cipher.py:13-30 | with the shift negated for exactly "decrypt" (`EffectiveShift`) and `str.isupper`/`str.islower` as the ASCII classes `IsUpper`/`IsLower`, the output has the input's length, letter case is kept at every position, and non-letters are unchanged |
| Caesar.CaesarCipher | backend/utils/caesar_cipher.py:1-30 | the loop that negates the shift for "decrypt" and appends one character at a time returns exactly `Caesar(text, shift, mode)` |
| Caesar.CaesarRoundTrip | backend/utils/caesar_cipher.py:13-25 | decrypting the encryption with the same shift gives the text back, for every integer shift |
| Caesar.DecryptIsNegatedEncrypt | backend/utils/caesar_cipher.py:13-14 | decrypting with s equals encrypting with -s |
| Caesar.OtherModesEncrypt | backend/utils/caesar_cipher.py:13 | every mode string other than "decrypt" gives the encryption |
| Caesar.CaesarPeriodic | backend/utils/caesar_cipher.py:21-25 | shifts s and s + 26 give the same output in both modes |
| Caesar.CaesarIdentity | backend/utils/caesar_cipher.py:17-28 | shift 0 returns the text unchanged in both modes |
| Caesar.CaesarConcat | backend/utils/caesar_cipher.py:17-28 | the transform of a concatenation is the concatenation of the transforms, so the character at each position depends only on that input character and the shift |
| Caesar.ExampleEncrypt | backend/tests/test_utils/test_caesar_cipher.py:8 | "HELLO" with shift 3 gives "KHOOR" |
| Caesar.ExampleLower | backend/tests/test_utils/test_caesar_cipher.py:12 | "hello" with shift 3 gives "khoor" |
| Caesar.ExampleDecrypt | backend/tests/test_utils/test_caesar_cipher.py:16 | decrypting "KHOOR" with shift 3 gives "HELLO" |
| Caesar.ExampleDecryptLower | backend/tests/test_utils/test_caesar_cipher.py:20 | decrypting "khoor" with shift 3 gives "hello" |
| Caesar.ExamplePunctuation | backend/tests/test_utils/test_caesar_cipher.py:24 | "Hello, World!" with shift 3 gives "Khoor, Zruog!" |
| Caesar.ExampleDecryptPunctuation | backend/tests/test_utils/test_caesar_cipher.py:28 | decrypting "Khoor, Zruog!" with shift 3 gives "Hello, World!" |
| Caesar.ExampleLargeShift | backend/tests/test_utils/test_caesar_cipher.py:32 | shift 30 gives "LIPPS" |
| Caesar.ExampleDecryptLargeShift | backend/tests/test_utils/test_caesar_cipher.py:36 | decrypting "LIPPS" with shift 30 gives "HELLO" |
| Caesar.ExampleNegativeShift | backend/tests/test_utils/test_caesar_cipher.py:40 | shift -3 gives "EBIIL" |
| Caesar.ExampleDecryptNegativeShift | backend/tests/test_utils/test_caesar_cipher.py:44 | decrypting "EBIIL" with shift -3 gives "HELLO" |
| Caesar.ExampleEmpty | backend/tests/test_utils/test_caesar_cipher.py:46-52 | empty text gives empty text in both modes |
| Caesar.ExampleShift29 | backend/tests/test_views/test_caesar_cipher_view.py:107 | shift 29 gives "KHOOR" |
| Caesar.ExampleDigits | backend/tests/test_views/test_caesar_cipher_view.py:121 | "HELLO 123!" gives "KHOOR 123!" |
| Caesar.ExampleInvalidMode | backend/tests/test_views/test_caesar_cipher_view.py:149 | the mode "invalid" encrypts, giving "KHOOR" |
| Vigenere.Direction | backend/utils/vigenere_cipher.py:13-16 | `key_shift` is -1 exactly for "decrypt" and +1 for every other mode string |
| Vigenere.UpperKeyShift | backend/utils/vigenere_cipher.py:26 | `ord(k.upper()) - 65` is the alphabet index of a letter key character, and `ord(k) - 65` for any other character |
| Vigenere.LowerKeyShift | backend/utils/vigenere_cipher.py:32 | `ord(k.lower()) - 97` is the alphabet index of a letter key character, and `ord(k) - 97` for any other character |
| Vigenere.VigenereChar | backend/utils/vigenere_cipher.py:24-37 | the case of a text letter is kept, and a non-letter is copied whatever the key character |
| Vigenere.Repeat | backend/utils/vigenere_cipher.py:19 | `key * times` has length `len(key) * times`, and position i holds `key[i % len(key)]` |
| Vigenere.KeyRepeated | backend/utils/vigenere_cipher.py:19 | `key_repeated` has the text's length, and position i holds `key[i % len(key)]` |
| Vigenere.Vigenere | backend/utils/vigenere_cipher.py:1-39 | the result is an error exactly when the key is empty; otherwise it has the text's length, keeps letter case and copies non-letters |
| Vigenere.VigenereCipher | backend/utils/vigenere_cipher.py:1-39 | the loop over the materialised `key_repeated` returns exactly `Vigenere(text, key, mode)`, including the division by zero for an empty key |
| Vigenere.KeyShiftsAgreeIffLetter | backend/utils/vigenere_cipher.py:26-32 | the upper-case and lower-case key-shift formulas agree modulo 26 exactly when the key character is a letter, and then both equal its alphabet index |
| Vigenere.LetterKeyShift | backend/utils/vigenere_cipher.py:24-34 | with a letter key character k, a text letter moves by direction times index(k) within its own case |
| Vigenere.VigenereRoundTrip | backend/utils/vigenere_cipher.py:13-34 | for every non-empty key of ASCII characters, letters or not, encryption succeeds and decrypting its output gives the text back (the model states it for every key; for non-ASCII key characters the source differs, see "Left out") |
| Vigenere.LetterKeyRoundTrip | backend/utils/vigenere_cipher.py:13-34 | the documented case: for a non-empty key made of letters, decrypting the encryption gives the text back |
| Vigenere.KeyCaseIrrelevant | backend/utils/vigenere_cipher.py:26-32 | keys whose characters agree after `upper()` give the same output in every mode |
| Vigenere.OtherModesEncrypt | backend/utils/vigenere_cipher.py:13-16 | every mode string other than "decrypt" gives the encryption |
| Vigenere.SingleLetterKeyIsCaesar | backend/utils/vigenere_cipher.py:19-34 | a one-letter key gives the Caesar cipher whose shift is that letter's index |
| Vigenere.ExampleUpper | backend/tests/test_utils/test_vigenere_cipher.py:8 | "HELLO" under "KEY" gives "RIJVS" |
| Vigenere.ExampleLower | backend/tests/test_utils/test_vigenere_cipher.py:12 | "hello" under "key" gives "rijvs" |
| Vigenere.ExampleDecryptUpper | backend/tests/test_utils/test_vigenere_cipher.py:16 | decrypting "RIJVS" under "KEY" gives "HELLO" |
| Vigenere.ExampleDecryptLower | backend/tests/test_utils/test_vigenere_cipher.py:20 | decrypting "rijvs" under "key" gives "hello" |
| Vigenere.ExamplePunctuation | backend/tests/test_utils/test_vigenere_cipher.py:24 | "Hello, World!" under "key" gives "Rijvs, Ambpb!", because non-letters consume key positions |
| Vigenere.ExampleDecryptPunctuation | backend/tests/test_utils/test_vigenere_cipher.py:28 | decrypting "Rijvs, Uyvjn!" under "key" gives "Hello, Qalfp!" |
| Vigenere.ExampleLongKey | backend/tests/test_utils/test_vigenere_cipher.py:32 | a key longer than the text is truncated: "LONGKEY" gives "SSYRY" |
| Vigenere.ExampleDecryptLongKey | backend/tests/test_utils/test_vigenere_cipher.py:36 | decrypting "SSWXC" under "LONGKEY" gives "HEJRS" |
| Vigenere.ExampleShortKey | backend/tests/test_utils/test_vigenere_cipher.py:40 | a short key is repeated: "KY" gives "RCVJY" |
| Vigenere.ExampleDecryptShortKey | backend/tests/test_utils/test_vigenere_cipher.py:44 | decrypting "RIJVS" under "KY" gives "HKZXI" |
| Vigenere.ExampleEmptyText | backend/tests/test_utils/test_vigenere_cipher.py:46-52 | empty text with key "key" gives empty text in both modes |
| Vigenere.ExampleMixedCaseKey | backend/tests/test_utils/test_vigenere_cipher.py:66 | key "KeY" gives "RIJVS", like "KEY" |
| Vigenere.ExampleDecryptMixedCaseKey | backend/tests/test_utils/test_vigenere_cipher.py:70 | decrypting under "KeY" gives "HELLO" |
| Vigenere.ExampleMixedCaseText | backend/tests/test_utils/test_vigenere_cipher.py:74 | "HeLlO" under "key" gives "RiJvS" |
| Vigenere.ExampleDecryptMixedCaseText | backend/tests/test_utils/test_vigenere_cipher.py:78 | decrypting "RiJvS" under "key" gives "HeLlO" |
| Vigenere.ExampleEmptyKey | backend/utils/vigenere_cipher.py:19 | an empty key is a division by zero, for empty and non-empty text |
| RandomNumbers.ListOf | backend/utils/random_numbers.py:33 | `list(numbers)` holds each element of the set exactly once |
| RandomNumbers.DrawUnique | backend/utils/random_numbers.py:25-29 | the set loop stops with exactly max(count, 0) numbers, namely the distinct numbers of the shortest stream prefix that has that many |
| RandomNumbers.DrawAll | backend/utils/random_numbers.py:25-31 | the list loop makes exactly max(count, 0) draws and returns the drawn numbers in order |
| RandomNumbers.DrawnBetween | backend/utils/random_numbers.py:27 | every `randbelow(max - min + 1) + min` drawn from an in-range stream lies in [min, max] |
| RandomNumbers.GenerateRandomNumbers | backend/utils/random_numbers.py:5-33 | with the defaults `count=1` and `unique=True`, it fails (`Err`, the two `ValueError`s whose texts `Message` gives) for `min >= max`, and for unique requests with range below `count`, and only then (`Admissible`); otherwise it returns max(count, 0) numbers, all in [min, max]; unique results have no duplicates; other results are the first `count` draws |
| RandomNumbers.UniqueNeedsRange | backend/utils/random_numbers.py:22-23 | if an in-range stream lets the unique loop finish, the range has at least `count` integers |
| RandomNumbers.RangeSufficesForUnique | backend/utils/random_numbers.py:22-23 | if the range has at least `count` integers, some in-range stream lets the unique loop finish |
| RandomNumbers.DefaultRequest | backend/tests/test_utils/test_random_numbers.py:6-14 | `generate_random_numbers(1, 10)` returns one number in [1, 10], for every in-range stream |
| RandomNumbers.FiveRequest | backend/tests/test_utils/test_random_numbers.py:16-52 | with `count=5`, unique or not, it returns five numbers in [1, 10], five distinct ones when unique |
| RandomNumbers.RejectedRequests | backend/tests/test_utils/test_random_numbers.py:54-67 | min equal to max, min above max, and a unique request larger than its range fail, with the messages random_numbers.py raises |
| RandomNumbers.ZeroCount | backend/tests/test_utils/test_random_numbers.py:69-72 | `count=0` gives the empty list |
| RandomNumbers.NegativeRange | backend/tests/test_utils/test_random_numbers.py:90-99 | the range [-10, -1] gives five numbers in that range |
| RandomNumbers.LargeCount | backend/tests/test_utils/test_random_numbers.py:101-110 | a non-unique request for 1000 numbers from [1, 100] returns 1000 numbers in range |
| RandomNumbers.RepeatIsRedrawn | backend/utils/random_numbers.py:26-29 | a repeated draw is dropped by the set and the loop draws again: the stream 3, 3, 7 over [1, 10] gives {4, 8} |

## Left out

- Unicode letters: Python's `isupper`, `islower`, `upper` and `lower` also
  act on non-ASCII characters. The formula would map such a character into
  `A-Z` or `a-z`, which cannot be inverted. The model treats only ASCII
  `A-Z` and `a-z` as letters, so every non-ASCII character of the text passes
  through.
- Non-ASCII key characters: the source applies Unicode `upper()`/`lower()`
  to them at vigenere_cipher.py:26 and :32, and the model does not.
  - A character whose case changes gets a different shift. `'é'.upper()` is
    `'É'`, so `vigenere_cipher("A", "é")` shifts by 136 and gives "G"; the
    model shifts by `ord('é') - 65 = 168` and gives "M".
  - A character whose case form has two characters makes `ord()` raise
    `TypeError` there. `'ß'.upper()` is `"SS"`, so `vigenere_cipher("A", "ß")`
    fails, while the model returns `Ok`.
  - Vigenere.VigenereRoundTrip and Vigenere.Vigenere's success for every
    non-empty key hold of the source only for keys of ASCII characters.
- Type errors: a non-string `text`, a `None` key or a string `max_value`
  (test_random_numbers.py:74-77) raise `TypeError` in Python. The model's
  types rule them out.
- `secrets.randbelow`: only its range contract is kept. Its uniform
  distribution and unpredictability are not modelled.
- RandomNumbers.GenerateRandomNumbers: assumes a stream of draws long enough
  for the loop to end. In Python the unique loop ends only with probability 1,
  and it never ends for a stream that repeats forever.
- RandomNumbers.GenerateRandomNumbers: in unique mode it states the result's
  elements but not their order, because the order of `list(set)` depends on
  Python's set implementation.
- Tests that contradict the code are not modelled. The unit tests expect
  `ValueError` from `caesar_cipher` for an invalid mode, but the code
  encrypts. The Vigenère "invalid mode" tests get their `TypeError` from the
  text or key types, not from the mode.
- The web views, forms, models, admin and URL configuration are not part of
  this model. That includes input limits, default values and the required-key
  check. So are the front end, the browser tests and the logging setup.
