# Vigenère cipher engine in Dafny

This project models the cipher engine of `vigenere_cipher.py`. The engine has
three parts:

- **Keyword validation** rejects an empty keyword. It also rejects a keyword
  with any character that is not an ASCII letter. Otherwise it returns the
  keyword lower-cased.
- **The single-letter shift** moves a letter forward (encode) or back (decode)
  by the key letter's alphabet index, modulo 26. The letter keeps its case.
- **The transform** scans the message once. Each ASCII letter is shifted by the
  key letter under a cyclic cursor, and the cursor then advances. Every other
  character is copied unchanged and does not move the cursor.

Everything is in one module, `VigenereCipher` (`vigenere_cipher.dfy`):

- `ValidateKeyword`, `ShiftChar`, `LetterCount`, `Cipher` and `Transform` are
  pure functions. `Cipher` is the specification of one pass: it is defined by
  recursion on the message's last character, and the key letter is the
  canonical keyword at `LetterCount(prefix) mod |keyword|`.
- `Vigenere` is the source's loop as a method. It has an output buffer and a
  key cursor, and it is proved equal to `Transform`. `VigenereEncode` and
  `VigenereDecode` are the two wrappers.
- The source raises `ValueError` with one of two messages. Here that is
  `Err(EmptyKeyword)` or `Err(NonLetterKeyword)` of a `Result`, returned
  before any output exists.
- Python's `%` with divisor 26 never returns a negative result, and neither
  does Dafny's `%`. So `(chIdx - keyIdx) % 26` is written unchanged.
- `isalpha() and isascii()` is the range predicate `IsAsciiLetter` (A–Z,
  a–z). `isupper()` is `IsUpperLetter`, which is exact on ASCII letters, the
  only characters `_shift_char` receives. `lower()` is `Lower`, which is exact
  on ASCII letters, the only characters it is applied to.
- The default argument `encode=True` of `_shift_char` and `vigenere` is the
  default `encode := true` of `ShiftChar`, `Transform` and `Vigenere`.

## Model

| member | source | states |
|---|---|---|
| `VigenereCipher.ValidateKeyword` | vigenere_cipher.py:8-13 | Fails with `EmptyKeyword` exactly when the keyword is empty. Fails with `NonLetterKeyword` exactly when it is non-empty and holds a character that is not an ASCII letter. Succeeds exactly when it is non-empty and all ASCII letters. The result then has the same length, is all lower-case letters, and position `i` is the lower-cased keyword letter `i`. |
| `VigenereCipher.AsciiLetterAlphabet` | vigenere_cipher.py:11-33 | `IsAsciiLetter`, the range test that stands for `isalpha() and isascii()`, holds exactly of the 52 characters of the ASCII alphabet `A`–`Z` followed by `a`–`z`. |
| `VigenereCipher.ShiftChar` | vigenere_cipher.py:16-24 | The shifted character is an ASCII letter. It is upper-case exactly when the input letter is, and lower-case exactly when the input letter is, whatever the key letter. Its alphabet index is the input letter's index plus (encode) or minus (decode) the key letter's index, modulo 26. |
| `VigenereCipher.ShiftInverse` | vigenere_cipher.py:20-23 | Decode-shifting an encode-shifted letter by the same key letter gives the letter back, and the same holds the other way round. |
| `VigenereCipher.Lower` | vigenere_cipher.py:13 | An upper-case ASCII letter maps to the lower-case letter 32 code points above it, which is the same letter. Every other character, lower-case letters included, is unchanged. |
| `VigenereCipher.LetterCount` | vigenere_cipher.py:30-34 | Counts the ASCII letters of its argument, which is how many times the key cursor advances while scanning it. The count is at most the length, and it equals the length exactly when every character is an ASCII letter. Its laws are `LetterCountAppend` and `CipherLetterCount`. |
| `VigenereCipher.LetterCountAppend` | vigenere_cipher.py:30-35 | The cursor's advance over two strings scanned one after the other is the sum of its advances over each. |
| `VigenereCipher.Cipher` | vigenere_cipher.py:32-39 | The output has exactly the message's length: one output character per input character. |
| `VigenereCipher.Transform` | vigenere_cipher.py:27-39 | Fails exactly when keyword validation fails, with the same error and no output. On success the output has the message's length. |
| `VigenereCipher.CipherAt` | vigenere_cipher.py:30-37 | Output position `i` is input position `i` when that is not an ASCII letter. Otherwise it is the letter shifted by the canonical key letter at index `c` modulo the key length, where `c` counts the ASCII letters before `i`. |
| `VigenereCipher.CipherLetterCount` | vigenere_cipher.py:32-37 | The output has ASCII letters in exactly the numbers the input has, so the decoder's cursor stays aligned with the encoder's. |
| `VigenereCipher.CipherInverse` | vigenere_cipher.py:32-39 | Running the pass in the other direction with the same canonical key restores the message. |
| `VigenereCipher.CipherIdentity` | vigenere_cipher.py:19-24 | A canonical key made only of `a` leaves every message unchanged. |
| `VigenereCipher.NonLetterPassThrough` | vigenere_cipher.py:33-37 | Every character that is not an ASCII letter appears unchanged at the same position of the output. |
| `VigenereCipher.KeyAlignment` | vigenere_cipher.py:28-35 | The letter at position `i` is shifted by the lower-cased keyword letter at index `c` modulo the keyword length, where `c` counts the ASCII letters before `i`. |
| `VigenereCipher.CasePreserved` | vigenere_cipher.py:17-24 | At every position the output is upper-case exactly when the input is, and lower-case exactly when the input is. |
| `VigenereCipher.RoundTrip` | vigenere_cipher.py:42-47 | For every message and every valid keyword, decoding the encoding gives back the message, and encoding the decoding does too. |
| `VigenereCipher.KeywordCaseInsensitive` | vigenere_cipher.py:13 | Two keywords that differ only in letter case give the same result: both are rejected with the same error, or both give the same output. |
| `VigenereCipher.IdentityKeyword` | vigenere_cipher.py:19-24 | A keyword made only of `a`/`A`, such as `"a"`, leaves every message unchanged in both directions. |
| `VigenereCipher.TestRoundTripSimple` | tests/test_vigenere.py:5-9 | `"Hello World"` under `"key"` decodes back to itself after encoding. |
| `VigenereCipher.TestCasePreservation` | tests/test_vigenere.py:12-18 | The encoding of `"AbC xYz"` under `"Key"` starts with an upper-case then a lower-case letter, and it decodes back to `"AbC xYz"`. |
| `VigenereCipher.TestNonAlphaUnchanged` | tests/test_vigenere.py:21-24 | `"hi! 123?"` under `"a"` is unchanged. |
| `VigenereCipher.TestKeywordValidation` | tests/test_vigenere.py:27-31 | With the default direction, `""` is rejected as empty and `"k3y"` as holding a non-letter. The non-ASCII keyword `"café"` is an added case, also rejected as holding a non-letter. |
| `VigenereCipher.KnownCiphertext` | vigenere_cipher.py:16-39 | `"Hi z"` under `"bK"` encodes, by default, to exactly `"Is a"`, and `"Is a"` decodes to `"Hi z"`. This fixes the shift's direction and amount, shows the keyword lower-cased, shows the cursor wrapping to the first keyword letter, and shows that the space does not advance it. |
| `VigenereCipher.Vigenere` | vigenere_cipher.py:27-39 | The loop, with its output buffer and letter-only cursor, returns exactly `Transform` of its inputs: the validation error when the keyword is invalid, otherwise the full pass. |
| `VigenereCipher.VigenereEncode` | vigenere_cipher.py:42-43 | Returns the encode-direction transform. |
| `VigenereCipher.VigenereDecode` | vigenere_cipher.py:46-47 | Returns the decode-direction transform. |

## Left out

- `_build_parser` and `main` (vigenere_cipher.py:50-86): command-line parsing, reading standard input, printing, and the exit codes 0 and 2. These are I/O glue around the engine.
- The `isinstance(keyword, str)` check (vigenere_cipher.py:9): the keyword's type is fixed statically here.
- Unicode letters: `isalpha`, `isupper` and `lower` are modelled only on ASCII. That is all the engine depends on, because a keyword with a non-ASCII character is rejected and non-ASCII message characters are copied.
- The cyclic iterator from `itertools.cycle` is modelled as an unbounded letter counter, and the key letter is found by taking it modulo the keyword length. The two pick the same key letter at every step.
- Lone surrogate code points (U+D800 to U+DFFF): a Python `str` can hold them, and the source copies them through unchanged. A Dafny `string` cannot hold them, so messages containing them are not modelled.
- `ShiftChar` requires an ASCII letter and a lower-case key letter. Its only caller, the transform loop, always passes those.
- The "known example" test (tests/test_vigenere.py:34-42): it checks a substring of the output for one long fixed message. That is not a general law, and it is not proved here.
- `Vigenere's Cipherpy.py` is a near copy of the same cipher and is not part of this model.
