/** A model of the Vigenere cipher engine: keyword validation, the per-letter
    shift, and the single left-to-right pass that shifts every ASCII letter by
    the next letter of a cyclic keyword cursor and copies everything else. */
module VigenereCipher {

  /** The two ways a keyword can be rejected; the source raises a ValueError
      with a different message for each. */
  datatype KeywordError = EmptyKeyword | NonLetterKeyword

  datatype Result<T> = Ok(value: T) | Err(error: KeywordError)

  // ---------------------------------------------------------------------------
  // Character classes

  predicate IsUpperLetter(c: char) { 'A' <= c <= 'Z' }

  predicate IsLowerLetter(c: char) { 'a' <= c <= 'z' }

  /** The 26 letters counted up from `first`. */
  function Alphabet(first: char): (r: string)
    requires first as int + 26 <= 0xD800
  {
    seq(26, i requires 0 <= i < 26 => (first as int + i) as char)
  }

  /** The 52 ASCII letters, upper-case then lower-case. */
  const AsciiLetters: string := Alphabet('A') + Alphabet('a')

  /** `isalpha() and isascii()` holds of exactly these characters. */
  predicate IsAsciiLetter(c: char) { IsUpperLetter(c) || IsLowerLetter(c) }

  /** The range test is membership in the 52-letter ASCII alphabet. */
  lemma AsciiLetterAlphabet(c: char)
    ensures IsAsciiLetter(c) <==> c in AsciiLetters
  {
    var upper, lower := Alphabet('A'), Alphabet('a');
    assert AsciiLetters == upper + lower;
    if IsUpperLetter(c) {
      assert upper[c as int - 'A' as int] == c;
      assert AsciiLetters[c as int - 'A' as int] == c;
    } else if IsLowerLetter(c) {
      assert lower[c as int - 'a' as int] == c;
      assert AsciiLetters[26 + c as int - 'a' as int] == c;
    } else {
      forall i | 0 <= i < |AsciiLetters| ensures AsciiLetters[i] != c {
        if i < 26 {
          assert AsciiLetters[i] == upper[i];
        } else {
          assert AsciiLetters[i] == lower[i - 26];
        }
      }
    }
  }

  predicate AllAsciiLetters(s: string) {
    forall i :: 0 <= i < |s| ==> IsAsciiLetter(s[i])
  }

  /** A canonical keyword: non-empty and all lower-case ASCII letters. */
  predicate IsKey(key: string) {
    |key| > 0 && forall i :: 0 <= i < |key| ==> IsLowerLetter(key[i])
  }

  /** `str.lower` on the characters it is applied to here (ASCII letters). */
  function Lower(c: char): (r: char)
    ensures IsUpperLetter(c) ==> IsLowerLetter(r) && r as int == c as int + 32
    ensures !IsAsciiLetter(c) ==> r == c
    ensures IsLowerLetter(c) ==> r == c
  {
    if IsUpperLetter(c) then (c as int - 'A' as int + 'a' as int) as char else c
  }

  function LowerString(s: string): (r: string)
  {
    seq(|s|, i requires 0 <= i < |s| => Lower(s[i]))
  }

  // ---------------------------------------------------------------------------
  // Keyword validation

  /** Rejects an empty keyword, then one with any character that is not an
      ASCII letter; otherwise returns the keyword lower-cased. */
  function ValidateKeyword(keyword: string): (r: Result<string>)
    ensures r == Err(EmptyKeyword) <==> |keyword| == 0
    ensures r == Err(NonLetterKeyword) <==>
              |keyword| > 0 && exists i :: 0 <= i < |keyword| && !IsAsciiLetter(keyword[i])
    ensures r.Ok? <==> |keyword| > 0 && AllAsciiLetters(keyword)
    ensures r.Ok? ==> IsKey(r.value) && |r.value| == |keyword|
    ensures r.Ok? ==> forall i :: 0 <= i < |keyword| ==> r.value[i] == Lower(keyword[i])
  {
    if |keyword| == 0 then Err(EmptyKeyword)
    else if !AllAsciiLetters(keyword) then Err(NonLetterKeyword)
    else Ok(LowerString(keyword))
  }

  // ---------------------------------------------------------------------------
  // Single-letter shift

  /** Zero-based position of a letter in the alphabet of its own case. */
  function LetterIndex(c: char): (n: int)
    requires IsAsciiLetter(c)
    ensures 0 <= n < 26
  {
    if IsUpperLetter(c) then c as int - 'A' as int else c as int - 'a' as int
  }

  /** Shifts `ch` forward (encode) or back (decode) by the alphabet index of
      `key`, modulo 26, staying in the case of `ch`. */
  function ShiftChar(ch: char, key: char, encode: bool := true): (r: char)
    requires IsAsciiLetter(ch) && IsLowerLetter(key)
    ensures IsUpperLetter(r) <==> IsUpperLetter(ch)
    ensures IsLowerLetter(r) <==> IsLowerLetter(ch)
    ensures IsAsciiLetter(r)
    ensures LetterIndex(r) == if encode then (LetterIndex(ch) + LetterIndex(key)) % 26
                              else (LetterIndex(ch) - LetterIndex(key)) % 26
  {
    var base := if IsUpperLetter(ch) then 'A' as int else 'a' as int;
    var chIdx := ch as int - base;
    var keyIdx := key as int - 'a' as int;
    var newIdx := if encode then (chIdx + keyIdx) % 26 else (chIdx - keyIdx) % 26;
    (base + newIdx) as char
  }

  /** Decode-shift undoes encode-shift and vice versa. */
  lemma ShiftInverse(ch: char, key: char, encode: bool)
    requires IsAsciiLetter(ch) && IsLowerLetter(key)
    ensures ShiftChar(ShiftChar(ch, key, encode), key, !encode) == ch
  {
    var a := LetterIndex(ch);
    var k := key as int - 'a' as int;
    var x := ShiftChar(ch, key, encode);
    assert LetterIndex(x) == if encode then (a + k) % 26 else (a - k) % 26;
    ModInverse(a, k);
  }

  /** Adding then subtracting a shift modulo 26, or the reverse, is the
      identity on alphabet indices. */
  lemma ModInverse(a: int, k: int)
    requires 0 <= a < 26 && 0 <= k < 26
    ensures ((a + k) % 26 - k) % 26 == a
    ensures ((a - k) % 26 + k) % 26 == a
  {
    if a + k >= 26 {
      assert (a + k) % 26 == a + k - 26;
    } else {
      assert (a + k) % 26 == a + k;
    }
    if a - k < 0 {
      assert (a - k) % 26 == a - k + 26;
    } else {
      assert (a - k) % 26 == a - k;
    }
  }

  /** The key letter 'a' shifts by zero in either direction. */
  lemma ShiftByA(ch: char, encode: bool)
    requires IsAsciiLetter(ch)
    ensures ShiftChar(ch, 'a', encode) == ch
  {
  }

  // ---------------------------------------------------------------------------
  // The transform, as a specification

  /** The number of ASCII letters in `s`: how far the key cursor has moved
      after scanning `s`. */
  function LetterCount(s: string): (n: nat)
    ensures n <= |s|
    ensures n == |s| <==> AllAsciiLetters(s)
  {
    if |s| == 0 then 0
    else LetterCount(s[..|s| - 1]) + (if IsAsciiLetter(s[|s| - 1]) then 1 else 0)
  }

  /** Scanning `a` then `b` moves the cursor as far as the two scans apart. */
  lemma {:induction false} LetterCountAppend(a: string, b: string)
    ensures LetterCount(a + b) == LetterCount(a) + LetterCount(b)
  {
    if |b| > 0 {
      var b' := b[..|b| - 1];
      assert (a + b)[..|a + b| - 1] == a + b';
      LetterCountAppend(a, b');
    } else {
      assert a + b == a;
    }
  }

  /** The output for `msg` under the canonical key `key`: each ASCII letter is
      shifted by the key letter the cursor points at, every other character is
      copied, and only letters move the cursor. */
  function Cipher(msg: string, key: string, encode: bool): (r: string)
    requires IsKey(key)
    ensures |r| == |msg|
  {
    if |msg| == 0 then []
    else
      var init, c := msg[..|msg| - 1], msg[|msg| - 1];
      Cipher(init, key, encode)
        + [if IsAsciiLetter(c) then ShiftChar(c, key[LetterCount(init) % |key|], encode) else c]
  }

  /** `vigenere(message, keyword, encode)`: validation first, then the pass. */
  function Transform(message: string, keyword: string, encode: bool := true): (r: Result<string>)
    ensures r.Err? <==> ValidateKeyword(keyword).Err?
    ensures r.Err? ==> r.error == ValidateKeyword(keyword).error
    ensures r.Ok? ==> |r.value| == |message|
  {
    match ValidateKeyword(keyword)
    case Err(e) => Err(e)
    case Ok(key) => Ok(Cipher(message, key, encode))
  }

  // ---------------------------------------------------------------------------
  // Lemmas about the specification

  /** Output position `i` as a function of input position `i` and the number
      of letters before it. */
  lemma {:induction false} CipherAt(msg: string, key: string, encode: bool, i: nat)
    requires IsKey(key) && i < |msg|
    ensures Cipher(msg, key, encode)[i] ==
              if IsAsciiLetter(msg[i])
              then ShiftChar(msg[i], key[LetterCount(msg[..i]) % |key|], encode)
              else msg[i]
  {
    var init := msg[..|msg| - 1];
    if i < |msg| - 1 {
      CipherAt(init, key, encode, i);
      assert init[..i] == msg[..i];
    }
  }

  /** A character is a letter in the output exactly where it is in the input,
      so both have the same letter count. */
  lemma {:induction false} CipherLetterCount(msg: string, key: string, encode: bool)
    requires IsKey(key)
    ensures LetterCount(Cipher(msg, key, encode)) == LetterCount(msg)
  {
    if |msg| > 0 {
      var init := msg[..|msg| - 1];
      var out := Cipher(msg, key, encode);
      CipherLetterCount(init, key, encode);
      assert out[..|out| - 1] == Cipher(init, key, encode);
    }
  }

  /** One step of the pass: appending a character to the message appends its
      image under the cursor left by the message, and moves the cursor only
      when the character is a letter. */
  lemma CipherSnoc(msg: string, c: char, key: string, encode: bool)
    requires IsKey(key)
    ensures Cipher(msg + [c], key, encode) == Cipher(msg, key, encode)
              + [if IsAsciiLetter(c) then ShiftChar(c, key[LetterCount(msg) % |key|], encode) else c]
    ensures LetterCount(msg + [c]) == LetterCount(msg) + if IsAsciiLetter(c) then 1 else 0
  {
    assert (msg + [c])[..|msg|] == msg;
    LetterCountAppend(msg, [c]);
    assert [c][..0] == [];
  }

  /** Running the pass in the other direction with the same key undoes it. */
  lemma {:induction false} CipherInverse(msg: string, key: string, encode: bool)
    requires IsKey(key)
    ensures Cipher(Cipher(msg, key, encode), key, !encode) == msg
  {
    if |msg| > 0 {
      var init, c := msg[..|msg| - 1], msg[|msg| - 1];
      assert msg == init + [c];
      var outInit := Cipher(init, key, encode);
      var x := if IsAsciiLetter(c) then ShiftChar(c, key[LetterCount(init) % |key|], encode) else c;
      CipherSnoc(init, c, key, encode);
      CipherSnoc(outInit, x, key, !encode);
      CipherInverse(init, key, encode);
      CipherLetterCount(init, key, encode);
      if IsAsciiLetter(c) {
        ShiftInverse(c, key[LetterCount(init) % |key|], encode);
      }
    }
  }

  /** A key made only of the letter 'a' leaves every message unchanged. */
  lemma {:induction false} CipherIdentity(msg: string, key: string, encode: bool)
    requires IsKey(key) && forall i :: 0 <= i < |key| ==> key[i] == 'a'
    ensures Cipher(msg, key, encode) == msg
  {
    if |msg| > 0 {
      var init, c := msg[..|msg| - 1], msg[|msg| - 1];
      CipherIdentity(init, key, encode);
      if IsAsciiLetter(c) {
        ShiftByA(c, encode);
      }
      assert init + [c] == msg;
    }
  }

  /** Every non-letter is copied to the same position. */
  lemma NonLetterPassThrough(message: string, keyword: string, encode: bool, i: nat)
    requires Transform(message, keyword, encode).Ok?
    requires i < |message| && !IsAsciiLetter(message[i])
    ensures Transform(message, keyword, encode).value[i] == message[i]
  {
    CipherAt(message, ValidateKeyword(keyword).value, encode, i);
  }

  /** The letter at position `i` is shifted by the lower-cased keyword letter
      at the number of letters before `i`, modulo the keyword length. */
  lemma KeyAlignment(message: string, keyword: string, encode: bool, i: nat)
    requires Transform(message, keyword, encode).Ok?
    requires i < |message| && IsAsciiLetter(message[i])
    ensures Transform(message, keyword, encode).value[i] ==
              ShiftChar(message[i], Lower(keyword[LetterCount(message[..i]) % |keyword|]), encode)
  {
    CipherAt(message, ValidateKeyword(keyword).value, encode, i);
  }

  /** Upper-case letters stay upper-case, lower-case stay lower-case, and
      non-letters stay non-letters, whatever the keyword's case. */
  lemma CasePreserved(message: string, keyword: string, encode: bool, i: nat)
    requires Transform(message, keyword, encode).Ok? && i < |message|
    ensures var out := Transform(message, keyword, encode).value;
            (IsUpperLetter(out[i]) <==> IsUpperLetter(message[i])) &&
            (IsLowerLetter(out[i]) <==> IsLowerLetter(message[i]))
  {
    CipherAt(message, ValidateKeyword(keyword).value, encode, i);
  }

  /** Decoding an encoded message gives it back, and so does encoding a
      decoded one. */
  lemma RoundTrip(message: string, keyword: string, encode: bool)
    requires ValidateKeyword(keyword).Ok?
    ensures Transform(Transform(message, keyword, encode).value, keyword, !encode) == Ok(message)
  {
    CipherInverse(message, ValidateKeyword(keyword).value, encode);
  }

  /** Two keywords that differ only in letter case. */
  predicate SameIgnoringCase(k1: string, k2: string) {
    |k1| == |k2| && forall i :: 0 <= i < |k1| ==> Lower(k1[i]) == Lower(k2[i])
  }

  /** Re-casing the keyword changes neither the verdict nor the output. */
  lemma KeywordCaseInsensitive(message: string, k1: string, k2: string, encode: bool)
    requires SameIgnoringCase(k1, k2)
    ensures Transform(message, k1, encode) == Transform(message, k2, encode)
  {
    assert AllAsciiLetters(k1) == AllAsciiLetters(k2) by {
      forall i | 0 <= i < |k1| ensures IsAsciiLetter(k1[i]) == IsAsciiLetter(k2[i]) {
        assert Lower(k1[i]) == Lower(k2[i]);
      }
    }
    if ValidateKeyword(k1).Ok? {
      assert ValidateKeyword(k1).value == ValidateKeyword(k2).value;
    }
  }

  /** A keyword of only 'a' or 'A' letters (such as "a") leaves every message
      unchanged. */
  lemma IdentityKeyword(message: string, keyword: string, encode: bool)
    requires |keyword| > 0 && forall i :: 0 <= i < |keyword| ==> keyword[i] in "aA"
    ensures Transform(message, keyword, encode) == Ok(message)
  {
    CipherIdentity(message, ValidateKeyword(keyword).value, encode);
  }

  /** "Hello World" under "key" survives encoding then decoding. */
  lemma TestRoundTripSimple()
    ensures Transform(Transform("Hello World", "key", true).value, "key", false) == Ok("Hello World")
  {
    RoundTrip("Hello World", "key", true);
  }

  /** The encoding of "AbC xYz" under "Key" starts with an upper-case then a
      lower-case letter, and decodes back to "AbC xYz". */
  lemma TestCasePreservation()
    ensures var enc := Transform("AbC xYz", "Key", true).value;
            IsUpperLetter(enc[0]) && IsLowerLetter(enc[1])
    ensures Transform(Transform("AbC xYz", "Key", true).value, "Key", false) == Ok("AbC xYz")
  {
    CasePreserved("AbC xYz", "Key", true, 0);
    CasePreserved("AbC xYz", "Key", true, 1);
    RoundTrip("AbC xYz", "Key", true);
  }

  /** "hi! 123?" under "a" is unchanged. */
  lemma TestNonAlphaUnchanged()
    ensures Transform("hi! 123?", "a", true) == Ok("hi! 123?")
  {
    IdentityKeyword("hi! 123?", "a", true);
  }

  /** The keywords "" and "k3y" are rejected in the default (encode)
      direction; the non-ASCII keyword "café" is an added case. */
  lemma TestKeywordValidation()
    ensures Transform("abc", "") == Err(EmptyKeyword)
    ensures Transform("abc", "k3y") == Err(NonLetterKeyword)
    ensures Transform("abc", "caf\U{e9}") == Err(NonLetterKeyword)
  {
    assert !IsAsciiLetter("k3y"[1]);
    assert !IsAsciiLetter("caf\U{e9}"[3]);
  }

  lemma CanonicalBK()
    ensures ValidateKeyword("bK") == Ok("bk")
  {
    assert AllAsciiLetters("bK") by {
      assert IsAsciiLetter("bK"[0]) && IsAsciiLetter("bK"[1]);
    }
    var key := ValidateKeyword("bK").value;
    assert |key| == 2 && key[0] == 'b' && key[1] == 'k';
    assert key == "bk";
  }

  lemma ShiftsOfHiZ()
    ensures ShiftChar('H', 'b') == 'I' && ShiftChar('i', 'k') == 's' && ShiftChar('z', 'b') == 'a'
  {
  }

  lemma EncodeHi()
    ensures Cipher("Hi", "bk", true) == "Is" && LetterCount("Hi") == 2
  {
    ShiftsOfHiZ();
    assert "bk"[0 % 2] == 'b' && "bk"[1 % 2] == 'k';
    CipherSnoc("", 'H', "bk", true);
    assert "" + ['H'] == "H";
    assert Cipher("H", "bk", true) == "I" && LetterCount("H") == 1;
    CipherSnoc("H", 'i', "bk", true);
    assert "H" + ['i'] == "Hi";
  }

  lemma EncodeHiZ()
    ensures Cipher("Hi z", "bk", true) == "Is a"
  {
    EncodeHi();
    ShiftsOfHiZ();
    assert "bk"[2 % 2] == 'b';
    CipherSnoc("Hi", ' ', "bk", true);
    assert "Hi" + [' '] == "Hi ";
    assert Cipher("Hi ", "bk", true) == "Is " && LetterCount("Hi ") == 2;
    CipherSnoc("Hi ", 'z', "bk", true);
    assert "Hi " + ['z'] == "Hi z";
  }

  /** A concrete ciphertext: it fixes the direction and amount of the shift,
      the lower-casing of the keyword "bK", the wrap of the cursor back to the
      keyword's first letter, and that the space does not advance the
      cursor. */
  lemma KnownCiphertext()
    ensures Transform("Hi z", "bK") == Ok("Is a")
    ensures Transform("Is a", "bK", false) == Ok("Hi z")
  {
    CanonicalBK();
    EncodeHiZ();
    CipherInverse("Hi z", "bk", true);
  }

  // ---------------------------------------------------------------------------
  // The transform, as the source computes it

  /** One pass over the message with an output buffer and a key cursor that
      moves only on ASCII letters; the key letter under the cursor is the
      canonical keyword at the cursor modulo the keyword length, which is how
      the cyclic iterator wraps to the first letter after the last. */
  method Vigenere(message: string, keyword: string, encode: bool := true) returns (r: Result<string>)
    ensures r == Transform(message, keyword, encode)
  {
    var validated := ValidateKeyword(keyword);
    if validated.Err? {
      return Err(validated.error);
    }
    var key := validated.value;
    var result: string := [];
    var cursor := 0;
    for i := 0 to |message|
      invariant result == Cipher(message[..i], key, encode)
      invariant cursor == LetterCount(message[..i])
    {
      var ch := message[i];
      ghost var done := message[..i + 1];
      assert done[..i] == message[..i] && done[i] == ch;
      if IsAsciiLetter(ch) {
        var k := key[cursor % |key|];
        cursor := cursor + 1;
        result := result + [ShiftChar(ch, k, encode)];
      } else {
        result := result + [ch];
      }
    }
    assert message[..|message|] == message;
    return Ok(result);
  }

  method VigenereEncode(message: string, keyword: string) returns (r: Result<string>)
    ensures r == Transform(message, keyword, true)
  {
    r := Vigenere(message, keyword, true);
  }

  method VigenereDecode(message: string, keyword: string) returns (r: Result<string>)
    ensures r == Transform(message, keyword, false)
  {
    r := Vigenere(message, keyword, false);
  }
}
