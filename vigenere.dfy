/**
  The Vigenère cipher of backend/utils/vigenere_cipher.py. The key is
  repeated to the length of the text, and the key position advances on every
  character of the text, letter or not. A letter of the text is shifted by
  the alphabet index of the aligned key character, forwards unless the mode is
  exactly "decrypt". Upper-case text letters take the key character's
  upper-case form minus 'A', lower-case ones its lower-case form minus 'a';
  the two agree only when the key character is a letter. An empty key makes
  `len(text) // len(key)` divide by zero, whatever the text.
*/
module Vigenere {
  import opened Results
  import opened Letters
  import Caesar

  /** The exception an empty key raises. */
  datatype VigenereError = ZeroDivision

  /** `key_shift`: -1 for "decrypt", +1 for any other mode string. */
  function Direction(mode: string): (r: int)
    ensures r == -1 <==> mode == "decrypt"
    ensures r == 1 <==> mode != "decrypt"
  {
    if mode == "decrypt" then -1 else 1
  }

  /** `ord(k.upper()) - 65`, the magnitude applied to an upper-case text letter. */
  function UpperKeyShift(k: char): (r: int)
    ensures IsLetter(k) ==> r == AlphabetIndex(k)
    ensures !IsLetter(k) ==> r == k as int - UpperBase
  {
    ToUpper(k) as int - UpperBase
  }

  /** `ord(k.lower()) - 97`, the magnitude applied to a lower-case text letter. */
  function LowerKeyShift(k: char): (r: int)
    ensures IsLetter(k) ==> r == AlphabetIndex(k)
    ensures !IsLetter(k) ==> r == k as int - LowerBase
  {
    ToLower(k) as int - LowerBase
  }

  /** One character of the output, for text character `c` under key character `k`. */
  function VigenereChar(c: char, k: char, dir: int): (r: char)
    ensures IsUpper(c) <==> IsUpper(r)
    ensures IsLower(c) <==> IsLower(r)
    ensures !IsLetter(c) ==> r == c
  {
    if IsUpper(c) then Rotate(c, UpperBase, UpperKeyShift(k) * dir)
    else if IsLower(c) then Rotate(c, LowerBase, LowerKeyShift(k) * dir)
    else c
  }

  /** `key * times`. */
  function Repeat(key: string, times: nat): (r: string)
    ensures |r| == |key| * times
    ensures forall i | 0 <= i < |r| :: r[i] == key[i % |key|]
  {
    if times == 0 then []
    else
      var rest := Repeat(key, times - 1);
      RepeatStep(key, times - 1, rest);
      key + rest
  }

  lemma RepeatStep(key: string, times: nat, rest: string)
    requires |rest| == |key| * times
    requires forall i | 0 <= i < |rest| :: rest[i] == key[i % |key|]
    ensures |key + rest| == |key| * (times + 1)
    ensures forall i | 0 <= i < |key + rest| :: (key + rest)[i] == key[i % |key|]
  {
    forall i | 0 <= i < |key + rest|
      ensures (key + rest)[i] == key[i % |key|]
    {
      if i >= |key| {
        ModSubtract(i, |key|);
      }
    }
  }

  lemma ModSubtract(i: int, n: int)
    requires 0 < n <= i
    ensures (i - n) % n == i % n
  {
    var j := i - n;
    var q, m := j / n, j % n;
    assert j == q * n + m;
    assert i == (q + 1) * n + m;
    ModUnique(i, n, q + 1, m);
  }

  /** The remainder is the only `m` in `[0, n)` with `x == q * n + m`. */
  lemma ModUnique(x: int, n: int, q: int, m: int)
    requires 0 < n && 0 <= m < n && x == q * n + m
    ensures x % n == m
  {
    var q', m' := x / n, x % n;
    assert x == q' * n + m';
    var d := q - q';
    assert d * n == m' - m by {
      assert q * n - q' * n == (q - q') * n;
    }
    if d > 0 { MulAtLeast(d, n); }
    if d < 0 { MulAtLeast(-d, n); }
  }

  lemma MulAtLeast(a: int, n: int)
    requires a >= 1 && n > 0
    ensures a * n >= n
  {
  }

  /** `(key * (n // len(key) + 1))[:n]`: the key cycled over `n` positions. */
  function KeyRepeated(key: string, n: nat): (r: string)
    requires |key| > 0
    ensures |r| == n
    ensures forall i | 0 <= i < n :: r[i] == key[i % |key|]
  {
    var times := n / |key| + 1;
    CoversLength(n, |key|);
    Repeat(key, times)[..n]
  }

  lemma CoversLength(n: nat, m: int)
    requires m > 0
    ensures n <= m * (n / m + 1)
  {
    assert n == m * (n / m) + n % m;
    assert m * (n / m + 1) == m * (n / m) + m;
  }

  /** The transform: an error for an empty key, otherwise each character shifted under `key[i % |key|]`. */
  function Vigenere(text: string, key: string, mode: string := "encrypt"): (r: Result<string, VigenereError>)
    ensures r.Err? <==> key == []
    ensures r.Ok? ==> |r.value| == |text|
    ensures r.Ok? ==> forall i | 0 <= i < |text| :: IsUpper(text[i]) <==> IsUpper(r.value[i])
    ensures r.Ok? ==> forall i | 0 <= i < |text| :: IsLower(text[i]) <==> IsLower(r.value[i])
    ensures r.Ok? ==> forall i | 0 <= i < |text| :: !IsLetter(text[i]) ==> r.value[i] == text[i]
  {
    if key == [] then Err(ZeroDivision)
    else Ok(seq(|text|, i requires 0 <= i < |text| => VigenereChar(text[i], key[i % |key|], Direction(mode))))
  }

  /** `vigenere_cipher(text, key, mode)`: build the repeated key, then the per-character loop. */
  method VigenereCipher(text: string, key: string, mode: string := "encrypt") returns (r: Result<string, VigenereError>)
    ensures r == Vigenere(text, key, mode)
  {
    var result := "";
    var keyShift := 1;
    if mode == "decrypt" {
      keyShift := -1;
    }
    if |key| == 0 {
      return Err(ZeroDivision);
    }
    var keyRepeated := KeyRepeated(key, |text|);
    for i := 0 to |text|
      invariant |result| == i
      invariant forall j | 0 <= j < i :: result[j] == VigenereChar(text[j], key[j % |key|], keyShift)
    {
      var c := text[i];
      if IsUpper(c) {
        var shift := UpperKeyShift(keyRepeated[i]) * keyShift;
        result := result + [Rotate(c, UpperBase, shift)];
      } else if IsLower(c) {
        var shift := LowerKeyShift(keyRepeated[i]) * keyShift;
        result := result + [Rotate(c, LowerBase, shift)];
      } else {
        result := result + [c];
      }
    }
    assert result == Vigenere(text, key, mode).value;
    r := Ok(result);
  }

  /** The two key-shift formulas agree modulo 26 exactly when the key character is a letter. */
  lemma KeyShiftsAgreeIffLetter(k: char)
    ensures UpperKeyShift(k) % 26 == LowerKeyShift(k) % 26 <==> IsLetter(k)
    ensures IsLetter(k) ==> UpperKeyShift(k) == LowerKeyShift(k) == AlphabetIndex(k)
  {
    if !IsLetter(k) {
      assert UpperKeyShift(k) == LowerKeyShift(k) + 32;
      ModShiftBy32(LowerKeyShift(k));
    }
  }

  lemma ModShiftBy32(a: int)
    ensures (a + 32) % 26 != a % 26
  {
    var q := a / 26;
    assert a == 26 * q + a % 26;
    assert a + 32 == 26 * (q + 1) + (a % 26 + 6);
    if a % 26 < 20 {
      assert (a + 32) % 26 == a % 26 + 6;
    } else {
      assert a + 32 == 26 * (q + 2) + (a % 26 - 20);
      assert (a + 32) % 26 == a % 26 - 20;
    }
  }

  /** With a letter key character, a letter of the text moves by `direction * index(k)` in its own case's alphabet. */
  lemma LetterKeyShift(c: char, k: char, mode: string)
    requires IsLetter(k)
    ensures IsUpper(c) ==> VigenereChar(c, k, Direction(mode)) == Rotate(c, UpperBase, Direction(mode) * AlphabetIndex(k))
    ensures IsLower(c) ==> VigenereChar(c, k, Direction(mode)) == Rotate(c, LowerBase, Direction(mode) * AlphabetIndex(k))
  {
    KeyShiftsAgreeIffLetter(k);
  }

  /** For every non-empty key, decrypting what encryption produced gives the text back. */
  lemma VigenereRoundTrip(text: string, key: string)
    requires key != []
    ensures Vigenere(text, key).Ok?
    ensures Vigenere(Vigenere(text, key).value, key, "decrypt") == Ok(text)
  {
    var e := Vigenere(text, key).value;
    var d := Vigenere(e, key, "decrypt").value;
    forall i | 0 <= i < |text|
      ensures d[i] == text[i]
    {
      var c, k := text[i], key[i % |key|];
      if IsUpper(c) {
        RotateInverse(c, UpperBase, UpperKeyShift(k));
      } else if IsLower(c) {
        RotateInverse(c, LowerBase, LowerKeyShift(k));
      }
    }
    assert d == text;
  }

  /**
    The round trip the cipher is documented for: a key of letters only. The
    two key-shift formulas then both give the letter's alphabet index.
  */
  lemma LetterKeyRoundTrip(text: string, key: string)
    requires key != []
    requires forall j | 0 <= j < |key| :: IsLetter(key[j])
    ensures Vigenere(Vigenere(text, key).value, key, "decrypt") == Ok(text)
  {
    VigenereRoundTrip(text, key);
  }

  /** Key characters that differ only in case give the same output, in every mode. */
  lemma KeyCaseIrrelevant(text: string, key1: string, key2: string, mode: string)
    requires |key1| == |key2|
    requires forall j | 0 <= j < |key1| :: ToUpper(key1[j]) == ToUpper(key2[j])
    ensures Vigenere(text, key1, mode) == Vigenere(text, key2, mode)
  {
    if key1 != [] {
      var a := Vigenere(text, key1, mode).value;
      var b := Vigenere(text, key2, mode).value;
      forall i | 0 <= i < |text|
        ensures a[i] == b[i]
      {
        var k1, k2 := key1[i % |key1|], key2[i % |key1|];
        assert ToLower(k1) == ToLower(k2);
      }
      assert a == b;
    }
  }

  /** Any mode string other than "decrypt" encrypts. */
  lemma OtherModesEncrypt(text: string, key: string, mode: string)
    requires mode != "decrypt"
    ensures Vigenere(text, key, mode) == Vigenere(text, key, "encrypt")
  {
    assert Direction(mode) == Direction("encrypt");
  }

  /** A one-letter key is a Caesar cipher whose shift is that letter's alphabet index. */
  lemma SingleLetterKeyIsCaesar(text: string, k: char, mode: string)
    requires IsLetter(k)
    ensures Vigenere(text, [k], mode) == Ok(Caesar.Caesar(text, AlphabetIndex(k), mode))
  {
    var v := Vigenere(text, [k], mode).value;
    var c := Caesar.Caesar(text, AlphabetIndex(k), mode);
    forall i | 0 <= i < |text|
      ensures v[i] == c[i]
    {
      assert i % 1 == 0;
      LetterKeyShift(text[i], k, mode);
    }
    assert v == c;
  }

  /**
    `text` maps to `expected` character by character when the key position
    starts at `start`; the examples below unfold it one character at a time.
  */
  predicate MapsTo(text: string, key: string, start: nat, dir: int, expected: string)
    requires key != []
  {
    |text| == |expected| &&
    (text == [] ||
     (VigenereChar(text[0], key[start % |key|], dir) == expected[0] &&
      MapsTo(text[1..], key, start + 1, dir, expected[1..])))
  }

  lemma {:induction false} MapsToAt(text: string, key: string, start: nat, dir: int, expected: string)
    requires key != []
    requires MapsTo(text, key, start, dir, expected)
    ensures forall i | 0 <= i < |text| :: VigenereChar(text[i], key[(start + i) % |key|], dir) == expected[i]
  {
    if text != [] {
      MapsToAt(text[1..], key, start + 1, dir, expected[1..]);
      forall i | 0 < i < |text|
        ensures VigenereChar(text[i], key[(start + i) % |key|], dir) == expected[i]
      {
        assert text[i] == text[1..][i - 1] && expected[i] == expected[1..][i - 1];
        assert start + 1 + (i - 1) == start + i;
      }
    }
  }

  lemma {:induction false} MapsToConcat(a: string, b: string, key: string, start: nat, dir: int, ea: string, eb: string)
    requires key != []
    requires MapsTo(a, key, start, dir, ea) && MapsTo(b, key, start + |a|, dir, eb)
    ensures MapsTo(a + b, key, start, dir, ea + eb)
  {
    if a != [] {
      MapsToConcat(a[1..], b, key, start + 1, dir, ea[1..], eb);
      assert (a + b)[1..] == a[1..] + b && (ea + eb)[1..] == ea[1..] + eb;
    } else {
      assert a + b == b && ea + eb == eb;
    }
  }

  lemma VigenereExample(text: string, key: string, mode: string, dir: int, expected: string)
    requires key != [] && dir == Direction(mode)
    requires MapsTo(text, key, 0, dir, expected)
    ensures Vigenere(text, key, mode) == Ok(expected)
  {
    MapsToAt(text, key, 0, dir, expected);
    assert Vigenere(text, key, mode).value == expected;
  }

  lemma VigenereExampleSplit(a: string, b: string, key: string, mode: string, dir: int, ea: string, eb: string)
    requires key != [] && dir == Direction(mode)
    requires MapsTo(a, key, 0, dir, ea) && MapsTo(b, key, |a|, dir, eb)
    ensures Vigenere(a + b, key, mode) == Ok(ea + eb)
  {
    MapsToConcat(a, b, key, 0, dir, ea, eb);
    VigenereExample(a + b, key, mode, dir, ea + eb);
  }

  // Results the repository's unit tests expect. Longer texts are written as
  // two literals joined, the halves checked separately.

  lemma ExampleUpper()
    ensures Vigenere("HELLO", "KEY") == Ok("RIJVS")
  {
    VigenereExample("HELLO", "KEY", "encrypt", 1, "RIJVS");
  }

  lemma ExampleLower()
    ensures Vigenere("hello", "key") == Ok("rijvs")
  {
    VigenereExample("hello", "key", "encrypt", 1, "rijvs");
  }

  lemma ExampleDecryptUpper()
    ensures Vigenere("RIJVS", "KEY", "decrypt") == Ok("HELLO")
  {
    VigenereExample("RIJVS", "KEY", "decrypt", -1, "HELLO");
  }

  lemma ExampleDecryptLower()
    ensures Vigenere("rijvs", "key", "decrypt") == Ok("hello")
  {
    VigenereExample("rijvs", "key", "decrypt", -1, "hello");
  }

  lemma ExamplePunctuation()
    ensures Vigenere("Hello," + " World!", "key") == Ok("Rijvs," + " Ambpb!")
  {
    ExamplePunctuationHead();
    ExamplePunctuationTail();
    VigenereExampleSplit("Hello,", " World!", "key", "encrypt", 1, "Rijvs,", " Ambpb!");
  }

  lemma ExamplePunctuationHead()
    ensures MapsTo("Hello,", "key", 0, 1, "Rijvs,")
  {
  }

  lemma ExamplePunctuationTail()
    ensures MapsTo(" World!", "key", 6, 1, " Ambpb!")
  {
  }

  lemma ExampleDecryptPunctuation()
    ensures Vigenere("Rijvs," + " Uyvjn!", "key", "decrypt") == Ok("Hello," + " Qalfp!")
  {
    ExampleDecryptPunctuationHead();
    ExampleDecryptPunctuationTail();
    VigenereExampleSplit("Rijvs,", " Uyvjn!", "key", "decrypt", -1, "Hello,", " Qalfp!");
  }

  lemma ExampleDecryptPunctuationHead()
    ensures MapsTo("Rijvs,", "key", 0, -1, "Hello,")
  {
  }

  lemma ExampleDecryptPunctuationTail()
    ensures MapsTo(" Uyvjn!", "key", 6, -1, " Qalfp!")
  {
  }

  lemma ExampleLongKey()
    ensures Vigenere("HELLO", "LONGKEY") == Ok("SSYRY")
  {
    VigenereExample("HELLO", "LONGKEY", "encrypt", 1, "SSYRY");
  }

  lemma ExampleDecryptLongKey()
    ensures Vigenere("SSWXC", "LONGKEY", "decrypt") == Ok("HEJRS")
  {
    VigenereExample("SSWXC", "LONGKEY", "decrypt", -1, "HEJRS");
  }

  lemma ExampleShortKey()
    ensures Vigenere("HELLO", "KY") == Ok("RCVJY")
  {
    VigenereExample("HELLO", "KY", "encrypt", 1, "RCVJY");
  }

  lemma ExampleDecryptShortKey()
    ensures Vigenere("RIJVS", "KY", "decrypt") == Ok("HKZXI")
  {
    VigenereExample("RIJVS", "KY", "decrypt", -1, "HKZXI");
  }

  lemma ExampleMixedCaseKey()
    ensures Vigenere("HELLO", "KeY") == Ok("RIJVS")
  {
    VigenereExample("HELLO", "KeY", "encrypt", 1, "RIJVS");
  }

  lemma ExampleDecryptMixedCaseKey()
    ensures Vigenere("RIJVS", "KeY", "decrypt") == Ok("HELLO")
  {
    VigenereExample("RIJVS", "KeY", "decrypt", -1, "HELLO");
  }

  lemma ExampleMixedCaseText()
    ensures Vigenere("HeLlO", "key") == Ok("RiJvS")
  {
    VigenereExample("HeLlO", "key", "encrypt", 1, "RiJvS");
  }

  lemma ExampleDecryptMixedCaseText()
    ensures Vigenere("RiJvS", "key", "decrypt") == Ok("HeLlO")
  {
    VigenereExample("RiJvS", "key", "decrypt", -1, "HeLlO");
  }

  lemma ExampleEmptyText()
    ensures Vigenere("", "key") == Ok("")
    ensures Vigenere("", "key", "decrypt") == Ok("")
  {
  }

  /** An empty key fails even on empty text, because the length is divided before the loop. */
  lemma ExampleEmptyKey()
    ensures Vigenere("", "", "encrypt") == Err(ZeroDivision)
    ensures Vigenere("HELLO", "", "decrypt") == Err(ZeroDivision)
  {
  }
}
