/**
  The Caesar cipher of backend/utils/caesar_cipher.py: every ASCII letter is
  shifted within its own case's alphabet by a fixed amount, wrapping modulo
  26; every other character is copied. The mode is the caller's string: only
  the exact string "decrypt" negates the shift, any other string encrypts.
*/
module Caesar {
  import opened Letters

  /** The shift the loop applies: negated for "decrypt", as given otherwise. */
  function EffectiveShift(shift: int, mode: string): int {
    if mode == "decrypt" then -shift else shift
  }

  /** One character of the output: letters rotate within their case, the rest are copied. */
  function CaesarChar(c: char, shift: int): (r: char)
    ensures IsUpper(c) <==> IsUpper(r)
    ensures IsLower(c) <==> IsLower(r)
    ensures !IsLetter(c) ==> r == c
  {
    if IsUpper(c) then Rotate(c, UpperBase, shift)
    else if IsLower(c) then Rotate(c, LowerBase, shift)
    else c
  }

  /** The whole transform: same length, and the character at `i` depends only on `text[i]` and the shift. */
  function Caesar(text: string, shift: int, mode: string := "encrypt"): (r: string)
    ensures |r| == |text|
    ensures forall i | 0 <= i < |text| :: IsUpper(text[i]) <==> IsUpper(r[i])
    ensures forall i | 0 <= i < |text| :: IsLower(text[i]) <==> IsLower(r[i])
    ensures forall i | 0 <= i < |text| :: !IsLetter(text[i]) ==> r[i] == text[i]
  {
    seq(|text|, i requires 0 <= i < |text| => CaesarChar(text[i], EffectiveShift(shift, mode)))
  }

  /** `caesar_cipher(text, shift, mode)`: the loop that grows `result` one character at a time. */
  method CaesarCipher(text: string, shift: int, mode: string := "encrypt") returns (result: string)
    ensures result == Caesar(text, shift, mode)
  {
    result := "";
    var s := shift;
    if mode == "decrypt" {
      s := -shift;
    }
    for i := 0 to |text|
      invariant |result| == i
      invariant forall j | 0 <= j < i :: result[j] == CaesarChar(text[j], s)
    {
      var c := text[i];
      if IsUpper(c) {
        result := result + [Rotate(c, UpperBase, s)];
      } else if IsLower(c) {
        result := result + [Rotate(c, LowerBase, s)];
      } else {
        result := result + [c];
      }
    }
  }

  /** Decrypting with the shift used to encrypt gives the text back, for every integer shift. */
  lemma CaesarRoundTrip(text: string, shift: int)
    ensures Caesar(Caesar(text, shift, "encrypt"), shift, "decrypt") == text
  {
    var e := Caesar(text, shift, "encrypt");
    var d := Caesar(e, shift, "decrypt");
    forall i | 0 <= i < |text|
      ensures d[i] == text[i]
    {
      if IsUpper(text[i]) {
        RotateInverse(text[i], UpperBase, shift);
      } else if IsLower(text[i]) {
        RotateInverse(text[i], LowerBase, shift);
      }
    }
  }

  /** Decrypting is encrypting with the negated shift. */
  lemma DecryptIsNegatedEncrypt(text: string, shift: int)
    ensures Caesar(text, shift, "decrypt") == Caesar(text, -shift, "encrypt")
  {
  }

  /** Any mode string other than "decrypt" encrypts. */
  lemma OtherModesEncrypt(text: string, shift: int, mode: string)
    requires mode != "decrypt"
    ensures Caesar(text, shift, mode) == Caesar(text, shift, "encrypt")
  {
  }

  /** Shifts that differ by 26 give the same output, in either mode. */
  lemma CaesarPeriodic(text: string, shift: int, mode: string)
    ensures Caesar(text, shift + 26, mode) == Caesar(text, shift, mode)
  {
    var a := Caesar(text, shift + 26, mode);
    var b := Caesar(text, shift, mode);
    forall i | 0 <= i < |text|
      ensures a[i] == b[i]
    {
      var c := text[i];
      var k := EffectiveShift(shift, mode);
      if IsLetter(c) {
        var base := if IsUpper(c) then UpperBase else LowerBase;
        if mode == "decrypt" {
          RotatePeriodic(c, base, k - 26);
        } else {
          RotatePeriodic(c, base, k);
        }
      }
    }
  }

  /** Shift 0 leaves every text unchanged, in either mode. */
  lemma CaesarIdentity(text: string, mode: string)
    ensures Caesar(text, 0, mode) == text
  {
  }

  /** The transform works character by character, so it distributes over concatenation. */
  lemma CaesarConcat(a: string, b: string, shift: int, mode: string)
    ensures Caesar(a + b, shift, mode) == Caesar(a, shift, mode) + Caesar(b, shift, mode)
  {
  }

  /**
    `text` maps to `expected` character by character under shift `k`; the
    examples below are checked through it.
  */
  predicate MapsTo(text: string, k: int, expected: string) {
    |text| == |expected| &&
    (text == [] || (CaesarChar(text[0], k) == expected[0] && MapsTo(text[1..], k, expected[1..])))
  }

  lemma {:induction false} MapsToAt(text: string, k: int, expected: string)
    requires MapsTo(text, k, expected)
    ensures forall i | 0 <= i < |text| :: CaesarChar(text[i], k) == expected[i]
  {
    if text != [] {
      MapsToAt(text[1..], k, expected[1..]);
      forall i | 0 < i < |text|
        ensures CaesarChar(text[i], k) == expected[i]
      {
        assert text[i] == text[1..][i - 1];
      }
    }
  }

  lemma {:induction false} MapsToConcat(a: string, b: string, k: int, ea: string, eb: string)
    requires MapsTo(a, k, ea) && MapsTo(b, k, eb)
    ensures MapsTo(a + b, k, ea + eb)
  {
    if a != [] {
      MapsToConcat(a[1..], b, k, ea[1..], eb);
      assert (a + b)[1..] == a[1..] + b && (ea + eb)[1..] == ea[1..] + eb;
    } else {
      assert a + b == b && ea + eb == eb;
    }
  }

  lemma CaesarExample(text: string, shift: int, mode: string, k: int, expected: string)
    requires k == EffectiveShift(shift, mode)
    requires MapsTo(text, k, expected)
    ensures Caesar(text, shift, mode) == expected
  {
    MapsToAt(text, k, expected);
  }

  lemma CaesarExampleSplit(a: string, b: string, shift: int, mode: string, k: int, ea: string, eb: string)
    requires k == EffectiveShift(shift, mode)
    requires MapsTo(a, k, ea) && MapsTo(b, k, eb)
    ensures Caesar(a + b, shift, mode) == ea + eb
  {
    MapsToConcat(a, b, k, ea, eb);
    CaesarExample(a + b, shift, mode, k, ea + eb);
  }

  // Results the repository's unit and view tests expect. Longer texts are
  // written as two literals joined, the halves checked separately.

  lemma ExampleEncrypt()
    ensures Caesar("HELLO", 3) == "KHOOR"
  {
    CaesarExample("HELLO", 3, "encrypt", 3, "KHOOR");
  }

  lemma ExampleDecrypt()
    ensures Caesar("KHOOR", 3, "decrypt") == "HELLO"
  {
    CaesarExample("KHOOR", 3, "decrypt", -3, "HELLO");
  }

  lemma ExampleLower()
    ensures Caesar("hello", 3) == "khoor"
  {
    CaesarExample("hello", 3, "encrypt", 3, "khoor");
  }

  lemma ExampleDecryptLower()
    ensures Caesar("khoor", 3, "decrypt") == "hello"
  {
    CaesarExample("khoor", 3, "decrypt", -3, "hello");
  }

  lemma ExamplePunctuation()
    ensures Caesar("Hello," + " World!", 3) == "Khoor," + " Zruog!"
  {
    ExamplePunctuationHead();
    ExamplePunctuationTail();
    CaesarExampleSplit("Hello,", " World!", 3, "encrypt", 3, "Khoor,", " Zruog!");
  }

  lemma ExamplePunctuationHead()
    ensures MapsTo("Hello,", 3, "Khoor,")
  {
  }

  lemma ExamplePunctuationTail()
    ensures MapsTo(" World!", 3, " Zruog!")
  {
  }

  lemma ExampleDecryptPunctuation()
    ensures Caesar("Khoor," + " Zruog!", 3, "decrypt") == "Hello," + " World!"
  {
    ExampleDecryptPunctuationHead();
    ExampleDecryptPunctuationTail();
    CaesarExampleSplit("Khoor,", " Zruog!", 3, "decrypt", -3, "Hello,", " World!");
  }

  lemma ExampleDecryptPunctuationHead()
    ensures MapsTo("Khoor,", -3, "Hello,")
  {
  }

  lemma ExampleDecryptPunctuationTail()
    ensures MapsTo(" Zruog!", -3, " World!")
  {
  }

  lemma ExampleDigits()
    ensures Caesar("HELLO " + "123!", 3) == "KHOOR " + "123!"
  {
    ExampleDigitsHead();
    ExampleDigitsTail();
    CaesarExampleSplit("HELLO ", "123!", 3, "encrypt", 3, "KHOOR ", "123!");
  }

  lemma ExampleDigitsHead()
    ensures MapsTo("HELLO ", 3, "KHOOR ")
  {
  }

  lemma ExampleDigitsTail()
    ensures MapsTo("123!", 3, "123!")
  {
  }

  lemma ExampleLargeShift()
    ensures Caesar("HELLO", 30) == "LIPPS"
  {
    CaesarExample("HELLO", 30, "encrypt", 30, "LIPPS");
  }

  lemma ExampleDecryptLargeShift()
    ensures Caesar("LIPPS", 30, "decrypt") == "HELLO"
  {
    CaesarExample("LIPPS", 30, "decrypt", -30, "HELLO");
  }

  lemma ExampleShift29()
    ensures Caesar("HELLO", 29) == "KHOOR"
  {
    CaesarExample("HELLO", 29, "encrypt", 29, "KHOOR");
  }

  lemma ExampleNegativeShift()
    ensures Caesar("HELLO", -3) == "EBIIL"
  {
    CaesarExample("HELLO", -3, "encrypt", -3, "EBIIL");
  }

  lemma ExampleDecryptNegativeShift()
    ensures Caesar("EBIIL", -3, "decrypt") == "HELLO"
  {
    CaesarExample("EBIIL", -3, "decrypt", 3, "HELLO");
  }

  lemma ExampleInvalidMode()
    ensures Caesar("HELLO", 3, "invalid") == "KHOOR"
  {
    CaesarExample("HELLO", 3, "invalid", 3, "KHOOR");
  }

  lemma ExampleEmpty()
    ensures Caesar("", 3) == ""
    ensures Caesar("", 3, "decrypt") == ""
  {
  }
}
