/**
  Character arithmetic shared by both ciphers: the ASCII letter classes that
  stand for Python's `str.isupper`/`str.islower`, the case conversions used on
  Vigenère key characters, and the wrap-around formula
  `chr((ord(c) + k - base) % 26 + base)` both ciphers apply to a letter.
  Python's `%` with the positive modulus 26 agrees with Dafny's `%`.
*/
module Letters {

  /** `ord('A')`, the base of the upper-case alphabet. */
  const UpperBase: int := 65
  /** `ord('a')`, the base of the lower-case alphabet. */
  const LowerBase: int := 97

  predicate IsUpper(c: char) { 'A' <= c <= 'Z' }

  predicate IsLower(c: char) { 'a' <= c <= 'z' }

  predicate IsLetter(c: char) { IsUpper(c) || IsLower(c) }

  predicate IsBase(base: int) { base == UpperBase || base == LowerBase }

  /** `c` lies in the 26-letter alphabet that starts at `base`. */
  predicate InAlphabet(c: char, base: int) { base <= c as int < base + 26 }

  /** `chr((ord(c) + k - base) % 26 + base)`: shift by `k` positions, wrapping modulo 26. */
  function Rotate(c: char, base: int, k: int): (r: char)
    requires IsBase(base)
    ensures InAlphabet(r, base)
  {
    ((c as int + k - base) % 26 + base) as char
  }

  /** `str.upper()` on one character, for the ASCII letters. */
  function ToUpper(c: char): (r: char)
    ensures IsLetter(c) ==> IsUpper(r) && ToLower(r) == ToLower(c)
    ensures !IsLetter(c) ==> r == c
  {
    if IsLower(c) then (c as int - 32) as char else c
  }

  /** `str.lower()` on one character, for the ASCII letters. */
  function ToLower(c: char): (r: char)
    ensures IsLetter(c) ==> IsLower(r)
    ensures !IsLetter(c) ==> r == c
  {
    if IsUpper(c) then (c as int + 32) as char else c
  }

  /** Position of a letter in the alphabet, whatever its case: 'A' and 'a' are 0, 'Z' and 'z' are 25. */
  function AlphabetIndex(c: char): (r: int)
    requires IsLetter(c)
    ensures 0 <= r < 26
    ensures IsUpper(c) ==> Rotate('A', UpperBase, r) == c
    ensures IsLower(c) ==> Rotate('a', LowerBase, r) == c
  {
    if IsUpper(c) then c as int - UpperBase else c as int - LowerBase
  }

  /** Rotating by `j` and then by `k` is rotating by `j + k`. */
  lemma RotateCompose(c: char, base: int, j: int, k: int)
    requires IsBase(base)
    ensures Rotate(Rotate(c, base, j), base, k) == Rotate(c, base, j + k)
  {
    var x := c as int - base;
    var y := (x + j) % 26;
    assert Rotate(c, base, j) as int - base == y;
    ModAddLeft(x + j, k);
  }

  lemma ModAddLeft(a: int, k: int)
    ensures (a % 26 + k) % 26 == (a + k) % 26
  {
    var q := a / 26;
    assert a == 26 * q + a % 26;
    ModShift(a % 26 + k, q);
  }

  lemma ModShift(a: int, q: int)
    ensures (a + 26 * q) % 26 == a % 26
  {
  }

  /** Rotating an alphabet letter by `k` and then by `-k` gives it back. */
  lemma RotateInverse(c: char, base: int, k: int)
    requires IsBase(base) && InAlphabet(c, base)
    ensures Rotate(Rotate(c, base, k), base, -k) == c
  {
    RotateCompose(c, base, k, -k);
  }

  /** Rotation only depends on the shift modulo 26. */
  lemma RotatePeriodic(c: char, base: int, k: int)
    requires IsBase(base)
    ensures Rotate(c, base, k + 26) == Rotate(c, base, k)
  {
    ModShift(c as int + k - base, 1);
  }
}
