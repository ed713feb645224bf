/** ASCII character sets of Python's `string` module and the character-class
    tests the password logic applies to single characters.

    Python's `str.islower`, `str.isupper` and `str.isdigit` also accept
    non-ASCII letters and digits; here they are the ASCII ranges. */
module CharClasses {

  /** `string.ascii_lowercase` */
  const AsciiLowercase: string := "abcdefghijklmnopqrstuvwxyz"
  /** `string.ascii_uppercase` */
  const AsciiUppercase: string := "ABCDEFGHIJKLMNOPQRSTUVWXYZ"
  /** `string.ascii_letters`: the lowercase letters, then the uppercase ones */
  const AsciiLetters: string := AsciiLowercase + AsciiUppercase
  /** `string.digits` */
  const Digits: string := "0123456789"
  /** `string.punctuation`: the 32 printable ASCII characters that are
      neither letters, digits nor white space, in code-point order */
  const Punctuation: string := "!\"#$%&'()*+,-./:;<=>?@[\\]^_`{|}~"

  /** `c.islower()` for a single character */
  predicate IsLower(c: char) { 'a' <= c <= 'z' }

  /** `c.isupper()` for a single character */
  predicate IsUpper(c: char) { 'A' <= c <= 'Z' }

  /** `c.isdigit()` for a single character */
  predicate IsDigit(c: char) { '0' <= c <= '9' }

  /** The symbol test of the strength scorer, `c in string.punctuation or c == "-"` */
  predicate IsSymbol(c: char) { c in Punctuation || c == '-' }

  /** The hyphen clause of the symbol test is redundant: "-" is itself
      an ASCII punctuation character. */
  lemma SymbolIsPunctuation(c: char)
    ensures IsSymbol(c) <==> c in Punctuation
  {
    assert Punctuation[12] == '-';
  }

  /** The lowercase constant holds exactly the characters the lowercase test accepts. */
  lemma LowercaseMembership(c: char)
    ensures c in AsciiLowercase <==> IsLower(c)
  {
    if IsLower(c) {
      var i := c as int - 'a' as int;
      assert AsciiLowercase[i] == c;
    }
  }

  /** The uppercase constant holds exactly the characters the uppercase test accepts. */
  lemma UppercaseMembership(c: char)
    ensures c in AsciiUppercase <==> IsUpper(c)
  {
    if IsUpper(c) {
      var i := c as int - 'A' as int;
      assert AsciiUppercase[i] == c;
    }
  }

  /** The digit constant holds exactly the characters the digit test accepts. */
  lemma DigitMembership(c: char)
    ensures c in Digits <==> IsDigit(c)
  {
    if IsDigit(c) {
      var i := c as int - '0' as int;
      assert Digits[i] == c;
    }
  }

  /** No punctuation character is a letter or a digit, so a symbol never
      also counts as a lowercase, uppercase or digit character. */
  lemma PunctuationIsNoLetterOrDigit(c: char)
    requires c in Punctuation
    ensures !IsLower(c) && !IsUpper(c) && !IsDigit(c)
  {
    var i :| 0 <= i < |Punctuation| && Punctuation[i] == c;
    if i < 15 {
      assert '!' <= c <= '/';
    } else if i < 22 {
      assert ':' <= c <= '@';
    } else if i < 28 {
      assert '[' <= c <= '`';
    } else {
      assert '{' <= c <= '~';
    }
  }
}
