/** The password generator of `PasswordApp.generate_password`, without its
    widgets: it builds the character pool, clamps the length and draws that
    many characters. The random source is a sequence `rolls` of pool
    indices, one per draw, each in range as `random.choice` guarantees. */
module Generator {
  import opened CharClasses
  import Strength

  /** Characters always allowed: letters, digits and the hyphen. */
  const BaseChars: string := AsciiLetters + Digits + "-"

  /** The pool drawn from. All of `string.punctuation` is appended when
      symbols are on, so the hyphen is in it twice then. */
  function Pool(includeSymbols: bool): string {
    if includeSymbols then BaseChars + Punctuation else BaseChars
  }

  /** The pool has 63 entries without symbols; with them, those 63 followed
      by the 32 punctuation characters. */
  lemma PoolLayout(includeSymbols: bool)
    ensures |Pool(includeSymbols)| == if includeSymbols then 95 else 63
    ensures Pool(includeSymbols)[..63] == BaseChars
    ensures includeSymbols ==> Pool(includeSymbols)[63..] == Punctuation
  {
  }

  /** Generates a password of `length` characters, or of one character when
      `length` is below 1; the k-th character is the pool entry at `rolls[k]`. */
  method GeneratePassword(length: int, includeSymbols: bool, rolls: seq<nat>) returns (password: string)
    requires |rolls| >= 1 && |rolls| >= length
    requires forall k :: 0 <= k < |rolls| ==> rolls[k] < |Pool(includeSymbols)|
    ensures length < 1 ==> |password| == 1
    ensures length >= 1 ==> |password| == length
    ensures forall k :: 0 <= k < |password| ==> password[k] == Pool(includeSymbols)[rolls[k]]
    ensures forall k :: 0 <= k < |password| ==> password[k] in Pool(includeSymbols)
    ensures !includeSymbols ==> forall k :: 0 <= k < |password| ==> password[k] !in Punctuation || password[k] == '-'
  {
    var chars := AsciiLetters + Digits + "-";
    if includeSymbols {
      chars := chars + Punctuation;
    }
    assert chars == Pool(includeSymbols);

    var n := length;
    if n < 1 {
      n := 1;
    }

    password := "";
    var i := 0;
    while i < n
      invariant 0 <= i <= n
      invariant |password| == i
      invariant forall k :: 0 <= k < i ==> password[k] == chars[rolls[k]]
    {
      password := password + [chars[rolls[i]]];
      i := i + 1;
    }

    if !includeSymbols {
      DrawnWithoutSymbols(password);
    }
  }

  /** Generates a password and rates it, as the generator tab does before
      showing the result: a generated password never gets the placeholder. */
  method GenerateAndRate(length: int, includeSymbols: bool, rolls: seq<nat>) returns (password: string, rating: (string, string))
    requires |rolls| >= 1 && |rolls| >= length
    requires forall k :: 0 <= k < |rolls| ==> rolls[k] < |Pool(includeSymbols)|
    ensures |password| == if length < 1 then 1 else length
    ensures forall k :: 0 <= k < |password| ==> password[k] == Pool(includeSymbols)[rolls[k]]
    ensures rating == Strength.Evaluate(password)
    ensures rating != Strength.Prompt
    ensures rating == Strength.WeakRating || rating == Strength.OkayRating || rating == Strength.StrongRating
  {
    password := GeneratePassword(length, includeSymbols, rolls);
    rating := Strength.Evaluate(password);
  }

  /** A string drawn from the pool without symbols holds no punctuation but the hyphen. */
  lemma DrawnWithoutSymbols(s: string)
    requires forall k :: 0 <= k < |s| ==> s[k] in Pool(false)
    ensures forall k :: 0 <= k < |s| ==> s[k] !in Punctuation || s[k] == '-'
  {
    forall k | 0 <= k < |s| ensures s[k] !in Punctuation || s[k] == '-' {
      WithoutSymbolsNoPunctuation(s[k]);
    }
  }

  /** Membership in the pool, class by class. */
  lemma PoolMembership(includeSymbols: bool, c: char)
    ensures c in Pool(includeSymbols) <==>
      IsLower(c) || IsUpper(c) || IsDigit(c) || c == '-' || (includeSymbols && c in Punctuation)
  {
    LowercaseMembership(c);
    UppercaseMembership(c);
    DigitMembership(c);
    var pool := Pool(includeSymbols);
    assert BaseChars == AsciiLowercase + AsciiUppercase + Digits + "-";
    if includeSymbols {
      assert pool == AsciiLowercase + AsciiUppercase + Digits + "-" + Punctuation;
    }
  }

  /** Without symbols the only punctuation character that can be drawn is the hyphen. */
  lemma WithoutSymbolsNoPunctuation(c: char)
    ensures c in Pool(false) && c in Punctuation ==> c == '-'
  {
    PoolMembership(false, c);
    if c in Punctuation {
      PunctuationIsNoLetterOrDigit(c);
    }
  }

  /** Number of occurrences of `c` in `s`. */
  function Occurrences(s: string, c: char): (n: nat)
    ensures n <= |s|
    ensures n == 0 <==> c !in s
  {
    if s == [] then 0 else (if s[0] == c then 1 else 0) + Occurrences(s[1..], c)
  }

  /** Occurrences add up over a concatenation. */
  lemma {:induction false} OccurrencesConcat(a: string, b: string, c: char)
    ensures Occurrences(a + b, c) == Occurrences(a, c) + Occurrences(b, c)
  {
    if a != [] {
      assert (a + b)[1..] == a[1..] + b;
      OccurrencesConcat(a[1..], b, c);
    } else {
      assert a + b == b;
    }
  }

  /** A character that occurs at one position of a string and nowhere else occurs once. */
  lemma OccursOnce(s: string, i: nat, c: char)
    requires i < |s| && s[i] == c
    requires forall j :: 0 <= j < |s| && j != i ==> s[j] != c
    ensures Occurrences(s, c) == 1
  {
    assert s == s[..i] + [c] + s[i + 1..];
    assert c !in s[..i] && c !in s[i + 1..] by {
      assert forall j :: 0 <= j < i ==> s[..i][j] == s[j];
      assert forall j :: i < j < |s| ==> s[i + 1..][j - i - 1] == s[j];
    }
    OccurrencesConcat(s[..i], [c], c);
    OccurrencesConcat(s[..i] + [c], s[i + 1..], c);
  }

  /** The hyphen is in the base characters once, as their last entry. */
  lemma HyphenOnceInBase()
    ensures Occurrences(BaseChars, '-') == 1
  {
    LowercaseMembership('-');
    UppercaseMembership('-');
    DigitMembership('-');
    assert BaseChars[..62] == AsciiLowercase + AsciiUppercase + Digits;
    OccursOnce(BaseChars, 62, '-');
  }

  /** The hyphen is in `string.punctuation` once. */
  lemma HyphenOnceInPunctuation()
    ensures Occurrences(Punctuation, '-') == 1
  {
    OccursOnce(Punctuation, 12, '-');
  }

  /** The hyphen is drawn from one pool entry without symbols and from two with them. */
  lemma HyphenWeight()
    ensures Occurrences(Pool(false), '-') == 1
    ensures Occurrences(Pool(true), '-') == 2
  {
    HyphenOnceInBase();
    HyphenOnceInPunctuation();
    OccurrencesConcat(BaseChars, Punctuation, '-');
  }

  /** What callers can conclude from the contract alone: a negative length
      still yields one character, and each draw picks its pool entry. */
  method GenerateExamples() {
    PoolLayout(false);
    PoolLayout(true);
    var short := GeneratePassword(-5, false, [62]);
    assert short == "-";
    var long := GeneratePassword(16, true, seq(16, k => 94));
    assert |long| == 16 && long[15] == '~';
  }
}
