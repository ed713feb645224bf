/** The password-strength scorer `evaluate_password_strength`: a password is
    scored by its length tier and by how many of four character classes it
    contains, and the score is mapped to a (label, colour) pair. */
module Strength {
  import opened CharClasses

  /** The four character classes whose presence earns a point. */
  datatype CharClass = Lower | Upper | Digit | Symbol

  predicate InClass(c: char, k: CharClass) {
    match k
    case Lower => IsLower(c)
    case Upper => IsUpper(c)
    case Digit => IsDigit(c)
    case Symbol => IsSymbol(c)
  }

  /** `any(test(c) for c in pw)`, scanning the password from the front. */
  function Any(pw: string, k: CharClass): bool {
    if pw == [] then false else InClass(pw[0], k) || Any(pw[1..], k)
  }

  /** The scan finds a class exactly when some character of the password is in it. */
  lemma {:induction false} AnyIffExists(pw: string, k: CharClass)
    ensures Any(pw, k) <==> exists i :: 0 <= i < |pw| && InClass(pw[i], k)
  {
    if pw != [] {
      AnyIffExists(pw[1..], k);
      assert forall i :: 1 <= i < |pw| ==> pw[i] == pw[1..][i - 1];
    }
  }

  /** The list `[has_lower, has_upper, has_digit, has_symbol]`. */
  function Flags(pw: string): (flags: seq<bool>)
    ensures |flags| == 4
  {
    [Any(pw, Lower), Any(pw, Upper), Any(pw, Digit), Any(pw, Symbol)]
  }

  /** `sum(flags)` over a list of booleans: the number of true entries. */
  function CountTrue(flags: seq<bool>): (n: nat)
    ensures n <= |flags|
    ensures n == 0 <==> forall i :: 0 <= i < |flags| ==> !flags[i]
    ensures n == |flags| <==> forall i :: 0 <= i < |flags| ==> flags[i]
  {
    if flags == [] then 0
    else
      var rest := CountTrue(flags[1..]);
      assert forall i :: 1 <= i < |flags| ==> flags[i] == flags[1..][i - 1];
      (if flags[0] then 1 else 0) + rest
  }

  /** `sum(flags)` is the number of true entries of the list. */
  lemma {:induction false} CountTrueCountsTrue(flags: seq<bool>)
    ensures CountTrue(flags) == multiset(flags)[true]
  {
    if flags != [] {
      assert flags == [flags[0]] + flags[1..];
      CountTrueCountsTrue(flags[1..]);
    }
  }

  /** The length part of the score: +2 at each of lengths 8, 12 and 16. */
  function LengthPoints(length: nat): nat {
    (if length >= 8 then 2 else 0) + (if length >= 12 then 2 else 0) + (if length >= 16 then 2 else 0)
  }

  /** Variety part of the score: one point per class present. */
  function Variety(pw: string): (v: nat)
    ensures v <= 4
    ensures v == 4 <==> Any(pw, Lower) && Any(pw, Upper) && Any(pw, Digit) && Any(pw, Symbol)
    ensures v == 0 <==> !Any(pw, Lower) && !Any(pw, Upper) && !Any(pw, Digit) && !Any(pw, Symbol)
  {
    var flags := Flags(pw);
    assert flags[0] == Any(pw, Lower) && flags[1] == Any(pw, Upper);
    assert flags[2] == Any(pw, Digit) && flags[3] == Any(pw, Symbol);
    CountTrue(flags)
  }

  /** The accumulated score; the scorer computes it only for non-empty passwords. */
  function Score(pw: string): (s: nat)
    ensures s <= 10
  {
    LengthPoints(|pw|) + Variety(pw)
  }

  /** The returned (label, colour) pairs. */
  const Prompt: (string, string) := ("Enter a password", "babyblue")
  const WeakRating: (string, string) := ("Weak", "#ff4c4c")
  const OkayRating: (string, string) := ("Okay", "#ffcc00")
  const StrongRating: (string, string) := ("Strong", "#00ff99")

  /** Maps a score to its rating: 0..4 weak, 5..8 okay, 9 and above strong. */
  function Rate(score: int): (r: (string, string))
    ensures r == WeakRating || r == OkayRating || r == StrongRating
  {
    if score <= 4 then WeakRating
    else if score <= 8 then OkayRating
    else StrongRating
  }

  /** `evaluate_password_strength(pw)` */
  function Evaluate(pw: string): (r: (string, string))
    ensures r == Prompt <==> pw == []
    ensures pw != [] ==> r == WeakRating || r == OkayRating || r == StrongRating
  {
    if pw == [] then Prompt else Rate(Score(pw))
  }

  /** The length part is 0, 2, 4 or 6 for lengths below 8, 8..11, 12..15 and 16 on. */
  lemma LengthPointsTiers(length: nat)
    ensures length < 8 ==> LengthPoints(length) == 0
    ensures 8 <= length < 12 ==> LengthPoints(length) == 2
    ensures 12 <= length < 16 ==> LengthPoints(length) == 4
    ensures 16 <= length ==> LengthPoints(length) == 6
  {
  }

  /** The rating depends on the score alone, through inclusive thresholds. */
  lemma RateThresholds(score: int)
    ensures Rate(score) == WeakRating <==> score <= 4
    ensures Rate(score) == OkayRating <==> 5 <= score <= 8
    ensures Rate(score) == StrongRating <==> 9 <= score
  {
  }

  /** Labels and colours correspond one to one over all results. */
  lemma OneColourPerLabel(p: string, q: string)
    ensures Evaluate(p).0 == Evaluate(q).0 <==> Evaluate(p).1 == Evaluate(q).1
  {
  }

  /** A strong rating is reached exactly by passwords of length 16 or more
      that contain at least three of the four classes. */
  lemma StrongIff(pw: string)
    ensures Evaluate(pw) == StrongRating <==> |pw| >= 16 && Variety(pw) >= 3
    ensures Evaluate(pw) == StrongRating <==> |pw| >= 16 && multiset(Flags(pw))[true] >= 3
  {
    LengthPointsTiers(|pw|);
    CountTrueCountsTrue(Flags(pw));
  }

  /** Every non-empty password shorter than 8 characters is weak. */
  lemma ShortIsWeak(pw: string)
    requires 0 < |pw| < 8
    ensures Evaluate(pw) == WeakRating
  {
  }

  /** Appending a character keeps every class already present and adds
      the classes of the new character, and nothing else. */
  lemma AnyAppend(pw: string, c: char, k: CharClass)
    ensures Any(pw + [c], k) <==> Any(pw, k) || InClass(c, k)
  {
    var longer := pw + [c];
    AnyIffExists(pw, k);
    AnyIffExists(longer, k);
    assert longer[|pw|] == c;
    assert forall i :: 0 <= i < |pw| ==> longer[i] == pw[i];
  }

  /** `sum` is monotone under turning entries of a list from false to true. */
  lemma {:induction false} CountTrueMonotone(a: seq<bool>, b: seq<bool>)
    requires |a| == |b|
    requires forall i :: 0 <= i < |a| ==> a[i] ==> b[i]
    ensures CountTrue(a) <= CountTrue(b)
  {
    if a != [] {
      assert forall i :: 0 <= i < |a| - 1 ==> a[1..][i] == a[i + 1] && b[1..][i] == b[i + 1];
      CountTrueMonotone(a[1..], b[1..]);
    }
  }

  /** A password at least as long as another, with every class that the other
      has, scores at least as much. */
  lemma ScoreMonotone(p: string, q: string)
    requires |p| <= |q|
    requires forall k :: Any(p, k) ==> Any(q, k)
    ensures Score(p) <= Score(q)
  {
    var fp, fq := Flags(p), Flags(q);
    assert forall i :: 0 <= i < 4 ==> fp[i] ==> fq[i] by {
      assert Any(p, Lower) ==> Any(q, Lower);
      assert Any(p, Upper) ==> Any(q, Upper);
      assert Any(p, Digit) ==> Any(q, Digit);
      assert Any(p, Symbol) ==> Any(q, Symbol);
    }
    CountTrueMonotone(fp, fq);
  }

  /** Appending a character never lowers the score. */
  lemma AppendNeverLowersScore(pw: string, c: char)
    ensures Score(pw) <= Score(pw + [c])
  {
    forall k ensures Any(pw, k) ==> Any(pw + [c], k) {
      AnyAppend(pw, c, k);
    }
    ScoreMonotone(pw, pw + [c]);
  }

  /** Appending a character to a non-empty password never lowers its rating. */
  lemma AppendNeverLowersRating(pw: string, c: char)
    requires pw != []
    ensures Evaluate(pw) == StrongRating ==> Evaluate(pw + [c]) == StrongRating
    ensures Evaluate(pw) == OkayRating ==> Evaluate(pw + [c]) != WeakRating
  {
    AppendNeverLowersScore(pw, c);
    RateThresholds(Score(pw));
    RateThresholds(Score(pw + [c]));
  }

  /** A password made only of lowercase letters has variety 1. */
  lemma OnlyLowercase(pw: string)
    requires pw != []
    requires forall i :: 0 <= i < |pw| ==> IsLower(pw[i])
    ensures Variety(pw) == 1
  {
    assert InClass(pw[0], Lower);
    AnyIffExists(pw, Lower);
    AnyIffExists(pw, Upper);
    AnyIffExists(pw, Digit);
    AnyIffExists(pw, Symbol);
    forall i | 0 <= i < |pw| ensures !IsSymbol(pw[i]) {
      if pw[i] in Punctuation { PunctuationIsNoLetterOrDigit(pw[i]); }
    }
  }

  /** Worked examples of the scorer: the empty input, one letter, eight
      characters of no class, and a password of each rating. */
  lemma ExamplesWeak()
    ensures Evaluate("") == Prompt
    ensures Score("x") == 1 && Evaluate("x") == WeakRating
    ensures Score("password") == 3 && Evaluate("password") == WeakRating
  {
    OnlyLowercase("x");
    OnlyLowercase("password");
  }

  lemma ExampleBlank()
    ensures Score("        ") == 2 && Evaluate("        ") == WeakRating
  {
    assert ' ' !in Punctuation;
    var pw := "        ";
    assert forall i :: 0 <= i < |pw| ==> pw[i] == ' ';
  }

  /** A password with a character of each class at the given positions has variety 4. */
  lemma AllClassesAt(pw: string, lower: nat, upper: nat, digit: nat, symbol: nat)
    requires lower < |pw| && upper < |pw| && digit < |pw| && symbol < |pw|
    requires IsLower(pw[lower]) && IsUpper(pw[upper]) && IsDigit(pw[digit]) && IsSymbol(pw[symbol])
    ensures Variety(pw) == 4
  {
    assert InClass(pw[lower], Lower) && InClass(pw[upper], Upper);
    assert InClass(pw[digit], Digit) && InClass(pw[symbol], Symbol);
    AnyIffExists(pw, Lower);
    AnyIffExists(pw, Upper);
    AnyIffExists(pw, Digit);
    AnyIffExists(pw, Symbol);
  }

  lemma ExampleOkay()
    ensures Score("Password1!") == 6 && Evaluate("Password1!") == OkayRating
  {
    assert Punctuation[0] == '!';
    AllClassesAt("Password1!", 1, 0, 8, 9);
  }

  lemma ExampleOkayFifteen()
    ensures Score("Tr0ub4dor&3xtra") == 8 && Evaluate("Tr0ub4dor&3xtra") == OkayRating
  {
    assert Punctuation[5] == '&';
    AllClassesAt("Tr0ub4dor&3xtra", 1, 0, 2, 9);
  }

  lemma ExampleStrong()
    ensures Score("Correct-Horse-Battery-99") == 10 && Evaluate("Correct-Horse-Battery-99") == StrongRating
  {
    AllClassesAt("Correct-Horse-Battery-99", 1, 0, 22, 7);
  }
}
