# Password checker and maker: a verified model of its decision logic

The application is a desktop window with two tabs. The first rates a typed
password as Weak, Okay or Strong, each with a display colour. The second
generates a random password of a chosen length, with or without symbols.
This project models the two pieces of logic behind those tabs and proves
what they promise. Both live in `passwordMAIN.py`:

- `evaluate_password_strength` (module `Strength`, file `strength.dfy`).
  An empty input returns the placeholder pair ("Enter a password", "babyblue").
  Any other input earns 2 points at each of lengths 8, 12 and 16, plus one
  point for each of four character classes present: lowercase, uppercase,
  digit and symbol. That score, 0..10, maps to ("Weak", "#ff4c4c") for 0..4,
  ("Okay", "#ffcc00") for 5..8 and ("Strong", "#00ff99") for 9 and above.
  The model is pure functions with lemmas. `Any` is the `any(...)` scan,
  `CountTrue` is `sum` over the list of four flags, and `Evaluate` is the
  whole function.
- The generator inside `PasswordApp.generate_password` (module `Generator`,
  file `generator.dfy`), lifted out of the widget class. The method
  `GeneratePassword` works imperatively, as the source does. It builds the
  pool `ascii_letters + digits + "-"`, appends `string.punctuation` when
  symbols are on, clamps a length below 1 up to 1, and appends one drawn
  character per loop step. `Pool` is the function that specifies the pool.
- Module `CharClasses` (file `char_classes.dfy`) holds the ASCII constants
  of Python's `string` module and the single-character class tests.

`random.choice` becomes a parameter `rolls`: a sequence of pool indices, one
per draw, each below the pool size, as `random.choice` guarantees. The
method's result is then a function of its inputs. Its contract says what the
source promises for every possible sequence of draws.

Two quirks of the source are preserved and proved rather than corrected.
First, the symbol test `c in string.punctuation or c == "-"` has a redundant
hyphen clause (`CharClasses.SymbolIsPunctuation`). Second, with symbols on,
the pool holds the hyphen twice, so it is drawn with double weight
(`Generator.HyphenWeight`).

## Model

| member | source | states |
|---|---|---|
| `CharClasses.IsLower` | passwordMAIN.py:16 | no contract; `c.islower()` as the ASCII range 'a'..'z'; its tie to `string.ascii_lowercase` is `LowercaseMembership` |
| `CharClasses.IsUpper` | passwordMAIN.py:17 | no contract; `c.isupper()` as the ASCII range 'A'..'Z'; its tie to `string.ascii_uppercase` is `UppercaseMembership` |
| `CharClasses.IsDigit` | passwordMAIN.py:18 | no contract; `c.isdigit()` as the ASCII range '0'..'9'; its tie to `string.digits` is `DigitMembership` |
| `CharClasses.IsSymbol` | passwordMAIN.py:19 | no contract; the test `c in string.punctuation or c == "-"` written as it stands; its simplification is `SymbolIsPunctuation` |
| `CharClasses.SymbolIsPunctuation` | passwordMAIN.py:19 | the symbol test `c in string.punctuation or c == "-"` accepts exactly the punctuation characters: the hyphen clause adds nothing |
| `CharClasses.LowercaseMembership` | passwordMAIN.py:16 | a character is in `string.ascii_lowercase` iff the (ASCII) lowercase test accepts it |
| `CharClasses.UppercaseMembership` | passwordMAIN.py:17 | a character is in `string.ascii_uppercase` iff the (ASCII) uppercase test accepts it |
| `CharClasses.DigitMembership` | passwordMAIN.py:18 | a character is in `string.digits` iff the (ASCII) digit test accepts it |
| `CharClasses.PunctuationIsNoLetterOrDigit` | passwordMAIN.py:16-19 | no punctuation character passes the lowercase, uppercase or digit test |
| `Strength.InClass` | passwordMAIN.py:16-19 | no contract; selects the per-character test of each of the four `any(...)` scans |
| `Strength.Any` | passwordMAIN.py:16-19 | no contract; the `any(test(c) for c in pw)` scan, front to back; what it computes is `AnyIffExists` |
| `Strength.AnyIffExists` | passwordMAIN.py:16-19 | the left-to-right `any(...)` scan is true exactly when some character of the password is in the class |
| `Strength.Flags` | passwordMAIN.py:16-19 | the list `[has_lower, has_upper, has_digit, has_symbol]` that line 30 sums has exactly four entries |
| `Strength.CountTrue` | passwordMAIN.py:30 | `sum` over a list of booleans is at most the list's length, is 0 iff every entry is false, and equals the length iff every entry is true |
| `Strength.CountTrueCountsTrue` | passwordMAIN.py:30 | `sum` over a list of booleans equals the number of true entries (their multiplicity in the list's multiset) |
| `Strength.LengthPoints` | passwordMAIN.py:21-27 | no contract; +2 at each of lengths 8, 12 and 16, cumulatively; its tiers are `LengthPointsTiers` |
| `Strength.Variety` | passwordMAIN.py:16-30 | the variety points are at most 4; they are 4 iff all four classes occur and 0 iff none does |
| `Strength.Score` | passwordMAIN.py:13-30 | the score of any password lies in 0..10 |
| `Strength.LengthPointsTiers` | passwordMAIN.py:21-27 | the length contribution is 0, 2, 4 or 6 for lengths below 8, 8..11, 12..15 and 16 or more |
| `Strength.Rate` | passwordMAIN.py:32-38 | every score maps to one of the three scored (label, colour) pairs |
| `Strength.RateThresholds` | passwordMAIN.py:33-38 | Weak iff score <= 4, Okay iff 5 <= score <= 8, Strong iff score >= 9, each with its fixed colour |
| `Strength.Evaluate` | passwordMAIN.py:9-38 | the placeholder pair is returned iff the password is empty; a non-empty password always gets one of the three scored pairs |
| `Strength.OneColourPerLabel` | passwordMAIN.py:9-38 | over all results, two results share a label iff they share a colour |
| `Strength.StrongIff` | passwordMAIN.py:22-38 | a password is rated Strong iff it is at least 16 characters long and has at least three of the four classes; stated both as variety >= 3 and as at least three true entries among the four flags |
| `Strength.ShortIsWeak` | passwordMAIN.py:22-34 | every non-empty password shorter than 8 characters is rated Weak |
| `Strength.AnyAppend` | passwordMAIN.py:16-19 | after appending a character, a class is present iff it was present before or the new character is in it |
| `Strength.CountTrueMonotone` | passwordMAIN.py:30 | turning entries of the flag list from false to true never lowers their sum |
| `Strength.ScoreMonotone` | passwordMAIN.py:16-30 | a password at least as long as another and having every class the other has scores at least as much |
| `Strength.AppendNeverLowersScore` | passwordMAIN.py:16-30 | appending a character never lowers the score |
| `Strength.AppendNeverLowersRating` | passwordMAIN.py:16-38 | appending a character to a non-empty password keeps Strong as Strong and never turns Okay into Weak |
| `Strength.OnlyLowercase` | passwordMAIN.py:16-19 | a non-empty password of lowercase letters only has exactly one class |
| `Strength.AllClassesAt` | passwordMAIN.py:16-30 | a password with a lowercase, an uppercase, a digit and a symbol character has variety 4 |
| `Strength.ExamplesWeak` | passwordMAIN.py:9-34 | "" gives the placeholder; "x" scores 1 and "password" scores 3, both Weak |
| `Strength.ExampleBlank` | passwordMAIN.py:13-34 | eight spaces score 2 (length only, no class) and are Weak |
| `Strength.ExampleOkay` | passwordMAIN.py:13-36 | "Password1!" scores 6 and is Okay |
| `Strength.ExampleOkayFifteen` | passwordMAIN.py:13-36 | "Tr0ub4dor&3xtra" (15 characters, all four classes) scores 8 and is Okay |
| `Strength.ExampleStrong` | passwordMAIN.py:13-38 | "Correct-Horse-Battery-99" scores 10 and is Strong |
| `Generator.Pool` | passwordMAIN.py:288-290 | no contract; `BaseChars` (the constant `ascii_letters + digits + "-"`) with `string.punctuation` appended when symbols are on; its layout is `PoolLayout`, its contents `PoolMembership` |
| `Generator.PoolLayout` | passwordMAIN.py:288-290 | the pool is the 63 base characters, followed by the 32 punctuation characters (95 in all) when symbols are on |
| `Generator.GeneratePassword` | passwordMAIN.py:284-296 | the password has length `max(length, 1)` for every integer length. Its k-th character is the pool entry the k-th draw picked, so every character is in the pool. Without symbols, no punctuation other than "-" occurs |
| `Generator.GenerateAndRate` | passwordMAIN.py:293-301 | the password has length `max(length, 1)` and its k-th character is the pool entry the k-th draw picked; passed to the scorer as line 301 does, it is never rated with the placeholder: it always gets one of the three scored pairs |
| `Generator.DrawnWithoutSymbols` | passwordMAIN.py:288-296 | a string drawn from the pool without symbols contains no punctuation other than the hyphen |
| `Generator.PoolMembership` | passwordMAIN.py:288-290 | a character is in the pool iff it is a lowercase or uppercase letter, a digit, or the hyphen, or (with symbols on) a punctuation character |
| `Generator.WithoutSymbolsNoPunctuation` | passwordMAIN.py:288-290 | the only punctuation character in the pool without symbols is the hyphen |
| `Generator.Occurrences` | passwordMAIN.py:288-290 | helper: the number of occurrences of a character in a string is at most the string's length and is 0 iff the character is absent |
| `Generator.OccurrencesConcat` | passwordMAIN.py:290 | occurrence counts add up over the concatenation that extends the pool |
| `Generator.OccursOnce` | passwordMAIN.py:288-290 | helper: a character found at exactly one position of a string occurs in it once |
| `Generator.HyphenOnceInBase` | passwordMAIN.py:288 | the hyphen occurs once in `ascii_letters + digits + "-"` |
| `Generator.HyphenOnceInPunctuation` | passwordMAIN.py:290 | the hyphen occurs once in `string.punctuation` |
| `Generator.HyphenWeight` | passwordMAIN.py:288-290 | the hyphen occurs once in the pool without symbols and twice with them, so it carries double weight when symbols are on |
| `Generator.GenerateExamples` | passwordMAIN.py:293-296 | no contract; a client of `GeneratePassword` showing that length -5 yields the single drawn character "-" and that length 16 with symbols yields 16 characters |

Evaluating the same password twice gives the same result because `Evaluate`
is a Dafny function, which is deterministic; no lemma is needed for that.

## Left out

- The whole GUI: `PasswordApp.__init__`, `build_checker_tab`, `build_generator_tab`, `toggle_password_visibility`, `update_length_label`, `check_strength`, and the widget reads and writes of `generate_password` (passwordMAIN.py:285 reading the slider, 298-302 writing the entry and label). This is layout and configuration of a foreign toolkit. `GeneratePassword` takes the slider value and the symbols switch as parameters. `Generator.GenerateAndRate` models the one piece of logic in line 301, the call of the scorer on the result; the label and colour are returned instead of being written to a widget.
- `copy_password` (passwordMAIN.py:304-309): clipboard access is an operating-system side effect. Its only logic is to do nothing on an empty string.
- The randomness behind `random.choice` (passwordMAIN.py:296): it is modelled as the caller-supplied index sequence `rolls`. Nothing is said about uniformity or probability. The skew toward the hyphen is stated as an occurrence count (`Generator.HyphenWeight`), not as a probability.
- `int(self.length_var.get())` (passwordMAIN.py:285): the slider's float-to-int conversion is outside the model. The length is an integer parameter.
- The slider range 5..50 (passwordMAIN.py:193-197) is a UI bound only. The model accepts any integer length, including 0 and negative ones.
- Python's `str.islower`, `str.isupper` and `str.isdigit` (passwordMAIN.py:16-18) also accept non-ASCII letters and digits, such as accented letters or superscript digits. Here they are the ASCII ranges 'a'..'z', 'A'..'Z' and '0'..'9'. Non-ASCII characters therefore earn no class point in the model, where the source may give them one.
- Strings holding lone surrogate code points: Python's `str` can hold them, but Dafny's `char` is a Unicode scalar value, so such strings are outside the model. Python's `len` would count them, changing the length tier, and they earn no class point.
