/** The command-line password generator (password_generator.py). Randomness is a
    parameter: `rng(k)` is the `k`-th number the generator draws, and `random.choice(s)`
    takes the `rng(k) % |s|`-th character of `s`. */
module PasswordGenerator {
  import opened Wrappers
  import opened PyStr

  /** `string.ascii_lowercase`. */
  const AsciiLowercase: string := "abcdefghijklmnopqrstuvwxyz"

  /** `string.ascii_uppercase`. */
  const AsciiUppercase: string := "ABCDEFGHIJKLMNOPQRSTUVWXYZ"

  /** `string.ascii_letters`. */
  const AsciiLetters: string := AsciiLowercase + AsciiUppercase

  /** `string.digits`. */
  const Digits: string := "0123456789"

  /** `string.punctuation`. */
  const Punctuation: string := "!\"#$%&'()*+,-./:;<=>?@[\\]^_`{|}~"

  /** The answers to the three "Include ...? (y/n)" questions. */
  datatype Choice = Choice(letters: bool, numbers: bool, symbols: bool)

  /** A character class is included exactly when the stripped, lower-cased answer is `y`. */
  function Toggle(answer: string): bool {
    LowerAscii(Strip(answer)) == "y"
  }

  /** Since lower-casing only turns `Y` into `y`, an answer counts as yes exactly when it
      is `y` or `Y` with whitespace around it. */
  lemma ToggleAcceptsOnlyY(answer: string)
    ensures Toggle(answer) <==> Strip(answer) == "y" || Strip(answer) == "Y"
  {
    var s := Strip(answer);
    if Toggle(answer) {
      assert |s| == 1 && LowerAscii(s)[0] == 'y';
      assert s == [s[0]];
    }
    if s == "y" || s == "Y" {
      assert LowerAscii(s) == [LowerAscii(s)[0]];
    }
  }

  /** The three answers, in the order they are asked. */
  function Choose(lettersAnswer: string, numbersAnswer: string, symbolsAnswer: string): Choice {
    Choice(Toggle(lettersAnswer), Toggle(numbersAnswer), Toggle(symbolsAnswer))
  }

  /** The alphabets of the selected classes, in the order the source visits them. */
  function Selected(c: Choice): seq<string> {
    (if c.letters then [AsciiLetters] else [])
    + (if c.numbers then [Digits] else [])
    + (if c.symbols then [Punctuation] else [])
  }

  /** No selected alphabet is empty, so `random.choice` can draw from each. */
  lemma SelectedNonEmpty(c: Choice)
    ensures forall k :: 0 <= k < |Selected(c)| ==> |Selected(c)[k]| > 0
  {
  }

  /** The alphabets, one after the other. */
  function Concat(parts: seq<string>): string {
    if |parts| == 0 then "" else parts[0] + Concat(parts[1..])
  }

  /** `character_pool`. */
  function Pool(c: Choice): string {
    Concat(Selected(c))
  }

  /** `password_guaranteed`: one character drawn from each selected alphabet, using the
      draws `start`, `start + 1`, ... */
  function Guaranteed(parts: seq<string>, rng: nat -> nat, start: nat): (g: seq<char>)
    requires forall k :: 0 <= k < |parts| ==> |parts[k]| > 0
    ensures |g| == |parts|
    ensures forall k :: 0 <= k < |g| ==> g[k] in parts[k]
    decreases |parts|
  {
    if |parts| == 0 then []
    else [parts[0][rng(start) % |parts[0]|]] + Guaranteed(parts[1..], rng, start + 1)
  }

  /** `password_remaining`: `count` characters drawn from `pool`, using the draws `start`,
      `start + 1`, ... */
  function Fill(pool: string, rng: nat -> nat, start: nat, count: nat): (r: seq<char>)
    requires |pool| > 0
    ensures |r| == count
    ensures forall k :: 0 <= k < |r| ==> r[k] in pool
    decreases count
  {
    if count == 0 then [] else [pool[rng(start) % |pool|]] + Fill(pool, rng, start + 1, count - 1)
  }

  /** `xs` with positions `i` and `j` exchanged. */
  function Swap(xs: seq<char>, i: nat, j: nat): (ys: seq<char>)
    requires i < |xs| && j < |xs|
    ensures |ys| == |xs| && multiset(ys) == multiset(xs)
  {
    xs[i := xs[j]][j := xs[i]]
  }

  /** `random.shuffle` (Fisher-Yates from the back): for `i` from `|xs| - 1` down to 1,
      exchange position `i` with a drawn position `j <= i`. The draws start at `next`. */
  function ShuffleDown(xs: seq<char>, i: nat, rng: nat -> nat, next: nat): (ys: seq<char>)
    requires i < |xs|
    ensures |ys| == |xs| && multiset(ys) == multiset(xs)
    decreases i
  {
    if i == 0 then xs
    else ShuffleDown(Swap(xs, i, rng(next) % (i + 1)), i - 1, rng, next + 1)
  }

  /** `random.shuffle(xs)`: a permutation of `xs`. */
  function Shuffle(xs: seq<char>, rng: nat -> nat, next: nat): (ys: seq<char>)
    ensures |ys| == |xs| && multiset(ys) == multiset(xs)
  {
    if |xs| == 0 then xs else ShuffleDown(xs, |xs| - 1, rng, next)
  }

  /** Why no password was produced. */
  datatype Failure = NotAWholeNumber | NonPositiveLength | NoCharacterType | TooShort(minimum: nat)

  /** The printed outcome of a run. */
  datatype Generated = Password(text: string) | Rejected(why: Failure)

  /** The characters of a password of `length` characters for the classes `c`, before
      the shuffle: the guaranteed characters (draws `0 ..`), then the remaining ones drawn
      from the whole pool (the following draws). */
  function Unshuffled(c: Choice, length: nat, rng: nat -> nat): (xs: seq<char>)
    requires 0 < |Selected(c)| <= length
    ensures |xs| == length
  {
    SelectedNonEmpty(c);
    var guaranteed := Guaranteed(Selected(c), rng, 0);
    PoolEmptyIffNothingSelected(c);
    guaranteed + Fill(Pool(c), rng, |guaranteed|, length - |guaranteed|)
  }

  /** `generate_command_line_password`. `length` is `None` when the answer does not parse
      as an integer. The length is validated first, then the three answers are read and the
      run goes on as `GenerateFor` with the classes they select. */
  function Generate(length: Option<int>, lettersAnswer: string, numbersAnswer: string,
                    symbolsAnswer: string, rng: nat -> nat): (g: Generated)
    ensures length.None? ==> g == Rejected(NotAWholeNumber)
    ensures length.Some? && length.value <= 0 ==> g == Rejected(NonPositiveLength)
    ensures length.Some? && length.value > 0 ==>
              var n := |Selected(Choose(lettersAnswer, numbersAnswer, symbolsAnswer))|;
              && (n == 0 ==> g == Rejected(NoCharacterType))
              && (0 < n && length.value < n ==> g == Rejected(TooShort(n)))
              && (0 < n <= length.value <==> g.Password?)
              && (g.Password? ==> g == GenerateFor(length, Choose(lettersAnswer, numbersAnswer, symbolsAnswer), rng))
  {
    if length.None? then Rejected(NotAWholeNumber)
    else if length.value <= 0 then Rejected(NonPositiveLength)
    else GenerateFor(length, Choose(lettersAnswer, numbersAnswer, symbolsAnswer), rng)
  }

  /** The run of `generate_command_line_password` once the classes `c` are chosen. The
      guaranteed characters are drawn while the pool is built, before the validation,
      then the remaining characters, then the shuffle's draws. */
  function GenerateFor(length: Option<int>, c: Choice, rng: nat -> nat): (g: Generated)
    ensures length.None? ==> g == Rejected(NotAWholeNumber)
    ensures length.Some? && length.value <= 0 ==> g == Rejected(NonPositiveLength)
    ensures length.Some? && length.value > 0 ==>
              var n := |Selected(c)|;
              && (n == 0 ==> g == Rejected(NoCharacterType))
              && (0 < n && length.value < n ==> g == Rejected(TooShort(n)))
              && (0 < n <= length.value ==> g == Password(Shuffle(Unshuffled(c, length.value, rng), rng, length.value)))
  {
    if length.None? then Rejected(NotAWholeNumber)
    else if length.value <= 0 then Rejected(NonPositiveLength)
    else
      var pool := Pool(c);
      SelectedNonEmpty(c);
      var guaranteed := Guaranteed(Selected(c), rng, 0);
      PoolEmptyIffNothingSelected(c);
      if |pool| == 0 then Rejected(NoCharacterType)
      else if length.value < |guaranteed| then Rejected(TooShort(|guaranteed|))
      else Password(Shuffle(Unshuffled(c, length.value, rng), rng, length.value))
  }

  /** The pool is empty exactly when no class is selected. */
  lemma PoolEmptyIffNothingSelected(c: Choice)
    ensures |Pool(c)| == 0 <==> |Selected(c)| == 0
  {
    if c.letters { assert |Pool(c)| >= |AsciiLetters|; }
    else if c.numbers { assert |Pool(c)| >= |Digits|; }
    else if c.symbols { assert |Pool(c)| >= |Punctuation|; }
  }

  /** The pool holds exactly the characters of the selected alphabets. */
  lemma PoolMembers(c: Choice)
    ensures forall ch :: ch in Pool(c) <==> exists k :: 0 <= k < |Selected(c)| && ch in Selected(c)[k]
  {
    ConcatMembers(Selected(c));
  }

  lemma {:induction false} ConcatMembers(parts: seq<string>)
    ensures forall ch :: ch in Concat(parts) <==> exists k :: 0 <= k < |parts| && ch in parts[k]
    decreases |parts|
  {
    if |parts| > 0 {
      ConcatMembers(parts[1..]);
      forall ch ensures ch in Concat(parts) <==> exists k :: 0 <= k < |parts| && ch in parts[k] {
        if exists k :: 0 <= k < |parts| && ch in parts[k] {
          var k :| 0 <= k < |parts| && ch in parts[k];
          if k > 0 { assert ch in parts[1..][k - 1]; }
        }
        if ch in Concat(parts[1..]) {
          var k :| 0 <= k < |parts[1..]| && ch in parts[1..][k];
          assert ch in parts[k + 1];
        }
      }
    }
  }

  /** Every unshuffled character comes from the pool, and the `a`-th one comes from the
      `a`-th selected alphabet. */
  lemma UnshuffledFromPool(c: Choice, length: nat, rng: nat -> nat)
    requires 0 < |Selected(c)| <= length
    ensures forall ch :: ch in Unshuffled(c, length, rng) ==> ch in Pool(c)
    ensures forall a :: 0 <= a < |Selected(c)| ==> Unshuffled(c, length, rng)[a] in Selected(c)[a]
  {
    var parts := Selected(c);
    var guaranteed := Guaranteed(parts, rng, 0);
    PoolEmptyIffNothingSelected(c);
    var all := Unshuffled(c, length, rng);
    PoolMembers(c);
    assert all[..|guaranteed|] == guaranteed;
    forall ch | ch in all ensures ch in Pool(c) {
      var i :| 0 <= i < |all| && all[i] == ch;
      if i < |guaranteed| {
        assert ch == guaranteed[i] && ch in parts[i];
      }
    }
  }

  /** Whether `pw` has a character of every alphabet in `parts`. */
  predicate MeetsAll(pw: seq<char>, parts: seq<string>) {
    forall a :: 0 <= a < |parts| ==> exists k :: 0 <= k < |pw| && pw[k] in parts[a]
  }

  /** A permutation of characters that come from `pool`, whose first ones come from the
      alphabets `parts` in turn, still comes from `pool` and still meets every alphabet. */
  lemma PermutationKeepsClasses(all: seq<char>, pw: seq<char>, parts: seq<string>, pool: string)
    requires multiset(pw) == multiset(all)
    requires forall ch :: ch in all ==> ch in pool
    requires |parts| <= |all| && forall a :: 0 <= a < |parts| ==> all[a] in parts[a]
    ensures forall k :: 0 <= k < |pw| ==> pw[k] in pool
    ensures MeetsAll(pw, parts)
  {
    forall k | 0 <= k < |pw| ensures pw[k] in pool {
      assert pw[k] in multiset(all);
    }
    forall a | 0 <= a < |parts| ensures exists k :: 0 <= k < |pw| && pw[k] in parts[a] {
      assert all[a] in multiset(pw);
    }
  }

  /** A generated password has the requested length, is a permutation of the guaranteed
      characters followed by the remaining ones, and uses only pool characters. */
  lemma GeneratedPasswordShape(length: Option<int>, c: Choice, rng: nat -> nat)
    requires length.Some? && 0 < |Selected(c)| <= length.value
    ensures var g := GenerateFor(length, c, rng);
            && g.Password? && |g.text| == length.value
            && multiset(g.text) == multiset(Unshuffled(c, length.value, rng))
            && (forall k :: 0 <= k < |g.text| ==> g.text[k] in Pool(c))
  {
    var all := Unshuffled(c, length.value, rng);
    var pw := Shuffle(all, rng, length.value);
    UnshuffledFromPool(c, length.value, rng);
    PermutationKeepsClasses(all, pw, Selected(c), Pool(c));
  }

  /** A generated password has a character of every selected alphabet. */
  lemma GeneratedPasswordMeetsEverySelection(length: Option<int>, c: Choice, rng: nat -> nat)
    requires length.Some? && 0 < |Selected(c)| <= length.value
    ensures GenerateFor(length, c, rng).Password?
    ensures MeetsAll(GenerateFor(length, c, rng).text, Selected(c))
  {
    var all := Unshuffled(c, length.value, rng);
    var pw := Shuffle(all, rng, length.value);
    UnshuffledFromPool(c, length.value, rng);
    PermutationKeepsClasses(all, pw, Selected(c), Pool(c));
  }

  /** Where each class sits among the selected alphabets. */
  lemma SelectedPositions(c: Choice)
    ensures c.letters <==> |Selected(c)| > 0 && Selected(c)[0] == AsciiLetters
    ensures c.numbers ==> Selected(c)[if c.letters then 1 else 0] == Digits
    ensures c.symbols ==> |Selected(c)| > 0 && Selected(c)[|Selected(c)| - 1] == Punctuation
  {
    if !c.letters && |Selected(c)| > 0 {
      assert Selected(c)[0][0] in "0!";
    }
  }

  /** A generated password has a letter, a digit and a punctuation character whenever the
      corresponding class was selected. */
  lemma GeneratedPasswordHasEachClass(length: Option<int>, c: Choice, rng: nat -> nat)
    requires length.Some? && 0 < |Selected(c)| <= length.value
    ensures var g := GenerateFor(length, c, rng);
            && g.Password?
            && (c.letters ==> exists k :: 0 <= k < |g.text| && g.text[k] in AsciiLetters)
            && (c.numbers ==> exists k :: 0 <= k < |g.text| && g.text[k] in Digits)
            && (c.symbols ==> exists k :: 0 <= k < |g.text| && g.text[k] in Punctuation)
  {
    var pw := GenerateFor(length, c, rng).text;
    GeneratedPasswordMeetsEverySelection(length, c, rng);
    SelectedPositions(c);
    var parts := Selected(c);
    if c.letters { assert exists k :: 0 <= k < |pw| && pw[k] in parts[0]; }
    if c.numbers { assert exists k :: 0 <= k < |pw| && pw[k] in parts[if c.letters then 1 else 0]; }
    if c.symbols { assert exists k :: 0 <= k < |pw| && pw[k] in parts[|parts| - 1]; }
  }

  /** The password mixes kinds of character: a letter for the letters class, a digit for
      the digits class, and for the symbols class a character that is neither. */
  lemma GeneratedPasswordMixesKinds(length: Option<int>, c: Choice, rng: nat -> nat)
    requires length.Some? && 0 < |Selected(c)| <= length.value
    ensures var pw := GenerateFor(length, c, rng).text;
            && (c.letters ==> exists k :: 0 <= k < |pw| && IsLetter(pw[k]))
            && (c.numbers ==> exists k :: 0 <= k < |pw| && IsDigit(pw[k]))
            && (c.symbols ==> exists k :: 0 <= k < |pw| && !IsLetter(pw[k]) && !IsDigit(pw[k]))
  {
    var pw := GenerateFor(length, c, rng).text;
    GeneratedPasswordHasEachClass(length, c, rng);
    LettersAreLetters();
    DigitsAreDigits();
    PunctuationIsNeither();
    if c.letters {
      var k :| 0 <= k < |pw| && pw[k] in AsciiLetters;
      assert IsLetter(pw[k]);
    }
    if c.numbers {
      var k :| 0 <= k < |pw| && pw[k] in Digits;
      assert IsDigit(pw[k]);
    }
    if c.symbols {
      var k :| 0 <= k < |pw| && pw[k] in Punctuation;
      assert !IsLetter(pw[k]) && !IsDigit(pw[k]);
    }
  }

  /** An ASCII letter. */
  predicate IsLetter(ch: char) { 'a' <= ch <= 'z' || 'A' <= ch <= 'Z' }

  /** An ASCII digit. */
  predicate IsDigit(ch: char) { '0' <= ch <= '9' }

  /** `string.ascii_letters` holds letters only. */
  lemma LettersAreLetters()
    ensures forall ch :: ch in AsciiLetters ==> IsLetter(ch)
  {
    forall i | 0 <= i < |AsciiLetters| ensures IsLetter(AsciiLetters[i]) {
      if i < |AsciiLowercase| {
        assert AsciiLetters[i] == AsciiLowercase[i];
      } else {
        assert AsciiLetters[i] == AsciiUppercase[i - |AsciiLowercase|];
      }
    }
  }

  /** `string.digits` holds digits only. */
  lemma DigitsAreDigits()
    ensures forall ch :: ch in Digits ==> IsDigit(ch)
  {
  }

  /** `string.punctuation` holds neither letters nor digits, so the three alphabets do not
      overlap and "one character per selected class" means one per class. */
  lemma PunctuationIsNeither()
    ensures forall ch :: ch in Punctuation ==> !IsLetter(ch) && !IsDigit(ch)
  {
  }
}
