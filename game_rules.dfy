/**
 * The game rules of App.jsx as pure functions of the two pieces of state,
 * the current word and the ordered list of guessed letters: the derived
 * values (wrong-guess count, won, lost, over, last guess), the guarded
 * guess step of the keyboard handler, and the per-chip, per-letter and
 * per-key display queries, with the lemmas that the game's invariants hold.
 */
module GameRules {
  import opened Wrappers
  import Utils

  /** One entry of the language ladder; a wrong guess eliminates the next one. */
  datatype Language = Language(name: string, backgroundColor: string, color: string)

  /** The 26 letters the keyboard accepts. */
  const Alphabet: string := "abcdefghijklmnopqrstuvwxyz"

  /** `numGuessesLeft`: one less than the number of languages (the last one is never eliminated). */
  function AttemptsAllowed(languages: seq<Language>): int {
    |languages| - 1
  }

  /** No letter occurs twice. */
  predicate NoDuplicates(s: seq<char>) {
    forall i, j :: 0 <= i < j < |s| ==> s[i] != s[j]
  }

  /** The distinct letters of `s`. */
  function Letters(s: seq<char>): set<char> {
    set c | c in s
  }

  // ---------------------------------------------------------------------------
  // Derived values
  // ---------------------------------------------------------------------------

  /** `guessedLetters.filter(letter => !currentWord.includes(letter))`, in guess order. */
  function WrongGuesses(word: string, guessed: seq<char>): (r: seq<char>)
    ensures |r| <= |guessed|
  {
    if guessed == [] then []
    else (if guessed[0] in word then [] else [guessed[0]]) + WrongGuesses(word, guessed[1..])
  }

  /**
   * The wrong guesses are exactly the guessed letters that are not in the
   * word, and they have no duplicates when the guesses have none.
   */
  lemma {:induction false} WrongGuessesLetters(word: string, guessed: seq<char>)
    ensures Letters(WrongGuesses(word, guessed)) == Letters(guessed) - Letters(word)
    ensures NoDuplicates(guessed) ==> NoDuplicates(WrongGuesses(word, guessed))
  {
    if guessed != [] {
      var head := if guessed[0] in word then [] else [guessed[0]];
      var rest := WrongGuesses(word, guessed[1..]);
      WrongGuessesLetters(word, guessed[1..]);
      assert WrongGuesses(word, guessed) == head + rest;
      assert Letters(guessed) == {guessed[0]} + Letters(guessed[1..]);
      assert Letters(head + rest) == Letters(head) + Letters(rest);
      if NoDuplicates(guessed) {
        assert guessed[0] !in Letters(guessed[1..]);
        NoDuplicatesCons(head, rest);
      }
    }
  }

  /** Prepending at most one letter that is new keeps a list free of duplicates. */
  lemma NoDuplicatesCons(head: seq<char>, rest: seq<char>)
    requires |head| <= 1 && NoDuplicates(rest)
    requires forall c :: c in head ==> c !in Letters(rest)
    ensures NoDuplicates(head + rest)
  {
    if |head| == 1 {
      forall i, j | 0 <= i < j < |head + rest|
        ensures (head + rest)[i] != (head + rest)[j]
      {
        if i == 0 {
          assert (head + rest)[j] == rest[j - 1] && rest[j - 1] in Letters(rest);
        }
      }
    }
  }

  /** `wrongGuessCount`. */
  function WrongGuessCount(word: string, guessed: seq<char>): nat {
    |WrongGuesses(word, guessed)|
  }

  /** `isGameWon`: every letter of the word has been guessed. */
  predicate IsGameWon(word: string, guessed: seq<char>) {
    forall i :: 0 <= i < |word| ==> word[i] in guessed
  }

  /** `isGameLost`: the wrong guesses have used up the attempts. */
  predicate IsGameLost(word: string, guessed: seq<char>, attempts: int) {
    WrongGuessCount(word, guessed) >= attempts
  }

  /** `isGameOver`. */
  predicate IsGameOver(word: string, guessed: seq<char>, attempts: int) {
    IsGameWon(word, guessed) || IsGameLost(word, guessed, attempts)
  }

  /** `lastGuessedLetter`: the most recent guess, absent before the first one. */
  function LastGuessedLetter(guessed: seq<char>): (r: Option<char>)
    ensures r.None? <==> guessed == []
    ensures r.Some? ==> r.value in guessed && guessed == guessed[..|guessed| - 1] + [r.value]
  {
    if guessed == [] then None else Some(guessed[|guessed| - 1])
  }

  /** `isLastGuessIncorrect`. */
  predicate IsLastGuessIncorrect(word: string, guessed: seq<char>) {
    var last := LastGuessedLetter(guessed);
    last.Some? && last.value !in word
  }

  // ---------------------------------------------------------------------------
  // Guessing
  // ---------------------------------------------------------------------------

  /** The updater passed to `setGuessedLetters` by `addGuessedLetter`: append unless already guessed. */
  function AddGuessedLetter(prev: seq<char>, letter: char): (r: seq<char>)
    ensures letter in prev ==> r == prev
    ensures letter !in prev ==> |r| == |prev| + 1 && r[..|prev|] == prev && r[|prev|] == letter
    ensures Letters(r) == Letters(prev) + {letter}
    ensures NoDuplicates(prev) ==> NoDuplicates(r)
  {
    if letter in prev then prev else prev + [letter]
  }

  /** `e.key.toLowerCase()` on a single character (ASCII letters only). */
  function ToLower(key: char): (c: char)
    ensures 'A' <= key <= 'Z' ==> 'a' <= c <= 'z' && c as int - key as int == 32
    ensures !('A' <= key <= 'Z') ==> c == key
  {
    if 'A' <= key <= 'Z' then (key as int + 32) as char else key
  }

  /**
   * The guard on a key: a lowercase ASCII letter. `KeyStep` tests this range
   * rather than membership in the `Alphabet` string, because membership in a
   * 26-character literal unfolds into a 26-way case split wherever a key step
   * is reasoned about; `AlphabetIsLowercase` proves the two tests agree, and
   * the session methods test `Alphabet` itself, as the keyboard handler does.
   */
  predicate InAlphabet(c: char) {
    'a' <= c <= 'z'
  }

  /** `alphabet.includes(letter)` for one character is exactly `InAlphabet`. */
  lemma AlphabetIsLowercase(c: char)
    ensures c in Alphabet <==> InAlphabet(c)
  {
  }

  /**
   * One key press as `handleKeydown` treats it: the lowercased key is added
   * when it is a letter of the alphabet and the game is not over; otherwise
   * nothing changes.
   */
  function KeyStep(word: string, guessed: seq<char>, attempts: int, key: char): seq<char> {
    var letter := ToLower(key);
    if InAlphabet(letter) && !IsGameOver(word, guessed, attempts) then AddGuessedLetter(guessed, letter)
    else guessed
  }

  /** The guess list after a run of key presses, one after the other. */
  function KeyPresses(word: string, guessed: seq<char>, attempts: int, keys: seq<char>): seq<char>
    decreases |keys|
  {
    if keys == [] then guessed
    else KeyPresses(word, KeyStep(word, guessed, attempts, keys[0]), attempts, keys[1..])
  }

  /** A new guess at the end adds one to the wrong count exactly when it is not in the word. */
  lemma {:induction false} WrongGuessesAppend(word: string, guessed: seq<char>, letter: char)
    ensures WrongGuesses(word, guessed + [letter])
         == WrongGuesses(word, guessed) + (if letter in word then [] else [letter])
    ensures WrongGuessCount(word, guessed + [letter])
         == WrongGuessCount(word, guessed) + (if letter in word then 0 else 1)
  {
    var tail := if letter in word then [] else [letter];
    if guessed == [] {
      assert [] + [letter] == [letter];
    } else {
      var head := if guessed[0] in word then [] else [guessed[0]];
      var rest := WrongGuesses(word, guessed[1..]);
      assert (guessed + [letter])[0] == guessed[0];
      assert (guessed + [letter])[1..] == guessed[1..] + [letter];
      WrongGuessesAppend(word, guessed[1..], letter);
      assert WrongGuesses(word, guessed + [letter]) == head + (rest + tail);
      assert head + (rest + tail) == (head + rest) + tail;
    }
  }

  /**
   * What one accepted or ignored key press does: a key whose lowercase form is
   * not a letter of the alphabet, or any key once the game is over, changes
   * nothing; an accepted key appends exactly its lowercase form, so `'A'` and
   * `'a'` act alike.
   */
  lemma KeyStepEffect(word: string, guessed: seq<char>, attempts: int, key: char)
    ensures var next := KeyStep(word, guessed, attempts, key);
      && (ToLower(key) !in Alphabet ==> next == guessed)
      && (next != guessed ==> next == guessed + [ToLower(key)] && ToLower(key) in Alphabet && ToLower(key) !in guessed)
      && (IsGameOver(word, guessed, attempts) ==> next == guessed)
      && WrongGuessCount(word, next) <= WrongGuessCount(word, guessed) + 1
      && (next != guessed ==> !IsGameOver(word, guessed, attempts))
      && (NoDuplicates(guessed) ==> NoDuplicates(next))
      && (forall c :: c in guessed ==> c in next)
  {
    var next := KeyStep(word, guessed, attempts, key);
    AlphabetIsLowercase(ToLower(key));
    if next != guessed {
      WrongGuessesAppend(word, guessed, ToLower(key));
    }
  }

  /** Pressing the same key twice in a row has the effect of pressing it once. */
  lemma GuessIsIdempotent(word: string, guessed: seq<char>, attempts: int, key: char)
    ensures var once := KeyStep(word, guessed, attempts, key);
      KeyStep(word, once, attempts, key) == once
      && WrongGuessCount(word, KeyStep(word, once, attempts, key)) == WrongGuessCount(word, once)
  {
  }

  /** Once the game is over, no sequence of key presses changes the guesses. */
  lemma {:induction false} GameOverFreezes(word: string, guessed: seq<char>, attempts: int, keys: seq<char>)
    requires IsGameOver(word, guessed, attempts)
    ensures KeyPresses(word, guessed, attempts, keys) == guessed
    decreases |keys|
  {
    if keys != [] {
      GameOverFreezes(word, KeyStep(word, guessed, attempts, keys[0]), attempts, keys[1..]);
    }
  }

  /** Key presses never make the guess list lose a letter or gain a duplicate. */
  lemma {:induction false} KeyPressesKeepGuesses(word: string, guessed: seq<char>, attempts: int, keys: seq<char>)
    ensures forall c :: c in guessed ==> c in KeyPresses(word, guessed, attempts, keys)
    ensures NoDuplicates(guessed) ==> NoDuplicates(KeyPresses(word, guessed, attempts, keys))
    decreases |keys|
  {
    if keys != [] {
      KeyStepEffect(word, guessed, attempts, keys[0]);
      KeyPressesKeepGuesses(word, KeyStep(word, guessed, attempts, keys[0]), attempts, keys[1..]);
    }
  }

  /**
   * The wrong count never exceeds the attempts once it starts within them, so
   * after any run of key presses the game is lost exactly when the wrong count
   * has reached the attempts.
   */
  lemma {:induction false} WrongCountStaysInBudget(word: string, guessed: seq<char>, attempts: int, keys: seq<char>)
    requires WrongGuessCount(word, guessed) <= attempts
    ensures WrongGuessCount(word, KeyPresses(word, guessed, attempts, keys)) <= attempts
    ensures var after := KeyPresses(word, guessed, attempts, keys);
      IsGameLost(word, after, attempts) <==> WrongGuessCount(word, after) == attempts
    decreases |keys|
  {
    if keys != [] {
      KeyStepEffect(word, guessed, attempts, keys[0]);
      WrongCountStaysInBudget(word, KeyStep(word, guessed, attempts, keys[0]), attempts, keys[1..]);
    }
  }

  // ---------------------------------------------------------------------------
  // Order independence
  // ---------------------------------------------------------------------------

  /** A list without duplicates has as many distinct letters as entries. */
  lemma {:induction false} DistinctLettersCount(s: seq<char>)
    requires NoDuplicates(s)
    ensures |Letters(s)| == |s|
  {
    if s != [] {
      DistinctLettersCount(s[1..]);
      assert Letters(s) == {s[0]} + Letters(s[1..]);
      assert s[0] !in Letters(s[1..]);
    }
  }

  /** For a list without duplicates the wrong count is the number of distinct wrong letters. */
  lemma WrongCountIsDistinctWrongLetters(word: string, guessed: seq<char>)
    requires NoDuplicates(guessed)
    ensures WrongGuessCount(word, guessed) == |Letters(guessed) - Letters(word)|
  {
    var wrong := WrongGuesses(word, guessed);
    WrongGuessesLetters(word, guessed);
    DistinctLettersCount(wrong);
    assert Letters(wrong) == Letters(guessed) - Letters(word);
  }

  /** Won and the wrong count depend only on which letters were guessed, not on their order. */
  lemma OutcomeIsOrderIndependent(word: string, g1: seq<char>, g2: seq<char>, attempts: int)
    requires NoDuplicates(g1) && NoDuplicates(g2)
    requires Letters(g1) == Letters(g2)
    ensures IsGameWon(word, g1) <==> IsGameWon(word, g2)
    ensures WrongGuessCount(word, g1) == WrongGuessCount(word, g2)
    ensures IsGameOver(word, g1, attempts) <==> IsGameOver(word, g2, attempts)
  {
    WrongCountIsDistinctWrongLetters(word, g1);
    WrongCountIsDistinctWrongLetters(word, g2);
    assert forall c :: c in g1 <==> c in Letters(g1);
    assert forall c :: c in g2 <==> c in Letters(g2);
  }

  /**
   * Pressing the letters of the word, in any order and with repeats, starting
   * from a game that is not lost, wins it without adding a wrong guess.
   */
  lemma {:induction false} GuessingTheWordWins(word: string, guessed: seq<char>, attempts: int, keys: seq<char>)
    requires Utils.IsLowerWord(word)
    requires WrongGuessCount(word, guessed) < attempts
    requires forall j :: 0 <= j < |keys| ==> keys[j] in word
    requires forall i :: 0 <= i < |word| ==> word[i] in guessed || word[i] in keys
    ensures IsGameWon(word, KeyPresses(word, guessed, attempts, keys))
    ensures WrongGuessCount(word, KeyPresses(word, guessed, attempts, keys)) == WrongGuessCount(word, guessed)
    decreases |keys|
  {
    if IsGameOver(word, guessed, attempts) {
      GameOverFreezes(word, guessed, attempts, keys);
    } else if keys != [] {
      var key := keys[0];
      var next := KeyStep(word, guessed, attempts, key);
      var i :| 0 <= i < |word| && word[i] == key;
      assert ToLower(key) == key;
      if key !in guessed {
        WrongGuessesAppend(word, guessed, key);
      }
      assert key in next && forall c :: c in guessed ==> c in next;
      forall i | 0 <= i < |word|
        ensures word[i] in next || word[i] in keys[1..]
      {
        if word[i] !in guessed && word[i] != key {
          assert word[i] in keys[1..];
        }
      }
      GuessingTheWordWins(word, next, attempts, keys[1..]);
    }
  }

  // ---------------------------------------------------------------------------
  // Starting a game
  // ---------------------------------------------------------------------------

  /** A fresh game (non-empty word, no guesses, at least two languages) is neither won nor lost. */
  lemma NewGameIsInProgress(word: string, languages: seq<Language>)
    requires |word| > 0 && |languages| >= 2
    ensures !IsGameWon(word, []) && !IsGameLost(word, [], AttemptsAllowed(languages))
    ensures WrongGuessCount(word, []) == 0 && !IsLastGuessIncorrect(word, [])
  {
    assert word[0] !in [];
  }

  // ---------------------------------------------------------------------------
  // Display queries
  // ---------------------------------------------------------------------------

  /** Whether the chip of the language at `index` is shown as eliminated. */
  predicate ChipLost(index: nat, wrongCount: nat) {
    index < wrongCount
  }

  /** On a ladder of `n` languages, a wrong count of `wrong <= n` shows exactly `wrong` chips as lost. */
  lemma {:induction false} LostChipsCount(n: nat, wrong: nat)
    requires wrong <= n
    ensures |set i | 0 <= i < n && ChipLost(i, wrong)| == wrong
  {
    if wrong == 0 {
      assert (set i | 0 <= i < n && ChipLost(i, wrong)) == {};
    } else {
      var fewer := wrong - 1;
      LostChipsCount(n, fewer);
      assert (set i | 0 <= i < n && ChipLost(i, wrong))
          == (set i | 0 <= i < n && ChipLost(i, fewer)) + {fewer};
    }
  }

  /**
   * Within the budget exactly `wrongGuessCount` chips are eliminated, and the
   * last language always survives.
   */
  lemma ChipsWithinBudget(languages: seq<Language>, word: string, guessed: seq<char>)
    requires |languages| >= 1
    requires WrongGuessCount(word, guessed) <= AttemptsAllowed(languages)
    ensures var wrong := WrongGuessCount(word, guessed);
      && |set i | 0 <= i < |languages| && ChipLost(i, wrong)| == wrong
      && !ChipLost(|languages| - 1, wrong)
  {
    LostChipsCount(|languages|, WrongGuessCount(word, guessed));
  }

  /** Whether a letter of the word is shown: when guessed, or when the game is lost. */
  predicate LetterVisible(word: string, guessed: seq<char>, attempts: int, letter: char) {
    IsGameLost(word, guessed, attempts) || letter in guessed
  }

  /** Whether a letter of the word is marked as missed: shown only because the game is lost. */
  predicate LetterMissed(word: string, guessed: seq<char>, attempts: int, letter: char) {
    IsGameLost(word, guessed, attempts) && letter !in guessed
  }

  /**
   * The whole word is shown exactly when the game is over: at the end every
   * letter is visible, while it is in progress some letter is still hidden.
   * A won game marks no letter of the word as missed, even when the same
   * guesses also used up the attempts.
   */
  lemma WordRevealedAtGameOver(word: string, guessed: seq<char>, attempts: int)
    ensures IsGameOver(word, guessed, attempts) ==>
      forall i :: 0 <= i < |word| ==> LetterVisible(word, guessed, attempts, word[i])
    ensures !IsGameOver(word, guessed, attempts) ==>
      exists i :: 0 <= i < |word| && !LetterVisible(word, guessed, attempts, word[i])
    ensures IsGameWon(word, guessed) ==>
      forall i :: 0 <= i < |word| ==> !LetterMissed(word, guessed, attempts, word[i])
  {
    if !IsGameOver(word, guessed, attempts) {
      var i :| 0 <= i < |word| && word[i] !in guessed;
      assert !LetterVisible(word, guessed, attempts, word[i]);
    }
  }

  /** The colour of an on-screen key. */
  datatype KeyStatus = Unguessed | Correct | Wrong

  /** The status of the key for `letter`: `isCorrect` / `isWrong` of the keyboard. */
  function KeyStatusOf(word: string, guessed: seq<char>, letter: char): KeyStatus {
    if letter !in guessed then Unguessed
    else if letter in word then Correct
    else Wrong
  }

  /**
   * With guesses from the alphabet and no duplicates, the keyboard shows
   * exactly `wrongGuessCount` keys as wrong, and those keys are the wrong guesses.
   */
  lemma WrongKeysMatchWrongCount(word: string, guessed: seq<char>)
    requires NoDuplicates(guessed)
    requires forall i :: 0 <= i < |guessed| ==> InAlphabet(guessed[i])
    ensures forall c :: KeyStatusOf(word, guessed, c) == Wrong <==> c in WrongGuesses(word, guessed)
    ensures |set c: char | InAlphabet(c) && KeyStatusOf(word, guessed, c) == Wrong| == WrongGuessCount(word, guessed)
  {
    var wrongKeys := set c: char | InAlphabet(c) && KeyStatusOf(word, guessed, c) == Wrong;
    WrongGuessesLetters(word, guessed);
    assert forall c :: c in WrongGuesses(word, guessed) <==> c in Letters(WrongGuesses(word, guessed));
    assert wrongKeys == Letters(guessed) - Letters(word);
    WrongCountIsDistinctWrongLetters(word, guessed);
  }

  /** The index into the language ladder of the language named in the farewell banner. */
  function FarewellIndex(word: string, guessed: seq<char>): int {
    WrongGuessCount(word, guessed) - 1
  }

  /**
   * Whenever the farewell banner is shown (game not over, last guess wrong),
   * its index is a valid ladder position, short of the last two languages.
   */
  lemma FarewellIndexInRange(languages: seq<Language>, word: string, guessed: seq<char>)
    requires !IsGameOver(word, guessed, AttemptsAllowed(languages))
    requires IsLastGuessIncorrect(word, guessed)
    ensures 0 <= FarewellIndex(word, guessed) < |languages| - 2
  {
    var last := guessed[|guessed| - 1];
    assert guessed == guessed[..|guessed| - 1] + [last];
    WrongGuessesAppend(word, guessed[..|guessed| - 1], last);
  }

  /** What the status area shows (renderStatus). */
  datatype Status = Farewell(text: string) | Victory | Defeat | Silent

  /**
   * renderStatus: the farewell banner for the latest eliminated language
   * while the game goes on, then victory, then defeat.
   */
  function GameStatus(languages: seq<Language>, word: string, guessed: seq<char>): (r: Status)
    ensures r.Farewell? <==> !IsGameOver(word, guessed, AttemptsAllowed(languages)) && IsLastGuessIncorrect(word, guessed)
    ensures r.Farewell? ==> 0 <= FarewellIndex(word, guessed) < |languages|
                            && r.text == Utils.FarewellText(languages[FarewellIndex(word, guessed)].name)
    ensures r.Victory? <==> IsGameWon(word, guessed)
    ensures r.Defeat? <==> IsGameLost(word, guessed, AttemptsAllowed(languages)) && !IsGameWon(word, guessed)
    ensures r.Silent? <==> !IsGameOver(word, guessed, AttemptsAllowed(languages)) && !IsLastGuessIncorrect(word, guessed)
  {
    var attempts := AttemptsAllowed(languages);
    if !IsGameOver(word, guessed, attempts) && IsLastGuessIncorrect(word, guessed) then
      FarewellIndexInRange(languages, word, guessed);
      Farewell(Utils.FarewellText(languages[FarewellIndex(word, guessed)].name))
    else if IsGameWon(word, guessed) then Victory
    else if IsGameLost(word, guessed, attempts) then Defeat
    else Silent
  }

  // ---------------------------------------------------------------------------
  // Scenarios
  // ---------------------------------------------------------------------------

  /**
   * Distinct wrong letters pressed while the budget lasts are each recorded,
   * in order, and each costs one attempt.
   */
  lemma {:induction false} WrongLettersEachCostOne(word: string, guessed: seq<char>, attempts: int, keys: seq<char>)
    requires !IsGameWon(word, guessed)
    requires forall c :: c in keys ==> 'a' <= c <= 'z' && c !in word && c !in guessed
    requires NoDuplicates(keys)
    requires WrongGuessCount(word, guessed) + |keys| <= attempts
    ensures KeyPresses(word, guessed, attempts, keys) == guessed + keys
    ensures WrongGuessCount(word, guessed + keys) == WrongGuessCount(word, guessed) + |keys|
    decreases |keys|
  {
    if keys == [] {
      assert guessed + keys == guessed;
    } else {
      var key := keys[0];
      var next := guessed + [key];
      FirstWrongKeyAccepted(word, guessed, attempts, keys);
      WrongLettersEachCostOne(word, next, attempts, keys[1..]);
      assert next + keys[1..] == guessed + keys;
    }
  }

  /** The first of a run of distinct wrong letters is recorded, and the rest of the run still qualifies. */
  lemma FirstWrongKeyAccepted(word: string, guessed: seq<char>, attempts: int, keys: seq<char>)
    requires !IsGameWon(word, guessed)
    requires forall c :: c in keys ==> 'a' <= c <= 'z' && c !in word && c !in guessed
    requires NoDuplicates(keys)
    requires WrongGuessCount(word, guessed) + |keys| <= attempts
    requires keys != []
    ensures KeyStep(word, guessed, attempts, keys[0]) == guessed + [keys[0]]
    ensures WrongGuessCount(word, guessed + [keys[0]]) == WrongGuessCount(word, guessed) + 1
    ensures !IsGameWon(word, guessed + [keys[0]])
    ensures forall c :: c in keys[1..] ==> 'a' <= c <= 'z' && c !in word && c !in guessed + [keys[0]]
  {
    var key := keys[0];
    var next := guessed + [key];
    assert key in keys;
    AcceptedKey(word, guessed, attempts, key);
    WrongGuessesAppend(word, guessed, key);
    assert !IsGameWon(word, next) by {
      var i :| 0 <= i < |word| && word[i] !in guessed;
      assert word[i] != key;
    }
    forall c | c in keys[1..]
      ensures 'a' <= c <= 'z' && c !in word && c !in next
    {
      var j :| 0 <= j < |keys[1..]| && keys[1..][j] == c;
      assert c == keys[j + 1] && keys[j + 1] != keys[0] && c in keys;
    }
  }

  /** A lowercase letter pressed during a game in progress is appended when new. */
  lemma AcceptedKey(word: string, guessed: seq<char>, attempts: int, key: char)
    requires 'a' <= key <= 'z' && key !in guessed
    requires !IsGameOver(word, guessed, attempts)
    ensures KeyStep(word, guessed, attempts, key) == guessed + [key]
  {
  }

  /** "cat" with eight attempts: a and t leave it unsolved with no wrong guess; c wins. */
  lemma CatScenario()
    ensures KeyPresses("cat", [], 8, "at") == "at"
    ensures !IsGameWon("cat", "at") && WrongGuessCount("cat", "at") == 0
    ensures KeyPresses("cat", "at", 8, "c") == "atc" && IsGameWon("cat", "atc")
  {
    CatFirstTwoKeys();
    CatLastKey();
  }

  /** The first phase of the "cat" scenario: a, then t. */
  lemma CatFirstTwoKeys()
    ensures KeyPresses("cat", [], 8, "at") == "at"
    ensures !IsGameWon("cat", "at") && WrongGuessCount("cat", "at") == 0
  {
    assert "a" == [] + ['a'] && "at" == "a" + ['t'];
    assert KeyStep("cat", [], 8, 'a') == "a" by {
      assert "cat"[0] !in [];
      AcceptedKey("cat", [], 8, 'a');
    }
    WrongGuessesAppend("cat", [], 'a');
    WrongGuessesAppend("cat", "a", 't');
    assert KeyStep("cat", "a", 8, 't') == "at" by {
      assert "cat"[0] !in "a";
      AcceptedKey("cat", "a", 8, 't');
    }
    assert !IsGameWon("cat", "at") by { assert "cat"[0] !in "at"; }
    assert "at"[1..] == "t" && "t"[1..] == [];
  }

  /** The second phase of the "cat" scenario: c completes the word. */
  lemma CatLastKey()
    ensures KeyPresses("cat", "at", 8, "c") == "atc" && IsGameWon("cat", "atc")
  {
    assert "atc" == "at" + ['c'];
    assert !IsGameWon("cat", "at") by { assert "cat"[0] !in "at"; }
    WrongGuessesAppend("cat", [], 'a');
    WrongGuessesAppend("cat", "a", 't');
    assert "at" == ("" + ['a']) + ['t'];
    AcceptedKey("cat", "at", 8, 'c');
    assert "c"[1..] == [];
    assert "cat"[0] in "atc" && "cat"[1] in "atc" && "cat"[2] in "atc";
  }

  /** The eight keys of the "dog" scenario are distinct lowercase letters, none of them in the word. */
  lemma DogKeysAreDistinctWrongLetters()
    ensures forall c :: c in "xyzqwvur" ==> 'a' <= c <= 'z' && c !in "dog" && c !in []
    ensures NoDuplicates("xyzqwvur")
  {
  }

  /** "dog" with eight attempts: eight wrong letters lose it, and a ninth key is ignored. */
  lemma DogScenario()
    ensures KeyPresses("dog", [], 8, "xyzqwvur") == "xyzqwvur"
    ensures IsGameLost("dog", "xyzqwvur", 8)
    ensures KeyStep("dog", "xyzqwvur", 8, 'b') == "xyzqwvur"
  {
    var keys := "xyzqwvur";
    DogKeysAreDistinctWrongLetters();
    assert !IsGameWon("dog", []) by { assert "dog"[0] !in []; }
    assert [] + keys == keys;
    WrongLettersEachCostOne("dog", [], 8, keys);
  }
}
