/**
 * The game session of App.jsx: the two pieces of React state (`currentWord`
 * and `guessedLetters`) as fields of a class, the store they are restored
 * from at startup and written back to after every change, and the
 * operations that change them: a key press, a click on an on-screen key,
 * and starting a new game.
 */
module HangDev {
  import opened Wrappers
  import Utils
  import opened GameRules

  /** The browser store as the game uses it: two entries, each possibly absent. */
  class Storage {
    var currentWord: Option<string>
    var guessedLetters: Option<seq<char>>

    constructor (currentWord: Option<string>, guessedLetters: Option<seq<char>>)
      ensures this.currentWord == currentWord && this.guessedLetters == guessedLetters
    {
      this.currentWord := currentWord;
      this.guessedLetters := guessedLetters;
    }
  }

  /** The word at startup: the stored one unless it is absent or empty, else a fresh draw. */
  function RestoredWord(stored: Option<string>, words: seq<string>, random: real): (w: string)
    requires Utils.ValidWordList(words) && 0.0 <= random < 1.0
    ensures |w| > 0
    ensures stored.Some? && stored.value != [] ==> w == stored.value
    ensures stored.None? || stored.value == [] ==> w in words && Utils.IsLowerWord(w)
  {
    if stored.Some? && stored.value != [] then stored.value else Utils.RandomWord(words, random)
  }

  /** The guesses at startup: the stored list when there is one, else none. */
  function RestoredGuesses(stored: Option<seq<char>>): (g: seq<char>)
    ensures stored.Some? ==> g == stored.value
    ensures stored.None? ==> g == []
  {
    stored.GetOr([])
  }

  class Session {
    const words: seq<string>
    const languages: seq<Language>
    const storage: Storage
    var currentWord: string
    var guessedLetters: seq<char>

    /** A usable word list, a non-empty word, and a store that holds the current state. */
    ghost predicate Valid()
      reads this, storage
    {
      Utils.ValidWordList(words) && |currentWord| > 0
      && storage.currentWord == Some(currentWord)
      && storage.guessedLetters == Some(guessedLetters)
    }

    /** Startup: restore both pieces of state, then write them to the store. */
    constructor (words: seq<string>, languages: seq<Language>, storage: Storage, random: real)
      requires Utils.ValidWordList(words) && 0.0 <= random < 1.0
      modifies storage
      ensures Valid()
      ensures this.words == words && this.languages == languages && this.storage == storage
      ensures currentWord == RestoredWord(old(storage.currentWord), words, random)
      ensures guessedLetters == RestoredGuesses(old(storage.guessedLetters))
    {
      this.words := words;
      this.languages := languages;
      this.storage := storage;
      currentWord := RestoredWord(storage.currentWord, words, random);
      guessedLetters := RestoredGuesses(storage.guessedLetters);
      new;
      storage.currentWord := Some(currentWord);
      storage.guessedLetters := Some(guessedLetters);
    }

    /**
     * addGuessedLetter: append the letter unless it is already guessed; the
     * store is written only when the list changed.
     */
    method AddGuessedLetter(letter: char)
      requires Valid()
      modifies this, storage
      ensures Valid()
      ensures currentWord == old(currentWord)
      ensures guessedLetters == GameRules.AddGuessedLetter(old(guessedLetters), letter)
    {
      var next := GameRules.AddGuessedLetter(guessedLetters, letter);
      if next != guessedLetters {
        guessedLetters := next;
        storage.guessedLetters := Some(next);
      }
    }

    /**
     * handleKeydown: the key, lowercased, is guessed when it is a letter of
     * the alphabet and the game is not over; anything else is ignored. Once
     * the game is over nothing changes; the wrong count stays within the
     * attempts and the guesses stay free of duplicates.
     */
    method HandleKeydown(key: char)
      requires Valid()
      modifies this, storage
      ensures Valid()
      ensures currentWord == old(currentWord)
      ensures guessedLetters == KeyStep(currentWord, old(guessedLetters), AttemptsAllowed(languages), key)
      ensures old(IsGameOver(currentWord, guessedLetters, AttemptsAllowed(languages))) ==> guessedLetters == old(guessedLetters)
      ensures old(WrongGuessCount(currentWord, guessedLetters)) <= AttemptsAllowed(languages)
              ==> WrongGuessCount(currentWord, guessedLetters) <= AttemptsAllowed(languages)
      ensures NoDuplicates(old(guessedLetters)) ==> NoDuplicates(guessedLetters)
    {
      ghost var before := guessedLetters;
      var letter := ToLower(key);
      AlphabetIsLowercase(letter);
      if letter in Alphabet && !IsGameOver(currentWord, guessedLetters, AttemptsAllowed(languages)) {
        AddGuessedLetter(letter);
      }
      KeyStepEffect(currentWord, before, AttemptsAllowed(languages), key);
    }

    /**
     * A click on the on-screen key for `letter`; the keys are disabled once
     * the game is over, so the click then does nothing.
     */
    method ClickKey(letter: char)
      requires Valid() && letter in Alphabet
      modifies this, storage
      ensures Valid()
      ensures currentWord == old(currentWord)
      ensures guessedLetters == KeyStep(currentWord, old(guessedLetters), AttemptsAllowed(languages), letter)
      ensures old(IsGameOver(currentWord, guessedLetters, AttemptsAllowed(languages))) ==> guessedLetters == old(guessedLetters)
    {
      AlphabetIsLowercase(letter);
      if !IsGameOver(currentWord, guessedLetters, AttemptsAllowed(languages)) {
        AddGuessedLetter(letter);
      }
    }

    /**
     * startNewGame: a freshly drawn word and no guesses, whatever the state
     * before; the word is written only when it differs from the old one, the
     * empty guess list always. With at least two languages the new game is
     * in progress, with no wrong guess and no farewell banner.
     */
    method StartNewGame(random: real)
      requires Valid() && 0.0 <= random < 1.0
      modifies this, storage
      ensures Valid()
      ensures currentWord == Utils.RandomWord(words, random) && currentWord in words
      ensures guessedLetters == []
      ensures WrongGuessCount(currentWord, guessedLetters) == 0
      ensures |languages| >= 2 ==> !IsGameOver(currentWord, guessedLetters, AttemptsAllowed(languages))
      ensures GameStatus(languages, currentWord, guessedLetters) == (if |languages| >= 2 then Silent else Defeat)
    {
      var newWord := Utils.RandomWord(words, random);
      if newWord != currentWord {
        currentWord := newWord;
        storage.currentWord := Some(newWord);
      }
      guessedLetters := [];
      storage.guessedLetters := Some([]);
      if |languages| >= 2 {
        NewGameIsInProgress(currentWord, languages);
      } else {
        assert currentWord[0] !in guessedLetters;
      }
    }
  }

  /**
   * A page reload: a new session over the same store comes up with the word
   * and the guesses exactly as they were.
   */
  method Reload(s: Session, random: real) returns (t: Session)
    requires s.Valid() && 0.0 <= random < 1.0
    modifies s.storage
    ensures t.Valid() && t.storage == s.storage && t.words == s.words && t.languages == s.languages
    ensures t.currentWord == s.currentWord && t.guessedLetters == s.guessedLetters
  {
    t := new Session(s.words, s.languages, s.storage, random);
  }
}
