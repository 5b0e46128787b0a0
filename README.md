# HangDev game core in Dafny

HangDev is a hangman game. A hidden word is revealed one guessed letter at a
time. Each wrong guess eliminates the next programming language of a ladder
of languages. The last language is never eliminated: the game is lost once
the wrong guesses reach one less than the number of languages.

This project models the game's state machine and proves its invariants.

- `utils.dfy` (module `Utils`, from `utils.js`): drawing a random word, and
  the farewell line for an eliminated language (curated line or generic
  fallback).
- `game_rules.dfy` (module `GameRules`, from `App.jsx`): everything computed
  from the two pieces of state, the current word and the ordered guess list.
  This covers the wrong-guess count, won, lost, over, the last guess and
  whether it was wrong. It also covers the guarded key step of the keyboard
  handler and the display queries: eliminated chips, visible and missed word
  letters, key status, and the status area with its farewell banner.
- `hang_dev.dfy` (module `HangDev`, from `App.jsx`): the session itself. A
  `Session` class holds `currentWord` and `guessedLetters` as fields, with
  methods for a key press, a click on an on-screen key and a new game. A
  `Storage` class stands for the browser store the session restores from at
  startup and writes to after each change.
- `wrappers.dfy`: an `Option` type.

Inputs the source takes from elsewhere are parameters of the model:
- the word list, non-empty, each word non-empty lowercase `a`–`z`;
- the language ladder, any sequence of languages;
- the value of `Math.random()`, a real in [0, 1).

Behaviour of App.jsx that the model keeps as written:
- **Restoring state.** The word and the guesses are restored independently
  (App.jsx:17-25). A stored word is kept whenever it is non-empty, whatever
  its letters.
- **Invalid keys.** A key that is not a letter is ignored silently
  (App.jsx:58).
- **Store writes.** The store is written only when a value actually changed,
  following the dependencies of the React effects (App.jsx:27-33). Guessing a
  letter that was already guessed writes nothing. A new game always rewrites
  the empty guess list, but rewrites the word only when the new word differs
  from the old one.

## Model

| member | source | states |
|---|---|---|
| `Utils.RandomIndex` | utils.js:4 | `floor(random * length)` is a valid index for every `random` in [0, 1) |
| `Utils.RandomIndexUniform` | utils.js:4 | index `i` is drawn exactly when `random` lies in [i/length, (i+1)/length), so every index gets an interval of equal width |
| `Utils.RandomWord` | utils.js:3-6 | the drawn word is a member of the word list, and a valid word when the list is valid |
| `Utils.RandomWordReachesEvery` | utils.js:3-6 | every word of the list is drawn for some value of `random` |
| `Utils.FarewellText` | utils.js:20-22 | a curated key gets its curated line, any other label gets `"Farewell, " + label`, and the result is never empty |
| `Utils.CuratedQuotes` | utils.js:8-18 | the keys of `CustomQuotes` (the `customQuotes` table) are exactly the nine language names, and each gets its own line |
| `Utils.LookupIsCaseSensitive` | utils.js:21 | `"html"` and `"Javascript"` get the generic line, not the curated one |
| `Utils.FallbackOnlyForMissingKeys` | utils.js:8-22 | the generic line is returned exactly for the labels that are not keys |
| `GameRules.AttemptsAllowed` | App.jsx:37 | `numGuessesLeft`, one less than the ladder length; `ChipsWithinBudget` states that within it the last language is never eliminated |
| `GameRules.WrongGuesses` | App.jsx:38 | there are never more wrong guesses than guesses |
| `GameRules.WrongGuessesLetters` | App.jsx:38 | the wrong guesses are exactly the guessed letters not in the word, and they have no duplicates when the guesses have none |
| `GameRules.WrongGuessesAppend` | App.jsx:38 | a guess appended at the end adds one to the wrong count exactly when its letter is not in the word |
| `GameRules.WrongGuessCount` | App.jsx:38 | the length of the wrong-guess filter; `WrongCountIsDistinctWrongLetters` states it is the number of distinct guessed letters not in the word |
| `GameRules.IsGameWon` | App.jsx:39 | every letter of the word is among the guesses; `OutcomeIsOrderIndependent` states it depends only on which letters were guessed, `GuessingTheWordWins` that pressing the word's letters reaches it |
| `GameRules.IsGameLost` | App.jsx:40 | the wrong count has reached the attempts; `WrongCountStaysInBudget` states that over any run of key presses this happens exactly at equality |
| `GameRules.IsGameOver` | App.jsx:41 | won or lost; `GameOverFreezes` states that no key press changes the guesses afterwards |
| `GameRules.LastGuessedLetter` | App.jsx:42 | absent exactly when nothing is guessed; otherwise the final entry of the guess list |
| `GameRules.IsLastGuessIncorrect` | App.jsx:43 | there is a last guess and it is not in the word; `FarewellIndexInRange` states that during a game in progress it implies a wrong count of at least one |
| `GameRules.AddGuessedLetter` | App.jsx:45-47 | an already guessed letter leaves the list unchanged; a new one is appended at the end; the letter set grows by the letter; no duplicate is ever introduced |
| `GameRules.ToLower` | App.jsx:57 | upper-case ASCII letters map to their lowercase letter, every other character is left as it is |
| `GameRules.AlphabetIsLowercase` | App.jsx:58 | a character is in the alphabet string exactly when it is a lowercase ASCII letter |
| `GameRules.KeyStep` | App.jsx:56-60 | the guesses after one key press: the lowercased key is added when it is a letter and the game is not over; `KeyStepEffect` states that a non-letter key changes nothing and an accepted key appends exactly its lowercase form, `GuessIsIdempotent` that a repeat press changes nothing more |
| `GameRules.KeyPresses` | App.jsx:56-60 | the guesses after a run of key presses, one `KeyStep` after another; `GameOverFreezes`, `KeyPressesKeepGuesses` and `WrongCountStaysInBudget` state what it preserves |
| `GameRules.KeyStepEffect` | App.jsx:56-60 | a key whose lowercase form is not in the alphabet changes nothing; a key that changes the guesses appends exactly its lowercase form, which was not guessed before; a key press changes nothing once the game is over, adds at most one wrong guess, keeps every earlier guess and never introduces a duplicate |
| `GameRules.GuessIsIdempotent` | App.jsx:45-47 | pressing the same key twice in a row gives the same guesses and wrong count as pressing it once |
| `GameRules.GameOverFreezes` | App.jsx:58 | once the game is over, any run of key presses leaves the guesses unchanged |
| `GameRules.KeyPressesKeepGuesses` | App.jsx:45-47 | over any run of key presses no guess is lost and no duplicate appears |
| `GameRules.WrongCountStaysInBudget` | App.jsx:37-41 | a wrong count within the attempts stays within them over any run of key presses, so afterwards the game is lost exactly when the wrong count equals the attempts |
| `GameRules.WrongCountIsDistinctWrongLetters` | App.jsx:38 | for a guess list without duplicates, the wrong count is the number of distinct guessed letters not in the word |
| `GameRules.OutcomeIsOrderIndependent` | App.jsx:38-41 | two duplicate-free guess lists with the same letters agree on won, wrong count and over |
| `GameRules.GuessingTheWordWins` | App.jsx:39 | pressing the word's letters in any order and with repeats, from a game not lost, wins it without a new wrong guess |
| `GameRules.WrongLettersEachCostOne` | App.jsx:38-41 | in a game not won, distinct wrong letters pressed while attempts remain are each recorded in order and each cost one attempt |
| `GameRules.NewGameIsInProgress` | App.jsx:49-53 | a fresh game with a non-empty word and at least two languages is neither won nor lost, has no wrong guess and no wrong last guess |
| `GameRules.ChipLost` | App.jsx:67 | whether the chip at a ladder position is shown eliminated; `LostChipsCount` and `ChipsWithinBudget` state how many are, and that the last language is not |
| `GameRules.LostChipsCount` | App.jsx:66-67 | on a ladder at least as long as the wrong count, exactly `wrongGuessCount` chips are shown eliminated |
| `GameRules.ChipsWithinBudget` | App.jsx:66-67 | within the budget exactly `wrongGuessCount` chips are eliminated, and the last language survives |
| `GameRules.LetterVisible` | App.jsx:81 | whether a letter of the word is shown; `WordRevealedAtGameOver` states when the whole word is |
| `GameRules.LetterMissed` | App.jsx:84 | whether a letter of the word is marked missed; `WordRevealedAtGameOver` states that a won game marks none |
| `GameRules.WordRevealedAtGameOver` | App.jsx:80-85 | the whole word is shown exactly when the game is over: at game over every letter is visible, in progress some letter is hidden; a won game marks no letter of the word as missed |
| `GameRules.KeyStatusOf` | App.jsx:94-96 | the colour of a key: unguessed, correct or wrong; `WrongKeysMatchWrongCount` states that the wrong keys are the wrong guesses |
| `GameRules.WrongKeysMatchWrongCount` | App.jsx:93-96 | a key is marked wrong exactly when it is a wrong guess, and with duplicate-free alphabet guesses there are `wrongGuessCount` such keys |
| `GameRules.FarewellIndex` | App.jsx:127 | `wrongGuessCount - 1`, the ladder position named by the farewell banner; `FarewellIndexInRange` states it is a valid one |
| `GameRules.FarewellIndexInRange` | App.jsx:124-127 | whenever the farewell banner is shown, `wrongGuessCount - 1` is a valid index into the ladder, short of its last two entries |
| `GameRules.GameStatus` | App.jsx:123-148 | the banner shows the farewell for the latest eliminated language exactly while the game goes on after a wrong last guess; it shows victory exactly when won, and defeat exactly when lost and not won |
| `GameRules.CatScenario` | App.jsx:39 | word "cat": after a and t the game is not won with no wrong guess; after c it is won |
| `GameRules.DogScenario` | App.jsx:40-41 | word "dog" with eight attempts: eight distinct wrong letters lose the game, and a ninth key leaves the eight guesses unchanged |
| `HangDev.RestoredWord` | App.jsx:17-20 | the startup word is the stored word when non-empty, otherwise a fresh valid word from the list; it is never empty |
| `HangDev.RestoredGuesses` | App.jsx:22-25 | the startup guesses are the stored list when there is one, in order, and none otherwise |
| `HangDev.Storage.constructor` | App.jsx:18-32 | the store's two entries, `currentWord` and `guessedLetters`, each possibly absent, hold the given values |
| `HangDev.Session.constructor` | App.jsx:17-33 | startup restores the word and guesses from the store, or falls back to a fresh word and no guesses, then writes both back to the store |
| `HangDev.Session.AddGuessedLetter` | App.jsx:45-47 | the guess list becomes the appended-unless-present list; the store keeps holding the current state |
| `HangDev.Session.HandleKeydown` | App.jsx:56-60 | the guesses follow the guarded key step: nothing changes once the game is over, the wrong count stays within budget, and no duplicates appear |
| `HangDev.Session.ClickKey` | App.jsx:104-109 | a click on a letter key guesses it unless the game is over, when the key is disabled |
| `HangDev.Session.StartNewGame` | App.jsx:49-53 | the new word is drawn from the list and the guesses are cleared; with at least two languages the game is in progress and the status area is empty |
| `HangDev.Reload` | App.jsx:17-33 | a new session over the same store starts with the same word and the same guesses |

## Left out

- Rendering: the JSX, the `clsx` class strings, the confetti, the colours of the chips, the screen-reader announcement text (App.jsx:150-197), and the theme toggle with its own store entry (App.jsx:9-15).
- Registering and removing the keydown listener (App.jsx:62-63). Its guard is modelled as `HandleKeydown`.
- Keys are modelled as single characters. Key names of several characters, and the substring semantics of `alphabet.includes`, are not modelled. `ToLower` maps only ASCII `A`–`Z`; case mapping of other Unicode characters is not modelled.
- `Math.random` and `Math.floor` are modelled over exact reals. Floating-point rounding is not modelled. The extra argument App.jsx passes to `getRandomWord` is ignored by the function, as in the source.
- JSON encoding of the guesses in the store is not modelled. A stored list that does not parse makes `JSON.parse` throw in the source (App.jsx:24); the model's store holds typed values and cannot express that failure.
- The contents of the word list and the language ladder come from files that are not part of this model. They are parameters.
- Property lookups on `customQuotes` that reach JavaScript's object prototype (a label such as `"toString"`) are not modelled; the lookup is an exact map lookup.
- `Utils.RandomWord`: requires a non-empty word list. In the source, an empty list makes `getRandomWord` return `undefined`.
