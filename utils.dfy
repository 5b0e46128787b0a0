/**
 * The helpers of utils.js: drawing a random word from the word list and
 * the farewell line spoken for an eliminated language.
 */
module Utils {

  /** A word of the word list: non-empty and made of lowercase ASCII letters only. */
  predicate IsLowerWord(w: string) {
    |w| > 0 && forall i :: 0 <= i < |w| ==> 'a' <= w[i] <= 'z'
  }

  /** What the game assumes of its word list. */
  predicate ValidWordList(words: seq<string>) {
    |words| > 0 && forall i :: 0 <= i < |words| ==> IsLowerWord(words[i])
  }

  /**
   * `Math.floor(Math.random() * words.length)`, with the value of
   * `Math.random()` passed in as `random`, a real in [0, 1).
   */
  function RandomIndex(random: real, length: nat): (i: nat)
    requires 0.0 <= random < 1.0 && length > 0
    ensures i < length
  {
    assert 0.0 <= random * length as real < length as real by {
      assert random * length as real < 1.0 * length as real;
    }
    (random * length as real).Floor
  }

  /**
   * Index `i` is drawn exactly when `random` lies in [i/length, (i+1)/length):
   * every index gets an interval of the same width.
   */
  lemma RandomIndexUniform(random: real, length: nat, i: nat)
    requires 0.0 <= random < 1.0 && i < length
    ensures RandomIndex(random, length) == i
        <==> i as real / length as real <= random < (i + 1) as real / length as real
  {
  }

  /** getRandomWord: the word at the drawn index. */
  function RandomWord(words: seq<string>, random: real): (w: string)
    requires 0.0 <= random < 1.0 && |words| > 0
    ensures w in words
    ensures ValidWordList(words) ==> IsLowerWord(w)
  {
    words[RandomIndex(random, |words|)]
  }

  /** Every word of the list can be drawn. */
  lemma RandomWordReachesEvery(words: seq<string>, i: nat)
    requires i < |words|
    ensures 0.0 <= i as real / |words| as real < 1.0
    ensures RandomWord(words, i as real / |words| as real) == words[i]
  {
    var n := |words| as real;
    var random := i as real / n;
    assert random * n == i as real;
    assert random < 1.0 by {
      assert random * n < 1.0 * n;
    }
    assert RandomIndex(random, |words|) == i;
  }

  /** The curated farewell lines, keyed by language name (utils.js `customQuotes`). */
  const CustomQuotes: map<string, string> := map[
    "HTML" := "I always felt... empty inside. Like a div without content.",
    "CSS" := "Guess specificity wins again.",
    "JavaScript" := "Maybe I should\U{2019}ve used triple equals...",
    "React" := "No more hooks... only regrets.",
    "TypeScript" := "Turns out types can't save you either.",
    "Node.js" := "Server crashed... permanently.",
    "Python" := "IndentationError: Developer lost.",
    "Ruby" := "Even elegance can\U{2019}t escape fate.",
    "Assembly" := "01000011 01111001 01100001... \U{1FAA6}"
  ]

  /**
   * getFarewellText: `customQuotes[language] || "Farewell, " + language`.
   * An empty curated line would be falsy and fall through to the generic one.
   */
  function FarewellText(language: string): (r: string)
    ensures language in CustomQuotes ==> r == CustomQuotes[language]
    ensures language !in CustomQuotes ==> r == "Farewell, " + language
    ensures |r| > 0
  {
    if language in CustomQuotes && CustomQuotes[language] != "" then CustomQuotes[language]
    else "Farewell, " + language
  }

  /** The nine curated keys, each with its own line. */
  lemma CuratedQuotes()
    ensures CustomQuotes.Keys == {"HTML", "CSS", "JavaScript", "React", "TypeScript", "Node.js", "Python", "Ruby", "Assembly"}
    ensures FarewellText("HTML") == "I always felt... empty inside. Like a div without content."
    ensures FarewellText("CSS") == "Guess specificity wins again."
    ensures FarewellText("JavaScript") == "Maybe I should\U{2019}ve used triple equals..."
    ensures FarewellText("React") == "No more hooks... only regrets."
    ensures FarewellText("TypeScript") == "Turns out types can't save you either."
    ensures FarewellText("Node.js") == "Server crashed... permanently."
    ensures FarewellText("Python") == "IndentationError: Developer lost."
    ensures FarewellText("Ruby") == "Even elegance can\U{2019}t escape fate."
    ensures FarewellText("Assembly") == "01000011 01111001 01100001... \U{1FAA6}"
  {
  }

  /** The lookup is exact and case-sensitive: near misses get the generic line. */
  lemma LookupIsCaseSensitive()
    ensures FarewellText("html") == "Farewell, html"
    ensures FarewellText("Javascript") == "Farewell, Javascript"
  {
  }

  /** The generic line is produced for exactly the labels that have no curated line. */
  lemma FallbackOnlyForMissingKeys(language: string)
    ensures FarewellText(language) == "Farewell, " + language <==> language !in CustomQuotes
  {
  }
}
