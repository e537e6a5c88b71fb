/**
 * The word scanner shared by `hide` and `seek`: splitting the cover text on
 * the space character, locating the next qualifying word, and pairing the
 * letters of a word into rounds. `Rounds` is the one traversal both
 * directions replay: the encodable rounds of the qualifying words, in
 * cover order.
 */
module Scanner {

  datatype Option<T> = None | Some(value: T)

  /** `s[i]` as JavaScript reads it: `undefined` outside the string. */
  function At(s: string, i: int): Option<char>
  {
    if 0 <= i < |s| then Some(s[i]) else None
  }

  /** Concatenates words, putting one space between neighbours. */
  function Join(words: seq<string>): string
    requires |words| >= 1
  {
    if |words| == 1 then words[0] else words[0] + " " + Join(words[1..])
  }

  /** Joining a word onto joined words puts one space between them. */
  lemma {:induction false} JoinCons(words: seq<string>, tail: string)
    requires |words| >= 2 && Join(words[1..]) == tail
    ensures Join(words) == words[0] + " " + tail
  {
  }

  /** `s.split(' ')`: the maximal space-free pieces between single spaces.
      The empty string gives one empty word, and each extra space gives an
      extra empty word. */
  function Split(s: string): (words: seq<string>)
    ensures |words| >= 1
    ensures forall i :: 0 <= i < |words| ==> ' ' !in words[i]
    ensures Join(words) == s
  {
    if s == [] then [""]
    else
      var rest := Split(s[1..]);
      if s[0] == ' ' then
        [""] + rest
      else
        assert [s[0]] + Join(rest) == s;
        JoinHead(rest, s[0]);
        [[s[0]] + rest[0]] + rest[1..]
  }

  lemma {:induction false} JoinHead(words: seq<string>, c: char)
    requires |words| >= 1
    ensures Join([[c] + words[0]] + words[1..]) == [c] + Join(words)
  {
    var ws := [[c] + words[0]] + words[1..];
    if |words| > 1 {
      var tail := Join(words[1..]);
      calc {
        Join(ws);
        ws[0] + " " + Join(ws[1..]);
        { assert ws[1..] == words[1..]; }
        [c] + words[0] + " " + tail;
        [c] + (words[0] + " " + tail);
        [c] + Join(words);
      }
    }
  }

  /** Splitting undoes joining: the words of a cover text are recovered
      exactly when none of them holds a space. */
  lemma {:induction false} SplitJoin(words: seq<string>)
    requires |words| >= 1
    requires forall i :: 0 <= i < |words| ==> ' ' !in words[i]
    ensures Split(Join(words)) == words
  {
    if |words| == 1 {
      SplitWord(words[0]);
    } else {
      SplitJoin(words[1..]);
      SplitPrefix(words[0], Join(words[1..]));
      assert words == [words[0]] + words[1..];
    }
  }

  lemma {:induction false} SplitWord(w: string)
    requires ' ' !in w
    ensures Split(w) == [w]
  {
    if w != [] {
      SplitWord(w[1..]);
      assert [w[0]] + w[1..] == w;
    }
  }

  lemma {:induction false} SplitPrefix(w: string, rest: string)
    requires ' ' !in w
    ensures Split(w + " " + rest) == [w] + Split(rest)
  {
    if w == [] {
      assert w + " " + rest == [' '] + rest;
      assert (w + " " + rest)[1..] == rest;
    } else {
      assert (w + " " + rest)[1..] == w[1..] + " " + rest;
      SplitPrefix(w[1..], rest);
      assert [w[0]] + w[1..] == w;
    }
  }

  /** The test `word[0] !== word[word.length - 1]` of `findIndex`. */
  predicate Qualifies(word: string)
  {
    At(word, 0) != At(word, |word| - 1)
  }

  /** A word qualifies exactly when it has at least two letters and its
      first and last letters differ; empty and one-letter words never do. */
  lemma {:induction false} QualifiesIff(word: string)
    ensures Qualifies(word) <==> |word| >= 2 && word[0] != word[|word| - 1]
  {
  }

  /** `words.findIndex(Qualifies)`: the index of the first qualifying word,
      or -1 when there is none. */
  function FirstQualifying(words: seq<string>): (i: int)
    ensures -1 <= i < |words|
    ensures i >= 0 ==> Qualifies(words[i])
    ensures forall k :: 0 <= k < |words| && (i < 0 || k < i) ==> !Qualifies(words[k])
  {
    if words == [] then -1
    else if Qualifies(words[0]) then 0
    else
      var i := FirstQualifying(words[1..]);
      if i < 0 then -1 else i + 1
  }

  /** A letter round: the frontal letter `word[i]` paired with the posterior
      letter `word[length - 1 - i]`. */
  datatype Round = Round(frontal: char, posterior: char)

  /** The encodable rounds of `word` from round `n` on, in order; a round
      whose two letters are equal carries no bit and is skipped. */
  function RoundsFrom(word: string, n: nat): (rs: seq<Round>)
    requires n <= |word| / 2
    ensures |rs| <= |word| / 2 - n
    ensures forall k :: 0 <= k < |rs| ==> rs[k].frontal != rs[k].posterior
    decreases |word| / 2 - n
  {
    if n == |word| / 2 then []
    else
      var front, back := word[n], word[|word| - 1 - n];
      (if front != back then [Round(front, back)] else []) + RoundsFrom(word, n + 1)
  }

  /** The encodable rounds of a whole word: there are `floor(length / 2)`
      rounds, and the middle letter of an odd-length word is in none. */
  function WordRounds(word: string): seq<Round>
  {
    RoundsFrom(word, 0)
  }

  /** The shared traversal: the encodable rounds of the qualifying words, in
      cover order; words that do not qualify contribute nothing. */
  function Rounds(words: seq<string>): (rs: seq<Round>)
    ensures forall k :: 0 <= k < |rs| ==> rs[k].frontal != rs[k].posterior
  {
    if words == [] then []
    else (if Qualifies(words[0]) then WordRounds(words[0]) else []) + Rounds(words[1..])
  }

  /** Every qualifying word has at least one encodable round, round 0, so
      each word the scanner stops at consumes at least one bit or key
      character. */
  lemma {:induction false} QualifyingHasRound(word: string)
    requires Qualifies(word)
    ensures |WordRounds(word)| >= 1
    ensures WordRounds(word)[0] == Round(word[0], word[|word| - 1])
  {
  }

  /** The traversal is forward-only: the rounds of two consecutive stretches
      of words are those of the first stretch followed by those of the
      second, so no word is visited twice. */
  lemma {:induction false} RoundsAppend(a: seq<string>, b: seq<string>)
    ensures Rounds(a + b) == Rounds(a) + Rounds(b)
  {
    if a == [] {
      assert a + b == b;
    } else {
      assert (a + b)[1..] == a[1..] + b;
      RoundsAppend(a[1..], b);
    }
  }

  /** One scanner step: the rounds of the remaining words are those of the
      first qualifying word followed by those of the words after it; when
      no word qualifies there are none. */
  lemma {:induction false} RoundsStep(words: seq<string>)
    ensures var i := FirstQualifying(words);
      if i < 0 then Rounds(words) == []
      else Rounds(words) == WordRounds(words[i]) + Rounds(words[i + 1..])
  {
    if words != [] && !Qualifies(words[0]) {
      RoundsStep(words[1..]);
      var i := FirstQualifying(words[1..]);
      if i >= 0 {
        assert words[1..][i + 1..] == words[i + 2..];
      }
    }
  }
}
