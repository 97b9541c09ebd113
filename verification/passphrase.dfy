/** The passphrase generator: words of five to eight characters are drawn
    from a word list, `numWords` times (four unless given), and joined with
    single spaces. The random draws of `crypto.randomInt` are a parameter:
    draw `i` is an index below the length of the filtered list. */
module Passphrase {
  import opened Wrappers
  import opened Text

  /** The default `numWords`. */
  const DefaultNumWords: nat := 4

  predicate IsCandidate(w: string) { 5 <= |w| <= 8 }

  /** `filterWordList`: the words of length 5 to 8, in list order. */
  function FilterWordList(words: seq<string>): (r: seq<string>)
    ensures |r| <= |words|
    ensures forall w :: w in r <==> w in words && IsCandidate(w)
  {
    if words == [] then []
    else if IsCandidate(words[0]) then [words[0]] + FilterWordList(words[1..])
    else FilterWordList(words[1..])
  }

  /** Filtering keeps the candidates in their order: the filter of a
      concatenation is the concatenation of the filters. */
  lemma {:induction false} FilterAppend(a: seq<string>, b: seq<string>)
    ensures FilterWordList(a + b) == FilterWordList(a) + FilterWordList(b)
  {
    if a != [] {
      assert (a + b)[0] == a[0];
      assert (a + b)[1..] == a[1..] + b;
      FilterAppend(a[1..], b);
      if IsCandidate(a[0]) {
        assert [a[0]] + (FilterWordList(a[1..]) + FilterWordList(b))
            == ([a[0]] + FilterWordList(a[1..])) + FilterWordList(b);
      }
    } else {
      assert a + b == b;
    }
  }

  /** Filtering a filtered list changes nothing. */
  lemma {:induction false} FilterIdempotent(words: seq<string>)
    ensures FilterWordList(FilterWordList(words)) == FilterWordList(words)
  {
    if words != [] {
      FilterIdempotent(words[1..]);
      if IsCandidate(words[0]) {
        var r := FilterWordList(words);
        assert r[0] == words[0] && r[1..] == FilterWordList(words[1..]);
      }
    }
  }

  /** `getCryptoRandomElement(array)`: the element at the drawn index. On an
      empty list the draw throws, the error is caught, and the element is
      `undefined`. */
  function GetRandomElement(words: seq<string>, draw: nat): (r: Option<string>)
    requires words == [] || draw < |words|
    ensures r.Some? <==> words != []
    ensures r.Some? ==> r.value in words
  {
    if words == [] then None else Some(words[draw])
  }

  /** An element in the joined text: `undefined` joins as the empty string. */
  function Rendered(e: Option<string>): string {
    e.GetOr("")
  }

  /** `buildPassphrase(wordList, numWords)`, with `draws` the indices drawn
      one per word. */
  function BuildPassphrase(words: seq<string>, numWords: nat, draws: seq<nat>): (r: string)
    requires |draws| == numWords
    requires forall i | 0 <= i < |draws| :: words == [] || draws[i] < |words|
    ensures numWords == 0 ==> r == ""
  {
    Join(Picks(words, draws), " ")
  }

  /** The words picked, in draw order. */
  function Picks(words: seq<string>, draws: seq<nat>): (r: seq<string>)
    requires forall i | 0 <= i < |draws| :: words == [] || draws[i] < |words|
    ensures |r| == |draws|
    ensures words != [] ==> forall i | 0 <= i < |r| :: r[i] == words[draws[i]]
    ensures words == [] ==> forall i | 0 <= i < |r| :: r[i] == ""
  {
    seq(|draws|, i requires 0 <= i < |draws| => Rendered(GetRandomElement(words, draws[i])))
  }

  /** `generatePassphraseAsync(wordList, numWords)`. */
  function GeneratePassphrase(wordList: seq<string>, numWords: nat, draws: seq<nat>): (r: string)
    requires |draws| == numWords
    requires forall i | 0 <= i < |draws| :: FilterWordList(wordList) == [] || draws[i] < |FilterWordList(wordList)|
  {
    BuildPassphrase(FilterWordList(wordList), numWords, draws)
  }

  /** With words free of spaces and at least one word asked for, the
      passphrase splits at its spaces into exactly the words drawn: each a
      word of the list of five to eight characters. */
  lemma PassphraseSplitsIntoDraws(wordList: seq<string>, numWords: nat, draws: seq<nat>)
    requires |draws| == numWords >= 1
    requires forall i | 0 <= i < |draws| :: FilterWordList(wordList) == [] || draws[i] < |FilterWordList(wordList)|
    requires forall w | w in wordList :: ' ' !in w
    ensures var parts := Split(GeneratePassphrase(wordList, numWords, draws), ' ');
            && |parts| == numWords
            && parts == Picks(FilterWordList(wordList), draws)
            && (FilterWordList(wordList) != [] ==>
                  forall i | 0 <= i < numWords :: parts[i] in wordList && IsCandidate(parts[i]))
  {
    var filtered := FilterWordList(wordList);
    var picks := Picks(filtered, draws);
    forall k | 0 <= k < |picks| ensures ' ' !in picks[k] {
      if filtered != [] {
        assert picks[k] in filtered;
      }
    }
    SplitJoin(picks, ' ');
  }

  /** By default the passphrase has four words. */
  lemma DefaultHasFourWords(wordList: seq<string>, draws: seq<nat>)
    requires |draws| == DefaultNumWords
    requires forall i | 0 <= i < |draws| :: FilterWordList(wordList) == [] || draws[i] < |FilterWordList(wordList)|
    requires forall w | w in wordList :: ' ' !in w
    ensures |Split(GeneratePassphrase(wordList, DefaultNumWords, draws), ' ')| == 4
  {
    PassphraseSplitsIntoDraws(wordList, DefaultNumWords, draws);
  }
}
