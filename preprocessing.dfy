/**
 * The summariser of preprocessing.py: the part-of-speech mapping, the
 * frequency-based sentence selection of `summarize_text`, the title
 * derivation and the item loop of `process_json_file`.
 *
 * nltk's tokenisers, tagger, lemmatiser and stop-word list are inputs (`Nlp`);
 * what is modelled is what the code does with their results.
 */
module Preprocessing {
  import opened Strings
  import opened Scraper

  // ---------------------------------------------------------------------
  // get_wordnet_pos
  // ---------------------------------------------------------------------

  /** The values of `wordnet.ADJ`, `wordnet.VERB`, `wordnet.NOUN` and `wordnet.ADV`. */
  const ADJ: char := 'a'
  const VERB: char := 'v'
  const NOUN: char := 'n'
  const ADV: char := 'r'

  /** `get_wordnet_pos`: the WordNet part of speech of a Penn Treebank tag. */
  function WordnetPos(tag: string): (pos: char)
    ensures pos == ADJ || pos == VERB || pos == NOUN || pos == ADV
    ensures pos == ADJ <==> StartsWith(tag, "J")
    ensures pos == VERB <==> StartsWith(tag, "V")
    ensures pos == ADV <==> StartsWith(tag, "R")
    ensures pos == NOUN <==> !(StartsWith(tag, "J") || StartsWith(tag, "V") || StartsWith(tag, "R"))
  {
    if StartsWith(tag, "J") then ADJ
    else if StartsWith(tag, "V") then VERB
    else if StartsWith(tag, "N") then NOUN
    else if StartsWith(tag, "R") then ADV
    else NOUN
  }

  /** Tags are told apart by their first letter alone; the empty tag and `N…` tags are nouns. */
  lemma WordnetPosByFirstLetter(tag: string)
    ensures tag == [] ==> WordnetPos(tag) == NOUN
    ensures tag != [] && tag[0] == 'J' ==> WordnetPos(tag) == ADJ
    ensures tag != [] && tag[0] == 'V' ==> WordnetPos(tag) == VERB
    ensures tag != [] && tag[0] == 'N' ==> WordnetPos(tag) == NOUN
    ensures tag != [] && tag[0] == 'R' ==> WordnetPos(tag) == ADV
    ensures tag != [] && tag[0] !in {'J', 'V', 'N', 'R'} ==> WordnetPos(tag) == NOUN
  {
    if tag != [] {
      assert tag[..1] == [tag[0]];
    }
  }

  // ---------------------------------------------------------------------
  // The given language tools
  // ---------------------------------------------------------------------

  /** A token and its Penn Treebank tag, as `nltk.pos_tag` pairs them. */
  datatype Tagged = Tagged(word: string, tag: string)

  /**
   * What nltk provides: `sent_tokenize`, `word_tokenize`, `str.lower`,
   * `pos_tag`, `WordNetLemmatizer().lemmatize`, the English stop words, and
   * the character test behind `str.isalnum`.
   */
  datatype Nlp = Nlp(
    sentTokenize: string -> seq<string>,
    wordTokenize: string -> seq<string>,
    lower: string -> string,
    posTag: seq<string> -> seq<Tagged>,
    lemmatize: (string, char) -> string,
    stopWords: set<string>,
    isAlnumChar: char -> bool)

  /** `word.isalnum()`: non-empty, and every character alphanumeric. */
  predicate IsAlnum(nlp: Nlp, word: string)
  {
    |word| > 0 && forall i :: 0 <= i < |word| ==> nlp.isAlnumChar(word[i])
  }

  /** The filter of the comprehension at preprocessing.py:44-45. */
  predicate Kept(nlp: Nlp, t: Tagged)
  {
    IsAlnum(nlp, t.word) && t.word !in nlp.stopWords
  }

  /** `lemmatizer.lemmatize(word, get_wordnet_pos(pos))`. */
  function LemmaOf(nlp: Nlp, t: Tagged): string
  {
    nlp.lemmatize(t.word, WordnetPos(t.tag))
  }

  /** The tagged tokens of a text, as both loops of `summarize_text` compute them. */
  function TaggedOf(nlp: Nlp, text: string): seq<Tagged>
  {
    nlp.posTag(nlp.wordTokenize(nlp.lower(text)))
  }

  // ---------------------------------------------------------------------
  // The frequency table
  // ---------------------------------------------------------------------

  /** The list comprehension at preprocessing.py:44-45: the lemmas of the kept tokens, in order. */
  function Tokens(nlp: Nlp, tagged: seq<Tagged>): (r: seq<string>)
    ensures |r| <= |tagged|
    ensures forall w :: w in r <==> exists i :: 0 <= i < |tagged| && Kept(nlp, tagged[i]) && LemmaOf(nlp, tagged[i]) == w
    decreases |tagged|
  {
    if tagged == [] then []
    else
      var init, last := tagged[..|tagged| - 1], tagged[|tagged| - 1];
      var prev := Tokens(nlp, init);
      assert forall i :: 0 <= i < |init| ==> init[i] == tagged[i];
      if Kept(nlp, last) then prev + [LemmaOf(nlp, last)] else prev
  }

  /** `FreqDist(words)`: how often each kept lemma occurs. */
  function Freq(nlp: Nlp, text: string): multiset<string>
  {
    multiset(Tokens(nlp, TaggedOf(nlp, text)))
  }

  /** A word is in the frequency table exactly when some kept token of the text lemmatises to it. */
  lemma FreqKeys(nlp: Nlp, text: string, w: string)
    ensures w in Freq(nlp, text) <==>
            exists i :: 0 <= i < |TaggedOf(nlp, text)| && Kept(nlp, TaggedOf(nlp, text)[i]) && LemmaOf(nlp, TaggedOf(nlp, text)[i]) == w
  {
    var toks := Tokens(nlp, TaggedOf(nlp, text));
    assert w in multiset(toks) <==> w in toks;
  }

  /** The positions of the kept tokens whose lemma is `w`. */
  function KeptPositions(nlp: Nlp, tagged: seq<Tagged>, w: string): set<nat>
  {
    set i: nat | i < |tagged| && Kept(nlp, tagged[i]) && LemmaOf(nlp, tagged[i]) == w
  }

  /** The last token adds its own position exactly when it is kept and lemmatises to `w`. */
  lemma KeptPositionsSnoc(nlp: Nlp, tagged: seq<Tagged>, w: string)
    requires tagged != []
    ensures var n := |tagged| - 1;
            var t := tagged[n];
            KeptPositions(nlp, tagged, w)
              == KeptPositions(nlp, tagged[..n], w) + (if Kept(nlp, t) && LemmaOf(nlp, t) == w then {n} else {})
  {
    var n := |tagged| - 1;
    assert forall i :: 0 <= i < n ==> tagged[..n][i] == tagged[i];
  }

  /** Every kept token contributes one occurrence of its lemma, and nothing else does. */
  lemma {:induction false} TokensCount(nlp: Nlp, tagged: seq<Tagged>, w: string)
    ensures multiset(Tokens(nlp, tagged))[w] == |KeptPositions(nlp, tagged, w)|
    decreases |tagged|
  {
    if tagged == [] {
      assert KeptPositions(nlp, tagged, w) == {};
    } else {
      var n := |tagged| - 1;
      var init, last := tagged[..n], tagged[n];
      TokensCount(nlp, init, w);
      KeptPositionsSnoc(nlp, tagged, w);
      var before := KeptPositions(nlp, init, w);
      assert n !in before;
      var extra := if Kept(nlp, last) then [LemmaOf(nlp, last)] else [];
      assert Tokens(nlp, tagged) == Tokens(nlp, init) + extra;
      assert multiset(Tokens(nlp, tagged))[w] == multiset(Tokens(nlp, init))[w] + multiset(extra)[w];
    }
  }

  /** `FreqDist(words)[w]` is the number of kept tokens of the text that lemmatise to `w`. */
  lemma FreqCount(nlp: Nlp, text: string, w: string)
    ensures Freq(nlp, text)[w] == |KeptPositions(nlp, TaggedOf(nlp, text), w)|
  {
    TokensCount(nlp, TaggedOf(nlp, text), w);
  }

  // ---------------------------------------------------------------------
  // Sentence scores
  // ---------------------------------------------------------------------

  /** The lemma of every token of a sentence, unfiltered (preprocessing.py:53-54). */
  function Lemmas(nlp: Nlp, tagged: seq<Tagged>): (r: seq<string>)
    ensures |r| == |tagged|
    ensures forall i :: 0 <= i < |tagged| ==> r[i] == LemmaOf(nlp, tagged[i])
    decreases |tagged|
  {
    if tagged == [] then []
    else
      var prev := Lemmas(nlp, tagged[..|tagged| - 1]);
      prev + [LemmaOf(nlp, tagged[|tagged| - 1])]
  }

  function SentenceLemmas(nlp: Nlp, sentence: string): seq<string>
  {
    Lemmas(nlp, TaggedOf(nlp, sentence))
  }

  /** The sum of `freq[word]` over the words, repeats included, absent words adding 0. */
  function Score(freq: multiset<string>, words: seq<string>): nat
    decreases |words|
  {
    if words == [] then 0
    else Score(freq, words[..|words| - 1]) + freq[words[|words| - 1]]
  }

  /** Some word of the sentence is in the frequency table. */
  predicate Scored(freq: multiset<string>, words: seq<string>)
  {
    exists i :: 0 <= i < |words| && words[i] in freq
  }

  /** A score is positive exactly when the sentence has a word in the table. */
  lemma {:induction false} ScorePositive(freq: multiset<string>, words: seq<string>)
    ensures Score(freq, words) > 0 <==> Scored(freq, words)
    decreases |words|
  {
    if words != [] {
      var init, last := words[..|words| - 1], words[|words| - 1];
      ScorePositive(freq, init);
      if Scored(freq, init) {
        var i :| 0 <= i < |init| && init[i] in freq;
        assert words[i] == init[i];
      }
      if Scored(freq, words) && !(last in freq) {
        var i :| 0 <= i < |words| && words[i] in freq;
        assert i < |init| && init[i] == words[i];
      }
    }
  }

  /**
   * The `sentence_scores` dictionary after the first `|sentences|` sentences:
   * the last one adds its entry if one of its words is in the table.
   */
  function Scores(nlp: Nlp, freq: multiset<string>, sentences: seq<string>): map<nat, nat>
    decreases |sentences|
  {
    if sentences == [] then map[]
    else
      var n := |sentences| - 1;
      var prev := Scores(nlp, freq, sentences[..n]);
      var words := SentenceLemmas(nlp, sentences[n]);
      if Scored(freq, words) then prev[n := Score(freq, words)] else prev
  }

  /**
   * A sentence has a score exactly when one of its words is in the table; the
   * score is the sum over its words, and at least 1.
   */
  lemma {:induction false} ScoresMeaning(nlp: Nlp, freq: multiset<string>, sentences: seq<string>, i: nat)
    ensures i in Scores(nlp, freq, sentences) <==> i < |sentences| && Scored(freq, SentenceLemmas(nlp, sentences[i]))
    ensures i in Scores(nlp, freq, sentences) ==>
              Scores(nlp, freq, sentences)[i] == Score(freq, SentenceLemmas(nlp, sentences[i])) >= 1
    decreases |sentences|
  {
    if sentences != [] {
      var n := |sentences| - 1;
      ScoresMeaning(nlp, freq, sentences[..n], i);
      if i < n {
        assert sentences[..n][i] == sentences[i];
      }
      if i < |sentences| {
        ScorePositive(freq, SentenceLemmas(nlp, sentences[i]));
      }
    }
  }

  /** The partial score of sentence `i` after its first `j` words (the inner loop's `+=`). */
  function Partial(base: map<nat, nat>, freq: multiset<string>, words: seq<string>, i: nat): map<nat, nat>
  {
    if Scored(freq, words) then base[i := Score(freq, words)] else base
  }

  lemma PartialStep(base: map<nat, nat>, freq: multiset<string>, words: seq<string>, i: nat, j: nat)
    requires j < |words| && i !in base
    ensures var cur := Partial(base, freq, words[..j], i);
            var w := words[j];
            Partial(base, freq, words[..j + 1], i) ==
              if w !in freq then cur
              else if i !in cur then cur[i := freq[w]]
              else cur[i := cur[i] + freq[w]]
  {
    var p, q := words[..j], words[..j + 1];
    assert q[..j] == p && q[j] == words[j];
    ScorePositive(freq, p);
    ScorePositive(freq, q);
  }

  /** The nested loops at preprocessing.py:51-59, filling `sentence_scores`. */
  method ScoreSentences(nlp: Nlp, freq: multiset<string>, sentences: seq<string>) returns (scores: map<nat, nat>)
    ensures scores == Scores(nlp, freq, sentences)
  {
    scores := map[];
    for i := 0 to |sentences|
      invariant scores == Scores(nlp, freq, sentences[..i])
    {
      ghost var base := scores;
      ScoresMeaning(nlp, freq, sentences[..i], i);
      var tagged := TaggedOf(nlp, sentences[i]);
      ghost var words := SentenceLemmas(nlp, sentences[i]);
      assert words[..0] == [];
      for j := 0 to |tagged|
        invariant scores == Partial(base, freq, words[..j], i)
      {
        var word := LemmaOf(nlp, tagged[j]);
        assert word == words[j];
        PartialStep(base, freq, words, i, j);
        if word in freq {
          if i !in scores {
            scores := scores[i := freq[word]];
          } else {
            scores := scores[i := scores[i] + freq[word]];
          }
        }
      }
      assert words[..|tagged|] == words;
      assert sentences[..i + 1][..i] == sentences[..i];
    }
    assert sentences[..|sentences|] == sentences;
  }

  // ---------------------------------------------------------------------
  // Selection: heapq.nlargest
  // ---------------------------------------------------------------------

  /**
   * `x` comes before `y` in `sorted(c, key=score.get, reverse=True)`: a higher
   * score, or the same score and an earlier place in `c`. The candidates are
   * always the dictionary's keys, which are in increasing order, so the earlier
   * candidate is the smaller index.
   */
  predicate Ahead(x: nat, y: nat, score: map<nat, nat>)
    requires x in score && y in score
  {
    score[x] > score[y] || (score[x] == score[y] && x < y)
  }

  /** The candidate `nlargest` takes first: the highest score, the earliest among ties. */
  function Best(c: seq<nat>, score: map<nat, nat>): (b: nat)
    requires c != [] && forall x :: x in c ==> x in score
    ensures b in c
    ensures forall x :: x in c && x != b ==> Ahead(b, x, score)
  {
    if |c| == 1 then c[0]
    else
      var b := Best(c[1..], score);
      assert forall x :: x in c && x != c[0] ==> x in c[1..];
      if Ahead(c[0], b, score) then c[0] else b
  }

  /** The candidates other than `b`, in their order. */
  function Drop(c: seq<nat>, b: nat): (r: seq<nat>)
    ensures forall x :: x in r <==> x in c && x != b
    ensures b in c ==> |r| < |c|
    ensures |r| <= |c|
  {
    if c == [] then []
    else if c[0] == b then Drop(c[1..], b)
    else [c[0]] + Drop(c[1..], b)
  }

  /**
   * `heapq.nlargest(k, c, key=score.get)`, which is
   * `sorted(c, key=score.get, reverse=True)[:k]`: the best candidate, then the
   * best of the rest, `k` times or until none is left.
   */
  function TopK(k: int, c: seq<nat>, score: map<nat, nat>): (r: seq<nat>)
    requires forall x :: x in c ==> x in score
    ensures forall x :: x in r ==> x in c
    ensures k <= 0 ==> r == []
    ensures |r| <= k || k <= 0
    ensures 0 < |r| + 1 <= k ==> forall x :: x in c ==> x in r
    decreases |c|
  {
    if k <= 0 || c == [] then []
    else
      var b := Best(c, score);
      var r := TopK(k - 1, Drop(c, b), score);
      assert forall x :: x in c && x != b ==> x in Drop(c, b);
      [b] + r
  }

  /** Distinct picks, each one ahead of the picks after it. */
  predicate Ordered(r: seq<nat>, score: map<nat, nat>)
  {
    forall i, j :: 0 <= i < j < |r| ==>
      r[i] != r[j] && r[i] in score && r[j] in score && Ahead(r[i], r[j], score)
  }

  /** Every pick is ahead of every candidate of `c` left out. */
  predicate Dominates(r: seq<nat>, c: seq<nat>, score: map<nat, nat>)
  {
    forall x, y :: x in r && y in c && y !in r ==> x in score && y in score && Ahead(x, y, score)
  }

  lemma OrderedCons(b: nat, r: seq<nat>, score: map<nat, nat>)
    requires b in score && b !in r && Ordered(r, score)
    requires forall x :: x in r ==> x in score && Ahead(b, x, score)
    ensures Ordered([b] + r, score)
  {
    var q := [b] + r;
    forall i, j | 0 <= i < j < |q|
      ensures q[i] != q[j] && q[i] in score && q[j] in score && Ahead(q[i], q[j], score)
    {
      assert q[j] == r[j - 1] && r[j - 1] in r;
      if i > 0 {
        assert q[i] == r[i - 1];
      }
    }
  }

  /** `nlargest` picks distinct candidates, in the order of the sort. */
  lemma {:induction false} TopKOrdered(k: int, c: seq<nat>, score: map<nat, nat>)
    requires forall x :: x in c ==> x in score
    ensures Ordered(TopK(k, c, score), score)
    decreases |c|
  {
    if k > 0 && c != [] {
      var b := Best(c, score);
      var r := TopK(k - 1, Drop(c, b), score);
      TopKOrdered(k - 1, Drop(c, b), score);
      assert forall x :: x in r ==> x in Drop(c, b);
      OrderedCons(b, r, score);
    }
  }

  /** No candidate `nlargest` leaves out is ahead of one it picks. */
  lemma {:induction false} TopKDominates(k: int, c: seq<nat>, score: map<nat, nat>)
    requires forall x :: x in c ==> x in score
    ensures Dominates(TopK(k, c, score), c, score)
    decreases |c|
  {
    if k > 0 && c != [] {
      var b := Best(c, score);
      var r := TopK(k - 1, Drop(c, b), score);
      TopKDominates(k - 1, Drop(c, b), score);
      var q := [b] + r;
      assert TopK(k, c, score) == q;
      forall x, y | x in q && y in c && y !in q
        ensures x in score && y in score && Ahead(x, y, score)
      {
        assert y != b && y in Drop(c, b) && y !in r;
        if x != b {
          assert x in r;
        }
      }
    }
  }

  predicate Increasing(c: seq<nat>)
  {
    forall i, j :: 0 <= i < j < |c| ==> c[i] < c[j]
  }

  /** The elements of `s` below `n`, in increasing order. */
  function Ascending(s: set<nat>, n: nat): (r: seq<nat>)
    ensures Increasing(r)
    ensures forall x :: x in r <==> x in s && x < n
    decreases n
  {
    if n == 0 then []
    else
      var prev := Ascending(s, n - 1);
      assert forall i :: 0 <= i < |prev| ==> prev[i] in prev;
      if n - 1 in s then prev + [n - 1] else prev
  }

  /** `' '.join(xs)`. */
  function JoinSpace(xs: seq<string>): string
    decreases |xs|
  {
    if xs == [] then ""
    else if |xs| == 1 then xs[0]
    else xs[0] + " " + JoinSpace(xs[1..])
  }

  /** Joining two non-empty runs of sentences puts exactly one space between them. */
  lemma {:induction false} JoinSpaceAppend(xs: seq<string>, ys: seq<string>)
    requires xs != [] && ys != []
    ensures JoinSpace(xs + ys) == JoinSpace(xs) + " " + JoinSpace(ys)
    decreases |xs|
  {
    if |xs| > 1 {
      assert (xs + ys)[1..] == xs[1..] + ys;
      JoinSpaceAppend(xs[1..], ys);
    } else {
      assert (xs + ys)[1..] == ys;
    }
  }

  /** `[sentences[i] for i in order]`. */
  function Pick(sentences: seq<string>, order: seq<nat>): (r: seq<string>)
    requires forall x :: x in order ==> x < |sentences|
    ensures |r| == |order|
    ensures forall k :: 0 <= k < |order| ==> order[k] < |sentences| && r[k] == sentences[order[k]]
  {
    if order == [] then []
    else
      assert order[0] in order && forall x :: x in order[1..] ==> x in order;
      [sentences[order[0]]] + Pick(sentences, order[1..])
  }

  // ---------------------------------------------------------------------
  // summarize_text
  // ---------------------------------------------------------------------

  /** The default `sentences_count`, the one `process_json_file` uses. */
  const DefaultSentences: int := 5

  /**
   * The indices `nlargest` returns: the dictionary's keys are visited in
   * insertion order, which is increasing sentence order.
   */
  function Selected(nlp: Nlp, text: string, count: int): seq<nat>
  {
    var sentences := nlp.sentTokenize(text);
    var scores := Scores(nlp, Freq(nlp, text), sentences);
    ScoresKeys(nlp, Freq(nlp, text), sentences);
    TopK(count, Ascending(scores.Keys, |sentences|), scores)
  }

  /** The dictionary only has keys for sentence indices. */
  lemma ScoresKeys(nlp: Nlp, freq: multiset<string>, sentences: seq<string>)
    ensures forall i :: i in Scores(nlp, freq, sentences) ==> i < |sentences|
  {
    forall i | i in Scores(nlp, freq, sentences)
      ensures i < |sentences|
    {
      ScoresMeaning(nlp, freq, sentences, i);
    }
  }

  /** The value of `summarize_text(text, count)`. */
  function Summary(nlp: Nlp, text: string, count: int): string
  {
    var sentences := nlp.sentTokenize(text);
    var order := Ascending(set x | x in Selected(nlp, text, count), |sentences|);
    JoinSpace(Pick(sentences, order))
  }

  /**
   * The selection of `summarize_text`: at most `count` distinct sentences, in
   * the order `nlargest` ranks them, each one with a score; every scored
   * sentence left out is behind every one picked; and fewer than `count` are
   * picked only when every scored sentence is.
   */
  lemma SelectedFacts(nlp: Nlp, text: string, count: int)
    ensures var sel := Selected(nlp, text, count);
            |sel| <= (if count <= 0 then 0 else count)
    ensures var scores := Scores(nlp, Freq(nlp, text), nlp.sentTokenize(text));
            Ordered(Selected(nlp, text, count), scores)
    ensures var sentences := nlp.sentTokenize(text);
            var scores := Scores(nlp, Freq(nlp, text), sentences);
            forall x :: x in Selected(nlp, text, count) ==> x < |sentences| && x in scores
    ensures var scores := Scores(nlp, Freq(nlp, text), nlp.sentTokenize(text));
            var sel := Selected(nlp, text, count);
            forall x, y :: x in sel && y in scores && y !in sel ==> Ahead(x, y, scores)
    ensures var scores := Scores(nlp, Freq(nlp, text), nlp.sentTokenize(text));
            var sel := Selected(nlp, text, count);
            |sel| < count ==> forall y :: y in scores ==> y in sel
  {
    var sentences := nlp.sentTokenize(text);
    var scores := Scores(nlp, Freq(nlp, text), sentences);
    ScoresKeys(nlp, Freq(nlp, text), sentences);
    var c := Ascending(scores.Keys, |sentences|);
    TopKOrdered(count, c, scores);
    TopKDominates(count, c, scores);
    var sel := Selected(nlp, text, count);
    assert sel == TopK(count, c, scores);
    assert forall y :: y in scores ==> y in c;
  }

  /** The summary joins the selected sentences, each once, in increasing order. */
  lemma SummaryOrder(nlp: Nlp, text: string, count: int)
    ensures var sentences := nlp.sentTokenize(text);
            var order := Ascending(set x | x in Selected(nlp, text, count), |sentences|);
            && Increasing(order)
            && (forall x :: x in order <==> x in Selected(nlp, text, count))
            && (forall k :: 0 <= k < |order| ==> order[k] < |sentences|)
            && Summary(nlp, text, count) == JoinSpace(seq(|order|, k requires 0 <= k < |order| => sentences[order[k]]))
  {
    SelectedFacts(nlp, text, count);
    var sentences := nlp.sentTokenize(text);
    var order := Ascending(set x | x in Selected(nlp, text, count), |sentences|);
    forall k | 0 <= k < |order|
      ensures order[k] < |sentences|
    {
      assert order[k] in order;
    }
    var picked := Pick(sentences, order);
    assert picked == seq(|order|, k requires 0 <= k < |order| => sentences[order[k]]);
  }

  /** `summarize_text`. */
  method SummarizeText(nlp: Nlp, text: string, count: int) returns (summary: string)
    ensures summary == Summary(nlp, text, count)
  {
    var sentences := nlp.sentTokenize(text);
    var words := Tokens(nlp, TaggedOf(nlp, text));
    var freq := multiset(words);
    var scores := ScoreSentences(nlp, freq, sentences);
    ScoresKeys(nlp, freq, sentences);
    var selected := TopK(count, Ascending(scores.Keys, |sentences|), scores);
    var order := Ascending(set x | x in selected, |sentences|);
    summary := JoinSpace(Pick(sentences, order));
  }

  // ---------------------------------------------------------------------
  // process_json_file
  // ---------------------------------------------------------------------

  /** The prefix `process_json_file` removes from every URL. */
  const Prefix: string := "https://portal.thirdweb.com/typescript/v5/"

  /** `pat` occurs somewhere in `s`. */
  predicate Occurs(pat: string, s: string)
  {
    exists i :: 0 <= i <= |s| && StartsWith(s[i..], pat)
  }

  /** `s.replace(pat, "")`: every non-overlapping occurrence, left to right, removed. */
  function RemoveAll(s: string, pat: string): (r: string)
    requires |pat| > 0
    ensures |r| <= |s|
    decreases |s|
  {
    if |s| < |pat| then s
    else if s[..|pat|] == pat then RemoveAll(s[|pat|..], pat)
    else [s[0]] + RemoveAll(s[1..], pat)
  }

  /** Where the pattern does not occur, `replace` changes nothing. */
  lemma {:induction false} RemoveAllAbsent(s: string, pat: string)
    requires |pat| > 0 && !Occurs(pat, s)
    ensures RemoveAll(s, pat) == s
    decreases |s|
  {
    if |s| >= |pat| {
      assert s[0..] == s;
      assert !Occurs(pat, s[1..]) by {
        forall i | 0 <= i <= |s[1..]|
          ensures !StartsWith(s[1..][i..], pat)
        {
          assert s[1..][i..] == s[i + 1..];
        }
      }
      RemoveAllAbsent(s[1..], pat);
      assert s == [s[0]] + s[1..];
    }
  }

  /** `s.lstrip("/")`: the leading slashes removed. */
  function StripLeft(s: string): (r: string)
    ensures r == [] || r[0] != '/'
    ensures |r| <= |s| && r == s[|s| - |r|..]
    ensures forall i :: 0 <= i < |s| - |r| ==> s[i] == '/'
    decreases |s|
  {
    if s != [] && s[0] == '/' then StripLeft(s[1..]) else s
  }

  /** `s.rstrip("/")`: the trailing slashes removed. */
  function StripRight(s: string): (r: string)
    ensures r == [] || r[|r| - 1] != '/'
    ensures |r| <= |s| && r == s[..|r|]
    ensures forall i :: |r| <= i < |s| ==> s[i] == '/'
    decreases |s|
  {
    if s != [] && s[|s| - 1] == '/' then StripRight(s[..|s| - 1]) else s
  }

  /** `s.strip("/")`. */
  function StripSlashes(s: string): (r: string)
    ensures r == [] || (r[0] != '/' && r[|r| - 1] != '/')
    ensures |r| <= |s|
  {
    StripRight(StripLeft(s))
  }

  /** The title derivation at preprocessing.py:76. */
  function Title(url: string): (t: string)
    ensures t == [] || (t[0] != '/' && t[|t| - 1] != '/')
    ensures |t| <= |url|
  {
    StripSlashes(RemoveAll(url, Prefix))
  }

  /** A page under the prefix gets its relative path, slashes trimmed, as its title. */
  lemma TitleOfPage(path: string)
    requires !Occurs(Prefix, path)
    ensures Title(Prefix + path) == StripSlashes(path)
  {
    var url := Prefix + path;
    assert url[..|Prefix|] == Prefix && url[|Prefix|..] == path;
    RemoveAllAbsent(path, Prefix);
  }

  /**
   * Removing a pattern can join the text around it into a new occurrence:
   * with `pat == [a, b] + w`, the text `[a] + pat + [b] + w + "z"` loses the
   * inner `pat` and becomes `pat + "z"`.
   */
  lemma RemoveAllJoins(a: char, b: char, w: string)
    requires a != b
    ensures RemoveAll([a] + ([a, b] + w) + ([b] + w + "z"), [a, b] + w) == [a, b] + w + "z"
  {
    var pat := [a, b] + w;
    var t := [b] + w + "z";
    calc {
      RemoveAll([a] + pat + t, pat);
      { assert [a] + pat + t == [a] + (pat + t); }
      RemoveAll([a] + (pat + t), pat);
      { RemoveAllCons(a, pat + t, pat); }
      [a] + RemoveAll(pat + t, pat);
      { RemoveAllLeading(pat, t); }
      [a] + RemoveAll(t, pat);
      { assert t == [b] + (w + "z"); RemoveAllCons(b, w + "z", pat); }
      [a] + ([b] + RemoveAll(w + "z", pat));
      [a] + ([b] + (w + "z"));
      [a, b] + w + "z";
    }
  }

  /** An occurrence at the start is removed. */
  lemma RemoveAllLeading(pat: string, t: string)
    requires |pat| > 0
    ensures RemoveAll(pat + t, pat) == RemoveAll(t, pat)
  {
    assert (pat + t)[..|pat|] == pat && (pat + t)[|pat|..] == t;
  }

  /** A first character that does not start an occurrence is kept. */
  lemma RemoveAllCons(c: char, t: string, pat: string)
    requires |pat| > 1 && (|t| + 1 < |pat| || ([c] + t)[1] != pat[1] || c != pat[0])
    ensures RemoveAll([c] + t, pat) == [c] + RemoveAll(t, pat)
  {
    var s := [c] + t;
    assert s[1..] == t;
    if |s| >= |pat| {
      assert s[..|pat|][0] == c && s[..|pat|][1] == s[1];
    }
  }

  /**
   * So a title can still contain the prefix: the URL
   * `"h" + Prefix + "ttps://portal.thirdweb.com/typescript/v5/z"` gets the
   * title `Prefix + "z"`.
   */
  lemma TitleCanContainPrefix()
    ensures Title(['h'] + Prefix + (['t'] + Prefix[2..] + "z")) == Prefix + "z"
    ensures Occurs(Prefix, Title(['h'] + Prefix + (['t'] + Prefix[2..] + "z")))
  {
    var w := Prefix[2..];
    assert Prefix == ['h', 't'] + w;
    RemoveAllJoins('h', 't', w);
    var u := Prefix + "z";
    assert u[0] == 'h' && u[|u| - 1] == 'z';
    assert StripLeft(u) == u;
    assert StripRight(u) == u;
    assert u[0..] == u;
  }

  /** One item of the result of `process_json_file`. */
  datatype Processed = Processed(title: string, content: string)

  /** What `process_json_file` makes of one scraped record. */
  function ProcessRecord(nlp: Nlp, item: Record): Processed
  {
    Processed(Title(item.url), Summary(nlp, item.content, DefaultSentences))
  }

  /** `f` applied to each record, in order. */
  function MapRecords(f: Record -> Processed, items: seq<Record>): seq<Processed>
    decreases |items|
  {
    if items == [] then []
    else MapRecords(f, items[..|items| - 1]) + [f(items[|items| - 1])]
  }

  lemma {:induction false} MapRecordsMeaning(f: Record -> Processed, items: seq<Record>)
    ensures |MapRecords(f, items)| == |items|
    ensures forall i :: 0 <= i < |items| ==> MapRecords(f, items)[i] == f(items[i])
    decreases |items|
  {
    if items != [] {
      var init := items[..|items| - 1];
      MapRecordsMeaning(f, init);
      assert forall i :: 0 <= i < |init| ==> init[i] == items[i];
    }
  }

  /** `processed_data` for the records `items`. */
  function ProcessAll(nlp: Nlp, items: seq<Record>): seq<Processed>
  {
    MapRecords(r => ProcessRecord(nlp, r), items)
  }

  /** One result per record, in the records' order: its title and its summary. */
  lemma ProcessAllMeaning(nlp: Nlp, items: seq<Record>)
    ensures |ProcessAll(nlp, items)| == |items|
    ensures forall i :: 0 <= i < |items| ==>
              ProcessAll(nlp, items)[i] == Processed(Title(items[i].url), Summary(nlp, items[i].content, DefaultSentences))
  {
    MapRecordsMeaning(r => ProcessRecord(nlp, r), items);
  }

  /** The body of the loop of `process_json_file`: one record's title and summary. */
  method ProcessItem(nlp: Nlp, item: Record) returns (processed: Processed)
    ensures processed.title == Title(item.url)
    ensures processed.content == Summary(nlp, item.content, DefaultSentences)
  {
    var title := Title(item.url);
    var summarized := SummarizeText(nlp, item.content, DefaultSentences);
    processed := Processed(title, summarized);
  }

  /** The loop of `process_json_file` over the scraped records: one result per record, in order. */
  method ProcessItems(nlp: Nlp, items: seq<Record>) returns (processed: seq<Processed>)
    ensures processed == ProcessAll(nlp, items)
  {
    processed := [];
    for i := 0 to |items|
      invariant processed == ProcessAll(nlp, items[..i])
    {
      var one := ProcessItem(nlp, items[i]);
      assert items[..i + 1][..i] == items[..i];
      processed := processed + [one];
    }
    assert items[..|items|] == items;
  }
}
