/** The text-to-topic pipeline of `run_lda_on_descriptions`: the description
    normaliser, the dominant-topic assignment and the keyword skeleton that is
    handed over for manual scene labelling.

    The foreign pieces are parameters: the Porter stemmer is `stem`, the
    custom stopword file is `stopwords`, and the fitted LDA model is given by
    its document-topic rows `docTopics` and its topic-term rows `components`
    over the TF-IDF vocabulary `vocab`. Weights are exact reals. */
module TopicModeling {
  import opened Collections
  import opened Text

  /** `NUM_TOPICS`, the number of LDA components. */
  const NumTopics: nat := 8
  /** The number of keywords kept per topic (`argsort()[:-11:-1]`). */
  const TopWordCount: nat := 10

  // ---------------------------------------------------------------------
  // Description normaliser (`custom_tokenizer`)
  // ---------------------------------------------------------------------

  /** Characters that the substitution `[^a-zA-Z\s]` -> "" leaves in place. */
  predicate KeptChar(c: char)
  {
    IsAsciiLetter(c) || IsSpace(c)
  }

  /** `text.lower()` followed by the deletion of every character that is
      neither an ASCII letter nor whitespace. */
  function CleanText(text: string): (r: string)
    ensures forall c :: c in r ==> 'a' <= c <= 'z' || IsSpace(c)
    ensures text == [] ==> r == []
  {
    var lowered := Lower(text);
    var r := Filter(lowered, KeptChar);
    assert forall c :: c in r ==> 'a' <= c <= 'z' || IsSpace(c) by {
      forall c | c in r ensures 'a' <= c <= 'z' || IsSpace(c) {
        var i :| 0 <= i < |lowered| && lowered[i] == c;
        assert c == LowerChar(text[i]);
      }
    }
    r
  }

  /** A token survives the stopword step iff it is not a stopword and has
      more than two characters. */
  predicate Informative(t: string, stopwords: set<string>)
  {
    t !in stopwords && |t| > 2
  }

  /** `[t for t in tokens if t not in stopwords_custom and len(t) > 2]`. */
  function DropUninformative(tokens: seq<string>, stopwords: set<string>): (kept: seq<string>)
    ensures forall t :: t in kept ==> Informative(t, stopwords)
    ensures forall i :: 0 <= i < |tokens| && Informative(tokens[i], stopwords) ==> tokens[i] in kept
  {
    Filter(tokens, t => Informative(t, stopwords))
  }

  /** The tokens of a description before stemming. */
  function FilteredTokens(text: string, stopwords: set<string>): seq<string>
  {
    DropUninformative(Split(CleanText(text)), stopwords)
  }

  /** `stem_tokens`: the stemmer applied to every token, in order. */
  function StemAll(tokens: seq<string>, stem: string -> string): (stemmed: seq<string>)
    ensures |stemmed| == |tokens|
    ensures forall i :: 0 <= i < |tokens| ==> stemmed[i] == stem(tokens[i])
  {
    seq(|tokens|, i requires 0 <= i < |tokens| => stem(tokens[i]))
  }

  /** `custom_tokenizer(text)`. */
  function Tokenize(text: string, stopwords: set<string>, stem: string -> string): (tokens: seq<string>)
    ensures |tokens| == |FilteredTokens(text, stopwords)|
    ensures forall i :: 0 <= i < |tokens| ==> tokens[i] == stem(FilteredTokens(text, stopwords)[i])
  {
    StemAll(FilteredTokens(text, stopwords), stem)
  }

  /** Non-letters are deleted, not replaced: the text on both sides of a
      deleted character is joined ("well-known" becomes "wellknown"). */
  lemma CleanTextDeletes(a: string, c: char, b: string)
    requires !KeptChar(c)
    ensures CleanText(a + [c] + b) == CleanText(a) + CleanText(b)
  {
    assert Lower(a + [c] + b) == Lower(a) + [c] + Lower(b);
    FilterAppend(Lower(a) + [c], Lower(b), KeptChar);
    FilterAppend(Lower(a), [c], KeptChar);
  }

  /** Cleaning works piece by piece: the cleaned concatenation is the
      concatenation of the cleaned parts. */
  lemma CleanTextAppend(a: string, b: string)
    ensures CleanText(a + b) == CleanText(a) + CleanText(b)
  {
    LowerAppend(a, b);
    FilterAppend(Lower(a), Lower(b), KeptChar);
  }

  /** A letter or whitespace character is kept, lower-cased, in its place. */
  lemma CleanTextKeeps(a: string, c: char, b: string)
    requires KeptChar(c)
    ensures CleanText(a + [c] + b) == CleanText(a) + [LowerChar(c)] + CleanText(b)
  {
    CleanTextAppend(a + [c], b);
    CleanTextAppend(a, [c]);
    assert Lower([c]) == [LowerChar(c)];
    assert Filter([LowerChar(c)], KeptChar) == [LowerChar(c)];
  }

  /** Cleaning a cleaned text changes nothing. */
  lemma CleanTextIdempotent(text: string)
    ensures CleanText(CleanText(text)) == CleanText(text)
  {
    var r := CleanText(text);
    forall i | 0 <= i < |r| ensures Lower(r)[i] == r[i] && KeptChar(r[i]) {
      assert r[i] in r;
    }
    assert Lower(r) == r;
  }

  /** Before stemming, the tokens are an order-preserving subsequence of the
      words of the cleaned text; each is a lower-case ASCII word of more than
      two letters that is not a stopword, and no such word is dropped. */
  lemma FilteredTokensSpec(text: string, stopwords: set<string>)
    ensures IsSubsequence(FilteredTokens(text, stopwords), Split(CleanText(text)))
    ensures forall t :: t in FilteredTokens(text, stopwords) ==>
      Informative(t, stopwords) && forall c :: c in t ==> 'a' <= c <= 'z'
    ensures forall w :: w in Split(CleanText(text)) && Informative(w, stopwords) ==>
      w in FilteredTokens(text, stopwords)
  {
    var words := Split(CleanText(text));
    FilterIsSubsequence(words, t => Informative(t, stopwords));
    forall t | t in FilteredTokens(text, stopwords)
      ensures forall c :: c in t ==> 'a' <= c <= 'z'
    {
      assert t in words;
      assert IsWord(t);
    }
  }

  /** The normaliser only removes or rewrites tokens: its output is never
      longer than the whitespace-separated words of the raw description. */
  lemma TokenizeShrinks(text: string, stopwords: set<string>, stem: string -> string)
    ensures |Tokenize(text, stopwords, stem)| <= |Split(text)|
  {
    var lowered := Lower(text);
    SplitCount(text);
    SplitCount(CleanText(text));
    WordStartsLower(text, false);
    WordStartsFilter(lowered, KeptChar, false);
  }

  /** A description without a single ASCII letter normalises to no tokens. */
  lemma TokenizeGarbage(text: string, stopwords: set<string>, stem: string -> string)
    requires forall c :: c in text ==> !IsAsciiLetter(c)
    ensures Tokenize(text, stopwords, stem) == []
  {
    var cleaned := CleanText(text);
    forall c | c in cleaned ensures IsSpace(c) {
      var i :| 0 <= i < |Lower(text)| && Lower(text)[i] == c;
      assert text[i] in text;
    }
    SplitBlank(cleaned);
  }

  /** The stemmer maps a word to a word (Porter stemming never empties a
      token and never introduces whitespace). */
  ghost predicate StemKeepsWords(stem: string -> string)
  {
    forall w :: IsWord(w) ==> IsWord(stem(w))
  }

  /** `" ".join(tokens)`, the per-document input of the TF-IDF vectoriser. */
  function TfidfText(tokens: seq<string>): (text: string)
    ensures (forall t :: t in tokens ==> IsWord(t)) ==> Split(text) == tokens
  {
    SplitJoin(tokens);
    Join(" ", tokens)
  }

  /** The TF-IDF text of a description splits back into its token list. */
  lemma TfidfTextRoundTrip(text: string, stopwords: set<string>, stem: string -> string)
    requires StemKeepsWords(stem)
    ensures Split(TfidfText(Tokenize(text, stopwords, stem))) == Tokenize(text, stopwords, stem)
  {
    var kept := FilteredTokens(text, stopwords);
    var tokens := Tokenize(text, stopwords, stem);
    forall t | t in tokens ensures IsWord(t) {
      var i :| 0 <= i < |tokens| && tokens[i] == t;
      assert kept[i] in kept;
      assert kept[i] in Split(CleanText(text));
    }
    SplitJoin(tokens);
  }

  // ---------------------------------------------------------------------
  // Dominant topic (`np.argmax(X_topics, axis=1)`)
  // ---------------------------------------------------------------------

  /** `k` is the first position holding the largest weight of `row`. */
  predicate IsFirstMax(row: seq<real>, k: nat)
  {
    && k < |row|
    && (forall j :: 0 <= j < |row| ==> row[j] <= row[k])
    && (forall j :: 0 <= j < k ==> row[j] < row[k])
  }

  /** `np.argmax(row)`: ties go to the lowest index. */
  function ArgMax(row: seq<real>): (k: nat)
    requires |row| > 0
    ensures IsFirstMax(row, k)
    decreases |row|
  {
    if |row| == 1 then 0
    else
      var k := ArgMax(row[..|row| - 1]);
      if row[|row| - 1] > row[k] then |row| - 1 else k
  }

  /** The first maximum is unique, so `ArgMax` is the only admissible answer. */
  lemma FirstMaxUnique(row: seq<real>, k: nat, k': nat)
    requires IsFirstMax(row, k) && IsFirstMax(row, k')
    ensures k == k'
  {
    var a, b := row[k], row[k'];
    if k < k' {
      assert false;
    } else if k' < k {
      assert false;
    }
  }

  /** The `dominant_topic` column: one topic index per document. */
  function DominantTopics(docTopics: seq<seq<real>>): (topics: seq<nat>)
    requires forall d :: 0 <= d < |docTopics| ==> |docTopics[d]| == NumTopics
    ensures |topics| == |docTopics|
    ensures forall d :: 0 <= d < |topics| ==>
      topics[d] < NumTopics && IsFirstMax(docTopics[d], topics[d])
  {
    seq(|docTopics|, d requires 0 <= d < |docTopics| => ArgMax(docTopics[d]))
  }

  // ---------------------------------------------------------------------
  // Topic keyword skeleton
  // ---------------------------------------------------------------------

  /** Position in `cand` of a candidate term index whose weight is largest;
      of equal weights the earliest candidate wins. */
  function BestAt(w: seq<real>, cand: seq<nat>): (j: nat)
    requires |cand| > 0
    requires forall i :: 0 <= i < |cand| ==> cand[i] < |w|
    ensures j < |cand|
    ensures forall i :: 0 <= i < |cand| ==> w[cand[i]] <= w[cand[j]]
    decreases |cand|
  {
    if |cand| == 1 then 0
    else
      var j := BestAt(w, cand[..|cand| - 1]);
      if w[cand[|cand| - 1]] > w[cand[j]] then |cand| - 1 else j
  }

  /** The candidate term indices by non-increasing weight: the reversed
      `argsort`. */
  function Ranking(w: seq<real>, cand: seq<nat>): (r: seq<nat>)
    requires forall i :: 0 <= i < |cand| ==> cand[i] < |w|
    ensures |r| == |cand|
    ensures multiset(r) == multiset(cand)
    ensures forall i :: 0 <= i < |r| ==> r[i] < |w|
    ensures forall i, j :: 0 <= i < j < |r| ==> w[r[i]] >= w[r[j]]
    decreases |cand|
  {
    if cand == [] then []
    else
      var j := BestAt(w, cand);
      var rest := cand[..j] + cand[j + 1..];
      RemoveAt(cand, j, rest);
      var tail := Ranking(w, rest);
      HeadOutweighs(w, cand, j, tail);
      RankCons(w, cand[j], tail);
      [cand[j]] + tail
  }

  /** The best candidate followed by a ranking of the others is a ranking. */
  lemma RankCons(w: seq<real>, x: nat, tail: seq<nat>)
    requires x < |w|
    requires forall i :: 0 <= i < |tail| ==> tail[i] < |w| && w[tail[i]] <= w[x]
    requires forall i, j :: 0 <= i < j < |tail| ==> w[tail[i]] >= w[tail[j]]
    ensures forall i :: 0 <= i < |[x] + tail| ==> ([x] + tail)[i] < |w|
    ensures forall i, j :: 0 <= i < j < |[x] + tail| ==> w[([x] + tail)[i]] >= w[([x] + tail)[j]]
  {
    var r := [x] + tail;
    forall i, j | 0 <= i < j < |r| ensures w[r[i]] >= w[r[j]] {
      assert r[j] == tail[j - 1];
      if i > 0 {
        assert r[i] == tail[i - 1];
      }
    }
  }

  /** Taking out the element at `j` leaves the others, in order. */
  lemma RemoveAt(s: seq<nat>, j: nat, rest: seq<nat>)
    requires j < |s| && rest == s[..j] + s[j + 1..]
    ensures multiset(s) == multiset(rest) + multiset{s[j]}
    ensures forall i :: 0 <= i < |rest| ==> rest[i] in s
  {
    assert s == s[..j] + [s[j]] + s[j + 1..];
  }

  /** Every index of a rearrangement of the candidates weighs no more than the
      best candidate. */
  lemma HeadOutweighs(w: seq<real>, cand: seq<nat>, j: nat, tail: seq<nat>)
    requires j < |cand|
    requires forall i :: 0 <= i < |cand| ==> cand[i] < |w|
    requires forall i :: 0 <= i < |cand| ==> w[cand[i]] <= w[cand[j]]
    requires multiset(tail) == multiset(cand[..j] + cand[j + 1..])
    ensures forall i :: 0 <= i < |tail| ==> tail[i] < |w| && w[tail[i]] <= w[cand[j]]
  {
    var rest := cand[..j] + cand[j + 1..];
    RemoveAt(cand, j, rest);
    forall i | 0 <= i < |tail| ensures tail[i] < |w| && w[tail[i]] <= w[cand[j]] {
      assert tail[i] in multiset(tail);
      assert tail[i] in rest;
      var k :| 0 <= k < |rest| && rest[k] == tail[i];
      assert rest[k] in cand;
    }
  }

  /** The term indices `0 .. n-1`. */
  function Indices(n: nat): (r: seq<nat>)
    ensures |r| == n && Distinct(r)
    ensures forall i :: 0 <= i < n ==> r[i] == i
  {
    seq(n, i requires 0 <= i < n => i)
  }

  function Min(a: nat, b: nat): nat
  {
    if a <= b then a else b
  }

  /** `topic.argsort()[:-11:-1]`: min(10, |vocabulary|) distinct term indices
      in non-increasing weight order, such that no term left out weighs more
      than any term kept. */
  function TopIndices(w: seq<real>): (top: seq<nat>)
    ensures |top| == Min(TopWordCount, |w|)
    ensures Distinct(top)
    ensures forall i :: 0 <= i < |top| ==> top[i] < |w|
    ensures forall i, j :: 0 <= i < j < |top| ==> w[top[i]] >= w[top[j]]
    ensures forall k, i :: 0 <= k < |w| && k !in top && 0 <= i < |top| ==> w[k] <= w[top[i]]
  {
    var all := Indices(|w|);
    var r := Ranking(w, all);
    var n := Min(TopWordCount, |w|);
    PermutationDistinct(all, r);
    RankedAbove(w, all, r, n);
    r[..n]
  }

  /** A term index outside the first `n` places of the ranking weighs no more
      than any index inside them. */
  lemma RankedAbove(w: seq<real>, all: seq<nat>, r: seq<nat>, n: nat)
    requires all == Indices(|w|) && r == Ranking(w, all) && n <= |r|
    ensures forall k, i :: 0 <= k < |w| && k !in r[..n] && 0 <= i < n ==> w[k] <= w[r[i]]
  {
    var top := r[..n];
    forall k, i | 0 <= k < |w| && k !in top && 0 <= i < n
      ensures w[k] <= w[r[i]]
    {
      var p := RankOf(w, all, r, k);
      assert forall q :: 0 <= q < n ==> r[q] != k by {
        forall q | 0 <= q < n ensures r[q] != k {
          assert top[q] in top;
        }
      }
      assert p >= n;
    }
  }

  /** Every term index has a place in the ranking. */
  lemma RankOf(w: seq<real>, all: seq<nat>, r: seq<nat>, k: nat) returns (p: nat)
    requires all == Indices(|w|) && r == Ranking(w, all) && k < |w|
    ensures p < |r| && r[p] == k
  {
    assert all[k] == k;
    assert k in multiset(all);
    assert k in multiset(r);
    p :| 0 <= p < |r| && r[p] == k;
  }

  /** The top words of one topic, heaviest first: over a duplicate-free
      vocabulary, min(10, |vocabulary|) distinct terms of it, such that every
      term left out weighs no more than any term kept. */
  function TopWords(weights: seq<real>, vocab: seq<string>): (words: seq<string>)
    requires |weights| == |vocab|
    ensures |words| == |TopIndices(weights)| == Min(TopWordCount, |vocab|)
    ensures forall i :: 0 <= i < |words| ==> words[i] == vocab[TopIndices(weights)[i]]
    ensures forall t :: t in words ==> t in vocab
    ensures Distinct(vocab) ==> Distinct(words)
    ensures forall k, i :: 0 <= k < |vocab| && vocab[k] !in words && 0 <= i < |words| ==>
      weights[k] <= weights[TopIndices(weights)[i]]
  {
    var top := TopIndices(weights);
    var words := seq(|top|, i requires 0 <= i < |top| => vocab[top[i]]);
    WordsAt(weights, vocab, top, words);
    words
  }

  /** The terms at distinct, heaviest-first indices inherit their
      properties: they are terms of the vocabulary, distinct over a
      duplicate-free vocabulary, and no term left out outweighs them. */
  lemma WordsAt(weights: seq<real>, vocab: seq<string>, top: seq<nat>, words: seq<string>)
    requires |weights| == |vocab| && |words| == |top| && Distinct(top)
    requires forall i :: 0 <= i < |top| ==> top[i] < |vocab| && words[i] == vocab[top[i]]
    requires forall k, i :: 0 <= k < |weights| && k !in top && 0 <= i < |top| ==> weights[k] <= weights[top[i]]
    ensures forall t :: t in words ==> t in vocab
    ensures Distinct(vocab) ==> Distinct(words)
    ensures forall k, i :: 0 <= k < |vocab| && vocab[k] !in words && 0 <= i < |words| ==>
      weights[k] <= weights[top[i]]
  {
    forall k | 0 <= k < |vocab| && vocab[k] !in words ensures k !in top {
      forall p | 0 <= p < |top| ensures top[p] != k {
        assert words[p] in words;
      }
    }
  }

  /** One row of `lda_topic_keywords.csv` as the pipeline writes it. */
  datatype TopicRecord = TopicRecord(topicId: nat, topWords: string, consumerType: nat, consumerScene: string)

  /** The record appended for topic `k`. */
  function KeywordRecord(k: nat, weights: seq<real>, vocab: seq<string>): (r: TopicRecord)
    requires |weights| == |vocab|
    ensures r.topicId == k && r.consumerType == k && r.consumerScene == ""
    ensures r.topWords == Join(", ", TopWords(weights, vocab))
  {
    TopicRecord(k, Join(", ", TopWords(weights, vocab)), k, "")
  }

  /** The keyword cell reads back as the top words: split at the commas and
      stripped, it gives the top words in order, when the vocabulary terms
      are words without a comma. */
  lemma KeywordCell(k: nat, weights: seq<real>, vocab: seq<string>)
    requires |weights| == |vocab| >= 1
    requires forall t :: t in vocab ==> IsWord(t) && ',' !in t
    ensures var words := TopWords(weights, vocab);
      var pieces := SplitOn(KeywordRecord(k, weights, vocab).topWords, ',');
      |pieces| == |words| && forall i :: 0 <= i < |words| ==> Strip(pieces[i], IsSpace) == words[i]
  {
    CommaSpaceRoundTrip(TopWords(weights, vocab));
  }

  /** One row of `michelin_with_topics.xlsx`: the description with the two
      columns the pipeline adds. */
  datatype Document = Document(description: string, tokens: seq<string>, dominantTopic: nat)

  /** The driver: tokenise every description, form the TF-IDF texts, assign
      each document its dominant topic and build the keyword skeleton, one
      record per topic in topic order. */
  method RunLda(descriptions: seq<string>, stopwords: set<string>, stem: string -> string,
                docTopics: seq<seq<real>>, components: seq<seq<real>>, vocab: seq<string>)
    returns (docs: seq<Document>, texts: seq<string>, keywords: seq<TopicRecord>)
    requires |docTopics| == |descriptions|
    requires forall d :: 0 <= d < |docTopics| ==> |docTopics[d]| == NumTopics
    requires |components| == NumTopics
    requires forall k :: 0 <= k < |components| ==> |components[k]| == |vocab|
    ensures |docs| == |descriptions| && |texts| == |descriptions|
    ensures forall d :: 0 <= d < |docs| ==>
      && docs[d].description == descriptions[d]
      && docs[d].tokens == Tokenize(descriptions[d], stopwords, stem)
      && docs[d].dominantTopic < NumTopics
      && IsFirstMax(docTopics[d], docs[d].dominantTopic)
      && texts[d] == TfidfText(docs[d].tokens)
    ensures |keywords| == NumTopics
    ensures forall k :: 0 <= k < NumTopics ==>
      && keywords[k].topicId == k
      && keywords[k].consumerType == k
      && keywords[k].consumerScene == ""
      && keywords[k].topWords == Join(", ", TopWords(components[k], vocab))
  {
    var tokens := seq(|descriptions|, d requires 0 <= d < |descriptions| =>
      Tokenize(descriptions[d], stopwords, stem));
    texts := seq(|tokens|, d requires 0 <= d < |tokens| => TfidfText(tokens[d]));
    var dominant := DominantTopics(docTopics);
    docs := seq(|descriptions|, d requires 0 <= d < |descriptions| =>
      Document(descriptions[d], tokens[d], dominant[d]));

    keywords := [];
    for k := 0 to NumTopics
      invariant |keywords| == k
      invariant forall j :: 0 <= j < k ==> keywords[j] == KeywordRecord(j, components[j], vocab)
    {
      var record := KeywordRecord(k, components[k], vocab);
      KeywordAppended(keywords, components, vocab, record);
      keywords := keywords + [record];
    }
  }

  /** Appending the record of the next topic keeps the records in topic
      order. */
  lemma KeywordAppended(keywords: seq<TopicRecord>, components: seq<seq<real>>, vocab: seq<string>, record: TopicRecord)
    requires |keywords| < |components|
    requires forall k :: 0 <= k < |components| ==> |components[k]| == |vocab|
    requires forall j :: 0 <= j < |keywords| ==> keywords[j] == KeywordRecord(j, components[j], vocab)
    requires record == KeywordRecord(|keywords|, components[|keywords|], vocab)
    ensures forall j :: 0 <= j <= |keywords| ==>
      (keywords + [record])[j] == KeywordRecord(j, components[j], vocab)
  {
  }
}
