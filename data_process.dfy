/** The text-processing page: a step selector kept in the session, and one
    view per step over the sample description: the raw text, its whitespace
    tokens, the tokens with stopwords struck out, the tokens with their stems,
    and the document counts behind the TF-IDF tables. The stopword list, the
    stemmer and the token lists of the three mini documents are parameters;
    the HTML each view renders and the floating-point tables are not
    modelled. */
module DataProcess {
  import opened Collections
  import opened Text

  // ---------------------------------------------------------------------
  // Step selector
  // ---------------------------------------------------------------------

  /** The five steps of the page. */
  datatype Step = Raw | Token | Stopwords | Stem | Conversion

  /** Which of the five buttons were pressed in this run of the page. */
  datatype Buttons = Buttons(raw: bool, token: bool, stopwords: bool, stem: bool, conversion: bool)

  /** The position of a step's button in the row of buttons, left to right. */
  function Position(s: Step): nat
  {
    match s
    case Raw => 0
    case Token => 1
    case Stopwords => 2
    case Stem => 3
    case Conversion => 4
  }

  /** Whether the button of step `s` was pressed. */
  predicate Pressed(pressed: Buttons, s: Step)
  {
    match s
    case Raw => pressed.raw
    case Token => pressed.token
    case Stopwords => pressed.stopwords
    case Stem => pressed.stem
    case Conversion => pressed.conversion
  }

  /** Some button was pressed in this run. */
  predicate AnyPressed(pressed: Buttons)
  {
    pressed.raw || pressed.token || pressed.stopwords || pressed.stem || pressed.conversion
  }

  /** The step after a run: every pressed button assigns its step in turn,
      so the last pressed button in page order wins; with no press the step
      stays, starting from the raw text. */
  function NextStep(current: Option<Step>, pressed: Buttons): (next: Step)
    ensures AnyPressed(pressed) ==>
      Pressed(pressed, next) && forall s :: Position(next) < Position(s) ==> !Pressed(pressed, s)
    ensures !AnyPressed(pressed) ==> next == if current.Some? then current.value else Raw
  {
    if pressed.conversion then Conversion
    else if pressed.stem then Stem
    else if pressed.stopwords then Stopwords
    else if pressed.token then Token
    else if pressed.raw then Raw
    else if current.Some? then current.value
    else Raw
  }

  /** Pressing one button selects its step, whatever the step was. */
  lemma PressSelects(current: Option<Step>)
    ensures NextStep(current, Buttons(true, false, false, false, false)) == Raw
    ensures NextStep(current, Buttons(false, true, false, false, false)) == Token
    ensures NextStep(current, Buttons(false, false, true, false, false)) == Stopwords
    ensures NextStep(current, Buttons(false, false, false, true, false)) == Stem
    ensures NextStep(current, Buttons(false, false, false, false, true)) == Conversion
  {
  }

  /** Without a press the step is kept, and a fresh session shows the raw
      text. */
  lemma NoPressKeeps(current: Option<Step>)
    ensures NextStep(current, Buttons(false, false, false, false, false)) ==
      if current.Some? then current.value else Raw
  {
  }

  // ---------------------------------------------------------------------
  // Stopword view
  // ---------------------------------------------------------------------

  /** The characters `.,!?` the views strip from a token. */
  predicate IsPunct(c: char)
  {
    c == '.' || c == ',' || c == '!' || c == '?'
  }

  /** A token as drawn: struck out as a stopword, shown as is, or shown as its
      base struck out next to its stem with the trailing punctuation. */
  datatype Item = Struck(token: string) | Plain(token: string) | Stemmed(base: string, shown: string)

  /** `tok.lower().strip(".,!?") in stop_words`, the stopword view's test.
      It agrees with the stemming view's test, which strips first and
      lower-cases after. */
  predicate IsStopword(tok: string, stop: set<string>)
    ensures IsStopword(tok, stop) <==> Lower(Base(tok)) in stop
  {
    StripLower(tok, IsPunct);
    Strip(Lower(tok), IsPunct) in stop
  }

  /** The item of one token in the stopword view. */
  function StopItem(tok: string, stop: set<string>): (item: Item)
    ensures item.Struck? <==> IsStopword(tok, stop)
    ensures !item.Stemmed? && item.token == tok
  {
    if IsStopword(tok, stop) then Struck(tok) else Plain(tok)
  }

  /** The stopword view builds one item per token, in order: struck out
      exactly when the token is a stopword, drawn as is otherwise. */
  method StopwordItems(tokens: seq<string>, stop: set<string>) returns (items: seq<Item>)
    ensures |items| == |tokens|
    ensures forall i :: 0 <= i < |tokens| ==>
      items[i] == StopItem(tokens[i], stop)
  {
    items := [];
    for k := 0 to |tokens|
      invariant |items| == k
      invariant forall i :: 0 <= i < k ==>
        items[i] == StopItem(tokens[i], stop)
    {
      items := items + [StopItem(tokens[k], stop)];
    }
  }

  // ---------------------------------------------------------------------
  // Stemming view
  // ---------------------------------------------------------------------

  /** `tok.strip(".,!?")`: no longer than the token, neither starting nor
      ending with `.,!?`, and the token itself when it does neither. */
  function Base(tok: string): (base: string)
    ensures |base| <= |tok|
    ensures base == [] || (!IsPunct(base[0]) && !IsPunct(base[|base| - 1]))
    ensures (tok == [] || (!IsPunct(tok[0]) && !IsPunct(tok[|tok| - 1]))) ==> base == tok
  {
    Strip(tok, IsPunct)
  }

  /** `tok[len(base):] if len(base) < len(tok) else ""`: the token after its
      first `len(base)` characters, which is only punctuation when the token
      does not start with `.,!?`. */
  function Punct(tok: string): (p: string)
    ensures |Base(tok)| + |p| == |tok| && p == tok[|Base(tok)|..]
    ensures (tok == [] || !IsPunct(tok[0])) ==> forall c :: c in p ==> IsPunct(c)
  {
    var base := Base(tok);
    TrailingPunct(tok);
    if |base| < |tok| then tok[|base|..] else ""
  }

  /** Behind the base of a token that does not start with `.,!?` there is
      only punctuation. */
  lemma TrailingPunct(tok: string)
    ensures (tok == [] || !IsPunct(tok[0])) ==>
      forall i :: |Base(tok)| <= i < |tok| ==> IsPunct(tok[i])
  {
    var k, m := StripSlice(tok, IsPunct);
    if tok != [] && !IsPunct(tok[0]) {
      assert k == 0;
    }
  }

  /** A token that does not start with `.,!?` is its base followed by its
      trailing punctuation. */
  lemma BaseAndPunctRestore(tok: string)
    requires tok == [] || !IsPunct(tok[0])
    ensures Base(tok) + Punct(tok) == tok
  {
    assert TrimStart(tok, IsPunct) == tok;
    var b := TrimEnd(tok, IsPunct);
    assert Base(tok) == b;
    if |b| < |tok| {
      assert b + tok[|b|..] == tok;
    }
  }

  /** A token that starts with `.,!?` and is not all punctuation is not
      its base followed by its punctuation: `Punct` is cut at the base's
      length from the start of the token, so it is no longer only the
      trailing marks. */
  lemma LeadingPunctLost(tok: string)
    requires tok != [] && IsPunct(tok[0]) && Base(tok) != []
    ensures Base(tok) + Punct(tok) != tok
  {
    var base := Base(tok);
    assert (base + Punct(tok))[0] == base[0];
  }

  /** With `n` leading marks, at most as many as the base has characters,
      `Punct` is the base's last `n` characters followed by the trailing
      marks: "...cooking" has base "cooking" and punctuation "ing". */
  lemma LeadingPunctShifts(tok: string, lead: string, base: string, trail: string)
    requires base == Base(tok)
    requires lead != [] && |lead| <= |base|
    requires tok == lead + base + trail
    ensures Punct(tok) == base[|base| - |lead|..] + trail
  {
    CutAfter(lead, base, trail);
  }

  /** Cutting `lead + b + trail` after `|b|` characters leaves the last
      `|lead|` characters of `b` followed by `trail`. */
  lemma CutAfter(lead: string, b: string, trail: string)
    requires |lead| <= |b|
    ensures (lead + b + trail)[|b|..] == b[|b| - |lead|..] + trail
  {
    var n := |b| - |lead|;
    assert lead + b + trail == (lead + b[..n]) + (b[n..] + trail) by {
      assert b == b[..n] + b[n..];
    }
  }

  /** The item of one token in the stemming view: struck out iff a
      stopword, drawn as changed iff no stopword and the stem differs from
      the base, otherwise shown with its original text. */
  function StemItem(tok: string, stop: set<string>, stem: string -> string): (item: Item)
    ensures item.Struck? <==> IsStopword(tok, stop)
    ensures item.Stemmed? <==> !IsStopword(tok, stop) && stem(Base(tok)) != Base(tok)
    ensures item.Stemmed? ==> item.base == Base(tok) && item.shown == stem(Base(tok)) + Punct(tok)
    ensures !item.Stemmed? ==> item.token == tok
  {
    var base := Base(tok);
    if Lower(base) in stop then Struck(tok)
    else if stem(base) != base then Stemmed(base, stem(base) + Punct(tok))
    else Plain(tok)
  }

  /** The stemming view builds one item per token, in order. */
  method StemItems(tokens: seq<string>, stop: set<string>, stem: string -> string) returns (items: seq<Item>)
    ensures |items| == |tokens|
    ensures forall i :: 0 <= i < |tokens| ==> items[i] == StemItem(tokens[i], stop, stem)
  {
    items := [];
    for k := 0 to |tokens|
      invariant |items| == k
      invariant forall i :: 0 <= i < k ==> items[i] == StemItem(tokens[i], stop, stem)
    {
      var tok := tokens[k];
      var base := Base(tok);
      var clean := Lower(base);
      var item;
      if clean in stop {
        item := Struck(tok);
      } else {
        var stemmed := stem(base);
        var punct := Punct(tok);
        if stemmed != base {
          item := Stemmed(base, stemmed + punct);
        } else {
          item := Plain(tok);
        }
      }
      StemItemAppended(items, tokens, stop, stem, item);
      items := items + [item];
    }
  }

  /** Appending the item of the next token keeps the items in step with the
      tokens. */
  lemma StemItemAppended(items: seq<Item>, tokens: seq<string>, stop: set<string>, stem: string -> string, item: Item)
    requires |items| < |tokens|
    requires forall i :: 0 <= i < |items| ==> items[i] == StemItem(tokens[i], stop, stem)
    requires item == StemItem(tokens[|items|], stop, stem)
    ensures forall i :: 0 <= i <= |items| ==> (items + [item])[i] == StemItem(tokens[i], stop, stem)
  {
    forall i | 0 <= i <= |items| ensures (items + [item])[i] == StemItem(tokens[i], stop, stem) {
      if i < |items| {
        assert (items + [item])[i] == items[i];
      }
    }
  }

  // ---------------------------------------------------------------------
  // Document frequencies
  // ---------------------------------------------------------------------

  /** `count(t, d)`: how often term `t` occurs in document `d`. */
  function Count(t: string, d: seq<string>): nat
  {
    multiset(d)[t]
  }

  /** `df(t)`: the number of documents in which `t` occurs at least once. */
  function DocFreq(docs: seq<seq<string>>, t: string): (n: nat)
    ensures n <= |docs|
    ensures n >= 1 <==> exists i :: 0 <= i < |docs| && Count(t, docs[i]) > 0
    ensures n == |Filter(docs, d => Count(t, d) > 0)|
  {
    if docs == [] then 0
    else
      var rest := DocFreq(docs[1..], t);
      assert (exists i :: 1 <= i < |docs| && Count(t, docs[i]) > 0) <==> rest >= 1 by {
        if rest >= 1 {
          var i :| 0 <= i < |docs[1..]| && Count(t, docs[1..][i]) > 0;
          assert docs[i + 1] == docs[1..][i];
        }
        if exists i :: 1 <= i < |docs| && Count(t, docs[i]) > 0 {
          var i :| 1 <= i < |docs| && Count(t, docs[i]) > 0;
          assert docs[1..][i - 1] == docs[i];
        }
      }
      (if Count(t, docs[0]) > 0 then 1 else 0) + rest
  }

  /** Every term of every document, in order. */
  function Terms(docs: seq<seq<string>>): (ts: seq<string>)
    ensures forall t :: t in ts <==> exists i :: 0 <= i < |docs| && t in docs[i]
  {
    if docs == [] then []
    else
      var rest := Terms(docs[1..]);
      assert forall t :: t in rest <==> exists i :: 1 <= i < |docs| && t in docs[i] by {
        forall t ensures t in rest <==> exists i :: 1 <= i < |docs| && t in docs[i] {
          if t in rest {
            var i :| 0 <= i < |docs[1..]| && t in docs[1..][i];
            assert docs[i + 1] == docs[1..][i];
          }
          if exists i :: 1 <= i < |docs| && t in docs[i] {
            var i :| 1 <= i < |docs| && t in docs[i];
            assert docs[1..][i - 1] == docs[i];
          }
        }
      }
      docs[0] + rest
  }

  /** The vocabulary of the term-document matrix: the distinct terms in
      ascending order. */
  function Vocabulary(docs: seq<seq<string>>): (vocab: seq<string>)
    ensures StrictlyIncreasing(vocab)
    ensures forall t :: t in vocab <==> exists i :: 0 <= i < |docs| && t in docs[i]
  {
    SortedUnique(Terms(docs))
  }

  /** Every vocabulary term occurs in at least one and at most all of the
      `N` documents, so `N / df(t)` is defined and at least 1. */
  lemma DocFreqBounds(docs: seq<seq<string>>)
    ensures forall t :: t in Vocabulary(docs) ==> 1 <= DocFreq(docs, t) <= |docs|
  {
    forall t | t in Vocabulary(docs) ensures 1 <= DocFreq(docs, t) {
      var i :| 0 <= i < |docs| && t in docs[i];
      assert Count(t, docs[i]) > 0;
    }
  }

  // ---------------------------------------------------------------------
  // The page
  // ---------------------------------------------------------------------

  /** What one run of the page draws below the buttons. */
  datatype View =
    | RawView(text: string)
    | TokenView(tokens: seq<string>)
    | StopwordView(items: seq<Item>)
    | StemView(items: seq<Item>)
    | ConversionView(n: nat, vocabulary: seq<string>, docFreq: seq<nat>)

  /** The step a view belongs to. */
  function ViewStep(v: View): Step
  {
    match v
    case RawView(_) => Raw
    case TokenView(_) => Token
    case StopwordView(_) => Stopwords
    case StemView(_) => Stem
    case ConversionView(_, _, _) => Conversion
  }

  /** The page's session: the step survives between runs. */
  class Session {
    var step: Option<Step>

    constructor()
      ensures step == None
    {
      step := None;
    }

    /** One run of the page: default the step, apply the buttons in page
        order, then draw the view of the resulting step and no other. */
    method Run(pressed: Buttons, text: string, stop: set<string>, stem: string -> string,
               corpus: seq<seq<string>>) returns (view: View)
      modifies this
      ensures step == Some(NextStep(old(step), pressed))
      ensures ViewStep(view) == step.value
      ensures view.RawView? ==> view.text == Strip(text, IsSpace)
      ensures view.TokenView? ==> view.tokens == Split(text)
      ensures view.StopwordView? ==>
        && |view.items| == |Split(text)|
        && forall i :: 0 <= i < |Split(text)| ==>
          view.items[i] == StopItem(Split(text)[i], stop)
      ensures view.StemView? ==>
        && |view.items| == |Split(text)|
        && forall i :: 0 <= i < |Split(text)| ==> view.items[i] == StemItem(Split(text)[i], stop, stem)
      ensures view.ConversionView? ==>
        && view.n == |corpus|
        && view.vocabulary == Vocabulary(corpus)
        && |view.docFreq| == |view.vocabulary|
        && forall j :: 0 <= j < |view.docFreq| ==>
          view.docFreq[j] == DocFreq(corpus, view.vocabulary[j]) && 1 <= view.docFreq[j] <= view.n
    {
      var tokens := Split(text);
      if step == None {
        step := Some(Raw);
      }
      if pressed.raw {
        step := Some(Raw);
      }
      if pressed.token {
        step := Some(Token);
      }
      if pressed.stopwords {
        step := Some(Stopwords);
      }
      if pressed.stem {
        step := Some(Stem);
      }
      if pressed.conversion {
        step := Some(Conversion);
      }

      match step.value
      case Raw =>
        view := RawView(Strip(text, IsSpace));
      case Token =>
        view := TokenView(tokens);
      case Stopwords =>
        var items := StopwordItems(tokens, stop);
        view := StopwordView(items);
      case Stem =>
        var items := StemItems(tokens, stop, stem);
        view := StemView(items);
      case Conversion =>
        var vocab := Vocabulary(corpus);
        var df := seq(|vocab|, j requires 0 <= j < |vocab| => DocFreq(corpus, vocab[j]));
        DocFreqBounds(corpus);
        view := ConversionView(|corpus|, vocab, df);
    }
  }
}
