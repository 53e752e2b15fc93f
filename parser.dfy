/**
 * The sentence pre-processing of the grammar-parsing program: normalising one word and
 * filtering the tokens of a sentence before they are handed to the chart parser.
 */
module Parser {
  import opened Wrappers
  import opened Words
  import Questions

  /**
   * The character loop of `wordStandarize`, over a prefix: the string built so far and
   * whether an ASCII letter has been seen. Lower-case letters are tested first.
   */
  function WordStandarizeLoop(w: string): (p: (string, bool))
    ensures |p.0| == |w|
    ensures forall i :: 0 <= i < |w| ==> p.0[i] == Lower(w[i])
    ensures p.1 <==> HasLetter(w)
    decreases |w|
  {
    if w == [] then ("", false)
    else
      var (retW, trueWord) := WordStandarizeLoop(w[..|w| - 1]);
      var alb := w[|w| - 1];
      assert HasLetter(w) <==> HasLetter(w[..|w| - 1]) || IsLetter(alb) by {
        if HasLetter(w) && !IsLetter(alb) {
          var i :| 0 <= i < |w| && IsLetter(w[i]);
          assert w[..|w| - 1][i] == w[i];
        }
        if HasLetter(w[..|w| - 1]) {
          var i :| 0 <= i < |w| - 1 && IsLetter(w[..|w| - 1][i]);
          assert w[i] == w[..|w| - 1][i];
        }
      }
      if 'a' <= alb <= 'z' then (retW + [alb], true)
      else if 'A' <= alb <= 'Z' then (retW + [(alb as int - 'A' as int + 'a' as int) as char], true)
      else (retW + [alb], trueWord)
  }

  /** `wordStandarize`: the lower-cased word, or `None` when it has no ASCII letter. */
  function WordStandarize(w: string): (r: Option<string>)
    ensures r == Normalise(w)
  {
    var (retW, trueWord) := WordStandarizeLoop(w);
    assert retW == LowerAll(w);
    if trueWord then Some(retW) else None
  }

  /** The two programs' normalisers compute the same function, although their tests are ordered differently. */
  lemma WordStandarizeAgrees(w: string)
    ensures WordStandarize(w) == Questions.StandarizeWord(w)
  {
  }

  /**
   * `preprocess` over the tokens the tokenizer produced: the normalised form of every token
   * that holds a letter, in order; no `None` is ever emitted.
   */
  function Preprocess(tokens: seq<string>): (r: seq<string>)
    ensures |r| <= |tokens|
    ensures forall k :: 0 <= k < |r| ==> HasLetter(r[k]) && NoUpper(r[k])
    ensures forall w :: w in r <==> exists t :: t in tokens && Normalise(t) == Some(w)
    decreases |tokens|
  {
    if tokens == [] then []
    else
      var prefix := tokens[..|tokens| - 1];
      var word := tokens[|tokens| - 1];
      var proSentence := Preprocess(prefix);
      NormaliseShape(word);
      assert forall u :: u in tokens <==> u in prefix || u == word;
      match WordStandarize(word)
      case Some(tmp) => proSentence + [tmp]
      case None => proSentence
  }

  /** `preprocess` keeps exactly the words, in the order, that the question program's `tokenize` keeps. */
  lemma {:induction false} PreprocessAgrees(tokens: seq<string>)
    ensures Preprocess(tokens) == Questions.Tokenize(tokens)
    decreases |tokens|
  {
    if tokens != [] {
      PreprocessAgrees(tokens[..|tokens| - 1]);
    }
  }
}
