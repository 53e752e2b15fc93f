/**
 * The word handling of the question-answering program: normalising one token, filtering a
 * token sequence, and counting in how many documents each word occurs.
 */
module Questions {
  import opened Wrappers
  import opened Words
  import opened Collections

  /**
   * The character loop of `standarize_word`, over a prefix: the string built so far and
   * whether an ASCII letter has been seen. Upper-case letters are tested first.
   */
  function StandarizeLoop(s: string): (p: (string, bool))
    ensures |p.0| == |s|
    ensures forall i :: 0 <= i < |s| ==> p.0[i] == Lower(s[i])
    ensures p.1 <==> HasLetter(s)
    decreases |s|
  {
    if s == [] then ("", false)
    else
      var (ret, trueWord) := StandarizeLoop(s[..|s| - 1]);
      var c := s[|s| - 1];
      assert HasLetter(s) <==> HasLetter(s[..|s| - 1]) || IsLetter(c) by {
        if HasLetter(s) && !IsLetter(c) {
          var i :| 0 <= i < |s| && IsLetter(s[i]);
          assert s[..|s| - 1][i] == s[i];
        }
        if HasLetter(s[..|s| - 1]) {
          var i :| 0 <= i < |s| - 1 && IsLetter(s[..|s| - 1][i]);
          assert s[i] == s[..|s| - 1][i];
        }
      }
      if 'A' <= c <= 'Z' then (ret + [(c as int - 'A' as int + 'a' as int) as char], true)
      else if 'a' <= c <= 'z' then (ret + [c], true)
      else (ret + [c], trueWord)
  }

  /** `standarize_word`: the lower-cased token, or `None` when it has no ASCII letter. */
  function StandarizeWord(s: string): (r: Option<string>)
    ensures r == Normalise(s)
  {
    var (ret, trueWord) := StandarizeLoop(s);
    assert ret == LowerAll(s);
    if trueWord then Some(ret) else None
  }

  /**
   * `tokenize` over the tokens the tokenizer produced: the normalised form of every token
   * that holds a letter, in order.
   */
  function Tokenize(tokens: seq<string>): (r: seq<string>)
    ensures |r| <= |tokens|
    ensures forall k :: 0 <= k < |r| ==> HasLetter(r[k]) && NoUpper(r[k])
    ensures forall w :: w in r <==> exists t :: t in tokens && Normalise(t) == Some(w)
    decreases |tokens|
  {
    if tokens == [] then []
    else
      var prefix := tokens[..|tokens| - 1];
      var t := tokens[|tokens| - 1];
      var rest := Tokenize(prefix);
      NormaliseShape(t);
      assert forall u :: u in tokens <==> u in prefix || u == t;
      match StandarizeWord(t)
      case Some(w) => rest + [w]
      case None => rest
  }

  /** Tokenizing a concatenation tokenizes each part: the filter keeps the tokens' order. */
  lemma {:induction false} TokenizeAppend(a: seq<string>, b: seq<string>)
    ensures Tokenize(a + b) == Tokenize(a) + Tokenize(b)
    decreases |b|
  {
    if b == [] {
      assert a + b == a;
    } else {
      var b' := b[..|b| - 1];
      assert (a + b)[..|a + b| - 1] == a + b';
      assert (a + b)[|a + b| - 1] == b[|b| - 1];
      TokenizeAppend(a, b');
    }
  }

  /** One token on its own: kept (lower-cased) exactly when it holds a letter. */
  lemma TokenizeSingle(t: string)
    ensures Tokenize([t]) == if HasLetter(t) then [LowerAll(t)] else []
  {
    assert [t][..0] == [];
  }

  /** Tokenizing the output of `tokenize` again changes nothing. */
  lemma {:induction false} TokenizeIdempotent(tokens: seq<string>)
    ensures Tokenize(Tokenize(tokens)) == Tokenize(tokens)
    decreases |tokens|
  {
    if tokens != [] {
      var prefix := tokens[..|tokens| - 1];
      var t := tokens[|tokens| - 1];
      TokenizeIdempotent(prefix);
      match Normalise(t)
      case None =>
      case Some(w) =>
        NormaliseIdempotent(t);
        TokenizeAppend(Tokenize(prefix), [w]);
        TokenizeSingle(w);
        NormaliseShape(t);
    }
  }

  /** The words of the documents named in `names`. */
  ghost function WordsOf(documents: map<string, seq<string>>, names: set<string>): set<string> {
    set d, w | d in names && d in documents && w in documents[d] :: w
  }

  /** The documents among `names` whose word list contains `w`. */
  ghost function DocumentsWith(documents: map<string, seq<string>>, names: set<string>, w: string): set<string> {
    set d | d in names && d in documents && w in documents[d]
  }

  /** A word of the corpus occurs in at least one and at most every document. */
  lemma {:induction false} DocumentsWithBounds(documents: map<string, seq<string>>, w: string)
    requires w in WordsOf(documents, documents.Keys)
    ensures 1 <= |DocumentsWith(documents, documents.Keys, w)| <= |documents|
  {
    var d :| d in documents && w in documents[d];
    assert d in DocumentsWith(documents, documents.Keys, w);
    SubsetCard(DocumentsWith(documents, documents.Keys, w), documents.Keys);
  }

  /** Adding one document to the counted ones adds one to the count of each of its words. */
  lemma AddDocument(documents: map<string, seq<string>>, names: set<string>, doc: string, w: string)
    requires doc in documents && doc !in names
    ensures |DocumentsWith(documents, names + {doc}, w)| ==
            |DocumentsWith(documents, names, w)| + (if w in documents[doc] then 1 else 0)
    ensures WordsOf(documents, names + {doc}) == WordsOf(documents, names) + set u | u in documents[doc]
  {
    if w in documents[doc] {
      assert DocumentsWith(documents, names + {doc}, w) == DocumentsWith(documents, names, w) + {doc};
    } else {
      assert DocumentsWith(documents, names + {doc}, w) == DocumentsWith(documents, names, w);
    }
  }

  function Get<T>(counts: map<T, int>, w: T): int {
    if w in counts then counts[w] else 0
  }

  /** The inner loop of `compute_idfs`: one more document for each of the given words. */
  method CountWords(counts: map<string, int>, words: set<string>) returns (r: map<string, int>)
    ensures forall w :: w in r <==> w in counts || w in words
    ensures forall w :: Get(r, w) == Get(counts, w) + (if w in words then 1 else 0)
  {
    r := counts;
    var todo := words;
    while todo != {}
      invariant todo <= words
      invariant forall w :: w in r <==> w in counts || (w in words && w !in todo)
      invariant forall w :: Get(r, w) == Get(counts, w) + (if w in words && w !in todo then 1 else 0)
      decreases |todo|
    {
      var w :| w in todo;
      r := r[w := Get(r, w) + 1];
      todo := todo - {w};
    }
  }

  /**
   * The counting part of `compute_idfs`: for every word occurring in some document, the number
   * of documents containing it (the value the source then divides into the document total and
   * takes the logarithm of).
   */
  method DocumentFrequencies(documents: map<string, seq<string>>) returns (idfs: map<string, int>)
    ensures forall w :: w in idfs <==> w in WordsOf(documents, documents.Keys)
    ensures forall w :: w in idfs ==> idfs[w] == |DocumentsWith(documents, documents.Keys, w)|
    ensures forall w :: w in idfs ==> 1 <= idfs[w] <= |documents|
  {
    idfs := map[];
    var todo := documents.Keys;
    while todo != {}
      invariant todo <= documents.Keys
      invariant forall w :: w in idfs <==> w in WordsOf(documents, documents.Keys - todo)
      invariant forall w :: Get(idfs, w) == |DocumentsWith(documents, documents.Keys - todo, w)|
      decreases |todo|
    {
      var doc :| doc in todo;
      ghost var done := documents.Keys - todo;
      var wordCheck := set w | w in documents[doc];
      idfs := CountWords(idfs, wordCheck);
      todo := todo - {doc};
      assert documents.Keys - todo == done + {doc};
      forall w
        ensures Get(idfs, w) == |DocumentsWith(documents, done + {doc}, w)|
      {
        AddDocument(documents, done, doc, w);
      }
      AddDocument(documents, done, doc, doc);
    }
    assert documents.Keys - todo == documents.Keys;
    forall w | w in idfs
      ensures 1 <= idfs[w] <= |documents|
    {
      DocumentsWithBounds(documents, w);
    }
  }
}
