/** Document normalisation and MinHash signatures. The tokenizer (lower-casing,
    punctuation stripping and `word_tokenize`), the stop-word corpus and the
    MinHash hashing are foreign code; they are the parameters bundled in `Env`. */
module Signatures {
  import opened Results
  import opened MinHashLsh

  /** The foreign collaborators of the core. `tokenize` stands for
      `word_tokenize(text.lower().translate(...))`; `stopWords` is the stop-word
      corpus by language; `minhash` is the signature of a token list; `candidate`
      is the band-bucket relation of the LSH index. */
  datatype Env = Env(
    tokenize: string -> seq<string>,
    stopWords: map<string, set<string>>,
    minhash: seq<string> -> Signature,
    candidate: CandidateRel)

  /** `stopwords.words(language)`: the list of one language, every language's
      words together when the language is `None`, and an `OSError` for a language
      the corpus does not have. */
  function StopWords(corpus: map<string, set<string>>, language: Option<string>): (r: Result<set<string>>)
    ensures language.Some? ==> (r.Success? <==> language.value in corpus)
    ensures language.Some? && r.Success? ==> r.value == corpus[language.value]
    ensures language.Some? && r.Failure? ==> r.error == OSError
    ensures language.None? ==> r.Success? && forall w :: w in r.value <==> exists l :: l in corpus && w in corpus[l]
  {
    match language
    case None => Success(set l, w | l in corpus && w in corpus[l] :: w)
    case Some(l) => if l in corpus then Success(corpus[l]) else Failure(OSError)
  }

  /** `a` is an order-preserving subsequence of `b`. */
  ghost predicate IsSubsequence<T>(a: seq<T>, b: seq<T>)
    decreases |b|
  {
    |a| == 0 || (|b| > 0 && if a[0] == b[0] then IsSubsequence(a[1..], b[1..]) else IsSubsequence(a, b[1..]))
  }

  /** `[token for token in tokens if token not in stop_words]`: an order-preserving
      subsequence of the tokens holding no stop word and every other token as often
      as it occurs. */
  function DropStopWords(tokens: seq<string>, stops: set<string>): (r: seq<string>)
    ensures IsSubsequence(r, tokens)
    ensures forall t :: t in r ==> t !in stops
    ensures forall t :: t !in stops ==> multiset(r)[t] == multiset(tokens)[t]
  {
    if tokens == [] then []
    else
      var rest := DropStopWords(tokens[1..], stops);
      assert tokens == [tokens[0]] + tokens[1..];
      if tokens[0] in stops then rest
      else
        var r := [tokens[0]] + rest;
        assert r[1..] == rest;
        r
  }

  /** `preprocess_and_tokenize(text, language)`: `None.lower()` raises
      `AttributeError`; an unknown language raises `OSError`; otherwise the
      tokenizer output with the stop words of the language removed. */
  function PreprocessAndTokenize(text: Option<string>, language: Option<string>, env: Env): (r: Result<seq<string>>)
    ensures text.None? ==> r == Failure(AttributeError)
    ensures text.Some? ==> (r.Success? <==> StopWords(env.stopWords, language).Success?)
    ensures r.Success? ==> IsSubsequence(r.value, env.tokenize(text.value))
    ensures r.Success? ==> forall t :: t in r.value ==> t !in StopWords(env.stopWords, language).value
    ensures r.Success? ==> forall t :: t in env.tokenize(text.value) && t !in StopWords(env.stopWords, language).value ==> t in r.value
  {
    match text
    case None => Failure(AttributeError)
    case Some(t) =>
      match StopWords(env.stopWords, language)
      case Failure(e) => Failure(e)
      case Success(stops) =>
        var toks := env.tokenize(t);
        var r := DropStopWords(toks, stops);
        assert forall w :: w in toks && w !in stops ==> multiset(r)[w] > 0;
        Success(r)
  }

  /** `minhash_signature(document, language)`: the MinHash of the normalised tokens. */
  function MinhashSignature(text: Option<string>, language: Option<string>, env: Env): (r: Result<Signature>)
    ensures r.Success? <==> PreprocessAndTokenize(text, language, env).Success?
    ensures r.Failure? ==> r.error == PreprocessAndTokenize(text, language, env).error
    ensures r.Success? ==> r.value == env.minhash(PreprocessAndTokenize(text, language, env).value)
  {
    match PreprocessAndTokenize(text, language, env)
    case Failure(e) => Failure(e)
    case Success(toks) => Success(env.minhash(toks))
  }

  /** With no language the stop words of every language apply, so the words of
      each single language are among them. */
  lemma AllLanguagesCoverEach(corpus: map<string, set<string>>, language: string)
    requires language in corpus
    ensures StopWords(corpus, Some(language)).value <= StopWords(corpus, None).value
  {
  }

  /** Filtering with more stop words keeps no more of any token. */
  lemma MoreStopWordsKeepLess(tokens: seq<string>, fewer: set<string>, more: set<string>)
    requires fewer <= more
    ensures forall t :: multiset(DropStopWords(tokens, more))[t] <= multiset(DropStopWords(tokens, fewer))[t]
  {
  }

  /** A text made only of stop words of its language is signed as the empty token list. */
  lemma OnlyStopWordsSignEmpty(text: string, language: Option<string>, env: Env)
    requires StopWords(env.stopWords, language).Success?
    requires forall t :: t in env.tokenize(text) ==> t in StopWords(env.stopWords, language).value
    ensures MinhashSignature(Some(text), language, env) == Success(env.minhash([]))
  {
    NoneKept(env.tokenize(text), StopWords(env.stopWords, language).value);
  }

  /** Tokens that are all stop words are all dropped. */
  lemma {:induction false} NoneKept(tokens: seq<string>, stops: set<string>)
    requires forall t :: t in tokens ==> t in stops
    ensures DropStopWords(tokens, stops) == []
  {
    if tokens != [] {
      assert tokens[0] in tokens;
      assert forall t :: t in tokens[1..] ==> t in tokens;
      NoneKept(tokens[1..], stops);
    }
  }
}
