/**
 * The similarity ranker (`BioMatch.cosine_similarity`), around the TF-IDF
 * scores it computes: the query is normalised like the bios, the document
 * list holds every record's tokens and the query last, and the corpus
 * indices are ranked by non-increasing score, of which the first ten are
 * listed, padded to the longest name among them.
 */
module Ranker {
  import opened Wrappers
  import opened Text
  import opened Bios

  /** How many ranked bios the listing shows. */
  const TopCount: nat := 10

  /** `" ".join([w for w in text.lower().split(" ") if w not in stop])` */
  function NormalizeQuery(text: string, stop: set<string>): (r: string)
    ensures IsLowered(r)
  {
    var words := Split(Lower(text), ' ');
    var kept := RemoveStopwords(words, stop);
    SplitLowered(Lower(text), ' ');
    JoinLowered(kept, ' ');
    Join(kept, ' ')
  }

  /**
   * Split on spaces, the normalised query holds no stopword (the empty
   * string not being one: a query of stopwords only normalises to "").
   */
  lemma NormalizeQueryNoStopwords(text: string, stop: set<string>)
    requires "" !in stop
    ensures forall k :: 0 <= k < |Split(NormalizeQuery(text, stop), ' ')| ==> Split(NormalizeQuery(text, stop), ' ')[k] !in stop
  {
    var kept := RemoveStopwords(Split(Lower(text), ' '), stop);
    if |kept| > 0 {
      SplitJoin(kept, ' ');
    }
  }

  /**
   * The normalised query holds the words of the lower-cased text that are
   * not stopwords, in order: the same words `Tokens` keeps of a paragraph.
   * When no word survives, the query is empty.
   */
  lemma NormalizeQueryWords(text: string, stop: set<string>)
    ensures var kept := Tokens([Lower(text)], stop);
      && (|kept| > 0 ==> Split(NormalizeQuery(text, stop), ' ') == kept)
      && (|kept| == 0 ==> NormalizeQuery(text, stop) == "")
  {
    var words := Split(Lower(text), ' ');
    assert Words([Lower(text)]) == words + Words([]);
    assert words + Words([]) == words;
    var kept := RemoveStopwords(words, stop);
    if |kept| > 0 {
      SplitJoin(kept, ' ');
    }
  }

  /** Normalising a normalised query changes nothing. */
  lemma NormalizeQueryIdempotent(text: string, stop: set<string>)
    ensures NormalizeQuery(NormalizeQuery(text, stop), stop) == NormalizeQuery(text, stop)
  {
    var q := NormalizeQuery(text, stop);
    var kept := RemoveStopwords(Split(Lower(text), ' '), stop);
    assert q == Join(kept, ' ');
    LowerOfLowered(q);
    if |kept| > 0 {
      SplitJoin(kept, ' ');
      RemoveNoStopwords(kept, stop);
    } else {
      assert Split(q, ' ') == [""];
      if "" in stop {
        assert RemoveStopwords([""], stop) == [];
      } else {
        assert RemoveStopwords([""], stop) == [""];
      }
    }
  }

  /** `[bio["name"] for bio in bios.values()]`, in corpus order. */
  function Names(c: Corpus): (r: seq<string>)
    requires WellFormed(c)
    ensures |r| == |c.order|
    ensures forall i :: 0 <= i < |r| ==> r[i] == c.bios[c.order[i]].name
  {
    seq(|c.order|, i requires 0 <= i < |c.order| => c.bios[c.order[i]].name)
  }

  /** `[" ".join(bio["data"]) for bio in bios.values()] + [query]` */
  function Documents(c: Corpus, query: string): (r: seq<string>)
    requires WellFormed(c)
    ensures |r| == |c.order| + 1 && r[|c.order|] == query
    ensures forall i :: 0 <= i < |c.order| ==> r[i] == Join(c.bios[c.order[i]].data, ' ')
  {
    seq(|c.order|, i requires 0 <= i < |c.order| => Join(c.bios[c.order[i]].data, ' ')) + [query]
  }

  /** Every entry of `xs` is a position in `scores`. */
  predicate InRange(scores: seq<int>, xs: seq<nat>) {
    forall k :: 0 <= k < |xs| ==> xs[k] < |scores|
  }

  /** Scores read along `xs` never increase. */
  predicate NonIncreasing(scores: seq<int>, xs: seq<nat>)
    requires InRange(scores, xs)
  {
    forall j, k :: 0 <= j < k < |xs| ==> scores[xs[j]] >= scores[xs[k]]
  }

  /** The first entry of a ranked list scores highest. */
  lemma HeadScoresHighest(scores: seq<int>, xs: seq<nat>)
    requires |xs| > 0 && InRange(scores, xs) && NonIncreasing(scores, xs)
    ensures forall y :: y in xs ==> y < |scores| && scores[y] <= scores[xs[0]]
  {
    forall y | y in xs ensures y < |scores| && scores[y] <= scores[xs[0]] {
      var i :| 0 <= i < |xs| && xs[i] == y;
    }
  }

  /** `x` placed into a ranked list ahead of the first entry it does not score below. */
  function InsertByScore(scores: seq<int>, x: nat, xs: seq<nat>): (r: seq<nat>)
    requires x < |scores| && InRange(scores, xs) && NonIncreasing(scores, xs)
    ensures InRange(scores, r) && NonIncreasing(scores, r)
    ensures multiset(r) == multiset(xs) + multiset{x}
    ensures forall k :: 0 <= k < |r| ==> r[k] == x || r[k] in xs
  {
    if |xs| == 0 then [x]
    else if scores[x] >= scores[xs[0]] then [x] + xs
    else
      var rest := InsertByScore(scores, x, xs[1..]);
      assert xs == [xs[0]] + xs[1..];
      HeadScoresHighest(scores, xs);
      assert forall k :: 0 <= k < |rest| ==> rest[k] == x || rest[k] in xs;
      [xs[0]] + rest
  }

  /** Insertion sort of `xs` by non-increasing score. */
  function SortByScore(scores: seq<int>, xs: seq<nat>): (r: seq<nat>)
    requires InRange(scores, xs)
    ensures InRange(scores, r) && NonIncreasing(scores, r)
    ensures multiset(r) == multiset(xs)
  {
    if |xs| == 0 then []
    else
      assert xs == [xs[0]] + xs[1..];
      InsertByScore(scores, xs[0], SortByScore(scores, xs[1..]))
  }

  /** The corpus indices 0, 1, ..., n - 1. */
  function Range(n: nat): (r: seq<nat>)
    ensures |r| == n
    ensures forall i :: 0 <= i < n ==> r[i] == i
  {
    if n == 0 then [] else Range(n - 1) + [n - 1]
  }

  /** `cosine.argsort()[::-1]`: the corpus indices by non-increasing score. */
  function Ranking(scores: seq<int>): (r: seq<nat>)
    ensures InRange(scores, r) && NonIncreasing(scores, r)
    ensures multiset(r) == multiset(Range(|scores|))
  {
    SortByScore(scores, Range(|scores|))
  }

  /** Each index below n occurs once in 0 .. n - 1, and no other number occurs. */
  lemma {:induction false} RangeCounts(n: nat)
    ensures forall i: nat :: multiset(Range(n))[i] == if i < n then 1 else 0
  {
    if n > 0 {
      var last: nat := n - 1;
      var before, after := multiset(Range(last)), multiset(Range(n));
      assert after == before + multiset{last} by {
        assert Range(n) == Range(last) + [last];
      }
      RangeCounts(last);
      forall i: nat ensures after[i] == if i < n then 1 else 0 {
        assert after[i] == before[i] + multiset{last}[i];
      }
    }
  }

  lemma RepeatedCountsTwice(s: seq<nat>, j: nat, k: nat)
    requires j < k < |s| && s[j] == s[k]
    ensures multiset(s)[s[k]] >= 2
  {
    assert s == s[..k] + s[k..];
    assert s[j] in s[..k];
    assert s[k] in s[k..];
    assert multiset(s) == multiset(s[..k]) + multiset(s[k..]);
  }

  /**
   * The ranking is a permutation of 0 .. n - 1: it has n entries, all
   * below n and all different, so every index occurs once.
   */
  lemma RankingIsPermutation(scores: seq<int>)
    ensures var r := Ranking(scores);
      && |r| == |scores|
      && (forall k :: 0 <= k < |r| ==> r[k] < |scores|)
      && (forall j, k :: 0 <= j < k < |r| ==> r[j] != r[k])
      && (forall i :: 0 <= i < |scores| ==> i in r)
  {
    var r := Ranking(scores);
    RangeCounts(|scores|);
    assert |r| == |multiset(r)| == |multiset(Range(|scores|))| == |scores|;
    forall j, k | 0 <= j < k < |r| ensures r[j] != r[k] {
      if r[j] == r[k] {
        RepeatedCountsTwice(r, j, k);
      }
    }
    forall i | 0 <= i < |scores| ensures i in r {
      assert multiset(r)[i] == 1;
    }
  }

  /** `max([len(names[i]) for i in top])`, defined only for a non-empty top. */
  function MaxNameLength(names: seq<string>, top: seq<nat>): (r: nat)
    requires |top| > 0
    requires forall k :: 0 <= k < |top| ==> top[k] < |names|
    ensures forall k :: 0 <= k < |top| ==> |names[top[k]]| <= r
    ensures exists k :: 0 <= k < |top| && r == |names[top[k]]|
  {
    if |top| == 1 then |names[top[0]]|
    else
      var rest := MaxNameLength(names, top[1..]);
      assert forall k :: 1 <= k < |top| ==> top[k] == top[1..][k - 1];
      if |names[top[0]]| >= rest then |names[top[0]]| else rest
  }

  datatype QueryError = EmptyCorpus

  /**
   * What a query produces: the normalised query, the names and the document
   * list in corpus order, the scores, the full ranking, the ranked indices
   * listed and the width the listed names are padded to.
   */
  datatype Listing = Listing(query: string, names: seq<string>, documents: seq<string>, scores: seq<int>,
                             ranking: seq<nat>, top: seq<nat>, width: nat)

  /**
   * A query against corpus `c`; `scores[i]` is the cosine similarity of the
   * query with the i-th bio, which the TF-IDF vectoriser works out from the
   * document list. An empty corpus has no name to pad to and is an error.
   */
  function Similarity(c: Corpus, text: string, stop: set<string>, scores: seq<int>): (r: Result<Listing, QueryError>)
    requires WellFormed(c) && |scores| == |c.order|
    ensures r.Err? <==> |c.order| == 0
  {
    var query := NormalizeQuery(text, stop);
    var names := Names(c);
    var ranking := Ranking(scores);
    var top := ranking[..if |ranking| < TopCount then |ranking| else TopCount];
    if |top| == 0 then Err(EmptyCorpus)
    else Ok(Listing(query, names, Documents(c, query), scores, ranking, top, MaxNameLength(names, top)))
  }

  /**
   * For a non-empty corpus of n bios: n names and n + 1 documents in corpus
   * order with the normalised query last, a ranking that is a permutation
   * of the indices by non-increasing score, its first min(10, n) entries
   * listed, and the width the longest listed name.
   */
  lemma SimilarityListing(c: Corpus, text: string, stop: set<string>, scores: seq<int>)
    requires WellFormed(c) && |scores| == |c.order| && |c.order| > 0
    ensures var r := Similarity(c, text, stop, scores);
      var n := |c.order|;
      && r.Ok?
      && r.value.query == NormalizeQuery(text, stop)
      && |r.value.names| == n && |r.value.documents| == n + 1
      && r.value.documents[n] == r.value.query
      && (forall i :: 0 <= i < n ==>
            r.value.names[i] == c.bios[c.order[i]].name && r.value.documents[i] == Join(c.bios[c.order[i]].data, ' '))
      && |r.value.ranking| == n
      && (forall i :: 0 <= i < n ==> i in r.value.ranking)
      && (forall j, k :: 0 <= j < k < n ==> scores[r.value.ranking[j]] >= scores[r.value.ranking[k]])
      && |r.value.top| == (if n < TopCount then n else TopCount)
      && r.value.top == r.value.ranking[..|r.value.top|]
      && (forall k :: 0 <= k < |r.value.top| ==> |r.value.names[r.value.top[k]]| <= r.value.width)
      && (exists k :: 0 <= k < |r.value.top| && r.value.width == |r.value.names[r.value.top[k]]|)
  {
    RankingIsPermutation(scores);
  }
}
