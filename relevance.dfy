/** The relevance scorer of the search engine (class `WikiApi` and its inner
    class `WikiPage`): the injected page source, the target page's word
    frequencies, and the ranking of a page's outbound links by how often the
    words of each link title occur in the target page. */
module Relevance {
  import opened Text
  import opened Ranking
  import opened WordCounts
  import opened Options

  /** The string every fetch helper returns for a page that does not exist. */
  const PageNotFound: string := "Page not found"

  /** The engine's stop words (upper case, 57 of them). */
  function StopWords(): set<string> {
   {
    "WAS", "MUCH", "WERE", "AN", "S", "WHEN", "HAD", "BUT", "IT", "IS", "A",
    "ON", "WHAT", "CAN", "HAVE", "SHALL", "OUT", "THAN", "BE", "WITH", "OF",
    "DO", "MAY", "DOES", "OUGHT", "FOR", "IN", "MIGHT", "WHO", "WILL", "THIS",
    "ITS", "WHICH", "DOWN", "BEING", "MANY", "WOULD", "FROM", "ABOUT", "AS",
    "COULD", "BEEN", "THAT", "MUST", "OR", "SUCH", "UP", "HAS", "BY", "AND",
    "DID", "TO", "THE", "SHOULD", "ARE", "ALSO", "AT"}
  }

  /** What asking the encyclopedia for a page's outbound links gives: the
      link titles, a page that does not exist, or an exception (network
      failure) that propagates to the caller. */
  datatype Fetch = Fetched(titles: seq<string>) | Missing | FetchFailed

  /** The collaborators the engine calls but that are not part of it: the
      encyclopedia (links and body text of a page; `None` for a page that
      does not exist), the corpus frequency of an English word, and base-10
      logarithm. */
  datatype Oracle = Oracle(
    links: string -> Fetch,
    text: string -> Option<string>,
    rarity: string -> real,
    log10: real -> real)

  /** The one-character strings of `s`, which is what iterating over a Python
      string yields. */
  function Characters(s: string): (r: seq<string>)
    ensures |r| == |s|
    ensures forall i :: 0 <= i < |s| ==> r[i] == [s[i]]
  {
    seq(|s|, i requires 0 <= i < |s| => [s[i]])
  }

  /** What `for title in current_links` visits, when `current_links` is the
      result of `WikiPage.get_page_links`: the link titles, or for a missing
      page the characters of the sentinel string. */
  function LinkTitles(f: Fetch): seq<string> {
    match f
    case Fetched(ts) => ts
    case Missing => Characters(PageNotFound)
    case FetchFailed => []
  }

  /** `WikiPage.get_wikipedia_page_text` */
  function PageText(o: Oracle, title: string): string {
    match o.text(title)
    case Some(t) => t
    case None => PageNotFound
  }

  /** The two results of `WikiPage.get_word_frequency`: the sentinel string
      or the frequency dict. */
  datatype Frequency = Sentinel | Table(items: seq<Item>)

  /** `WikiPage.get_word_frequency` */
  function PageWordFrequency(o: Oracle, title: string): Frequency {
    var text := PageText(o, title);
    if text == PageNotFound then Sentinel else Table(Frequencies(Upper(text), StopWords()))
  }

  /** The page's `word_frequency` attribute after `get_word_frequency`: it is
      only assigned when the page was found and otherwise keeps its initial
      empty dict. */
  function TargetWords(o: Oracle, title: string): seq<Item> {
    match PageWordFrequency(o, title)
    case Sentinel => []
    case Table(items) => items
  }

  /** For a page that was found, the dict holds each upper-cased token that
      is not a stop word, with its number of occurrences, each once, by
      decreasing count. */
  lemma PageWordFrequencyCounts(o: Oracle, title: string, text: string)
    requires o.text(title) == Some(text) && text != PageNotFound
    ensures var f := PageWordFrequency(o, title);
      var tokens := Counted(Upper(text), StopWords());
      && f.Table? && f.items == TargetWords(o, title)
      && (forall x :: x in Keys(f.items) <==> x in tokens)
      && (forall x :: x in Keys(f.items) ==> x !in StopWords())
      && (forall i :: 0 <= i < |f.items| ==> f.items[i].1 == multiset(tokens)[f.items[i].0])
      && Distinct(Keys(f.items))
      && NonIncreasing(f.items, CountOf)
  {
    assert PageWordFrequency(o, title) == Table(Frequencies(Upper(text), StopWords()));
    FrequenciesCountTokens(Upper(text), StopWords());
  }

  /** A page that does not exist gives the sentinel, and the target's
      `word_frequency` then stays the empty dict. */
  lemma MissingPageWordFrequency(o: Oracle, title: string)
    requires o.text(title).None?
    ensures PageWordFrequency(o, title) == Sentinel && TargetWords(o, title) == []
  {
  }

  /** The `split` lambda applied to `title.upper()`. */
  function TitleWords(title: string): seq<string> {
    Without(Runs(Upper(title), IsNonSpace), StopWords())
  }

  /** The uniqueness weight of a word of the target page: 10 for a word the
      corpus does not know, otherwise `-log10(rarity) - 1`. */
  function UniquenessWeight(o: Oracle, w: string): real {
    var r := o.rarity(w);
    if r <= 0.0 then 10.0 else -1.0 * o.log10(r) - 1.0
  }

  function Weight(o: Oracle, uniqueness: bool, w: string): real {
    if uniqueness then UniquenessWeight(o, w) else 1.0
  }

  /** What the scorer reads of the engine: the page source, the target's
      frequency dict, `adjust_for_word_uniqueness` and `neighbors_to_check`. */
  datatype Scorer = Scorer(oracle: Oracle, targetWords: seq<Item>, uniqueness: bool, limit: int)

  /** `word_freq[word] * weight` */
  function Scaled(f: nat, weight: real): real {
    f as real * weight
  }

  /** What one title word adds to `total_freq`. */
  function Contribution(sc: Scorer, w: string): real {
    match Lookup(sc.targetWords, w)
    case Some(f) => Scaled(f, Weight(sc.oracle, sc.uniqueness, w))
    case None => 0.0
  }

  /** A word found in the target dict with count `f` adds `f` times its
      weight. */
  lemma FoundContribution(sc: Scorer, w: string, f: nat, weight: real)
    requires Lookup(sc.targetWords, w) == Some(f)
    requires weight == Weight(sc.oracle, sc.uniqueness, w)
    ensures Contribution(sc, w) == Scaled(f, weight)
  {
  }

  /** `total_freq` after the words `ws`. */
  function WordSum(sc: Scorer, ws: seq<string>): real {
    if ws == [] then 0.0 else WordSum(sc, ws[..|ws| - 1]) + Contribution(sc, ws[|ws| - 1])
  }

  lemma WordSumStep(sc: Scorer, ws: seq<string>, m: nat)
    requires m < |ws|
    ensures WordSum(sc, ws[..m + 1]) == WordSum(sc, ws[..m]) + Contribution(sc, ws[m])
  {
    assert ws[..m + 1][..m] == ws[..m];
  }

  /** The relation score of one link title: the average contribution of its
      non-stop words, or 0 when it has none (division by zero is caught). */
  function TitleScore(sc: Scorer, title: string): real {
    var ws := TitleWords(title);
    if |ws| == 0 then 0.0 else WordSum(sc, ws) / (|ws| as real)
  }

  /** A (link title, relation score) entry of the scorer's result dict. */
  type Candidate = (string, real)

  function ScoreOf(c: Candidate): real { c.1 }

  /** Each title paired with its score under `score`. */
  function ScoreWith(titles: seq<string>, score: string -> real): (cs: seq<Candidate>)
    ensures |cs| == |titles|
    ensures forall i :: 0 <= i < |titles| ==> cs[i] == (titles[i], score(titles[i]))
  {
    seq(|titles|, i requires 0 <= i < |titles| => (titles[i], score(titles[i])))
  }

  lemma ScoreWithStep(titles: seq<string>, score: string -> real, k: nat)
    requires k < |titles|
    ensures ScoreWith(titles[..k + 1], score) == ScoreWith(titles[..k], score) + [(titles[k], score(titles[k]))]
  {
    var a := ScoreWith(titles[..k + 1], score);
    var b := ScoreWith(titles[..k], score) + [(titles[k], score(titles[k]))];
    forall i | 0 <= i < |a| ensures a[i] == b[i] {
      assert titles[..k + 1][i] == titles[i];
      if i < k {
        assert titles[..k][i] == titles[i];
      }
    }
  }

  /** `links_and_indices` before sorting. */
  function ScoreAll(sc: Scorer, titles: seq<string>): (cs: seq<Candidate>)
    ensures |cs| == |titles|
    ensures forall i :: 0 <= i < |titles| ==> cs[i] == (titles[i], TitleScore(sc, titles[i]))
  {
    ScoreWith(titles, t => TitleScore(sc, t))
  }

  lemma ScoreAllStep(sc: Scorer, titles: seq<string>, k: nat)
    requires k < |titles|
    ensures ScoreAll(sc, titles[..k + 1]) == ScoreAll(sc, titles[..k]) + [(titles[k], TitleScore(sc, titles[k]))]
  {
    ScoreWithStep(titles, t => TitleScore(sc, t), k);
  }

  /** The result of `get_most_similar_links_to_target`: either it raised, or
      it returned the (title, score) dict. */
  datatype Similar = Raised | Top(links: seq<Candidate>)

  /** The distinct link titles of the page, in first-occurrence order (the
      keys of `title_words`). */
  function Considered(sc: Scorer, title: string): seq<string> {
    Dedup(LinkTitles(sc.oracle.links(title)))
  }

  /** All considered links with their scores, best first. */
  function Ranked(sc: Scorer, title: string): seq<Candidate> {
    SortDesc(ScoreAll(sc, Considered(sc, title)), ScoreOf)
  }

  /** `get_most_similar_links_to_target(title)` as a value. */
  function Candidates(sc: Scorer, title: string): Similar {
    if sc.oracle.links(title).FetchFailed? then Raised
    else Top(Prefix(Ranked(sc, title), sc.limit))
  }

  /** The scorer fails only when the fetch of the page's links fails; it
      returns `neighbors_to_check` entries (Python slice semantics: fewer if
      the page has fewer links, all but the last `-n` for a negative `n`). */
  lemma CandidatesBounded(sc: Scorer, title: string)
    ensures Candidates(sc, title).Raised? <==> sc.oracle.links(title).FetchFailed?
    ensures Candidates(sc, title).Top? ==>
      |Candidates(sc, title).links| == SliceStop(|Considered(sc, title)|, sc.limit)
    ensures Candidates(sc, title).Top? && sc.limit >= 0 ==>
      |Candidates(sc, title).links| <= sc.limit
  {
    if !sc.oracle.links(title).FetchFailed? {
      var r := Ranked(sc, title);
      assert |r| == |Considered(sc, title)|;
      assert Candidates(sc, title).links == r[..SliceStop(|r|, sc.limit)];
    }
  }

  /** Entries of a rearrangement of the scored titles are scored titles. */
  lemma RankedEntries(sc: Scorer, ts: seq<string>, r: seq<Candidate>)
    requires multiset(r) == multiset(ScoreAll(sc, ts))
    ensures forall i :: 0 <= i < |r| ==> r[i].0 in ts && r[i].1 == TitleScore(sc, r[i].0)
  {
    var all := ScoreAll(sc, ts);
    forall i | 0 <= i < |r| ensures r[i].0 in ts && r[i].1 == TitleScore(sc, r[i].0) {
      assert r[i] in multiset(all);
      var j :| 0 <= j < |all| && all[j] == r[i];
    }
  }

  /** A leading part of a rearrangement of the scored titles holds titles
      of the list, each with its own score. */
  lemma ScoredPrefix(sc: Scorer, ts: seq<string>, r: seq<Candidate>, top: seq<Candidate>)
    requires multiset(r) == multiset(ScoreAll(sc, ts))
    requires |top| <= |r| && top == r[..|top|]
    ensures forall i :: 0 <= i < |top| ==> top[i].0 in ts && top[i].1 == TitleScore(sc, top[i].0)
  {
    RankedEntries(sc, ts, r);
    forall i | 0 <= i < |top| ensures top[i].0 in ts && top[i].1 == TitleScore(sc, top[i].0) {
      assert top[i] == r[i];
    }
  }

  /** A leading part of a rearrangement of the scored distinct titles has
      no title twice. */
  lemma DistinctPrefix(sc: Scorer, ts: seq<string>, r: seq<Candidate>, top: seq<Candidate>)
    requires Distinct(ts)
    requires multiset(r) == multiset(ScoreAll(sc, ts))
    requires |top| <= |r| && top == r[..|top|]
    ensures Distinct(Keys(top))
  {
    var all := ScoreAll(sc, ts);
    assert Distinct(all) by {
      forall i, j | 0 <= i < j < |all| ensures all[i] != all[j] {
        assert all[i].0 == ts[i] && all[j].0 == ts[j];
      }
    }
    DistinctAfterPermutation(all, r);
    RankedEntries(sc, ts, r);
    forall i, j | 0 <= i < j < |top| ensures Keys(top)[i] != Keys(top)[j] {
      assert top[i] == r[i] && top[j] == r[j];
      assert r[i] != r[j];
      assert r[i].1 == TitleScore(sc, r[i].0) && r[j].1 == TitleScore(sc, r[j].0);
    }
  }

  /** The keys of the result are link titles of the page, each once, each
      with its own relation score. */
  lemma CandidatesAreScoredLinks(sc: Scorer, title: string)
    requires Candidates(sc, title).Top?
    ensures forall i :: 0 <= i < |Candidates(sc, title).links| ==>
      Candidates(sc, title).links[i].0 in LinkTitles(sc.oracle.links(title))
    ensures forall i :: 0 <= i < |Candidates(sc, title).links| ==>
      Candidates(sc, title).links[i].1 == TitleScore(sc, Candidates(sc, title).links[i].0)
    ensures Distinct(Keys(Candidates(sc, title).links))
  {
    var ts := Considered(sc, title);
    var r := Ranked(sc, title);
    var top := Candidates(sc, title).links;
    assert top == r[..|top|];
    ScoredPrefix(sc, ts, r, top);
    DistinctPrefix(sc, ts, r, top);
  }

  /** The keys of what the scorer returned; none when it raised. */
  function TitlesOf(s: Similar): seq<string> {
    match s
    case Raised => []
    case Top(links) => Keys(links)
  }

  lemma CandidateTitlesAreLinks(sc: Scorer, title: string)
    ensures forall c :: c in TitlesOf(Candidates(sc, title)) ==> c in LinkTitles(sc.oracle.links(title))
  {
    var s := Candidates(sc, title);
    if s.Top? {
      CandidatesAreScoredLinks(sc, title);
      forall c | c in Keys(s.links) ensures c in LinkTitles(sc.oracle.links(title)) {
        var i :| 0 <= i < |s.links| && Keys(s.links)[i] == c;
      }
    }
  }

  /** In a best-first rearrangement of the scored titles, a title outside
      the first `m` entries scores no more than any entry among them. */
  lemma BestFirstPrefix(sc: Scorer, ts: seq<string>, r: seq<Candidate>, m: nat)
    requires multiset(r) == multiset(ScoreAll(sc, ts)) && NonIncreasing(r, ScoreOf)
    requires m <= |r|
    ensures forall t, i :: t in ts && t !in Keys(r[..m]) && 0 <= i < m ==>
      TitleScore(sc, t) <= r[i].1
  {
    var all := ScoreAll(sc, ts);
    var top := r[..m];
    forall t, i | t in ts && t !in Keys(top) && 0 <= i < m
      ensures TitleScore(sc, t) <= r[i].1
    {
      var j := IndexOf(ts, t);
      assert all[j] == (t, TitleScore(sc, t));
      assert all[j] !in top by {
        assert forall q :: 0 <= q < |top| ==> Keys(top)[q] == top[q].0;
      }
      PrefixHoldsTheBest(all, r, ScoreOf, m, all[j]);
    }
  }

  /** The result is best first, and every link left out scores no more
      than any link kept. */
  lemma CandidatesAreBest(sc: Scorer, title: string)
    requires Candidates(sc, title).Top?
    ensures NonIncreasing(Candidates(sc, title).links, ScoreOf)
    ensures forall t, i ::
      t in Considered(sc, title) && t !in Keys(Candidates(sc, title).links) && 0 <= i < |Candidates(sc, title).links|
      ==> TitleScore(sc, t) <= Candidates(sc, title).links[i].1
  {
    var r := Ranked(sc, title);
    var top := Candidates(sc, title).links;
    assert top == r[..|top|];
    BestFirstTop(sc, Considered(sc, title), r, top);
  }

  /** A leading part of a best-first rearrangement of the scored titles is
      best first and scores no less than any title left out. */
  lemma BestFirstTop(sc: Scorer, ts: seq<string>, r: seq<Candidate>, top: seq<Candidate>)
    requires multiset(r) == multiset(ScoreAll(sc, ts)) && NonIncreasing(r, ScoreOf)
    requires |top| <= |r| && top == r[..|top|]
    ensures NonIncreasing(top, ScoreOf)
    ensures forall t, i :: t in ts && t !in Keys(top) && 0 <= i < |top| ==> TitleScore(sc, t) <= top[i].1
  {
    BestFirstPrefix(sc, ts, r, |top|);
    forall i, j | 0 <= i < j < |top| ensures ScoreOf(top[i]) >= ScoreOf(top[j]) {
      assert top[i] == r[i] && top[j] == r[j];
    }
  }

  /** Ties keep link order: for every score value, the entries with that
      score are the first ones with that score in link order. */
  lemma CandidatesKeepTiesInLinkOrder(sc: Scorer, title: string, k: real)
    requires Candidates(sc, title).Top?
    ensures var top := Candidates(sc, title).links;
      WithKey(top, ScoreOf, k) <= WithKey(ScoreAll(sc, Considered(sc, title)), ScoreOf, k)
  {
    var all := ScoreAll(sc, Considered(sc, title));
    var r := Ranked(sc, title);
    var top := Candidates(sc, title).links;
    assert top == r[..|top|];
    SortDescStable(all, ScoreOf, k);
    WithKeyPrefix(r, |top|, ScoreOf, k);
  }

  /** A title made only of stop words scores 0, not a division error. */
  lemma {:induction false} StopWordTitleScoresZero(sc: Scorer, title: string)
    requires forall w :: w in Runs(Upper(title), IsNonSpace) ==> w in StopWords()
    ensures TitleScore(sc, title) == 0.0
  {
    WithoutOnlyStopWords(Runs(Upper(title), IsNonSpace), StopWords());
  }

  /** The sum of the target frequencies of the words, taken left to right. */
  function FrequencySum(items: seq<Item>, ws: seq<string>): real {
    if ws == [] then 0.0
    else (match Lookup(items, ws[0]) case Some(f) => f as real case None => 0.0)
         + FrequencySum(items, ws[1..])
  }

  lemma {:induction false} FrequencySumAppend(items: seq<Item>, ws: seq<string>, w: string)
    ensures FrequencySum(items, ws + [w]) ==
      FrequencySum(items, ws) + (match Lookup(items, w) case Some(f) => f as real case None => 0.0)
  {
    if ws != [] {
      assert (ws + [w])[1..] == ws[1..] + [w];
      FrequencySumAppend(items, ws[1..], w);
    } else {
      assert ([w])[1..] == [];
    }
  }

  lemma {:induction false} WordSumWithoutUniqueness(sc: Scorer, ws: seq<string>)
    requires !sc.uniqueness
    ensures WordSum(sc, ws) == FrequencySum(sc.targetWords, ws)
  {
    if ws != [] {
      var p := ws[..|ws| - 1];
      WordSumWithoutUniqueness(sc, p);
      assert ws == p + [ws[|ws| - 1]];
      FrequencySumAppend(sc.targetWords, p, ws[|ws| - 1]);
    }
  }

  /** With uniqueness weighting off, a title's score is the sum of the target
      frequencies of its non-stop words divided by their number. */
  lemma ScoreWithoutUniqueness(sc: Scorer, title: string)
    requires !sc.uniqueness
    ensures var ws := TitleWords(title);
      TitleScore(sc, title) ==
        if |ws| == 0 then 0.0 else FrequencySum(sc.targetWords, ws) / (|ws| as real)
  {
    WordSumWithoutUniqueness(sc, TitleWords(title));
  }

  lemma {:induction false} WordSumWithoutTargetWords(sc: Scorer, ws: seq<string>)
    requires sc.targetWords == []
    ensures WordSum(sc, ws) == 0.0
  {
    if ws != [] { WordSumWithoutTargetWords(sc, ws[..|ws| - 1]); }
  }

  /** With an empty target dict (the target page is missing) every link
      scores 0. */
  lemma NoTargetWordsScoreZero(sc: Scorer, title: string)
    requires sc.targetWords == []
    ensures TitleScore(sc, title) == 0.0
  {
    var ws := TitleWords(title);
    WordSumWithoutTargetWords(sc, ws);
    if |ws| > 0 {
      var n := |ws| as real;
      assert WordSum(sc, ws) / n == 0.0 / n == 0.0;
    }
  }

  /** A page that does not exist is not an error: its "links" are the
      characters of the sentinel string. */
  lemma MissingPageLinksAreCharacters(sc: Scorer, title: string)
    requires sc.oracle.links(title) == Missing
    ensures Candidates(sc, title).Top?
    ensures forall i :: 0 <= i < |Candidates(sc, title).links| ==>
      |Candidates(sc, title).links[i].0| == 1 && Candidates(sc, title).links[i].0[0] in PageNotFound
  {
    CandidatesAreScoredLinks(sc, title);
    var top := Candidates(sc, title).links;
    assert LinkTitles(sc.oracle.links(title)) == Characters(PageNotFound);
    forall i | 0 <= i < |top|
      ensures |top[i].0| == 1 && top[i].0[0] in PageNotFound
    {
      SingleCharacters(PageNotFound, top[i].0);
    }
  }

  /** Each element of `Characters(s)` is a one-character string of `s`. */
  lemma SingleCharacters(s: string, x: string)
    requires x in Characters(s)
    ensures |x| == 1 && x[0] in s
  {
    var j :| 0 <= j < |s| && Characters(s)[j] == x;
  }
}
