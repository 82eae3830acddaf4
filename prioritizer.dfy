/** The console version of the engine (class `wikiApi` of the top-level
    module): the target page's word frequencies over lower-cased text, and
    the prioritised list of a page's outbound links — the target first when
    it is linked, then every link whose title has a word that is a key of
    the target's frequency dict, in link order and without repetition. */
module Prioritizer {
  import opened Text
  import opened WordCounts
  import opened Options
  import Relevance
  import Ranking

  /** The encyclopedia as this version sees it: the link titles and the
      body text of a page, `None` for a page that does not exist. */
  datatype Wiki = Wiki(links: string -> Option<seq<string>>, text: string -> Option<string>)

  /** The console version's stop words (lower case, 57 of them). */
  function StopWords(): set<string> {
   {
    "the", "and", "a", "an", "in", "on", "at", "for", "with", "about", "as",
    "to", "of", "it", "by", "from", "that", "this", "but", "up", "down", "out",
    "or", "when", "which", "who", "what", "is", "are", "was", "were", "be",
    "being", "been", "have", "has", "had", "do", "does", "did", "will",
    "would", "shall", "should", "can", "could", "may", "might", "must",
    "ought", "also", "s", "its", "such", "than", "many", "much"}
  }

  /** What `get_wikipedia_page_links` returns: the list of link titles, or
      the string "Page not found" for a page that does not exist. */
  datatype Links = LinkList(titles: seq<string>) | LinksNotFound

  /** `get_wikipedia_page_links` */
  function PageLinks(w: Wiki, title: string): (l: Links)
    ensures l.LinksNotFound? <==> w.links(title).None?
    ensures l.LinkList? ==> l.titles == w.links(title).value
  {
    match w.links(title)
    case Some(ts) => LinkList(ts)
    case None => LinksNotFound
  }

  /** `get_wikipedia_page_text` */
  function PageText(w: Wiki, title: string): (t: string)
    ensures w.text(title).None? ==> t == Relevance.PageNotFound
    ensures w.text(title).Some? ==> t == w.text(title).value
  {
    match w.text(title)
    case Some(t) => t
    case None => Relevance.PageNotFound
  }

  /** `get_word_frequency`: the sentinel when the text is the sentinel
      string, otherwise the table of the lower-cased text. */
  function WordFrequency(w: Wiki, title: string): (f: Relevance.Frequency)
    ensures w.text(title).None? ==> f.Sentinel?
    ensures f.Table? ==> f.items == Frequencies(Lower(PageText(w, title)), StopWords())
    ensures w.text(title).Some? && w.text(title).value != Relevance.PageNotFound ==>
      f == Relevance.Table(Frequencies(Lower(w.text(title).value), StopWords()))
  {
    var text := PageText(w, title);
    if text == Relevance.PageNotFound then Relevance.Sentinel
    else Relevance.Table(Frequencies(Lower(text), StopWords()))
  }

  /** The frequency dict of a page that was found holds each lower-cased
      token that is not a stop word, with its number of occurrences, each
      once, by decreasing count. */
  lemma WordFrequencyCounts(w: Wiki, title: string)
    requires w.text(title).Some? && w.text(title).value != Relevance.PageNotFound
    ensures var f := WordFrequency(w, title);
      var tokens := Counted(Lower(w.text(title).value), StopWords());
      && f.Table?
      && (forall x :: x in Keys(f.items) <==> x in tokens)
      && (forall x :: x in Keys(f.items) ==> x !in StopWords())
      && (forall i :: 0 <= i < |f.items| ==> f.items[i].1 == multiset(tokens)[f.items[i].0])
      && Distinct(Keys(f.items))
      && Ranking.NonIncreasing(f.items, CountOf)
  {
    FrequenciesCountTokens(Lower(w.text(title).value), StopWords());
  }

  /** Python's `a in b` on two strings: `a` occurs in `b` as a contiguous
      part (the empty string occurs everywhere). */
  predicate IsSubstring(a: string, b: string)
    decreases |b|
  {
    (|a| <= |b| && b[..|a|] == a) || (b != [] && IsSubstring(a, b[1..]))
  }

  /** `word in word_frequency`: a key lookup in the dict, or, when the
      target page was missing and `word_frequency` is the string
      "Page not found", a substring test on that string. */
  predicate InFrequency(f: Relevance.Frequency, word: string) {
    match f
    case Table(items) => word in Keys(items)
    case Sentinel => IsSubstring(word, Relevance.PageNotFound)
  }

  /** `target_page in links`: list membership, or a substring test when the
      current page was missing. */
  predicate InLinks(l: Links, title: string) {
    match l
    case LinkList(ts) => title in ts
    case LinksNotFound => IsSubstring(title, Relevance.PageNotFound)
  }

  /** What `for title in links` visits: the titles, or for a missing page
      the characters of the sentinel string. */
  function Iterated(l: Links): seq<string> {
    match l
    case LinkList(ts) => ts
    case LinksNotFound => Relevance.Characters(Relevance.PageNotFound)
  }

  /** `any(word in word_frequency for word in words)` */
  predicate AnyInFrequency(f: Relevance.Frequency, words: seq<string>) {
    words != [] && (InFrequency(f, words[0]) || AnyInFrequency(f, words[1..]))
  }

  /** `any` holds exactly when some word passes the membership test. */
  lemma {:induction false} AnyInFrequencyExists(f: Relevance.Frequency, words: seq<string>)
    ensures AnyInFrequency(f, words) <==> exists i :: 0 <= i < |words| && InFrequency(f, words[i])
  {
    if words != [] {
      AnyInFrequencyExists(f, words[1..]);
      if AnyInFrequency(f, words[1..]) {
        var i :| 0 <= i < |words[1..]| && InFrequency(f, words[1..][i]);
        assert InFrequency(f, words[i + 1]);
      }
      if exists i :: 0 <= i < |words| && InFrequency(f, words[i]) {
        var i :| 0 <= i < |words| && InFrequency(f, words[i]);
        if i > 0 { assert words[1..][i - 1] == words[i]; }
      }
    }
  }

  /** The test of line 82 for one title: one of its whitespace-separated
      words passes the membership test. */
  predicate Matches(f: Relevance.Frequency, title: string) {
    AnyInFrequency(f, Runs(title, IsNonSpace))
  }

  /** The title test of line 82 as a function value. */
  function MatchTest(f: Relevance.Frequency): string -> bool {
    t => Matches(f, t)
  }

  /** The list the loop of `get_prioritized_titles` has built from `start`
      after visiting `titles`: a title passing the test `m` is appended
      unless it is already there. */
  function Prioritize(m: string -> bool, start: seq<string>, titles: seq<string>): seq<string> {
    if titles == [] then start
    else
      var r := Prioritize(m, start, titles[..|titles| - 1]);
      var t := titles[|titles| - 1];
      if m(t) && t !in r then r + [t] else r
  }

  /** Reference definition: the titles, in order, that match and are not in
      `start`. */
  function Selected(m: string -> bool, start: seq<string>, titles: seq<string>): (s: seq<string>)
    ensures forall x :: x in s <==> x in titles && m(x) && x !in start
  {
    if titles == [] then []
    else
      var t := titles[|titles| - 1];
      assert forall x :: x in titles <==> x in titles[..|titles| - 1] || x == t;
      Selected(m, start, titles[..|titles| - 1]) + (if m(t) && t !in start then [t] else [])
  }

  /** Over titles without repetition, the loop's list is `start` followed by
      the matching titles not in `start`, in the order they were visited. */
  lemma {:induction false} PrioritizeIsSelection(m: string -> bool, start: seq<string>, titles: seq<string>)
    requires Distinct(titles)
    ensures Prioritize(m, start, titles) == start + Selected(m, start, titles)
  {
    if titles != [] {
      var init, t := titles[..|titles| - 1], titles[|titles| - 1];
      assert Distinct(init);
      PrioritizeIsSelection(m, start, init);
      assert t !in init;
      assert t !in Selected(m, start, init);
      assert t in start + Selected(m, start, init) <==> t in start;
      if m(t) && t !in start {
        assert start + Selected(m, start, titles) == start + Selected(m, start, init) + [t];
      } else {
        assert Selected(m, start, titles) == Selected(m, start, init) + [];
      }
    }
  }

  /** The selection keeps the order of the titles it was taken from. */
  lemma {:induction false} SelectedInOrder(m: string -> bool, start: seq<string>, titles: seq<string>)
    requires Distinct(titles)
    ensures forall i, j :: 0 <= i < j < |Selected(m, start, titles)| ==>
      IndexOf(titles, Selected(m, start, titles)[i]) < IndexOf(titles, Selected(m, start, titles)[j])
  {
    if titles != [] {
      var init, t := titles[..|titles| - 1], titles[|titles| - 1];
      assert titles == init + [t];
      assert Distinct(init);
      assert t !in init;
      SelectedInOrder(m, start, init);
      InOrderExtend(Selected(m, start, init), init, t, m(t) && t !in start);
    }
  }

  /** Taken from titles without repetition, the selection has none. */
  lemma {:induction false} SelectedDistinct(m: string -> bool, start: seq<string>, titles: seq<string>)
    requires Distinct(titles)
    ensures Distinct(Selected(m, start, titles))
  {
    if titles != [] {
      var init, t := titles[..|titles| - 1], titles[|titles| - 1];
      assert Distinct(init);
      SelectedDistinct(m, start, init);
      var p := Selected(m, start, init);
      if m(t) && t !in start {
        assert t !in p by { assert t !in init; }
        DistinctAppend(p, t);
        assert Selected(m, start, titles) == p + [t];
      } else {
        assert Selected(m, start, titles) == p + [];
        assert p + [] == p;
      }
    }
  }

  /** The loop never appends a title already in the list. */
  lemma {:induction false} PrioritizeDistinct(m: string -> bool, start: seq<string>, titles: seq<string>)
    requires Distinct(start)
    ensures Distinct(Prioritize(m, start, titles))
  {
    if titles != [] {
      var init, t := titles[..|titles| - 1], titles[|titles| - 1];
      PrioritizeDistinct(m, start, init);
      var r := Prioritize(m, start, init);
      if m(t) && t !in r {
        DistinctAppend(r, t);
      }
    }
  }

  /** The list `get_prioritized_titles` starts its loop with. */
  function StartOf(l: Links, target: string): seq<string> {
    if InLinks(l, target) then [target] else []
  }

  /** The list `get_prioritized_titles` returns for the target's frequency
      result `f` and the current page's link result `l`. */
  ghost function Expected(f: Relevance.Frequency, l: Links, target: string): seq<string> {
    Prioritize(MatchTest(f), StartOf(l, target), Dedup(Iterated(l)))
  }

  /** `get_prioritized_titles(target_page, current_page)`: both fetches,
      then the loop over the links. */
  method PrioritizedTitles(w: Wiki, targetPage: string, currentPage: string) returns (prioritized: seq<string>)
    ensures prioritized == Expected(WordFrequency(w, targetPage), PageLinks(w, currentPage), targetPage)
  {
    var wordFrequency := WordFrequency(w, targetPage);
    var links := PageLinks(w, currentPage);
    prioritized := PrioritizeLinks(wordFrequency, links, targetPage);
  }

  /** Lines 67-77 of `get_prioritized_titles`, once the two fetches are
      done: the link titles become the keys of a dict, so a title listed
      twice is visited once, where it first occurs. */
  method PrioritizeLinks(wordFrequency: Relevance.Frequency, links: Links, targetPage: string)
    returns (prioritized: seq<string>)
    ensures prioritized == Expected(wordFrequency, links, targetPage)
  {
    prioritized := [];
    var titleWords := Dedup(Iterated(links));
    if InLinks(links, targetPage) {
      prioritized := prioritized + [targetPage];
    }
    assert prioritized == StartOf(links, targetPage);
    prioritized := AppendMatching(wordFrequency, prioritized, titleWords);
  }

  /** The loop of lines 80-85: each title with a matching word is appended
      to `start` unless it is already there. */
  method AppendMatching(wordFrequency: Relevance.Frequency, start: seq<string>, titles: seq<string>)
    returns (prioritized: seq<string>)
    ensures prioritized == Prioritize(MatchTest(wordFrequency), start, titles)
  {
    prioritized := start;
    for k := 0 to |titles|
      invariant prioritized == Prioritize(MatchTest(wordFrequency), start, titles[..k])
    {
      var title := titles[k];
      var words := Runs(title, IsNonSpace);
      if AnyInFrequency(wordFrequency, words) {
        if title !in prioritized {
          prioritized := prioritized + [title];
        }
      }
      assert titles[..k + 1][..k] == titles[..k];
    }
    assert titles[..|titles|] == titles;
  }

  /** The target page comes first exactly when the current page links to
      it (or, for a missing current page, when it is part of the sentinel
      string). */
  lemma TargetFirst(f: Relevance.Frequency, l: Links, target: string)
    ensures var r := Expected(f, l, target);
      InLinks(l, target) <==> |r| > 0 && r[0] == target
  {
    var ts := Dedup(Iterated(l));
    var m := MatchTest(f);
    var start := StartOf(l, target);
    PrioritizeIsSelection(m, start, ts);
    var r := start + Selected(m, start, ts);
    if !InLinks(l, target) && |r| > 0 && r[0] == target {
      assert r[0] in Selected(m, start, ts);
      if l.LinksNotFound? {
        // A one-character title of the sentinel string occurs in it.
        var i :| 0 <= i < |Relevance.PageNotFound| && Relevance.Characters(Relevance.PageNotFound)[i] == target;
        SingleCharacterOccurs(Relevance.PageNotFound, i);
      }
    }
  }

  lemma {:induction false} SingleCharacterOccurs(s: string, i: nat)
    requires i < |s|
    ensures IsSubstring([s[i]], s)
    decreases i
  {
    if i > 0 {
      SingleCharacterOccurs(s[1..], i - 1);
    }
  }

  /** The list has no repetitions. */
  lemma NoDuplicates(f: Relevance.Frequency, l: Links, target: string)
    ensures Distinct(Expected(f, l, target))
  {
    PrioritizeDistinct(MatchTest(f), StartOf(l, target), Dedup(Iterated(l)));
  }

  /** Over any links, the loop's list is `start` followed by exactly the
      titles that pass the test and are not in `start`, in link order. */
  lemma PrioritizeInLinkOrder(m: string -> bool, start: seq<string>, links: seq<string>)
    ensures |start| <= |Prioritize(m, start, Dedup(links))|
    ensures Prioritize(m, start, Dedup(links))[..|start|] == start
    ensures forall x :: x in Prioritize(m, start, Dedup(links))[|start|..] <==> x in links && m(x) && x !in start
    ensures forall i, j :: |start| <= i < j < |Prioritize(m, start, Dedup(links))| ==>
      IndexOf(links, Prioritize(m, start, Dedup(links))[i]) < IndexOf(links, Prioritize(m, start, Dedup(links))[j])
  {
    var ts := Dedup(links);
    var n := |start|;
    PrioritizeIsSelection(m, start, ts);
    SelectedInOrder(m, start, ts);
    var s := Selected(m, start, ts);
    assert (start + s)[..n] == start && (start + s)[n..] == s;
    AfterStartInLinkOrder(links, start, s);
  }

  /** Titles taken in deduplicated order after `start` are in link order. */
  lemma AfterStartInLinkOrder(links: seq<string>, start: seq<string>, s: seq<string>)
    requires forall x :: x in s ==> x in Dedup(links)
    requires forall i, j :: 0 <= i < j < |s| ==> IndexOf(Dedup(links), s[i]) < IndexOf(Dedup(links), s[j])
    ensures forall i :: |start| <= i < |start + s| ==> (start + s)[i] in links
    ensures forall i, j :: |start| <= i < j < |start + s| ==>
      IndexOf(links, (start + s)[i]) < IndexOf(links, (start + s)[j])
  {
    var n := |start|;
    var r := start + s;
    forall i | n <= i < |r| ensures r[i] in links {
      assert r[i] == s[i - n] && s[i - n] in s;
      assert s[i - n] in Dedup(links);
    }
    forall i, j | n <= i < j < |r| ensures IndexOf(links, r[i]) < IndexOf(links, r[j]) {
      var x, y := s[i - n], s[j - n];
      assert r[i] == x && r[j] == y;
      assert x in s && y in s;
      DedupOrder(links, x, y);
    }
  }

  /** Two titles keep, in the links, the order they have after deduplication. */
  lemma DedupOrder(links: seq<string>, x: string, y: string)
    requires x in Dedup(links) && y in Dedup(links)
    requires IndexOf(Dedup(links), x) < IndexOf(Dedup(links), y)
    ensures IndexOf(links, x) < IndexOf(links, y)
  {
    DedupKeepsOrder(links);
    var ts := Dedup(links);
    var a, b := IndexOf(ts, x), IndexOf(ts, y);
    assert ts[a] == x && ts[b] == y;
  }

  /** After the leading target, the list holds exactly the visited titles
      that have a matching word and are not that target, each in the order
      the links list them. */
  lemma MatchingLinksInOrder(f: Relevance.Frequency, l: Links, target: string)
    ensures |StartOf(l, target)| <= |Expected(f, l, target)|
    ensures forall x :: x in Expected(f, l, target)[|StartOf(l, target)|..] <==>
      x in Iterated(l) && Matches(f, x) && x !in StartOf(l, target)
    ensures forall i, j :: |StartOf(l, target)| <= i < j < |Expected(f, l, target)| ==>
      IndexOf(Iterated(l), Expected(f, l, target)[i]) < IndexOf(Iterated(l), Expected(f, l, target)[j])
  {
    PrioritizeInLinkOrder(MatchTest(f), StartOf(l, target), Iterated(l));
  }

  /** Matching is case-sensitive: against a table built from lower-cased
      text, a link title every one of whose words carries a capital letter
      is never prioritised, unless it is the linked target itself. */
  lemma CapitalisedTitlesNotPrioritised(text: string, stops: set<string>, l: Links, target: string, title: string)
    requires forall u :: u in Runs(title, IsNonSpace) ==> exists i :: 0 <= i < |u| && IsUpperLetter(u[i])
    requires title in Expected(Relevance.Table(Frequencies(Lower(text), stops)), l, target)
    ensures title == target && InLinks(l, target)
  {
    var ts := Dedup(Iterated(l));
    var f := Relevance.Table(Frequencies(Lower(text), stops));
    var m := MatchTest(f);
    var start := StartOf(l, target);
    PrioritizeIsSelection(m, start, ts);
    if title !in start {
      assert title in Selected(m, start, ts);
      var words := Runs(title, IsNonSpace);
      AnyInFrequencyExists(f, words);
      var i :| 0 <= i < |words| && InFrequency(f, words[i]);
      assert words[i] in words;
      LowerTableHasNoCapitals(text, stops, words[i]);
    }
  }

  /** When the target page does not exist, `word_frequency` is the string
      "Page not found" and a title is prioritised when one of its words is
      part of that string. */
  lemma MissingTargetMatchesSubstrings(title: string)
    ensures Matches(Relevance.Sentinel, title) <==>
      exists u :: u in Runs(title, IsNonSpace) && IsSubstring(u, Relevance.PageNotFound)
  {
    var words := Runs(title, IsNonSpace);
    AnyInFrequencyExists(Relevance.Sentinel, words);
    if exists u :: u in words && IsSubstring(u, Relevance.PageNotFound) {
      var u :| u in words && IsSubstring(u, Relevance.PageNotFound);
      var i :| 0 <= i < |words| && words[i] == u;
      assert InFrequency(Relevance.Sentinel, words[i]);
    }
  }

  /** When the current page does not exist, every entry after the leading
      target is one character of "Page not found". */
  lemma MissingCurrentPageGivesCharacters(f: Relevance.Frequency, target: string)
    ensures var r := Expected(f, LinksNotFound, target);
      var n := |StartOf(LinksNotFound, target)|;
      n <= |r| && forall x :: x in r[n..] ==> |x| == 1 && x[0] in Relevance.PageNotFound
  {
    MatchingLinksInOrder(f, LinksNotFound, target);
    var cs := Relevance.Characters(Relevance.PageNotFound);
    forall x | x in cs ensures |x| == 1 && x[0] in Relevance.PageNotFound {
      var i :| 0 <= i < |cs| && cs[i] == x;
      assert Relevance.PageNotFound[i] in Relevance.PageNotFound;
    }
  }
}
