/** Class `WikiApi`: the two searches for a chain of links from a source
    page to a target page, their shared exploration step, and the
    reconstruction of the path they found. */
module Engine {
  import opened Options
  import opened Text
  import opened Ranking
  import opened WordCounts
  import opened Relevance
  import opened Registry
  import opened Heap

  const NotFoundMessage: string := "Target page not found within the connected pages."

  function FoundMessage(target: string, source: string): string {
    "Target page '" + target + "' found starting from '" + source + "'"
  }

  function UpperAll(ts: seq<string>): (us: seq<string>)
    ensures |us| == |ts|
    ensures forall i :: 0 <= i < |ts| ==> us[i] == Upper(ts[i])
  {
    seq(|ts|, i requires 0 <= i < |ts| => Upper(ts[i]))
  }

  /** `target.upper() in [word.upper() for word in titles]` */
  predicate Mentions(titles: seq<string>, target: string) {
    Upper(target) in UpperAll(titles)
  }

  /** A set of titles that holds the source page and every link title of
      every page it holds, and not the empty title. */
  ghost predicate Universe(o: Oracle, source: string, universe: set<string>) {
    && source in universe
    && "" !in universe
    && forall t, l :: t in universe && l in LinkTitles(o.links(t)) ==> l in universe
  }

  lemma TopTitlesInUniverse(sc: Scorer, source: string, universe: set<string>, p: string)
    requires Universe(sc.oracle, source, universe) && p in universe
    ensures forall c :: c in TitlesOf(Candidates(sc, p)) ==> c in universe
  {
    CandidateTitlesAreLinks(sc, p);
  }

  /** `top` maps no page of the universe outside it. */
  ghost predicate Closed(top: string -> seq<string>, universe: set<string>) {
    forall p, c :: p in universe && c in top(p) ==> c in universe
  }

  /** Frontier entries: a page reached from a recorded page among its top
      links `top`, inside the universe, and not the target in any letter
      case (its discovery would have ended the search). */
  ghost predicate Waiting(top: string -> seq<string>, universe: set<string>, target: string,
                          rs: seq<Page>, fr: seq<Page>) {
    forall e :: e in fr ==>
      && e.parent in TitleSet(rs)
      && e.title in top(e.parent)
      && e.title in universe
      && Upper(e.title) != Upper(target)
  }

  /** Every top link of the first `n` recorded pages is recorded or waiting. */
  ghost predicate Covered(top: string -> seq<string>, rs: seq<Page>, fr: seq<Page>, n: nat) {
    forall i, c :: 0 <= i < n && i < |rs| && c in top(rs[i].title) ==>
      c in TitleSet(rs) || c in TitleSet(fr)
  }

  /** No recorded page's top links mention the target. */
  ghost predicate Unmentioned(top: string -> seq<string>, rs: seq<Page>, target: string) {
    forall i :: 0 <= i < |rs| ==> !Mentions(top(rs[i].title), target)
  }

  /** Every recorded page but the start page is a top link of its parent. */
  ghost predicate Discovered(top: string -> seq<string>, rs: seq<Page>) {
    forall i :: 0 < i < |rs| ==> rs[i].title in top(rs[i].parent)
  }

  ghost predicate Within(universe: set<string>, rs: seq<Page>) {
    forall i :: 0 <= i < |rs| ==> rs[i].title in universe
  }

  /** What holds at the head of each iteration of both search loops, for the
      records `rs` and the frontier entries `fr`. */
  ghost predicate SearchInvariant(top: string -> seq<string>, universe: set<string>, source: string,
                                  target: string, rs: seq<Page>, fr: seq<Page>) {
    && (rs == [] ==> fr == [Page(source, "")])
    && (rs != [] ==> Waiting(top, universe, target, rs, fr))
    && Covered(top, rs, fr, |rs|)
    && Unmentioned(top, rs, target)
    && Discovered(top, rs)
    && Within(universe, rs)
  }

  /** While the links of the last recorded page are being queued. */
  ghost predicate Expanding(top: string -> seq<string>, universe: set<string>, target: string,
                            rs: seq<Page>, fr: seq<Page>) {
    && rs != []
    && Waiting(top, universe, target, rs, fr)
    && Covered(top, rs, fr, |rs| - 1)
    && Unmentioned(top, rs, target)
    && Discovered(top, rs)
    && Within(universe, rs)
  }

  /** What a finished search leaves, for the explored records `e`: the start
      page was explored; every explored page was a top link of its parent;
      if the target was found, it was among the top links of the last page
      explored and of no earlier one; otherwise no explored page's top links
      mention it and every one of them was explored. */
  ghost predicate SearchResult(top: string -> seq<string>, universe: set<string>, target: string,
                               e: seq<Page>, found: bool, tp: string) {
    && e != []
    && Discovered(top, e)
    && Within(universe, e)
    && (found ==>
          && Unmentioned(top, e[..|e| - 1], target)
          && tp == e[|e| - 1].title
          && Mentions(top(tp), target))
    && (!found ==> Unmentioned(top, e, target) && Covered(top, e, [], |e|))
  }

  /** `e` is taken from the frontier `fr`, leaving `rest`. */
  ghost predicate Popped(fr: seq<Page>, e: Page, rest: seq<Page>) {
    && e in fr
    && |rest| == |fr| - 1
    && (forall x :: x in rest ==> x in fr)
    && (forall x :: x in fr ==> x == e || x in rest)
  }

  lemma PoppedTitles(fr: seq<Page>, e: Page, rest: seq<Page>)
    requires Popped(fr, e, rest)
    ensures forall t :: t in TitleSet(fr) ==> t == e.title || t in TitleSet(rest)
    ensures forall t :: t in TitleSet(rest) ==> t in TitleSet(fr)
  {
  }

  /** `deque.popleft()` */
  lemma FrontPopped(fr: seq<Page>)
    requires fr != []
    ensures Popped(fr, fr[0], fr[1..])
  {
    assert fr == [fr[0]] + fr[1..];
  }

  /** A popped entry that the search does not skip can be recorded. */
  lemma Visitable(top: string -> seq<string>, universe: set<string>, source: string, target: string,
                  tp: string, rs: seq<Page>, fr: seq<Page>, e: Page, rest: seq<Page>)
    requires source in universe && "" !in universe
    requires Registered(rs, false, tp, source, target)
    requires SearchInvariant(top, universe, source, target, rs, fr)
    requires Popped(fr, e, rest)
    requires e.parent == "" || e.title !in TitleSet(rs)
    ensures e.title != "" && e.title !in TitleSet(rs) && e.title in universe
    ensures rs == [] ==> e == Page(source, "") && rest == []
    ensures rs != [] ==> e.parent in TitleSet(rs) && Upper(e.title) != Upper(target)
    ensures rs != [] ==> e.title in top(e.parent)
  {
    TitleSetIsPageTitles(rs);
    if rs != [] {
      assert e.parent in TitleSet(rs);
      assert e.parent != "";
    }
  }

  /** Skipping a popped entry whose page is already recorded. */
  lemma SkipKeeps(top: string -> seq<string>, universe: set<string>, source: string, target: string,
                  rs: seq<Page>, fr: seq<Page>, e: Page, rest: seq<Page>)
    requires SearchInvariant(top, universe, source, target, rs, fr)
    requires Popped(fr, e, rest) && e.parent != "" && e.title in TitleSet(rs)
    ensures SearchInvariant(top, universe, source, target, rs, rest)
  {
    PoppedTitles(fr, e, rest);
  }

  /** Recording a popped entry whose scoring did not find the target. */
  lemma VisitKeeps(top: string -> seq<string>, universe: set<string>, source: string, target: string,
                   rs: seq<Page>, fr: seq<Page>, e: Page, rest: seq<Page>)
    requires SearchInvariant(top, universe, source, target, rs, fr)
    requires Popped(fr, e, rest) && e.title in universe
    requires rs == [] ==> rest == []
    requires rs != [] ==> e.title in top(e.parent) && e.parent in TitleSet(rs)
    requires !Mentions(top(e.title), target)
    ensures Expanding(top, universe, target, rs + [e], rest)
  {
    var rs' := rs + [e];
    PoppedTitles(fr, e, rest);
    TitleSetAppend(rs, e);
    assert forall i :: 0 <= i < |rs| ==> rs'[i] == rs[i];
    assert rs'[|rs|] == e;
  }

  /** Queueing a top link of the page being expanded. */
  lemma PushKeeps(top: string -> seq<string>, universe: set<string>, target: string,
                  rs: seq<Page>, fr: seq<Page>, l: string)
    requires Closed(top, universe)
    requires Expanding(top, universe, target, rs, fr)
    requires l in top(rs[|rs| - 1].title)
    ensures Expanding(top, universe, target, rs, fr + [Page(l, rs[|rs| - 1].title)])
    ensures TitleSet(fr + [Page(l, rs[|rs| - 1].title)]) == TitleSet(fr) + {l}
  {
    var c := rs[|rs| - 1].title;
    assert rs[|rs| - 1] in rs;
    TitleSetAppend(fr, Page(l, c));
    assert Upper(l) != Upper(target) by {
      var ts := top(c);
      var i :| 0 <= i < |ts| && ts[i] == l;
      assert UpperAll(ts)[i] == Upper(l);
      assert !Mentions(ts, target);
    }
  }

  /** Once every top link of the expanded page is recorded or queued, the
      loop invariant holds again. */
  lemma ExpandDone(top: string -> seq<string>, universe: set<string>, source: string, target: string,
                   rs: seq<Page>, fr: seq<Page>)
    requires Expanding(top, universe, target, rs, fr)
    requires forall c :: c in top(rs[|rs| - 1].title) ==> c in TitleSet(rs) || c in TitleSet(fr)
    ensures SearchInvariant(top, universe, source, target, rs, fr)
  {
  }

  /** Recording a popped entry whose top links mention the target ends the
      search with the target found. */
  lemma ReachedResult(top: string -> seq<string>, universe: set<string>, source: string, target: string,
                      rs: seq<Page>, fr: seq<Page>, e: Page)
    requires SearchInvariant(top, universe, source, target, rs, fr)
    requires e.title in universe
    requires rs != [] ==> e.title in top(e.parent)
    requires Mentions(top(e.title), target)
    ensures SearchResult(top, universe, target, rs + [e], true, e.title)
  {
    var rs' := rs + [e];
    assert rs'[..|rs'| - 1] == rs;
    assert forall i :: 0 <= i < |rs| ==> rs'[i] == rs[i];
  }

  /** An empty frontier ends the search with the target not found. */
  lemma ExhaustedResult(top: string -> seq<string>, universe: set<string>, source: string, target: string,
                        rs: seq<Page>, tp: string)
    requires SearchInvariant(top, universe, source, target, rs, [])
    ensures SearchResult(top, universe, target, rs, false, tp)
  {
  }

  /** Recording a page of the universe leaves fewer unrecorded ones. */
  lemma Progress(universe: set<string>, rs: seq<Page>, e: Page)
    requires e.title in universe && e.title !in TitleSet(rs)
    ensures |universe - TitleSet(rs + [e])| < |universe - TitleSet(rs)|
  {
    TitleSetAppend(rs, e);
    var before := universe - TitleSet(rs);
    assert universe - TitleSet(rs + [e]) == before - {e.title};
    assert before == (before - {e.title}) + {e.title};
  }

  lemma MentionsIsExists(ts: seq<string>, target: string)
    ensures Mentions(ts, target) <==> exists i :: 0 <= i < |ts| && Upper(ts[i]) == Upper(target)
  {
    if Mentions(ts, target) {
      var i :| 0 <= i < |ts| && UpperAll(ts)[i] == Upper(target);
    }
  }

  /** The entries a page's top links `ls` add to the frontier: one per link
      that has no object in `rs` at the time it is looked at. */
  function Unvisited(ls: seq<string>, rs: seq<Page>, parent: string): seq<Page> {
    if ls == [] then []
    else Unvisited(ls[..|ls| - 1], rs, parent) +
         (if ls[|ls| - 1] in TitleSet(rs) then [] else [Page(ls[|ls| - 1], parent)])
  }

  /** A page adds at most one frontier entry per top link. */
  lemma {:induction false} UnvisitedBounded(ls: seq<string>, rs: seq<Page>, parent: string)
    ensures |Unvisited(ls, rs, parent)| <= |ls|
  {
    if ls != [] {
      UnvisitedBounded(ls[..|ls| - 1], rs, parent);
    }
  }

  lemma UnvisitedStep(ls: seq<string>, k: nat, rs: seq<Page>, parent: string)
    requires k < |ls|
    ensures Unvisited(ls[..k + 1], rs, parent) ==
      Unvisited(ls[..k], rs, parent) + (if ls[k] in TitleSet(rs) then [] else [Page(ls[k], parent)])
  {
    assert ls[..k + 1][..k] == ls[..k];
  }

  /** After `k` of the top links `ls` of the last recorded page have been
      looked at, from the frontier `q0`: the frontier is `q`. */
  ghost predicate Enqueued(top: string -> seq<string>, universe: set<string>, target: string,
                           rs: seq<Page>, q0: seq<Page>, ls: seq<string>, k: nat, q: seq<Page>) {
    && rs != [] && k <= |ls| && ls == top(rs[|rs| - 1].title)
    && Expanding(top, universe, target, rs, q)
    && Looked(ls, k, rs, q)
    && q == q0 + Unvisited(ls[..k], rs, rs[|rs| - 1].title)
  }

  /** Each of the first `k` links `ls` is recorded in `rs` or queued in `q`. */
  ghost predicate Looked(ls: seq<string>, k: nat, rs: seq<Page>, q: seq<Page>) {
    k <= |ls| && forall j :: 0 <= j < k ==> ls[j] in TitleSet(rs) || ls[j] in TitleSet(q)
  }

  lemma LookedPush(ls: seq<string>, k: nat, rs: seq<Page>, q: seq<Page>, e: Page)
    requires Looked(ls, k, rs, q) && k < |ls| && e.title == ls[k]
    ensures Looked(ls, k + 1, rs, q + [e])
  {
    TitleSetAppend(q, e);
  }

  lemma EnqueueStart(top: string -> seq<string>, universe: set<string>, target: string,
                     rs: seq<Page>, q0: seq<Page>)
    requires Expanding(top, universe, target, rs, q0)
    ensures Enqueued(top, universe, target, rs, q0, top(rs[|rs| - 1].title), 0, q0)
  {
  }

  lemma EnqueueStep(top: string -> seq<string>, universe: set<string>, target: string,
                    rs: seq<Page>, q0: seq<Page>, ls: seq<string>, k: nat, q: seq<Page>)
    requires Closed(top, universe)
    requires Enqueued(top, universe, target, rs, q0, ls, k, q) && k < |ls|
    ensures var c := rs[|rs| - 1].title;
      Enqueued(top, universe, target, rs, q0, ls, k + 1,
               q + (if ls[k] in TitleSet(rs) then [] else [Page(ls[k], c)]))
  {
    UnvisitedStep(ls, k, rs, rs[|rs| - 1].title);
    if ls[k] in TitleSet(rs) {
      EnqueueSkip(top, universe, target, rs, q0, ls, k, q);
    } else {
      EnqueuePush(top, universe, target, rs, q0, ls, k, q);
    }
  }

  /** A link that already has an object adds nothing. */
  lemma EnqueueSkip(top: string -> seq<string>, universe: set<string>, target: string,
                    rs: seq<Page>, q0: seq<Page>, ls: seq<string>, k: nat, q: seq<Page>)
    requires Enqueued(top, universe, target, rs, q0, ls, k, q) && k < |ls|
    requires ls[k] in TitleSet(rs)
    requires Unvisited(ls[..k + 1], rs, rs[|rs| - 1].title) == Unvisited(ls[..k], rs, rs[|rs| - 1].title)
    ensures Enqueued(top, universe, target, rs, q0, ls, k + 1, q)
  {
  }

  lemma AppendOne<T>(a: seq<T>, b: seq<T>, x: T)
    ensures (a + b) + [x] == a + (b + [x])
  {
  }

  /** A link without an object is queued under the page being expanded. */
  lemma EnqueuePush(top: string -> seq<string>, universe: set<string>, target: string,
                    rs: seq<Page>, q0: seq<Page>, ls: seq<string>, k: nat, q: seq<Page>)
    requires Closed(top, universe)
    requires Enqueued(top, universe, target, rs, q0, ls, k, q) && k < |ls|
    requires Unvisited(ls[..k + 1], rs, rs[|rs| - 1].title) ==
             Unvisited(ls[..k], rs, rs[|rs| - 1].title) + [Page(ls[k], rs[|rs| - 1].title)]
    ensures Enqueued(top, universe, target, rs, q0, ls, k + 1, q + [Page(ls[k], rs[|rs| - 1].title)])
  {
    var c := rs[|rs| - 1].title;
    var e := Page(ls[k], c);
    assert ls[k] in top(c);
    PushKeeps(top, universe, target, rs, q, ls[k]);
    LookedPush(ls, k, rs, q, e);
    AppendOne(q0, Unvisited(ls[..k], rs, c), e);
  }

  lemma EnqueueDone(top: string -> seq<string>, universe: set<string>, source: string, target: string,
                    rs: seq<Page>, q0: seq<Page>, ls: seq<string>, q: seq<Page>)
    requires Enqueued(top, universe, target, rs, q0, ls, |ls|, q)
    ensures SearchInvariant(top, universe, source, target, rs, q)
    ensures q == q0 + Unvisited(ls, rs, rs[|rs| - 1].title)
  {
    assert ls[..|ls|] == ls;
    ExpandDone(top, universe, source, target, rs, q);
  }

  /** The heap entries `heappush` adds for a page's top links `cs`: one per
      link that has no object in `rs` when it is looked at, with its score
      negated so that the min-heap pops the best link first. */
  function Pushes(cs: seq<Candidate>, rs: seq<Page>, parent: string): seq<Entry> {
    if cs == [] then []
    else
      var c := cs[|cs| - 1];
      Pushes(cs[..|cs| - 1], rs, parent) +
      (if c.0 in TitleSet(rs) then [] else [Entry(-1.0 * c.1, Page(c.0, parent))])
  }

  /** A page pushes at most one heap entry per top link. */
  lemma {:induction false} PushesBounded(cs: seq<Candidate>, rs: seq<Page>, parent: string)
    ensures |Pushes(cs, rs, parent)| <= |cs|
  {
    if cs != [] {
      PushesBounded(cs[..|cs| - 1], rs, parent);
    }
  }

  lemma PushesStep(cs: seq<Candidate>, k: nat, rs: seq<Page>, parent: string)
    requires k < |cs|
    ensures Pushes(cs[..k + 1], rs, parent) ==
      Pushes(cs[..k], rs, parent) +
      (if cs[k].0 in TitleSet(rs) then [] else [Entry(-1.0 * cs[k].1, Page(cs[k].0, parent))])
  {
    assert cs[..k + 1][..k] == cs[..k];
  }

  lemma AppendPair<T>(s: seq<T>, a: T, b: T)
    ensures s + [a] + [b] == s + [a, b]
  {
  }

  lemma PagesAppend(h: seq<Entry>, x: Entry)
    ensures Pages(h + [x]) == Pages(h) + [x.page]
  {
  }

  /** `heapq.heappop` takes the least entry out of the heap. */
  lemma HeapPopped(h: seq<Entry>, m: nat)
    requires m < |h|
    ensures Popped(Pages(h), h[m].page, Pages(RemoveAt(h, m)))
  {
    var rest := RemoveAt(h, m);
    assert rest == h[..m] + h[m + 1..];
    forall x | x in Pages(rest) ensures x in Pages(h) {
      var i :| 0 <= i < |rest| && Pages(rest)[i] == x;
      if i < m { assert Pages(h)[i] == x; } else { assert Pages(h)[i + 1] == x; }
    }
    forall x | x in Pages(h) ensures x == h[m].page || x in Pages(rest) {
      var i :| 0 <= i < |h| && Pages(h)[i] == x;
      if i < m { assert Pages(rest)[i] == x; }
      else if i > m { assert Pages(rest)[i - 1] == x; }
    }
    assert Pages(h)[m] == h[m].page;
  }

  /** The loop of `get_object_matching_page_title`: the first record with
      that title, if any. */
  method FirstMatching(rs: seq<Page>, title: string) returns (r: Option<Page>)
    ensures r.None? <==> title !in PageTitles(rs)
    ensures r.Some? ==> r.value == rs[IndexOf(PageTitles(rs), title)]
  {
    for i := 0 to |rs|
      invariant forall j :: 0 <= j < i ==> rs[j].title != title
    {
      if rs[i].title == title {
        assert PageTitles(rs)[i] == title;
        return Some(rs[i]);
      }
    }
    return None;
  }

  /** The loop of `trace_path_backwards` over the records `rs`, from the last
      record: collect titles while the current record's parent is not the
      source, moving to the first record titled like that parent; then add
      the last title and the source, and reverse. */
  method TraceBack(rs: seq<Page>, source: string) returns (path: seq<string>)
    requires ParentsEarlier(rs) && |rs| >= 2 && rs[0].title == source
    ensures path == PathTo(rs, |rs| - 1, source)
    ensures |path| >= 2 && path[0] == source && path[|path| - 1] == rs[|rs| - 1].title
  {
    var current := rs[|rs| - 1];
    ghost var i := |rs| - 1;
    var reversed: seq<string> := [];
    while current.parent != source
      invariant 0 < i < |rs| && current == rs[i]
      invariant PathTo(rs, |rs| - 1, source) == PathTo(rs, i, source) + Reverse(reversed)
      decreases i
    {
      TraceStep(rs, i, source, reversed);
      ParentIndexIsFirst(rs, i);
      reversed := reversed + [current.title];
      var next := FirstMatching(rs, current.parent);
      i := ParentIndex(rs, i);
      current := next.value;
    }
    TraceLast(rs, i, source, reversed);
    reversed := reversed + [current.title, source];
    path := Reverse(reversed);
    PathEnds(rs, |rs| - 1, source);
  }

  /** `trace_path_backwards` over the records `rs`: `None` unless the target
      has been recorded; otherwise the path from the source to the target,
      along links of the graph. */
  method TracedPath(rs: seq<Page>, found: bool, ghost tp: string, source: string, ghost target: string)
    returns (path: Option<seq<string>>)
    requires Registered(rs, found, tp, source, target)
    ensures path.None? <==> !found
    ensures found ==> |rs| >= 2
    ensures path.Some? ==> path.value == PathTo(rs, |rs| - 1, source)
    ensures path.Some? ==> |path.value| >= 2
    ensures path.Some? ==> path.value[0] == source && path.value[|path.value| - 1] == target
    ensures path.Some? && source != target ==> FollowsEdges(AdjacencyOf(rs, true, target), path.value)
  {
    if !found {
      return None;
    }
    FoundChain(rs, tp, source, target);
    var p := TraceBack(rs, source);
    TracedPathEdges(rs, tp, source, target, p);
    path := Some(p);
  }

  /** After `k` of the top links `cs` of the last recorded page have been
      looked at, from the heap `h0`: the heap is `h`. */
  ghost predicate Pushed(top: string -> seq<string>, universe: set<string>, target: string,
                         rs: seq<Page>, h0: seq<Entry>, cs: seq<Candidate>, k: nat, h: seq<Entry>) {
    && Enqueued(top, universe, target, rs, Pages(h0), Keys(cs), k, Pages(h))
    && h == h0 + Pushes(cs[..k], rs, rs[|rs| - 1].title)
  }

  lemma PushStart(top: string -> seq<string>, universe: set<string>, target: string,
                  rs: seq<Page>, h0: seq<Entry>, cs: seq<Candidate>)
    requires Expanding(top, universe, target, rs, Pages(h0))
    requires top(rs[|rs| - 1].title) == Keys(cs)
    ensures Pushed(top, universe, target, rs, h0, cs, 0, h0)
  {
    EnqueueStart(top, universe, target, rs, Pages(h0));
    assert cs[..0] == [];
    assert h0 + [] == h0;
  }

  lemma PushStep(top: string -> seq<string>, universe: set<string>, target: string,
                 rs: seq<Page>, h0: seq<Entry>, cs: seq<Candidate>, k: nat, h: seq<Entry>)
    requires Closed(top, universe)
    requires Pushed(top, universe, target, rs, h0, cs, k, h) && k < |cs|
    ensures cs[k].0 in TitleSet(rs) ==> Pushed(top, universe, target, rs, h0, cs, k + 1, h)
    ensures cs[k].0 !in TitleSet(rs) ==>
      Pushed(top, universe, target, rs, h0, cs, k + 1, h + [Entry(-1.0 * cs[k].1, Page(cs[k].0, rs[|rs| - 1].title))])
  {
    var c := rs[|rs| - 1].title;
    assert cs[k].0 == Keys(cs)[k];
    EnqueueStep(top, universe, target, rs, Pages(h0), Keys(cs), k, Pages(h));
    PushesStep(cs, k, rs, c);
    PagesAppend(h, Entry(-1.0 * cs[k].1, Page(cs[k].0, c)));
    if cs[k].0 in TitleSet(rs) {
      assert h + [] == h && Pages(h) + [] == Pages(h);
    }
  }

  lemma PushDone(top: string -> seq<string>, universe: set<string>, source: string, target: string,
                 rs: seq<Page>, h0: seq<Entry>, cs: seq<Candidate>, h: seq<Entry>)
    requires Pushed(top, universe, target, rs, h0, cs, |cs|, h)
    ensures SearchInvariant(top, universe, source, target, rs, Pages(h))
    ensures h == h0 + Pushes(cs, rs, rs[|rs| - 1].title)
  {
    assert cs[..|cs|] == cs;
    EnqueueDone(top, universe, source, target, rs, Pages(h0), Keys(cs), Pages(h));
  }

  /** What one exploration step gave: the scorer raised, the target was among
      the top links, or the top links to queue. */
  datatype Visit = Failed | Reached | Expand(links: seq<Candidate>)

  /** The top links a step left to queue: none when the scorer raised. */
  function LinksToQueue(o: Visit): seq<Candidate> {
    if o.Expand? then o.links else []
  }

  /** The entries of what the scorer returned; none when it raised. */
  function LinksOf(s: Similar): seq<Candidate> {
    if s.Top? then s.links else []
  }

  /** A step that did not reach the target leaves exactly the scorer's
      entries to queue. */
  lemma QueuedLinks(o: Visit, s: Similar)
    requires !o.Reached? && (o.Failed? <==> s.Raised?) && (o.Expand? ==> s == Top(o.links))
    ensures LinksToQueue(o) == LinksOf(s)
  {
  }


  class WikiApi {
    const oracle: Oracle
    const sourceTitle: string
    const targetTitle: string
    /** The target page's `word_frequency`, computed once by the constructor. */
    const targetWords: seq<Item>
    const adjustForWordUniqueness: bool
    const neighborsToCheck: int
    const useBfs: bool
    /** `adjacency_list` */
    var adjacency: map<string, seq<string>>
    /** `set_of_all_visited_sites`, in the order the objects were added */
    var visited: seq<Page>
    /** Whether `target_page_obj` is in `set_of_all_visited_sites`. */
    var targetInVisited: bool
    /** `target_page_obj.parent` */
    var targetParent: string
    /** What the scorer returns for each page. */
    ghost const similar: string -> Similar

    ghost predicate Valid()
      reads this
    {
      && Registered(visited, targetInVisited, targetParent, sourceTitle, targetTitle)
      && adjacency == AdjacencyOf(visited, targetInVisited, targetTitle)
    }

    /** `similar` is what the scorer returns for each page. */
    ghost predicate Scores() {
      forall p {:trigger Candidates(Scoring(), p)} :: similar(p) == Candidates(Scoring(), p)
    }

    function Scoring(): Scorer {
      Scorer(oracle, targetWords, adjustForWordUniqueness, neighborsToCheck)
    }

    /** The records of the pages the last search explored itself. */
    ghost function Explored(): seq<Page>
      reads this
    {
      Explorations(visited, targetInVisited)
    }

    /** The top link titles of every page, as the scorer gives them. */
    ghost function Tops(): string -> seq<string> {
      p => TitlesOf(similar(p))
    }

    lemma TopsClosed(universe: set<string>)
      requires Valid() && Scores() && Universe(oracle, sourceTitle, universe)
      ensures Closed(Tops(), universe)
    {
      forall p, c | p in universe && c in Tops()(p) ensures c in universe {
        assert similar(p) == Candidates(Scoring(), p);
        TopTitlesInUniverse(Scoring(), sourceTitle, universe, p);
      }
    }

    /** The loop invariant of both searches, for the frontier `fr`. */
    ghost predicate Searching(universe: set<string>, fr: seq<Page>)
      reads this
    {
      && Valid()
      && !targetInVisited
      && SearchInvariant(Tops(), universe, sourceTitle, targetTitle, visited, fr)
    }

    ghost predicate Searched(universe: set<string>)
      reads this
    {
      && Valid()
      && SearchResult(Tops(), universe, targetTitle, Explored(), targetInVisited, targetParent)
    }

    /** `WikiApi(src, tgt, word_uniqueness, neighbors_checked, use_bfs)`: the
        target page's word frequencies are computed once, here. */
    constructor (oracle: Oracle, src: string, tgt: string, wordUniqueness: bool, neighborsChecked: int, bfs: bool)
      ensures this.oracle == oracle && sourceTitle == src && targetTitle == tgt
      ensures targetWords == TargetWords(oracle, tgt)
      ensures adjustForWordUniqueness == wordUniqueness && neighborsToCheck == neighborsChecked && useBfs == bfs
      ensures adjacency == map[] && visited == [] && !targetInVisited && targetParent == ""
      ensures Valid() && Scores()
    {
      var words := TargetWords(oracle, tgt);
      ghost var sc := Scorer(oracle, words, wordUniqueness, neighborsChecked);
      this.oracle := oracle;
      sourceTitle := src;
      targetTitle := tgt;
      targetWords := words;
      adjustForWordUniqueness := wordUniqueness;
      neighborsToCheck := neighborsChecked;
      useBfs := bfs;
      similar := p => Candidates(sc, p);
      adjacency := map[];
      visited := [];
      targetInVisited := false;
      targetParent := "";
      new;
      assert Scoring() == sc;
      EmptyRegistry("", src, tgt);
    }

    /** `get_number_of_visited_sites`: one object per explored page, plus the
        target object once it has been found. */
    function NumberOfVisitedSites(): (n: nat)
      reads this
      requires Valid()
      ensures n == |TitleSet(Explored())| + (if targetInVisited then 1 else 0)
    {
      DistinctTitlesCount(Explored());
      |visited|
    }

    /** `get_object_matching_page_title`: the first recorded object with that
        title, if any. */
    method GetObjectMatchingPageTitle(title: string) returns (r: Option<Page>)
      ensures r.None? <==> title !in PageTitles(visited)
      ensures r.Some? ==> r.value == visited[IndexOf(PageTitles(visited), title)]
    {
      r := FirstMatching(visited, title);
    }

    /** `total_freq` of a link title's words: each word found in the target
        page's dict adds its count times its uniqueness weight. */
    method TotalFrequency(words: seq<string>) returns (total: real)
      ensures total == WordSum(Scoring(), words)
    {
      ghost var sc := Scoring();
      total := 0.0;
      for m := 0 to |words|
        invariant total == WordSum(sc, words[..m])
      {
        var w := words[m];
        WordSumStep(sc, words, m);
        var frequency := Lookup(targetWords, w);
        if frequency.Some? {
          var rarity := oracle.rarity(w);
          var weight := if rarity <= 0.0 then 10.0 else -1.0 * oracle.log10(rarity) - 1.0;
          if !adjustForWordUniqueness {
            weight := 1.0;
          }
          FoundContribution(sc, w, frequency.value, weight);
          total := total + Scaled(frequency.value, weight);
        }
      }
      assert words[..|words|] == words;
    }

    /** `get_most_similar_links_to_target(current)` */
    method MostSimilarLinksToTarget(current: string) returns (r: Similar)
      ensures r == Candidates(Scoring(), current)
    {
      var fetched := oracle.links(current);
      if fetched.FetchFailed? {
        return Raised;
      }
      var titles := Dedup(LinkTitles(fetched));
      var scored: seq<Candidate> := [];
      for k := 0 to |titles|
        invariant scored == ScoreAll(Scoring(), titles[..k])
      {
        ScoreAllStep(Scoring(), titles, k);
        var words := TitleWords(titles[k]);
        var total := TotalFrequency(words);
        if |words| == 0 {
          total := 0.0;
        } else {
          total := total / (|words| as real);
        }
        scored := scored + [(titles[k], total)];
      }
      assert titles[..|titles|] == titles;
      r := Top(Prefix(SortDesc(scored, ScoreOf), neighborsToCheck));
    }

    /** Creation of the object for an explored page: it joins the visited
        set, is appended to its parent's list and gets a list of its own. */
    method AddVisited(current: string, parent: string)
      requires Valid() && !targetInVisited
      requires current != "" && current !in TitleSet(visited)
      requires visited == [] ==> current == sourceTitle && parent == ""
      requires visited != [] ==> parent in TitleSet(visited) && Upper(current) != Upper(targetTitle)
      modifies this
      ensures Valid() && !targetInVisited && targetParent == old(targetParent)
      ensures visited == old(visited) + [Page(current, parent)]
    {
      RecordVisit(visited, targetParent, current, parent, sourceTitle, targetTitle);
      visited := visited + [Page(current, parent)];
      if parent != "" {
        adjacency := adjacency[parent := adjacency[parent] + [current]];
      }
      if current !in adjacency {
        adjacency := adjacency[current := []];
      }
    }

    /** The target was among the links of the explored page `current`: the
        target object gets `current` as parent, joins the visited set, is
        appended to the list of `current` and gets an empty list. */
    method AddTarget(current: string)
      requires Valid() && !targetInVisited && current in TitleSet(visited)
      modifies this
      ensures Valid() && targetInVisited && targetParent == current
      ensures visited == old(visited) + [Page(targetTitle, current)]
      ensures Explored() == old(visited)
    {
      TargetAdded(visited, adjacency, targetParent, current, sourceTitle, targetTitle);
      targetParent := current;
      visited := visited + [Page(targetTitle, current)];
      targetInVisited := true;
      adjacency := adjacency[current := adjacency[current] + [targetTitle]];
      adjacency := adjacency[targetTitle := []];
    }

    /** One exploration step, common to both searches: record the page,
        score its links, and stop if the target is among the top ones. */
    method VisitPage(current: string, parent: string) returns (o: Visit)
      requires Valid() && Scores() && !targetInVisited
      requires current != "" && current !in TitleSet(visited)
      requires visited == [] ==> current == sourceTitle && parent == ""
      requires visited != [] ==> parent in TitleSet(visited) && Upper(current) != Upper(targetTitle)
      modifies this
      ensures Valid()
      ensures targetInVisited == o.Reached?
      ensures Explored() == old(visited) + [Page(current, parent)]
      ensures visited == old(visited) + [Page(current, parent)] + (if o.Reached? then [Page(targetTitle, current)] else [])
      ensures targetParent == if o.Reached? then current else old(targetParent)
      ensures o.Failed? <==> similar(current).Raised?
      ensures o.Reached? <==> Mentions(Tops()(current), targetTitle)
      ensures o.Expand? ==> similar(current) == Top(o.links)
    {
      AddVisited(current, parent);
      var related := MostSimilarLinksToTarget(current);
      assert similar(current) == Candidates(Scoring(), current);
      if related.Raised? {
        assert !Mentions([], targetTitle);
        return Failed;
      }
      if Mentions(Keys(related.links), targetTitle) {
        TitleSetAppend(old(visited), Page(current, parent));
        AddTarget(current);
        return Reached;
      }
      return Expand(related.links);
    }

    /** Between the exploration of a page that did not reach the target and
        the queueing of its top links `links`, with `fr` the frontier. */
    ghost predicate Queueing(universe: set<string>, fr: seq<Page>, links: seq<Candidate>)
      reads this
    {
      && Closed(Tops(), universe) && Valid() && !targetInVisited
      && Expanding(Tops(), universe, targetTitle, visited, fr)
      && Tops()(visited[|visited| - 1].title) == Keys(links)
    }

    /** The scorer keeps at most `neighbors_to_check` links of a page. */
    lemma FanOut(p: string)
      requires Scores() && neighborsToCheck >= 0
      ensures |Tops()(p)| <= neighborsToCheck && |LinksOf(similar(p))| <= neighborsToCheck
    {
      assert similar(p) == Candidates(Scoring(), p);
      CandidatesBounded(Scoring(), p);
    }

    /** An exploration that did not reach the target leaves the page's top
        links to queue. */
    lemma ExploredQueueing(universe: set<string>, before: seq<Page>, rest: seq<Page>, entry: Page, o: Visit)
      requires Closed(Tops(), universe) && Valid() && !targetInVisited && !o.Reached?
      requires visited == before + [entry]
      requires Expanding(Tops(), universe, targetTitle, visited, rest)
      requires o.Failed? <==> similar(entry.title).Raised?
      requires o.Expand? ==> similar(entry.title) == Top(o.links)
      ensures Queueing(universe, rest, LinksToQueue(o))
    {
    }

    /** The `for page in related_links` loop of `bfs_search`: queue every
        top link of the page just explored that has no object yet. */
    method EnqueueUnvisited(ghost universe: set<string>, links: seq<Candidate>, queue: seq<Page>)
      returns (queue': seq<Page>)
      requires Queueing(universe, queue, links)
      ensures Searching(universe, queue')
      ensures queue' == queue + Unvisited(Keys(links), visited, visited[|visited| - 1].title)
    {
      var current := visited[|visited| - 1].title;
      queue' := queue;
      EnqueueStart(Tops(), universe, targetTitle, visited, queue);
      for k := 0 to |links|
        invariant Enqueued(Tops(), universe, targetTitle, visited, queue, Keys(links), k, queue')
      {
        var page := links[k].0;
        assert page == Keys(links)[k];
        EnqueueStep(Tops(), universe, targetTitle, visited, queue, Keys(links), k, queue');
        var seen := GetObjectMatchingPageTitle(page);
        TitleSetIsPageTitles(visited);
        if seen.None? {
          queue' := queue' + [Page(page, current)];
        }
      }
      EnqueueDone(Tops(), universe, sourceTitle, targetTitle, visited, queue, Keys(links), queue');
    }

    /** The exploration of a popped frontier entry that is not skipped, with
        what it does to the search invariant: either the search is over with
        the target found, or the page is recorded and its top links are still
        to be queued. */
    method ExploreEntry(ghost universe: set<string>, ghost fr: seq<Page>, entry: Page, ghost rest: seq<Page>)
      returns (o: Visit)
      requires Closed(Tops(), universe) && sourceTitle in universe && "" !in universe
      requires Scores() && Searching(universe, fr) && Popped(fr, entry, rest)
      requires entry.parent == "" || entry.title !in TitleSet(visited)
      modifies this
      ensures Valid() && targetInVisited == o.Reached?
      ensures o.Reached? ==> Searched(universe)
      ensures o.Reached? ==>
        visited == old(visited) + [entry, Page(targetTitle, entry.title)] && targetParent == entry.title
      ensures !o.Reached? ==>
        && visited == old(visited) + [entry] && targetParent == old(targetParent)
        && |universe - TitleSet(visited)| < old(|universe - TitleSet(visited)|)
      ensures !o.Reached? ==> LinksToQueue(o) == LinksOf(similar(entry.title))
      ensures !o.Reached? ==> Queueing(universe, rest, LinksToQueue(o))
    {
      ghost var before := visited;
      Visitable(Tops(), universe, sourceTitle, targetTitle, targetParent, visited, fr, entry, rest);
      Progress(universe, visited, entry);
      o := VisitPage(entry.title, entry.parent);
      if o.Reached? {
        ReachedResult(Tops(), universe, sourceTitle, targetTitle, before, fr, entry);
        AppendPair(before, entry, Page(targetTitle, entry.title));
      } else {
        VisitKeeps(Tops(), universe, sourceTitle, targetTitle, before, fr, entry, rest);
        ExploredQueueing(universe, before, rest, entry, o);
        QueuedLinks(o, similar(entry.title));
      }
    }

    /** The skip test of both searches: the entry is not the start entry and
        its page already has an object. */
    method AlreadyVisited(entry: Page) returns (b: bool)
      ensures b <==> entry.parent != "" && entry.title in TitleSet(visited)
    {
      b := false;
      if entry.parent != "" {
        var seen := GetObjectMatchingPageTitle(entry.title);
        TitleSetIsPageTitles(visited);
        b := seen.Some?;
      }
    }

    /** The body of the `bfs_search` loop after `queue.popleft()` gave
        `entry`: skip a page that already has an object, otherwise explore it
        and queue its unvisited top links. */
    method BfsVisit(ghost universe: set<string>, ghost fr: seq<Page>, entry: Page, queue: seq<Page>)
      returns (found: bool, queue': seq<Page>)
      requires Closed(Tops(), universe) && sourceTitle in universe && "" !in universe
      requires Scores() && Searching(universe, fr) && Popped(fr, entry, queue)
      modifies this
      ensures found ==> Searched(universe) && targetInVisited
      ensures !found ==> Searching(universe, queue')
      ensures entry.parent != "" && entry.title in TitleSet(old(visited)) ==>
        !found && visited == old(visited) && queue' == queue
      ensures !(entry.parent != "" && entry.title in TitleSet(old(visited))) ==>
        && (found ==> visited == old(visited) + [entry, Page(targetTitle, entry.title)] && targetParent == entry.title)
        && (!found ==> visited == old(visited) + [entry] && targetParent == old(targetParent))
        && (!found ==> queue' == queue + Unvisited(Tops()(entry.title), visited, entry.title))
        && (!found ==> |universe - TitleSet(visited)| < old(|universe - TitleSet(visited)|))
      ensures neighborsToCheck >= 0 ==> |queue'| <= |queue| + neighborsToCheck
    {
      var skip := AlreadyVisited(entry);
      if skip {
        SkipKeeps(Tops(), universe, sourceTitle, targetTitle, visited, fr, entry, queue);
        found, queue' := false, queue;
      } else {
        found, queue' := BfsExpand(universe, fr, entry, queue);
      }
    }

    /** The part of the `bfs_search` loop body after the skip test: explore
        the page, then queue its unvisited top links unless the target was
        among them. */
    method BfsExpand(ghost universe: set<string>, ghost fr: seq<Page>, entry: Page, queue: seq<Page>)
      returns (found: bool, queue': seq<Page>)
      requires Closed(Tops(), universe) && sourceTitle in universe && "" !in universe
      requires Scores() && Searching(universe, fr) && Popped(fr, entry, queue)
      requires entry.parent == "" || entry.title !in TitleSet(visited)
      modifies this
      ensures found ==> Searched(universe) && targetInVisited
      ensures found ==>
        visited == old(visited) + [entry, Page(targetTitle, entry.title)] && targetParent == entry.title
      ensures !found ==> Searching(universe, queue')
      ensures !found ==> visited == old(visited) + [entry] && targetParent == old(targetParent)
      ensures !found ==> queue' == queue + Unvisited(Tops()(entry.title), visited, entry.title)
      ensures !found ==> |universe - TitleSet(visited)| < old(|universe - TitleSet(visited)|)
      ensures neighborsToCheck >= 0 ==> |queue'| <= |queue| + neighborsToCheck
    {
      var outcome := ExploreEntry(universe, fr, entry, queue);
      found := outcome.Reached?;
      queue' := queue;
      if !found {
        // A page whose scoring raised queues nothing.
        queue' := EnqueueUnvisited(universe, LinksToQueue(outcome), queue);
        if neighborsToCheck >= 0 {
          FanOut(entry.title);
          UnvisitedBounded(Tops()(entry.title), visited, entry.title);
        }
      }
    }

    /** `adjacency_list.clear()` and `set_of_all_visited_sites.clear()` at
        the start of both searches. */
    method ClearRegistry()
      requires Valid()
      modifies this
      ensures Valid() && adjacency == map[] && visited == [] && !targetInVisited
      ensures targetParent == old(targetParent)
    {
      adjacency := map[];
      visited := [];
      targetInVisited := false;
      EmptyRegistry(targetParent, sourceTitle, targetTitle);
    }

    /** `bfs_search`: explore pages first in, first out. */
    method BfsSearch(ghost universe: set<string>) returns (message: string)
      requires Valid() && Scores() && Universe(oracle, sourceTitle, universe)
      modifies this
      ensures Searched(universe)
      ensures message == if targetInVisited then FoundMessage(targetTitle, sourceTitle) else NotFoundMessage
    {
      TopsClosed(universe);
      var queue := [Page(sourceTitle, "")];
      ClearRegistry();
      while queue != []
        invariant Searching(universe, queue)
        decreases |universe - TitleSet(visited)|, |queue|
      {
        ghost var fr := queue;
        var entry := queue[0];
        queue := queue[1..];
        FrontPopped(fr);
        var found;
        found, queue := BfsVisit(universe, fr, entry, queue);
        if found {
          return FoundMessage(targetTitle, sourceTitle);
        }
      }
      ExhaustedResult(Tops(), universe, sourceTitle, targetTitle, visited, targetParent);
      return NotFoundMessage;
    }

    /** The `for page, similarity_index in related_links.items()` loop of
        `greedy_search`: push every top link of the page just explored that
        has no object yet, with its negated score. */
    method PushUnvisited(ghost universe: set<string>, links: seq<Candidate>, heap: seq<Entry>)
      returns (heap': seq<Entry>)
      requires Queueing(universe, Pages(heap), links)
      ensures Searching(universe, Pages(heap'))
      ensures heap' == heap + Pushes(links, visited, visited[|visited| - 1].title)
    {
      var current := visited[|visited| - 1].title;
      heap' := heap;
      PushStart(Tops(), universe, targetTitle, visited, heap, links);
      for k := 0 to |links|
        invariant Pushed(Tops(), universe, targetTitle, visited, heap, links, k, heap')
      {
        var page := links[k].0;
        PushStep(Tops(), universe, targetTitle, visited, heap, links, k, heap');
        var seen := GetObjectMatchingPageTitle(page);
        TitleSetIsPageTitles(visited);
        if seen.None? {
          heap' := heap' + [Entry(-1.0 * links[k].1, Page(page, current))];
        }
      }
      PushDone(Tops(), universe, sourceTitle, targetTitle, visited, heap, links, heap');
    }

    /** The body of the `greedy_search` loop after `heapq.heappop` gave
        `entry`: skip a page that already has an object, otherwise explore it
        and push its unvisited top links. */
    method GreedyVisit(ghost universe: set<string>, ghost fr: seq<Page>, entry: Page, heap: seq<Entry>)
      returns (found: bool, heap': seq<Entry>)
      requires Closed(Tops(), universe) && sourceTitle in universe && "" !in universe
      requires Scores() && Searching(universe, fr) && Popped(fr, entry, Pages(heap))
      modifies this
      ensures found ==> Searched(universe) && targetInVisited
      ensures !found ==> Searching(universe, Pages(heap'))
      ensures entry.parent != "" && entry.title in TitleSet(old(visited)) ==>
        !found && visited == old(visited) && heap' == heap
      ensures !(entry.parent != "" && entry.title in TitleSet(old(visited))) ==>
        && (found ==> visited == old(visited) + [entry, Page(targetTitle, entry.title)] && targetParent == entry.title)
        && (!found ==> visited == old(visited) + [entry] && targetParent == old(targetParent))
        && (!found ==> heap' == heap + Pushes(LinksOf(similar(entry.title)), visited, entry.title))
        && (!found ==> |universe - TitleSet(visited)| < old(|universe - TitleSet(visited)|))
      ensures neighborsToCheck >= 0 ==> |heap'| <= |heap| + neighborsToCheck
    {
      var skip := AlreadyVisited(entry);
      if skip {
        SkipKeeps(Tops(), universe, sourceTitle, targetTitle, visited, fr, entry, Pages(heap));
        found, heap' := false, heap;
      } else {
        found, heap' := GreedyExpand(universe, fr, entry, heap);
      }
    }

    /** The part of the `greedy_search` loop body after the skip test:
        explore the page, then push its unvisited top links unless the
        target was among them. */
    method GreedyExpand(ghost universe: set<string>, ghost fr: seq<Page>, entry: Page, heap: seq<Entry>)
      returns (found: bool, heap': seq<Entry>)
      requires Closed(Tops(), universe) && sourceTitle in universe && "" !in universe
      requires Scores() && Searching(universe, fr) && Popped(fr, entry, Pages(heap))
      requires entry.parent == "" || entry.title !in TitleSet(visited)
      modifies this
      ensures found ==> Searched(universe) && targetInVisited
      ensures found ==>
        visited == old(visited) + [entry, Page(targetTitle, entry.title)] && targetParent == entry.title
      ensures !found ==> Searching(universe, Pages(heap'))
      ensures !found ==> visited == old(visited) + [entry] && targetParent == old(targetParent)
      ensures !found ==> heap' == heap + Pushes(LinksOf(similar(entry.title)), visited, entry.title)
      ensures !found ==> |universe - TitleSet(visited)| < old(|universe - TitleSet(visited)|)
      ensures neighborsToCheck >= 0 ==> |heap'| <= |heap| + neighborsToCheck
    {
      var outcome := ExploreEntry(universe, fr, entry, Pages(heap));
      found := outcome.Reached?;
      heap' := heap;
      if !found {
        // A page whose scoring raised pushes nothing.
        heap' := PushUnvisited(universe, LinksToQueue(outcome), heap);
        if neighborsToCheck >= 0 {
          FanOut(entry.title);
          PushesBounded(LinksOf(similar(entry.title)), visited, entry.title);
        }
      }
    }

    /** `greedy_search`: always explore the best-scored entry of the heap
        next. */
    method GreedySearch(ghost universe: set<string>) returns (message: string)
      requires Valid() && Scores() && Universe(oracle, sourceTitle, universe)
      modifies this
      ensures Searched(universe)
      ensures message == if targetInVisited then FoundMessage(targetTitle, sourceTitle) else NotFoundMessage
    {
      TopsClosed(universe);
      var heap := [Entry(0.0, Page(sourceTitle, ""))];
      ClearRegistry();
      assert Pages(heap) == [Page(sourceTitle, "")];
      while heap != []
        invariant Searching(universe, Pages(heap))
        decreases |universe - TitleSet(visited)|, |heap|
      {
        ghost var h := heap;
        var m := LeastIndex(heap);
        var entry := heap[m].page;
        heap := RemoveAt(heap, m);
        HeapPopped(h, m);
        var found;
        found, heap := GreedyVisit(universe, Pages(h), entry, heap);
        if found {
          return FoundMessage(targetTitle, sourceTitle);
        }
      }
      ExhaustedResult(Tops(), universe, sourceTitle, targetTitle, visited, targetParent);
      return NotFoundMessage;
    }

    /** `search`: the search the `use_bfs` option selects; its message is
        dropped. */
    method Search(ghost universe: set<string>)
      requires Valid() && Scores() && Universe(oracle, sourceTitle, universe)
      modifies this
      ensures Searched(universe)
    {
      if useBfs {
        var _ := BfsSearch(universe);
      } else {
        var _ := GreedySearch(universe);
      }
    }

    /** `trace_path_backwards`: `None` unless the target object is in the
        visited set; otherwise the parent chain from the source to the
        target, which follows the adjacency dict when the two differ. */
    method TracePathBackwards() returns (path: Option<seq<string>>)
      requires Valid()
      ensures path.None? <==> !targetInVisited
      ensures targetInVisited ==> |visited| >= 2
      ensures path.Some? ==> path.value == PathTo(visited, |visited| - 1, sourceTitle)
      ensures path.Some? ==> |path.value| >= 2
      ensures path.Some? ==> path.value[0] == sourceTitle && path.value[|path.value| - 1] == targetTitle
      ensures path.Some? && sourceTitle != targetTitle ==> FollowsEdges(adjacency, path.value)
    {
      path := TracedPath(visited, targetInVisited, targetParent, sourceTitle, targetTitle);
    }

    /** `get_length_of_path`: the number of links on the traced path, 0 when
        the target was not found. The source traces the path a second time
        to measure it; nothing changes in between, so one trace is used. */
    method GetLengthOfPath() returns (n: nat)
      requires Valid()
      ensures targetInVisited ==> |visited| >= 2 && n == |PathTo(visited, |visited| - 1, sourceTitle)| - 1
      ensures targetInVisited ==> n >= 1
      ensures !targetInVisited ==> n == 0
    {
      var path := TracePathBackwards();
      if path.Some? {
        n := |path.value| - 1;
      } else {
        n := 0;
      }
    }
  }
}
