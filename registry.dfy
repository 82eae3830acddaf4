/** The search engine's bookkeeping, as values: the visited-page objects
    (title and parent title, in the order they were created), the adjacency
    dict built from them, and the parent chain that `trace_path_backwards`
    follows from the target back to the source. */
module Registry {
  import opened Text

  /** A `WikiPage` object as the searches create it: its title and the title
      of the page whose links led to it (`""` for the start page). */
  datatype Page = Page(title: string, parent: string)

  function PageTitles(rs: seq<Page>): (ts: seq<string>)
    ensures |ts| == |rs|
    ensures forall i :: 0 <= i < |rs| ==> ts[i] == rs[i].title
  {
    seq(|rs|, i requires 0 <= i < |rs| => rs[i].title)
  }

  function TitleSet(rs: seq<Page>): set<string> {
    set r | r in rs :: r.title
  }

  /** The titles of the records whose parent is `p`, in creation order. */
  function Children(rs: seq<Page>, p: string): seq<string> {
    if rs == [] then []
    else Children(rs[..|rs| - 1], p) + (if rs[|rs| - 1].parent == p then [rs[|rs| - 1].title] else [])
  }

  /** The adjacency dict the searches maintain for the records `rs`: a key
      per recorded title, listing its children; once the target has been
      added (`found`), its entry is reset to the empty list. */
  ghost function AdjacencyOf(rs: seq<Page>, found: bool, target: string): map<string, seq<string>> {
    map t | t in TitleSet(rs) :: if found && t == target then [] else Children(rs, t)
  }

  /** The records of pages the search explored itself: all of them, except
      the target record that a successful search adds last. */
  function Explorations(rs: seq<Page>, found: bool): seq<Page> {
    if found && |rs| > 0 then rs[..|rs| - 1] else rs
  }

  /** Every record but the first was reached from a page recorded before it. */
  ghost predicate ParentsEarlier(rs: seq<Page>) {
    forall i {:trigger rs[i].parent} :: 0 < i < |rs| ==> exists j :: 0 <= j < i && rs[j].title == rs[i].parent
  }

  /** The shape of the visited registry between searches and at every step
      of one: it starts with the source record; every later record was
      reached from an earlier one; explored pages are recorded once each,
      never under the empty title, and none but the source carries the
      target's title (in any letter case); a successful search has added the
      target record last, with parent `tp`. */
  ghost predicate Registered(rs: seq<Page>, found: bool, tp: string, source: string, target: string) {
    var e := Explorations(rs, found);
    && (|rs| > 0 ==> rs[0] == Page(source, ""))
    && ParentsEarlier(rs)
    && Distinct(PageTitles(e))
    && "" !in PageTitles(e)
    && (forall i :: 0 < i < |e| ==> Upper(e[i].title) != Upper(target))
    && (found ==> |rs| >= 2 && rs[|rs| - 1] == Page(target, tp))
  }

  /** No record names as parent a title that is not recorded (the start
      record names `""`). */
  lemma NoRecordHasParent(rs: seq<Page>, c: string)
    requires ParentsEarlier(rs) && (|rs| > 0 ==> rs[0].parent == "")
    requires c != "" && c !in TitleSet(rs)
    ensures forall i :: 0 <= i < |rs| ==> rs[i].parent != c
  {
    forall i | 0 < i < |rs| ensures rs[i].parent != c {
      var j :| 0 <= j < i && rs[j].title == rs[i].parent;
      assert rs[j] in rs;
    }
  }

  lemma {:induction false} ChildrenAppend(rs: seq<Page>, r: Page, p: string)
    ensures Children(rs + [r], p) == Children(rs, p) + (if r.parent == p then [r.title] else [])
  {
    assert (rs + [r])[..|rs|] == rs;
  }

  lemma {:induction false} Childless(rs: seq<Page>, c: string)
    requires forall i :: 0 <= i < |rs| ==> rs[i].parent != c
    ensures Children(rs, c) == []
  {
    if rs != [] {
      Childless(rs[..|rs| - 1], c);
    }
  }

  /** A record's title is listed among the children of its parent. */
  lemma {:induction false} ChildListed(rs: seq<Page>, j: nat)
    requires j < |rs|
    ensures rs[j].title in Children(rs, rs[j].parent)
  {
    var p := rs[..|rs| - 1];
    if j < |rs| - 1 {
      assert rs[j] == p[j];
      ChildListed(p, j);
    }
  }

  lemma TitleSetAppend(rs: seq<Page>, r: Page)
    ensures TitleSet(rs + [r]) == TitleSet(rs) + {r.title}
  {
    assert forall x :: x in rs + [r] <==> x in rs || x == r;
  }

  lemma TitleSetIsPageTitles(rs: seq<Page>)
    ensures forall t :: t in TitleSet(rs) <==> t in PageTitles(rs)
  {
    forall t | t in PageTitles(rs) ensures t in TitleSet(rs) {
      var i :| 0 <= i < |rs| && PageTitles(rs)[i] == t;
      assert rs[i] in rs;
    }
  }

  /** Records with distinct titles: as many titles as records, which is the
      size of the Python set of visited-page objects. */
  lemma {:induction false} DistinctTitlesCount(rs: seq<Page>)
    requires Distinct(PageTitles(rs))
    ensures |TitleSet(rs)| == |rs|
  {
    if rs != [] {
      var p := rs[..|rs| - 1];
      var r := rs[|rs| - 1];
      LastTitleNew(rs);
      DistinctTitlesCount(p);
      assert rs == p + [r];
      TitleSetAppend(p, r);
      AddNew(TitleSet(p), r.title);
    }
  }

  /** With distinct titles, the records before the last have distinct
      titles too, none of them the last one's. */
  lemma LastTitleNew(rs: seq<Page>)
    requires rs != [] && Distinct(PageTitles(rs))
    ensures Distinct(PageTitles(rs[..|rs| - 1]))
    ensures rs[|rs| - 1].title !in TitleSet(rs[..|rs| - 1])
  {
    var p := rs[..|rs| - 1];
    var r := rs[|rs| - 1];
    assert forall i :: 0 <= i < |p| ==> PageTitles(p)[i] == PageTitles(rs)[i];
    TitleSetIsPageTitles(p);
    assert PageTitles(rs)[|rs| - 1] == r.title;
  }

  lemma AddNew<T>(s: set<T>, x: T)
    requires x !in s
    ensures |s + {x}| == |s| + 1
  {
  }

  /** The registry a search starts from: no records, an empty dict. */
  lemma EmptyRegistry(tp: string, source: string, target: string)
    ensures Registered([], false, tp, source, target)
    ensures AdjacencyOf([], false, target) == map[]
  {
    assert TitleSet([]) == {};
  }

  /** Recording the start page in an empty registry gives it an empty
      adjacency list. */
  lemma AdjacencyAfterStart(source: string, target: string)
    requires source != ""
    ensures AdjacencyOf([Page(source, "")], false, target) == map[source := []]
  {
    var rs := [Page(source, "")];
    TitleSetAppend([], Page(source, ""));
    assert Children(rs, source) == Children([], source);
  }

  /** Recording page `c`, reached from the recorded page `p`, appends `c` to
      the list of `p` and gives `c` an empty list. */
  lemma AdjacencyAfterVisit(rs: seq<Page>, c: string, p: string, target: string)
    requires c !in TitleSet(rs) && p in TitleSet(rs)
    requires forall i :: 0 <= i < |rs| ==> rs[i].parent != c
    ensures var a := AdjacencyOf(rs, false, target);
      AdjacencyOf(rs + [Page(c, p)], false, target) == a[p := a[p] + [c]][c := []]
  {
    var a := AdjacencyOf(rs, false, target);
    var m := a[p := a[p] + [c]][c := []];
    var rs' := rs + [Page(c, p)];
    var b := AdjacencyOf(rs', false, target);
    TitleSetAppend(rs, Page(c, p));
    assert b.Keys == m.Keys;
    forall t | t in b.Keys ensures b[t] == m[t] {
      ChildrenAppend(rs, Page(c, p), t);
      if t == c {
        Childless(rs, c);
      }
    }
    SameEntries(b, m);
  }

  /** Adding the target record with parent `c` appends the target to the
      list of `c` and then resets the target's own list. */
  lemma AdjacencyAfterTarget(rs: seq<Page>, c: string, target: string)
    requires c in TitleSet(rs)
    ensures var a := AdjacencyOf(rs, false, target);
      c in a && AdjacencyOf(rs + [Page(target, c)], true, target) == a[c := a[c] + [target]][target := []]
  {
    var a := AdjacencyOf(rs, false, target);
    var m := a[c := a[c] + [target]][target := []];
    var rs' := rs + [Page(target, c)];
    var b := AdjacencyOf(rs', true, target);
    TitleSetAppend(rs, Page(target, c));
    assert b.Keys == m.Keys;
    forall t | t in b.Keys ensures b[t] == m[t] {
      ChildrenAppend(rs, Page(target, c), t);
    }
    SameEntries(b, m);
  }

  /** Two maps with the same keys and the same value at each key are equal. */
  lemma SameEntries<K, V>(a: map<K, V>, b: map<K, V>)
    requires a.Keys == b.Keys
    requires forall k :: k in a.Keys ==> a[k] == b[k]
    ensures a == b
  {
  }

  /** Recording a page keeps the registry's shape and updates the adjacency
      dict the way the searches do. */
  lemma RecordVisit(rs: seq<Page>, tp: string, c: string, p: string, source: string, target: string)
    requires Registered(rs, false, tp, source, target)
    requires c != "" && c !in TitleSet(rs)
    requires rs == [] ==> c == source && p == ""
    requires rs != [] ==> p in TitleSet(rs) && Upper(c) != Upper(target)
    ensures Registered(rs + [Page(c, p)], false, tp, source, target)
    ensures rs == [] ==> AdjacencyOf(rs + [Page(c, p)], false, target) == map[c := []]
    ensures rs != [] ==> p != "" && p in AdjacencyOf(rs, false, target) && c !in AdjacencyOf(rs, false, target)
    ensures rs != [] ==> var a := AdjacencyOf(rs, false, target);
      AdjacencyOf(rs + [Page(c, p)], false, target) == a[p := a[p] + [c]][c := []]
  {
    RecordKeepsShape(rs, tp, c, p, source, target);
    if rs == [] {
      AdjacencyAfterStart(c, target);
    } else {
      TitleSetIsPageTitles(rs);
      NoRecordHasParent(rs, c);
      AdjacencyAfterVisit(rs, c, p, target);
    }
  }

  lemma RecordKeepsShape(rs: seq<Page>, tp: string, c: string, p: string, source: string, target: string)
    requires Registered(rs, false, tp, source, target)
    requires c != "" && c !in TitleSet(rs)
    requires rs == [] ==> c == source && p == ""
    requires rs != [] ==> p in TitleSet(rs) && Upper(c) != Upper(target)
    ensures Registered(rs + [Page(c, p)], false, tp, source, target)
  {
    TitleSetIsPageTitles(rs);
    TitlesAppend(rs, Page(c, p));
    DistinctAppend(PageTitles(rs), c);
    ParentsEarlierAppend(rs, Page(c, p));
  }

  lemma TitlesAppend(rs: seq<Page>, r: Page)
    ensures PageTitles(rs + [r]) == PageTitles(rs) + [r.title]
  {
    assert forall i :: 0 <= i < |rs| ==> PageTitles(rs + [r])[i] == PageTitles(rs)[i];
  }

  /** A record whose parent is recorded (or the first record) keeps every
      record reached from an earlier one. */
  lemma ParentsEarlierAppend(rs: seq<Page>, r: Page)
    requires ParentsEarlier(rs)
    requires rs != [] ==> r.parent in TitleSet(rs)
    ensures ParentsEarlier(rs + [r])
  {
    var rs' := rs + [r];
    forall i | 0 < i < |rs'| ensures exists j :: 0 <= j < i && rs'[j].title == rs'[i].parent {
      if i < |rs| {
        var j :| 0 <= j < i && rs[j].title == rs[i].parent;
        assert rs'[j] == rs[j] && rs'[i] == rs[i];
      } else {
        var q :| q in rs && q.title == r.parent;
        var j :| 0 <= j < |rs| && rs[j] == q;
        assert rs'[j].title == rs'[i].parent;
      }
    }
    assert forall i :: 0 < i < |rs'| ==> exists j :: 0 <= j < i && rs'[j].title == rs'[i].parent;
    assert ParentsEarlier(rs');
  }

  /** Adding the target record, reached from the recorded page `c`, gives a
      registry with the target found and `c` as its parent. */
  lemma RecordTarget(rs: seq<Page>, tp: string, c: string, source: string, target: string)
    requires Registered(rs, false, tp, source, target)
    requires c in TitleSet(rs)
    ensures Registered(rs + [Page(target, c)], true, c, source, target)
    ensures Explorations(rs + [Page(target, c)], true) == rs
  {
    var rs' := rs + [Page(target, c)];
    assert rs'[..|rs|] == rs;
    ParentsEarlierAppend(rs, Page(target, c));
  }

  /** Adding the target record under the explored page `c`, with the two
      dict updates the searches make. */
  lemma TargetAdded(rs: seq<Page>, adj: map<string, seq<string>>, tp: string, c: string,
                    source: string, target: string)
    requires Registered(rs, false, tp, source, target) && adj == AdjacencyOf(rs, false, target)
    requires c in TitleSet(rs)
    ensures c in adj
    ensures Registered(rs + [Page(target, c)], true, c, source, target)
    ensures adj[c := adj[c] + [target]][target := []] == AdjacencyOf(rs + [Page(target, c)], true, target)
    ensures Explorations(rs + [Page(target, c)], true) == rs
  {
    RecordTarget(rs, tp, c, source, target);
    AdjacencyAfterTarget(rs, c, target);
  }

  /** Python's `list.reverse()`. */
  function Reverse<T>(s: seq<T>): (r: seq<T>)
    ensures |r| == |s|
  {
    if s == [] then [] else [s[|s| - 1]] + Reverse(s[..|s| - 1])
  }

  lemma ReverseAppend<T>(s: seq<T>, x: T)
    ensures Reverse(s + [x]) == [x] + Reverse(s)
  {
    assert (s + [x])[..|s|] == s;
  }

  /** Index of the record `trace_path_backwards` moves to from record `i`:
      the first record titled like the parent of record `i`. */
  ghost function ParentIndex(rs: seq<Page>, i: nat): (j: nat)
    requires ParentsEarlier(rs) && 0 < i < |rs|
    ensures j < i && rs[j].title == rs[i].parent
  {
    assert rs[i].parent in PageTitles(rs) && IndexOf(PageTitles(rs), rs[i].parent) < i by {
      var w :| 0 <= w < i && rs[w].title == rs[i].parent;
      assert PageTitles(rs)[w] == rs[i].parent;
    }
    IndexOf(PageTitles(rs), rs[i].parent)
  }

  /** The record the chain moves to is the first one with the parent's
      title, the one `get_object_matching_page_title` returns. */
  lemma ParentIndexIsFirst(rs: seq<Page>, i: nat)
    requires ParentsEarlier(rs) && 0 < i < |rs|
    ensures rs[i].parent in PageTitles(rs) && ParentIndex(rs, i) == IndexOf(PageTitles(rs), rs[i].parent)
  {
  }

  /** The path `trace_path_backwards` returns when it starts at record `i`:
      the titles along the parent chain, from the source to record `i`. */
  ghost function PathTo(rs: seq<Page>, i: nat, source: string): seq<string>
    requires ParentsEarlier(rs) && 0 < i < |rs| && rs[0].title == source
    decreases i
  {
    if rs[i].parent == source then [source, rs[i].title]
    else
      var j := ParentIndex(rs, i);
      assert j != 0;
      PathTo(rs, j, source) + [rs[i].title]
  }

  /** A registry with the target found holds a parent chain from the target
      record back to the source record. */
  lemma FoundChain(rs: seq<Page>, tp: string, source: string, target: string)
    requires Registered(rs, true, tp, source, target)
    ensures ParentsEarlier(rs) && |rs| >= 2 && rs[0].title == source && rs[|rs| - 1].title == target
  {
  }

  /** One step back along the chain, seen from the reversed titles
      collected so far. */
  lemma TraceStep(rs: seq<Page>, i: nat, source: string, collected: seq<string>)
    requires ParentsEarlier(rs) && 0 < i < |rs| && rs[0].title == source
    requires rs[i].parent != source
    ensures ParentIndex(rs, i) > 0
    ensures PathTo(rs, i, source) + Reverse(collected) ==
            PathTo(rs, ParentIndex(rs, i), source) + Reverse(collected + [rs[i].title])
  {
    var j := ParentIndex(rs, i);
    var t := rs[i].title;
    assert PathTo(rs, i, source) == PathTo(rs, j, source) + [t];
    ReverseAppend(collected, t);
    assert PathTo(rs, j, source) + [t] + Reverse(collected) == PathTo(rs, j, source) + ([t] + Reverse(collected));
  }

  /** The end of the chain: the record found from the source. */
  lemma TraceLast(rs: seq<Page>, i: nat, source: string, collected: seq<string>)
    requires ParentsEarlier(rs) && 0 < i < |rs| && rs[0].title == source
    requires rs[i].parent == source
    ensures PathTo(rs, i, source) + Reverse(collected) == Reverse(collected + [rs[i].title, source])
  {
    ReverseAppend(collected, rs[i].title);
    ReverseAppend(collected + [rs[i].title], source);
    assert collected + [rs[i].title] + [source] == collected + [rs[i].title, source];
  }

  /** Page `b` was recorded with parent `a`. */
  ghost predicate Linked(rs: seq<Page>, a: string, b: string) {
    exists j :: 0 < j < |rs| && rs[j] == Page(b, a)
  }

  /** Each step of `path` goes from a page to a page recorded with it as
      parent. */
  ghost predicate LinkedPath(rs: seq<Page>, path: seq<string>) {
    forall k, l :: 0 <= k && l == k + 1 && l < |path| ==> Linked(rs, path[k], path[l])
  }

  /** Each page of `path` but the last is a key of the adjacency dict `adj`
      whose list holds the next page. */
  ghost predicate FollowsEdges(adj: map<string, seq<string>>, path: seq<string>) {
    forall k, l :: 0 <= k && l == k + 1 && l < |path| ==> Edge(adj, path[k], path[l])
  }

  /** `a` is a key of the adjacency dict `adj` whose list holds `b`. */
  ghost predicate Edge(adj: map<string, seq<string>>, a: string, b: string) {
    a in adj && b in adj[a]
  }

  /** The path starts at the source and ends at record `i`'s title. */
  lemma {:induction false} PathEnds(rs: seq<Page>, i: nat, source: string)
    requires ParentsEarlier(rs) && 0 < i < |rs| && rs[0].title == source
    ensures var path := PathTo(rs, i, source);
      |path| >= 2 && path[0] == source && path[|path| - 1] == rs[i].title
    decreases i
  {
    if rs[i].parent != source {
      PathEnds(rs, ParentIndex(rs, i), source);
    }
  }

  /** Each step of the path goes from a page to a page recorded with it as
      parent. */
  lemma {:induction false} PathSteps(rs: seq<Page>, i: nat, source: string)
    requires ParentsEarlier(rs) && 0 < i < |rs| && rs[0].title == source
    ensures LinkedPath(rs, PathTo(rs, i, source))
    decreases i
  {
    var path := PathTo(rs, i, source);
    if rs[i].parent == source {
      assert rs[i] == Page(path[1], path[0]);
    } else {
      var j := ParentIndex(rs, i);
      PathSteps(rs, j, source);
      PathEnds(rs, j, source);
      var prev := PathTo(rs, j, source);
      assert path == prev + [rs[i].title];
      assert Linked(rs, prev[|prev| - 1], rs[i].title) by {
        assert rs[i] == Page(rs[i].title, rs[j].title);
      }
      forall k, l | 0 <= k && l == k + 1 && l < |path| ensures Linked(rs, path[k], path[l]) {
        if l < |prev| {
          assert path[k] == prev[k] && path[l] == prev[l];
        } else {
          assert path[k] == prev[|prev| - 1] && path[l] == rs[i].title;
        }
      }
    }
  }

  /** When the target differs from the source, a recorded parent link is an
      edge of the adjacency dict. */
  lemma LinkIsEdge(rs: seq<Page>, tp: string, source: string, target: string, a: string, b: string)
    requires Registered(rs, true, tp, source, target) && source != target
    requires Linked(rs, a, b)
    ensures Edge(AdjacencyOf(rs, true, target), a, b)
  {
    var e := Explorations(rs, true);
    var j :| 0 < j < |rs| && rs[j] == Page(b, a);
    var q := ParentIndex(rs, j);
    assert rs[q] in rs;
    assert a != target by {
      assert q < |e| && e[q] == rs[q];
      assert q > 0 ==> Upper(e[q].title) != Upper(target);
    }
    ChildListed(rs, j);
  }

  lemma LinksAreEdges(rs: seq<Page>, tp: string, source: string, target: string, path: seq<string>)
    requires Registered(rs, true, tp, source, target) && source != target
    requires LinkedPath(rs, path)
    ensures FollowsEdges(AdjacencyOf(rs, true, target), path)
  {
    forall k, l | 0 <= k && l == k + 1 && l < |path|
      ensures Edge(AdjacencyOf(rs, true, target), path[k], path[l])
    {
      LinkIsEdge(rs, tp, source, target, path[k], path[l]);
    }
  }

  /** When the target differs from the source, the traced path follows the
      adjacency dict: each page is a key and lists the next one. */
  lemma TracedPathEdges(rs: seq<Page>, tp: string, source: string, target: string, path: seq<string>)
    requires Registered(rs, true, tp, source, target)
    requires |rs| >= 2 && rs[0].title == source && path == PathTo(rs, |rs| - 1, source)
    ensures source != target ==> FollowsEdges(AdjacencyOf(rs, true, target), path)
  {
    if source != target {
      PathSteps(rs, |rs| - 1, source);
      LinksAreEdges(rs, tp, source, target, path);
    }
  }
}
