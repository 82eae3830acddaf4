/** The greedy search's frontier, a `heapq` min-heap of entries
    `(-score, (title, parent))`.  Only what `heappush` and `heappop` promise
    is modelled: a push adds an entry, a pop removes a least entry under
    Python's tuple order. */
module Heap {
  import opened Registry

  /** Python's `<` on strings: code points compared left to right, a proper
      prefix first. */
  predicate StrLess(a: string, b: string) {
    if a == [] then b != []
    else if b == [] then false
    else if a[0] != b[0] then a[0] < b[0]
    else StrLess(a[1..], b[1..])
  }

  lemma {:induction false} StrLessIrreflexive(a: string)
    ensures !StrLess(a, a)
  {
    if a != [] { StrLessIrreflexive(a[1..]); }
  }

  lemma {:induction false} StrLessTransitive(a: string, b: string, c: string)
    requires StrLess(a, b) && StrLess(b, c)
    ensures StrLess(a, c)
  {
    if a != [] && b != [] && c != [] && a[0] == b[0] && b[0] == c[0] {
      StrLessTransitive(a[1..], b[1..], c[1..]);
    }
  }

  lemma {:induction false} StrLessTotal(a: string, b: string)
    requires a != b
    ensures StrLess(a, b) || StrLess(b, a)
  {
    if a != [] && b != [] && a[0] == b[0] {
      assert a == [a[0]] + a[1..] && b == [b[0]] + b[1..];
      StrLessTotal(a[1..], b[1..]);
    }
  }

  /** A heap entry `(priority, (title, parent))`. */
  datatype Entry = Entry(priority: real, page: Page)

  /** Python's `<` on `(priority, (title, parent))` tuples. */
  predicate EntryLess(x: Entry, y: Entry) {
    || x.priority < y.priority
    || (x.priority == y.priority && StrLess(x.page.title, y.page.title))
    || (x.priority == y.priority && x.page.title == y.page.title && StrLess(x.page.parent, y.page.parent))
  }

  lemma EntryLessIrreflexive(x: Entry)
    ensures !EntryLess(x, x)
  {
    StrLessIrreflexive(x.page.title);
    StrLessIrreflexive(x.page.parent);
  }

  lemma EntryLessTransitive(x: Entry, y: Entry, z: Entry)
    requires EntryLess(x, y) && EntryLess(y, z)
    ensures EntryLess(x, z)
  {
    StrLessIrreflexive(x.page.title);
    StrLessIrreflexive(y.page.title);
    if x.priority == y.priority == z.priority {
      if x.page.title == y.page.title == z.page.title {
        StrLessTransitive(x.page.parent, y.page.parent, z.page.parent);
      } else if x.page.title == y.page.title {
      } else if y.page.title == z.page.title {
      } else {
        StrLessTransitive(x.page.title, y.page.title, z.page.title);
      }
    }
  }

  lemma EntryLessTotal(x: Entry, y: Entry)
    requires x != y
    ensures EntryLess(x, y) || EntryLess(y, x)
  {
    if x.priority == y.priority {
      if x.page.title != y.page.title {
        StrLessTotal(x.page.title, y.page.title);
      } else {
        assert x.page.parent != y.page.parent;
        StrLessTotal(x.page.parent, y.page.parent);
      }
    }
  }

  /** Position of the entry `heapq.heappop` returns: one that no other entry
      is smaller than, so one with the least priority. */
  function LeastIndex(h: seq<Entry>): (m: nat)
    requires |h| > 0
    ensures m < |h|
    ensures forall j :: 0 <= j < |h| ==> !EntryLess(h[j], h[m])
    ensures forall j :: 0 <= j < |h| ==> h[m].priority <= h[j].priority
  {
    if |h| == 1 then
      EntryLessIrreflexive(h[0]);
      0
    else
      var k := 1 + LeastIndex(h[1..]);
      assert forall j :: 1 <= j < |h| ==> h[j] == h[1..][j - 1];
      if EntryLess(h[0], h[k]) then
        forall j | 0 <= j < |h| ensures !EntryLess(h[j], h[0]) {
          if j == 0 {
            EntryLessIrreflexive(h[0]);
          } else if EntryLess(h[j], h[0]) {
            EntryLessTransitive(h[j], h[0], h[k]);
          }
        }
        0
      else k
  }

  /** The entry popped is the least one under the tuple order: every other
      entry is larger or equal to it. */
  lemma PoppedIsLeast(h: seq<Entry>)
    requires |h| > 0
    ensures var m := LeastIndex(h);
      forall j :: 0 <= j < |h| ==> h[j] == h[m] || EntryLess(h[m], h[j])
  {
    var m := LeastIndex(h);
    forall j | 0 <= j < |h| ensures h[j] == h[m] || EntryLess(h[m], h[j]) {
      if h[j] != h[m] {
        EntryLessTotal(h[j], h[m]);
      }
    }
  }

  /** The heap without the entry at `m`. */
  function RemoveAt(h: seq<Entry>, m: nat): (r: seq<Entry>)
    requires m < |h|
    ensures |r| == |h| - 1
    ensures multiset(r) + multiset{h[m]} == multiset(h)
  {
    assert h == h[..m] + [h[m]] + h[m + 1..];
    h[..m] + h[m + 1..]
  }

  /** The `(title, parent)` pairs the heap holds, in its order. */
  function Pages(h: seq<Entry>): (ps: seq<Page>)
    ensures |ps| == |h|
    ensures forall i :: 0 <= i < |h| ==> ps[i] == h[i].page
  {
    seq(|h|, i requires 0 <= i < |h| => h[i].page)
  }
}
