/** Character classes, case mapping and tokenisation shared by the scorers,
    modelled on Python's `str.upper`, `str.lower`, `str.split()` and the
    regular expression `\w+`, restricted to ASCII. */
module Text {

  /** A character matched by the regular-expression class `\w` (ASCII part). */
  predicate IsWordChar(c: char) {
    ('a' <= c <= 'z') || ('A' <= c <= 'Z') || ('0' <= c <= '9') || c == '_'
  }

  /** A character that `str.split()` treats as whitespace (ASCII part):
      tab, line feed, vertical tab, form feed, carriage return, the four
      separators 0x1C..0x1F and the space. */
  predicate IsSpace(c: char) {
    (9 <= c as int <= 13) || (28 <= c as int <= 32)
  }

  predicate IsNonSpace(c: char) { !IsSpace(c) }

  predicate IsUpperLetter(c: char) { 'A' <= c <= 'Z' }

  function UpperChar(c: char): (u: char)
    ensures !('a' <= u <= 'z')
    ensures IsWordChar(u) <==> IsWordChar(c)
    ensures IsSpace(u) <==> IsSpace(c)
  {
    if 'a' <= c <= 'z' then (c as int - 32) as char else c
  }

  function LowerChar(c: char): (l: char)
    ensures !IsUpperLetter(l)
    ensures IsWordChar(l) <==> IsWordChar(c)
  {
    if 'A' <= c <= 'Z' then (c as int + 32) as char else c
  }

  /** `s.upper()` */
  function Upper(s: string): (u: string)
    ensures |u| == |s|
    ensures forall i :: 0 <= i < |s| ==> u[i] == UpperChar(s[i])
  {
    seq(|s|, i requires 0 <= i < |s| => UpperChar(s[i]))
  }

  /** `s.lower()` */
  function Lower(s: string): (l: string)
    ensures |l| == |s|
    ensures forall i :: 0 <= i < |s| ==> l[i] == LowerChar(s[i])
  {
    seq(|s|, i requires 0 <= i < |s| => LowerChar(s[i]))
  }

  /** Length of the longest prefix of `s` whose characters all satisfy `inRun`. */
  function RunLength(s: string, inRun: char -> bool): (n: nat)
    ensures n <= |s|
    ensures forall i :: 0 <= i < n ==> inRun(s[i])
    ensures n < |s| ==> !inRun(s[n])
  {
    if s == [] || !inRun(s[0]) then 0 else 1 + RunLength(s[1..], inRun)
  }

  /** The maximal runs of characters satisfying `inRun`, left to right:
      `re.findall(r'\w+', s)` is `Runs(s, IsWordChar)` and `s.split()` is
      `Runs(s, IsNonSpace)`. */
  function Runs(s: string, inRun: char -> bool): (r: seq<string>)
    ensures forall w :: w in r ==> |w| > 0 && forall c :: c in w ==> inRun(c)
    decreases |s|
  {
    if s == [] then []
    else if !inRun(s[0]) then Runs(s[1..], inRun)
    else
      var n := RunLength(s, inRun);
      [s[..n]] + Runs(s[n..], inRun)
  }

  /** The characters of `s` that satisfy `p`, in order. */
  function Keep(s: string, p: char -> bool): (r: string)
    ensures |r| <= |s|
  {
    if s == [] then [] else (if p(s[0]) then [s[0]] else []) + Keep(s[1..], p)
  }

  function Concat(ws: seq<string>): string {
    if ws == [] then [] else ws[0] + Concat(ws[1..])
  }

  lemma {:induction false} KeepAppend(a: string, b: string, p: char -> bool)
    ensures Keep(a + b, p) == Keep(a, p) + Keep(b, p)
  {
    if a != [] {
      assert (a + b)[1..] == a[1..] + b;
      KeepAppend(a[1..], b, p);
    } else {
      assert a + b == b;
    }
  }

  lemma {:induction false} KeepAll(s: string, p: char -> bool)
    requires forall i :: 0 <= i < |s| ==> p(s[i])
    ensures Keep(s, p) == s
  {
    if s != [] { KeepAll(s[1..], p); }
  }

  /** Tokenising loses no character of the class: the runs, joined, are
      exactly the characters of the class in their original order. */
  lemma {:induction false} RunsKeepEveryClassChar(s: string, p: char -> bool)
    ensures Concat(Runs(s, p)) == Keep(s, p)
    decreases |s|
  {
    if s == [] {
    } else if !p(s[0]) {
      RunsKeepEveryClassChar(s[1..], p);
    } else {
      var n := RunLength(s, p);
      RunsKeepEveryClassChar(s[n..], p);
      RunThenRest(s, p, n);
    }
  }

  /** One step of the above: a leading run followed by the rest of the text. */
  lemma RunThenRest(s: string, p: char -> bool, n: nat)
    requires s != [] && p(s[0]) && n == RunLength(s, p)
    requires Concat(Runs(s[n..], p)) == Keep(s[n..], p)
    ensures Concat(Runs(s, p)) == Keep(s, p)
  {
    var head, rest := s[..n], s[n..];
    assert s == head + rest;
    KeepAppend(head, rest, p);
    assert forall i :: 0 <= i < |head| ==> head[i] == s[i];
    KeepAll(head, p);
    var r := Runs(s, p);
    assert r == [head] + Runs(rest, p);
    assert r[1..] == Runs(rest, p);
  }

  /** A token made only of class characters is its own single run. */
  lemma {:induction false} RunsOfRun(w: string, p: char -> bool)
    requires |w| > 0 && forall i :: 0 <= i < |w| ==> p(w[i])
    ensures Runs(w, p) == [w]
  {
    var n := RunLength(w, p);
    assert n == |w|;
    assert w[..n] == w && w[n..] == [];
  }

  /** The first components of a list of pairs: the keys of a dict, given by
      its items in order. */
  function Keys<V>(items: seq<(string, V)>): (ks: seq<string>)
    ensures |ks| == |items|
    ensures forall i :: 0 <= i < |items| ==> ks[i] == items[i].0
  {
    seq(|items|, i requires 0 <= i < |items| => items[i].0)
  }

  predicate Distinct<T(==)>(s: seq<T>) {
    forall i, j :: 0 <= i < j < |s| ==> s[i] != s[j]
  }

  /** Appending an element not yet present keeps the elements distinct. */
  lemma DistinctAppend<T>(s: seq<T>, x: T)
    requires Distinct(s) && x !in s
    ensures Distinct(s + [x])
  {
  }

  /** The elements of `s` in order of first occurrence — the keys of a Python
      dict built from `s`. */
  function Dedup<T(==, !new)>(s: seq<T>): (r: seq<T>)
    ensures forall x :: x in r <==> x in s
    ensures Distinct(r)
  {
    if s == [] then []
    else
      var d := Dedup(s[..|s| - 1]);
      assert forall x :: x in s <==> x in s[..|s| - 1] || x == s[|s| - 1];
      if s[|s| - 1] in d then d else d + [s[|s| - 1]]
  }

  /** Index of the first occurrence of `x` in `s`. */
  function IndexOf<T(==)>(s: seq<T>, x: T): (i: nat)
    requires x in s
    ensures i < |s| && s[i] == x
    ensures forall j :: 0 <= j < i ==> s[j] != x
  {
    if s[0] == x then 0 else 1 + IndexOf(s[1..], x)
  }

  lemma {:induction false} IndexOfPrefix<T>(s: seq<T>, y: T, x: T)
    requires y in s
    ensures y in s + [x] && IndexOf(s + [x], y) == IndexOf(s, y)
  {
    var i := IndexOf(s, y);
    assert forall j :: 0 <= j < |s| ==> (s + [x])[j] == s[j];
    assert (s + [x])[i] == y;
  }

  /** A subsequence of `s` in the order of `s` stays in order when `s` gets a
      new last element, and when that element is appended to it too. */
  lemma InOrderExtend<T>(p: seq<T>, s: seq<T>, x: T, add: bool)
    requires x !in s
    requires forall y :: y in p ==> y in s
    requires forall i, j :: 0 <= i < j < |p| ==> IndexOf(s, p[i]) < IndexOf(s, p[j])
    ensures var q := p + (if add then [x] else []);
      forall i, j :: 0 <= i < j < |q| ==> IndexOf(s + [x], q[i]) < IndexOf(s + [x], q[j])
  {
    var q := p + (if add then [x] else []);
    forall y | y in s ensures IndexOf(s + [x], y) == IndexOf(s, y) {
      IndexOfPrefix(s, y, x);
    }
    assert forall j :: 0 <= j < |s| ==> (s + [x])[j] == s[j];
    assert IndexOf(s + [x], x) == |s|;
    forall i, j | 0 <= i < j < |q| ensures IndexOf(s + [x], q[i]) < IndexOf(s + [x], q[j]) {
      assert q[i] == p[i] && p[i] in p;
      if j < |p| {
        assert q[j] == p[j] && p[j] in p;
      } else {
        assert q[j] == x;
      }
    }
  }

  /** Deduplication keeps the order in which elements first occur. */
  lemma {:induction false} DedupKeepsOrder<T(!new)>(s: seq<T>)
    ensures forall i, j :: 0 <= i < j < |Dedup(s)| ==>
      IndexOf(s, Dedup(s)[i]) < IndexOf(s, Dedup(s)[j])
  {
    if s != [] {
      var p := s[..|s| - 1];
      var x := s[|s| - 1];
      assert s == p + [x];
      DedupKeepsOrder(p);
      var d := Dedup(p);
      forall y | y in p ensures IndexOf(s, y) == IndexOf(p, y) {
        IndexOfPrefix(p, y, x);
      }
      if x !in d {
        assert x !in p;
        assert forall j :: 0 <= j < |p| ==> s[j] == p[j];
        assert IndexOf(s, x) == |p|;
        forall i, j | 0 <= i < j < |d + [x]|
          ensures IndexOf(s, (d + [x])[i]) < IndexOf(s, (d + [x])[j])
        {
          if j == |d| {
            assert (d + [x])[i] == d[i] && d[i] in p;
          } else {
            assert (d + [x])[i] == d[i] && (d + [x])[j] == d[j];
            assert d[i] in p && d[j] in p;
          }
        }
      } else {
        forall i, j | 0 <= i < j < |d|
          ensures IndexOf(s, d[i]) < IndexOf(s, d[j])
        {
          assert d[i] in p && d[j] in p;
        }
      }
    }
  }

  lemma {:induction false} DistinctCountsAtMostOne<T>(s: seq<T>, x: T)
    requires Distinct(s)
    ensures multiset(s)[x] <= 1
  {
    if s != [] {
      var p := s[..|s| - 1];
      assert s == p + [s[|s| - 1]];
      assert Distinct(p);
      DistinctCountsAtMostOne(p, x);
      if x == s[|s| - 1] {
        assert x !in p;
      }
    }
  }

  /** A rearrangement of a sequence without repetitions has none either. */
  lemma DistinctAfterPermutation<T>(a: seq<T>, b: seq<T>)
    requires multiset(a) == multiset(b) && Distinct(a)
    ensures Distinct(b)
  {
    forall i, j | 0 <= i < j < |b| ensures b[i] != b[j] {
      if b[i] == b[j] {
        assert b == b[..j] + b[j..];
        assert b[i] in b[..j] && b[j] in b[j..];
        assert multiset(b)[b[i]] == multiset(b[..j])[b[i]] + multiset(b[j..])[b[i]];
        DistinctCountsAtMostOne(a, b[i]);
      }
    }
  }
}
