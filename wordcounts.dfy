/** Word-frequency tables: `Counter` over the `\w+` tokens of a page text
    that are not stop words, as a dict sorted by decreasing count.  Both
    versions of the engine build them this way; they differ in the case
    mapping applied to the text first and in the stop-word set. */
module WordCounts {
  import opened Text
  import opened Ranking
  import opened Options

  /** A (word, count) item of the frequency dict. */
  type Item = (string, nat)

  /** The words not in `stops`, in order. */
  function Without(words: seq<string>, stops: set<string>): (r: seq<string>)
    ensures forall w :: w in r <==> w in words && w !in stops
    ensures forall w :: multiset(r)[w] == if w in stops then 0 else multiset(words)[w]
  {
    if words == [] then []
    else
      assert words == [words[0]] + words[1..];
      (if words[0] in stops then [] else [words[0]]) + Without(words[1..], stops)
  }

  lemma {:induction false} WithoutOnlyStopWords(words: seq<string>, stops: set<string>)
    requires forall w :: w in words ==> w in stops
    ensures Without(words, stops) == []
  {
    if words != [] {
      assert words[0] in words;
      WithoutOnlyStopWords(words[1..], stops);
    }
  }

  /** `Counter(words).items()`: each distinct word with its number of
      occurrences, in order of first occurrence. */
  function Tally(words: seq<string>): seq<Item> {
    var d := Dedup(words);
    seq(|d|, i requires 0 <= i < |d| => (d[i], multiset(words)[d[i]]))
  }

  function CountOf(e: Item): real { e.1 as real }

  /** The tokens counted for text already case-mapped to `folded`. */
  function Counted(folded: string, stops: set<string>): seq<string> {
    Without(Runs(folded, IsWordChar), stops)
  }

  /** `dict(sorted(Counter(w for w in re.findall(r'\w+', folded) if w not in
      stops).items(), key=lambda item: item[1], reverse=True))` */
  function Frequencies(folded: string, stops: set<string>): seq<Item> {
    SortDesc(Tally(Counted(folded, stops)), CountOf)
  }

  /** `d[w]` for a word that is a key of the dict, `None` otherwise. */
  function Lookup(items: seq<Item>, w: string): (r: Option<nat>)
    ensures r.Some? <==> w in Keys(items)
    ensures r.Some? ==> (w, r.value) in items
  {
    if items == [] then None
    else if items[0].0 == w then Some(items[0].1)
    else
      assert Keys(items) == [items[0].0] + Keys(items[1..]);
      Lookup(items[1..], w)
  }

  /** Every item of a rearranged tally is a counted word with its count. */
  lemma TableItemsAreCounts(kept: seq<string>, f: seq<Item>)
    requires multiset(f) == multiset(Tally(kept))
    ensures forall i :: 0 <= i < |f| ==> f[i].0 in kept && f[i].1 == multiset(kept)[f[i].0]
  {
    var d := Dedup(kept);
    var t := Tally(kept);
    forall i | 0 <= i < |f|
      ensures f[i].0 in kept && f[i].1 == multiset(kept)[f[i].0]
    {
      assert f[i] in multiset(t);
      var j :| 0 <= j < |t| && t[j] == f[i];
      assert d[j] in kept;
    }
  }

  /** Every counted word has an item in a rearranged tally. */
  lemma TableCoversWords(kept: seq<string>, f: seq<Item>)
    requires multiset(f) == multiset(Tally(kept))
    ensures forall w :: w in kept ==> w in Keys(f)
  {
    var d := Dedup(kept);
    var t := Tally(kept);
    forall w | w in kept ensures w in Keys(f) {
      var j := IndexOf(d, w);
      assert t[j] in multiset(f);
      var i :| 0 <= i < |f| && f[i] == t[j];
      assert Keys(f)[i] == w;
    }
  }

  /** No word has two items in a rearranged tally. */
  lemma TableWordsDistinct(kept: seq<string>, f: seq<Item>)
    requires multiset(f) == multiset(Tally(kept))
    ensures Distinct(Keys(f))
  {
    var d := Dedup(kept);
    var t := Tally(kept);
    assert Distinct(t) by {
      forall i, j | 0 <= i < j < |t| ensures t[i] != t[j] {
        assert t[i].0 == d[i] && t[j].0 == d[j];
      }
    }
    DistinctAfterPermutation(t, f);
    TableItemsAreCounts(kept, f);
    forall i, j | 0 <= i < j < |f| ensures Keys(f)[i] != Keys(f)[j] {
      assert f[i] != f[j];
    }
  }

  /** The frequency dict holds exactly the counted tokens, each with its
      number of occurrences, each once, by decreasing count. */
  lemma FrequenciesCountTokens(folded: string, stops: set<string>)
    ensures var f := Frequencies(folded, stops);
      && (forall w :: w in Keys(f) <==> w in Counted(folded, stops))
      && (forall i :: 0 <= i < |f| ==> f[i].1 == multiset(Counted(folded, stops))[f[i].0])
      && Distinct(Keys(f))
      && NonIncreasing(f, CountOf)
  {
    var kept := Counted(folded, stops);
    var f := Frequencies(folded, stops);
    assert multiset(f) == multiset(Tally(kept));
    TableItemsAreCounts(kept, f);
    TableCoversWords(kept, f);
    TableWordsDistinct(kept, f);
    forall w | w in Keys(f) ensures w in kept {
      var i :| 0 <= i < |f| && Keys(f)[i] == w;
    }
  }

  /** A word that carries an upper-case letter is never a key of a table
      built from lower-cased text. */
  lemma {:induction false} LowerTableHasNoCapitals(text: string, stops: set<string>, w: string)
    requires exists i :: 0 <= i < |w| && IsUpperLetter(w[i])
    ensures w !in Keys(Frequencies(Lower(text), stops))
  {
    FrequenciesCountTokens(Lower(text), stops);
    if w in Runs(Lower(text), IsWordChar) {
      var i :| 0 <= i < |w| && IsUpperLetter(w[i]);
      TokensComeFromText(Lower(text), IsWordChar, w, i);
    }
  }

  /** Every character of a token occurs in the tokenised text. */
  lemma {:induction false} TokensComeFromText(s: string, p: char -> bool, w: string, i: nat)
    requires w in Runs(s, p) && i < |w|
    ensures w[i] in s
    decreases |s|
  {
    if s != [] {
      if !p(s[0]) {
        TokensComeFromText(s[1..], p, w, i);
        assert w[i] in s[1..];
      } else {
        var n := RunLength(s, p);
        if w == s[..n] {
          assert w[i] == s[i];
        } else {
          TokensComeFromText(s[n..], p, w, i);
          assert w[i] in s[n..];
        }
      }
    }
  }
}
