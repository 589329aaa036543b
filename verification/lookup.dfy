/**
 Looking a word up (`Application._text_widget_insert`): the article of a word
 runs from the start of its span to the start of the next word in index
 order, or to the end of the body for the last word.
 */
module Lookup {
  import opened Wrappers
  import opened Text
  import opened OrderedMap
  import opened Indexing
  import opened Records

  /** The article at index position `p`: `body[start:end]` with `end = None` for the last word. */
  function ArticleAt(idx: Index, body: string, p: nat): string
    requires p < |idx|
  {
    Slice(body, idx[p].1.start, if p < |idx| - 1 then Some(idx[p + 1].1.start) else None)
  }

  /** The article for a query in one dictionary, or `None` when the word is not indexed. */
  function Article(idx: Index, body: string, query: string): Option<string> {
    var word := LowerStr(query);
    if HasKey(idx, word) then Some(ArticleAt(idx, body, IndexOf(idx, word))) else None
  }

  /**
   Queries that differ only in case find the same article. `Article` reads
   the query only through `LowerStr`, so its definition alone gives this.
   */
  lemma CaseInsensitive(idx: Index, body: string, q1: string, q2: string)
    requires LowerStr(q1) == LowerStr(q2)
    ensures Article(idx, body, q1) == Article(idx, body, q2)
  {
  }

  /** Index spans as the index pass leaves them: within the body, starts not decreasing. */
  predicate Ordered(idx: Index, body: string) {
    && (forall i :: 0 <= i < |idx| ==> idx[i].1.start <= |body|)
    && (forall i, j :: 0 <= i < j < |idx| ==> idx[i].1.start <= idx[j].1.start)
  }

  /** An article is the body between its word's start and the next word's start. */
  lemma ArticleAtSlice(idx: Index, body: string, p: nat)
    requires Ordered(idx, body) && p < |idx|
    ensures p < |idx| - 1 ==> ArticleAt(idx, body, p) == body[idx[p].1.start..idx[p + 1].1.start]
    ensures p == |idx| - 1 ==> ArticleAt(idx, body, p) == body[idx[p].1.start..]
  {
  }

  /** The articles from position `p` on, concatenated in index order. */
  function ArticlesFrom(idx: Index, body: string, p: nat): string
    requires p <= |idx|
    decreases |idx| - p
  {
    if p == |idx| then "" else ArticleAt(idx, body, p) + ArticlesFrom(idx, body, p + 1)
  }

  /**
   The articles tile the body: read in index order they give back, without
   gap or overlap, all text from the first word on.
   */
  lemma {:induction false} ArticlesTile(idx: Index, body: string, p: nat)
    requires Ordered(idx, body) && p < |idx|
    ensures ArticlesFrom(idx, body, p) == body[idx[p].1.start..]
    decreases |idx| - p
  {
    if p < |idx| - 1 {
      ArticlesTile(idx, body, p + 1);
      var a := idx[p].1.start;
      var b := idx[p + 1].1.start;
      assert body[a..b] + body[b..] == body[a..];
    }
  }

  /** Every word first occurring after match `f` starts at `s` or later. */
  ghost predicate NoWordFirstBefore(ms: seq<Match>, f: nat, s: int) {
    forall k :: Occurs(ms, k) && First(ms, k) > f ==> s <= ms[First(ms, k)].start
  }

  /**
   `a` is the article of the word whose first match is `ms[f]`: a slice of the
   body starting at that match and beginning with its text, ending at the end
   of the body or where another word first occurs, with no word first
   occurring inside it.
   */
  ghost predicate Bounded(ms: seq<Match>, body: string, f: nat, a: string)
    requires f < |ms|
  {
    && ms[f].start + |a| <= |body|
    && a == body[ms[f].start..ms[f].start + |a|]
    && StartsWith(a, ms[f].text)
    && NoWordFirstBefore(ms, f, ms[f].start + |a|)
    && (ms[f].start + |a| == |body|
        || exists j :: f < j < |ms| && Occurs(ms, Key(ms[j])) && j == First(ms, Key(ms[j]))
                        && ms[f].start + |a| == ms[j].start)
  }

  /**
   For an index built from a scan, a query is found exactly when some match
   lower-cases to it, and then its article is bounded as `Bounded` says.
   */
  lemma ArticleSpec(ms: seq<Match>, body: string, query: string)
    requires WellFormed(ms, body)
    ensures Article(Build(ms), body, query).Some? <==> Occurs(ms, LowerStr(query))
    ensures Occurs(ms, LowerStr(query)) ==>
      Bounded(ms, body, First(ms, LowerStr(query)), Article(Build(ms), body, query).value)
  {
    var idx := Build(ms);
    var w := LowerStr(query);
    BuildDescribes(ms);
    BuildStartsOrdered(ms, body);
    assert Ordered(idx, body);
    FoundIff(idx, ms, w);
    if Occurs(ms, w) {
      FoundArticle(idx, ms, body, w);
    }
  }

  /** The article of an indexed word, whether another word follows it or not. */
  lemma FoundArticle(idx: Index, ms: seq<Match>, body: string, w: string)
    requires WellFormed(ms, body) && Describes(idx, ms) && Ordered(idx, body)
    requires Occurs(ms, w) && HasKey(idx, w)
    ensures Bounded(ms, body, First(ms, w), ArticleAt(idx, body, IndexOf(idx, w)))
  {
    if IndexOf(idx, w) < |idx| - 1 {
      assert StartsAtFirst(idx, ms);
      ArticleOfInnerWord(idx, ms, body, w);
    } else {
      ArticleOfLastWord(idx, ms, body, w);
    }
  }

  lemma FoundIff(idx: Index, ms: seq<Match>, w: string)
    requires KeysOccur(idx, ms) && MatchesIndexed(idx, ms)
    ensures HasKey(idx, w) <==> Occurs(ms, w)
  {
    if HasKey(idx, w) {
      var i :| 0 <= i < |idx| && idx[i].0 == w;
      assert Occurs(ms, idx[i].0);
    }
    if Occurs(ms, w) {
      assert HasKey(idx, Key(ms[First(ms, w)]));
    }
  }

  /** Every word first occurring after `w` sits after `w` in the index. */
  lemma LaterWordsAfter(idx: Index, ms: seq<Match>, w: string, k: string)
    requires KeysOccur(idx, ms) && MatchesIndexed(idx, ms) && FirstOccurrenceOrder(idx, ms)
    requires Occurs(ms, w) && Occurs(ms, k) && First(ms, k) > First(ms, w)
    ensures HasKey(idx, w) && HasKey(idx, k)
    ensures IndexOf(idx, w) < IndexOf(idx, k)
  {
    FoundIff(idx, ms, w);
    FoundIff(idx, ms, k);
  }

  /** The article of a word followed by another runs up to that word's first match. */
  lemma ArticleOfInnerWord(idx: Index, ms: seq<Match>, body: string, w: string)
    requires WellFormed(ms, body) && Ordered(idx, body)
    requires KeysOccur(idx, ms) && MatchesIndexed(idx, ms)
    requires FirstOccurrenceOrder(idx, ms) && StartsAtFirst(idx, ms)
    requires Occurs(ms, w) && HasKey(idx, w) && IndexOf(idx, w) < |idx| - 1
    ensures Bounded(ms, body, First(ms, w), ArticleAt(idx, body, IndexOf(idx, w)))
  {
    LaterWordsAfterNext(idx, ms, body, w);
    NextWordStarts(idx, ms, w);
    ArticleBetween(idx, ms, body, IndexOf(idx, w), First(ms, w), First(ms, idx[IndexOf(idx, w) + 1].0));
  }

  /** The spans of `w` and of the word after it start at their words' first matches. */
  lemma NextWordStarts(idx: Index, ms: seq<Match>, w: string)
    requires KeysOccur(idx, ms) && StartsAtFirst(idx, ms)
    requires HasKey(idx, w) && IndexOf(idx, w) < |idx| - 1
    ensures Occurs(ms, w)
    ensures var p := IndexOf(idx, w);
      var n := First(ms, idx[p + 1].0);
      && idx[p].1.start == ms[First(ms, w)].start
      && idx[p + 1].1.start == ms[n].start
      && Occurs(ms, Key(ms[n])) && n == First(ms, Key(ms[n]))
  {
    var p := IndexOf(idx, w);
    var n := First(ms, idx[p + 1].0);
    assert idx[p].0 == w;
    assert idx[p + 1].0 == Key(ms[n]);
  }

  /** The article at `p`, when it runs from the first match `f` of its word to the first match `n` of the next. */
  lemma ArticleBetween(idx: Index, ms: seq<Match>, body: string, p: nat, f: nat, n: nat)
    requires WellFormed(ms, body) && Ordered(idx, body)
    requires p + 1 < |idx| && f < n < |ms|
    requires idx[p].1.start == ms[f].start && idx[p + 1].1.start == ms[n].start
    requires Occurs(ms, Key(ms[n])) && n == First(ms, Key(ms[n]))
    requires NoWordFirstBefore(ms, f, idx[p + 1].1.start)
    ensures Bounded(ms, body, f, ArticleAt(idx, body, p))
  {
    ArticleAtSlice(idx, body, p);
    MatchesOrdered(ms, body, f, n);
    BoundedByNext(ms, body, f, n, ArticleAt(idx, body, p));
  }

  /** Every word first occurring after `w` starts no earlier than the word following `w` in the index. */
  lemma LaterWordsAfterNext(idx: Index, ms: seq<Match>, body: string, w: string)
    requires Sequential(ms, body) && KeysOccur(idx, ms) && MatchesIndexed(idx, ms)
    requires FirstOccurrenceOrder(idx, ms) && StartsAtFirst(idx, ms)
    requires Occurs(ms, w) && HasKey(idx, w) && IndexOf(idx, w) < |idx| - 1
    ensures Occurs(ms, idx[IndexOf(idx, w) + 1].0)
    ensures First(ms, w) < First(ms, idx[IndexOf(idx, w) + 1].0)
    ensures NoWordFirstBefore(ms, First(ms, w), idx[IndexOf(idx, w) + 1].1.start)
  {
    var p := IndexOf(idx, w);
    assert idx[p].0 == w;
    forall k | Occurs(ms, k) && First(ms, k) > First(ms, w)
      ensures idx[p + 1].1.start <= ms[First(ms, k)].start
    {
      NoWordInside(idx, ms, body, w, k);
    }
  }

  /**
   A slice from the first match of a word up to the first match of a later
   word, with no word first occurring in between, is bounded.
   */
  lemma BoundedByNext(ms: seq<Match>, body: string, f: nat, n: nat, a: string)
    requires WellFormed(ms, body)
    requires f < n < |ms| && Occurs(ms, Key(ms[n])) && n == First(ms, Key(ms[n]))
    requires ms[f].end <= ms[n].start && a == body[ms[f].start..ms[n].start]
    requires NoWordFirstBefore(ms, f, ms[n].start)
    ensures Bounded(ms, body, f, a)
  {
    assert a[..|ms[f].text|] == body[ms[f].start..ms[f].end];
  }

  /** A word first occurring after `w` does so no earlier than the word following `w` in the index. */
  lemma NoWordInside(idx: Index, ms: seq<Match>, body: string, w: string, k: string)
    requires Sequential(ms, body) && KeysOccur(idx, ms) && MatchesIndexed(idx, ms)
    requires FirstOccurrenceOrder(idx, ms) && StartsAtFirst(idx, ms)
    requires Occurs(ms, w) && HasKey(idx, w) && IndexOf(idx, w) < |idx| - 1
    requires Occurs(ms, k) && First(ms, k) > First(ms, w)
    ensures idx[IndexOf(idx, w) + 1].1.start <= ms[First(ms, k)].start
  {
    var p := IndexOf(idx, w);
    var n := First(ms, idx[p + 1].0);
    LaterWordsAfter(idx, ms, w, k);
    var q := IndexOf(idx, k);
    assert idx[p + 1].1.start == ms[n].start;
    if p + 1 < q {
      assert First(ms, idx[p + 1].0) < First(ms, idx[q].0);
      MatchesOrdered(ms, body, n, First(ms, k));
    } else {
      assert idx[q].0 == k;
      assert n == First(ms, k);
    }
  }

  /** The article of the last word runs to the end of the body. */
  lemma ArticleOfLastWord(idx: Index, ms: seq<Match>, body: string, w: string)
    requires WellFormed(ms, body) && Describes(idx, ms) && Ordered(idx, body)
    requires Occurs(ms, w) && HasKey(idx, w) && IndexOf(idx, w) == |idx| - 1
    ensures Bounded(ms, body, First(ms, w), ArticleAt(idx, body, IndexOf(idx, w)))
  {
    var f := First(ms, w);
    var p := IndexOf(idx, w);
    assert idx[p].1.start == ms[f].start;
    ArticleAtSlice(idx, body, p);
    NoLaterWord(idx, ms, w);
    TailBounded(ms, body, f, ArticleAt(idx, body, p));
  }

  /** No word first occurs after the last word of the index. */
  lemma NoLaterWord(idx: Index, ms: seq<Match>, w: string)
    requires Describes(idx, ms)
    requires Occurs(ms, w) && HasKey(idx, w) && IndexOf(idx, w) == |idx| - 1
    ensures forall k :: Occurs(ms, k) ==> First(ms, k) <= First(ms, w)
  {
    forall k | Occurs(ms, k) && First(ms, k) > First(ms, w)
      ensures false
    {
      LaterWordsAfter(idx, ms, w, k);
    }
  }

  /** The rest of the body from a word's first match is bounded when no word first occurs later. */
  lemma TailBounded(ms: seq<Match>, body: string, f: nat, a: string)
    requires WellFormed(ms, body) && f < |ms| && ms[f].start <= |body|
    requires a == body[ms[f].start..]
    requires forall k :: Occurs(ms, k) ==> First(ms, k) <= f
    ensures Bounded(ms, body, f, a)
  {
    assert a[..|ms[f].text|] == body[ms[f].start..ms[f].end];
  }

  /** What the result pane shows for a query: the articles found, per dictionary, and whether "no word" was written. */
  datatype Shown = Shown(articles: seq<(string, string)>, notFound: bool)

  /**
   The search loop over the selected dictionaries. `count` starts at the
   number of dictionaries and drops by one per miss; "no word" is written
   when it reaches zero. As written (`tolerant` false) a record without an
   index raises `KeyError`; tolerant, such a record is a miss.
   */
  function SearchFrom(sel: Collection, word: string, from: nat, count: int, tolerant: bool): Result<Shown, string>
    requires from <= |sel|
    decreases |sel| - from
  {
    if from == |sel| then Success(Shown([], false))
    else
      var (title, rec) := sel[from];
      if rec.index.None? && !tolerant then Failure(title)
      else if rec.index.Some? && HasKey(rec.index.value, word) then
        var idx := rec.index.value;
        var article := ArticleAt(idx, rec.body, IndexOf(idx, word));
        match SearchFrom(sel, word, from + 1, count, tolerant)
        case Failure(t) => Failure(t)
        case Success(rest) => Success(Shown([(title, article)] + rest.articles, rest.notFound))
      else
        match SearchFrom(sel, word, from + 1, count - 1, tolerant)
        case Failure(t) => Failure(t)
        case Success(rest) => Success(Shown(rest.articles, rest.notFound || count - 1 == 0))
  }

  /** The search as written: every selected dictionary, for the lower-cased query. */
  function SearchAsWritten(sel: Collection, query: string): Result<Shown, string> {
    SearchFrom(sel, LowerStr(query), 0, |sel|, false)
  }

  /** The search with a dictionary that has no index counted as not having the word. */
  function Search(sel: Collection, query: string): Result<Shown, string> {
    SearchFrom(sel, LowerStr(query), 0, |sel|, true)
  }

  /** The dictionaries of `sel` from `from` on that index `word`, with their articles. */
  function Hits(sel: Collection, word: string, from: nat): seq<(string, string)>
    requires from <= |sel|
    decreases |sel| - from
  {
    if from == |sel| then []
    else
      var rest := Hits(sel, word, from + 1);
      match sel[from].1.index
      case Some(idx) =>
        if HasKey(idx, word) then [(sel[from].0, ArticleAt(idx, sel[from].1.body, IndexOf(idx, word)))] + rest
        else rest
      case None => rest
  }

  /** No dictionary of `sel` from `from` on indexes `word`. */
  predicate Misses(sel: Collection, word: string, from: nat) {
    forall i :: from <= i < |sel| ==> !(sel[i].1.index.Some? && HasKey(sel[i].1.index.value, word))
  }

  /** The loop invariant of the search: `count` is the number of dictionaries not yet shown to miss. */
  lemma {:induction false} SearchFromSpec(sel: Collection, word: string, from: nat, count: int, tolerant: bool)
    requires from <= |sel|
    requires count >= |sel| - from
    ensures SearchFrom(sel, word, from, count, tolerant).Success? <==>
      tolerant || forall i :: from <= i < |sel| ==> sel[i].1.index.Some?
    ensures SearchFrom(sel, word, from, count, tolerant).Failure? ==>
      exists i :: from <= i < |sel| && sel[i].1.index.None? && SearchFrom(sel, word, from, count, tolerant).error == sel[i].0
    ensures SearchFrom(sel, word, from, count, tolerant).Success? ==>
      && SearchFrom(sel, word, from, count, tolerant).value.articles == Hits(sel, word, from)
      && (SearchFrom(sel, word, from, count, tolerant).value.notFound <==>
            count == |sel| - from && from < |sel| && Misses(sel, word, from))
    decreases |sel| - from
  {
    if from < |sel| {
      SearchFromSpec(sel, word, from + 1, count, tolerant);
      SearchFromSpec(sel, word, from + 1, count - 1, tolerant);
    }
  }

  /**
   A search shows, in dictionary order, the article of every selected
   dictionary that indexes the lower-cased word; "no word" is written exactly
   when at least one dictionary is selected and none of them has the word.
   As written, a selected record without an index makes the search fail,
   naming it.
   */
  lemma SearchAsWrittenSpec(sel: Collection, query: string)
    ensures SearchAsWritten(sel, query).Success? <==> forall i :: 0 <= i < |sel| ==> sel[i].1.index.Some?
    ensures SearchAsWritten(sel, query).Failure? ==>
      exists i :: 0 <= i < |sel| && sel[i].1.index.None? && SearchAsWritten(sel, query).error == sel[i].0
    ensures SearchAsWritten(sel, query).Success? ==>
      && SearchAsWritten(sel, query).value.articles == Hits(sel, LowerStr(query), 0)
      && (SearchAsWritten(sel, query).value.notFound <==> |sel| > 0 && Misses(sel, LowerStr(query), 0))
  {
    SearchFromSpec(sel, LowerStr(query), 0, |sel|, false);
  }

  /** The tolerant search never fails and shows the same hits and "no word" rule. */
  lemma SearchSpec(sel: Collection, query: string)
    ensures Search(sel, query).Success?
    ensures Search(sel, query).value.articles == Hits(sel, LowerStr(query), 0)
    ensures Search(sel, query).value.notFound <==> |sel| > 0 && Misses(sel, LowerStr(query), 0)
  {
    SearchFromSpec(sel, LowerStr(query), 0, |sel|, true);
  }

  /** Where every selected record has an index, both searches show the same. */
  lemma {:induction false} SearchAgrees(sel: Collection, word: string, from: nat, count: int)
    requires from <= |sel|
    requires forall i :: from <= i < |sel| ==> sel[i].1.index.Some?
    ensures SearchFrom(sel, word, from, count, false) == SearchFrom(sel, word, from, count, true)
    decreases |sel| - from
  {
    if from < |sel| {
      SearchAgrees(sel, word, from + 1, count);
      SearchAgrees(sel, word, from + 1, count - 1);
    }
  }
}
