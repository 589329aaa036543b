/**
 The word index of one dictionary body: every regular-expression match,
 lower-cased, mapped to a span. A repeated word keeps its first start and
 takes the end of its latest match; words stay in order of first occurrence.
 */
module Indexing {
  import opened Wrappers
  import opened Text
  import opened OrderedMap

  /** One match as `re.finditer` yields it: `match.span()` and `match.group()`. */
  datatype Match = Match(start: nat, end: nat, text: string)

  /** A half-open character range `[start, end)` of the body. */
  datatype Span = Span(start: nat, end: nat)

  type Index = OMap<string, Span>

  /**
   What a left-to-right scan for non-overlapping matches produces: each match
   lies in the body and is the text it covers, and each ends no later than
   the next one starts.
   */
  predicate WellFormed(ms: seq<Match>, body: string) {
    && Sequential(ms, body)
    && (forall i :: 0 <= i < |ms| ==> body[ms[i].start..ms[i].end] == ms[i].text)
  }

  /** The positional half of `WellFormed`. */
  predicate Sequential(ms: seq<Match>, body: string) {
    && (forall i :: 0 <= i < |ms| ==> ms[i].start <= ms[i].end <= |body|)
    && (forall i :: 0 <= i < |ms| - 1 ==> ms[i].end <= ms[i + 1].start)
  }

  /** The index key of a match: its text, lower-cased. */
  function Key(m: Match): string {
    LowerStr(m.text)
  }

  /** One step of the index loop: a new word gets the match span, a known word keeps its start and takes this end. */
  function AddMatch(idx: Index, m: Match): Index {
    match Get(idx, Key(m))
    case Some(sp) => Put(idx, Key(m), Span(sp.start, m.end))
    case None => Put(idx, Key(m), Span(m.start, m.end))
  }

  /** The index `load_dictionaries` builds from the matches, in scan order. */
  function Build(ms: seq<Match>): (idx: Index)
    ensures Distinct(idx)
  {
    if |ms| == 0 then []
    else
      var prev := Build(ms[..|ms| - 1]);
      var m := ms[|ms| - 1];
      PutSpec(prev, Key(m), Span(if HasKey(prev, Key(m)) then Get(prev, Key(m)).value.start else m.start, m.end));
      AddMatch(prev, m)
  }

  predicate Occurs(ms: seq<Match>, k: string) {
    exists i :: 0 <= i < |ms| && Key(ms[i]) == k
  }

  /** Position of the first match whose key is `k`. */
  function First(ms: seq<Match>, k: string): (i: nat)
    requires Occurs(ms, k)
    ensures i < |ms| && Key(ms[i]) == k
    ensures forall j :: 0 <= j < i ==> Key(ms[j]) != k
  {
    FirstFrom(ms, k, 0)
  }

  function FirstFrom(ms: seq<Match>, k: string, from: nat): (i: nat)
    requires from <= |ms|
    requires exists i :: from <= i < |ms| && Key(ms[i]) == k
    ensures from <= i < |ms| && Key(ms[i]) == k
    ensures forall j :: from <= j < i ==> Key(ms[j]) != k
    decreases |ms| - from
  {
    if Key(ms[from]) == k then from else FirstFrom(ms, k, from + 1)
  }

  /** Position of the last match whose key is `k`. */
  function Last(ms: seq<Match>, k: string): (i: nat)
    requires Occurs(ms, k)
    ensures i < |ms| && Key(ms[i]) == k
    ensures forall j :: i < j < |ms| ==> Key(ms[j]) != k
  {
    LastBefore(ms, k, |ms|)
  }

  function LastBefore(ms: seq<Match>, k: string, to: nat): (i: nat)
    requires to <= |ms|
    requires exists i :: 0 <= i < to && Key(ms[i]) == k
    ensures i < to && Key(ms[i]) == k
    ensures forall j :: i < j < to ==> Key(ms[j]) != k
  {
    if Key(ms[to - 1]) == k then to - 1 else LastBefore(ms, k, to - 1)
  }

  /**
   The reference description of an index built from `ms`: keys are distinct
   and are exactly the match keys; each span runs from the start of the key's
   first match to the end of its last; keys appear in order of first match.
   */
  predicate Describes(idx: Index, ms: seq<Match>) {
    && Distinct(idx)
    && KeysOccur(idx, ms)
    && MatchesIndexed(idx, ms)
    && SpansFromMatches(idx, ms)
    && FirstOccurrenceOrder(idx, ms)
  }

  predicate KeysOccur(idx: Index, ms: seq<Match>) {
    forall i :: 0 <= i < |idx| ==> Occurs(ms, idx[i].0)
  }

  predicate MatchesIndexed(idx: Index, ms: seq<Match>) {
    forall j :: 0 <= j < |ms| ==> HasKey(idx, Key(ms[j]))
  }

  predicate SpansFromMatches(idx: Index, ms: seq<Match>)
    requires KeysOccur(idx, ms)
  {
    forall i :: 0 <= i < |idx| ==>
      idx[i].1 == Span(ms[First(ms, idx[i].0)].start, ms[Last(ms, idx[i].0)].end)
  }

  /** The start half of `SpansFromMatches`. */
  predicate StartsAtFirst(idx: Index, ms: seq<Match>)
    requires KeysOccur(idx, ms)
  {
    forall i :: 0 <= i < |idx| ==> idx[i].1.start == ms[First(ms, idx[i].0)].start
  }

  predicate FirstOccurrenceOrder(idx: Index, ms: seq<Match>)
    requires KeysOccur(idx, ms)
  {
    forall i, j :: 0 <= i < j < |idx| ==> First(ms, idx[i].0) < First(ms, idx[j].0)
  }

  lemma FirstSnoc(ms: seq<Match>, m: Match, k: string)
    requires Occurs(ms, k)
    ensures Occurs(ms + [m], k) && First(ms + [m], k) == First(ms, k)
  {
    var f := First(ms, k);
    assert (ms + [m])[f] == ms[f];
  }

  lemma LastSnoc(ms: seq<Match>, m: Match, k: string)
    requires Occurs(ms, k) && Key(m) != k
    ensures Occurs(ms + [m], k) && Last(ms + [m], k) == Last(ms, k)
  {
    var l := Last(ms, k);
    assert (ms + [m])[l] == ms[l];
    assert (ms + [m])[..|ms|] == ms;
  }

  /** The key of the new last match has its first occurrence there, or keeps the earlier one. */
  lemma NewKeySnoc(ms: seq<Match>, m: Match)
    ensures Occurs(ms + [m], Key(m)) && Last(ms + [m], Key(m)) == |ms|
    ensures !Occurs(ms, Key(m)) ==> First(ms + [m], Key(m)) == |ms|
  {
    assert (ms + [m])[|ms|] == m;
  }

  /** The index loop keeps the reference description true, one match at a time. */
  lemma {:induction false} BuildDescribes(ms: seq<Match>)
    ensures Describes(Build(ms), ms)
  {
    if |ms| > 0 {
      var init := ms[..|ms| - 1];
      var m := ms[|ms| - 1];
      assert init + [m] == ms;
      BuildDescribes(init);
      if HasKey(Build(init), Key(m)) {
        StepKnown(Build(init), init, m);
      } else {
        StepNew(Build(init), init, m);
      }
    }
  }

  /** Keys of `prev` other than the new match's key keep their first and last match. */
  lemma OthersUnchanged(prev: Index, init: seq<Match>, m: Match)
    requires KeysOccur(prev, init)
    ensures forall i :: 0 <= i < |prev| && prev[i].0 != Key(m) ==>
      Occurs(init + [m], prev[i].0)
      && First(init + [m], prev[i].0) == First(init, prev[i].0)
      && Last(init + [m], prev[i].0) == Last(init, prev[i].0)
  {
    forall i | 0 <= i < |prev| && prev[i].0 != Key(m)
      ensures Occurs(init + [m], prev[i].0)
      ensures First(init + [m], prev[i].0) == First(init, prev[i].0)
      ensures Last(init + [m], prev[i].0) == Last(init, prev[i].0)
    {
      FirstSnoc(init, m, prev[i].0);
      LastSnoc(init, m, prev[i].0);
    }
  }

  /** Every match of `init + [m]` has its key in an index holding `m`'s key and `init`'s keys. */
  lemma KeysCovered(prev: Index, idx: Index, init: seq<Match>, m: Match)
    requires Describes(prev, init)
    requires HasKey(idx, Key(m))
    requires forall i :: 0 <= i < |prev| ==> i < |idx| && idx[i].0 == prev[i].0
    ensures forall j :: 0 <= j < |init + [m]| ==> HasKey(idx, Key((init + [m])[j]))
  {
    forall j | 0 <= j < |init + [m]|
      ensures HasKey(idx, Key((init + [m])[j]))
    {
      if j < |init| {
        assert (init + [m])[j] == init[j];
        var q := IndexOf(prev, Key(init[j]));
        assert idx[q].0 == Key(init[j]);
      }
    }
  }

  /** Keys of `prev` still occur in the longer match list. */
  lemma KeysStillOccur(prev: Index, init: seq<Match>, m: Match)
    requires KeysOccur(prev, init)
    ensures forall i :: 0 <= i < |prev| ==> Occurs(init + [m], prev[i].0)
  {
    forall i | 0 <= i < |prev|
      ensures Occurs(init + [m], prev[i].0)
    {
      var w :| 0 <= w < |init| && Key(init[w]) == prev[i].0;
      assert (init + [m])[w] == init[w];
    }
  }

  /** A match of a word already indexed only moves that word's end. */
  lemma StepKnown(prev: Index, init: seq<Match>, m: Match)
    requires Describes(prev, init)
    requires HasKey(prev, Key(m))
    ensures Describes(AddMatch(prev, m), init + [m])
  {
    var k := Key(m);
    var p := IndexOf(prev, k);
    PutSpec(prev, k, Span(prev[p].1.start, m.end));
    KnownKeys(prev, init, m);
    KeysStillOccur(prev, init, m);
    KeysCovered(prev, AddMatch(prev, m), init, m);
    KnownSpans(prev, init, m);
    KnownOrder(prev, init, m);
  }

  /** Updating a known word leaves every key where it was. */
  lemma KnownKeys(prev: Index, init: seq<Match>, m: Match)
    requires Describes(prev, init)
    requires HasKey(prev, Key(m))
    ensures |AddMatch(prev, m)| == |prev|
    ensures forall i :: 0 <= i < |prev| ==> AddMatch(prev, m)[i].0 == prev[i].0
  {
    var idx := AddMatch(prev, m);
    forall i | 0 <= i < |prev|
      ensures idx[i].0 == prev[i].0
    {
      assert Keys(idx)[i] == Keys(prev)[i];
    }
  }

  lemma KnownSpans(prev: Index, init: seq<Match>, m: Match)
    requires Describes(prev, init)
    requires HasKey(prev, Key(m))
    ensures KeysOccur(AddMatch(prev, m), init + [m])
    ensures SpansFromMatches(AddMatch(prev, m), init + [m])
  {
    var k := Key(m);
    var p := IndexOf(prev, k);
    var idx := AddMatch(prev, m);
    assert idx[p] == (k, Span(prev[p].1.start, m.end));
    KnownKeys(prev, init, m);
    KeysStillOccur(prev, init, m);
    FirstSnoc(init, m, k);
    NewKeySnoc(init, m);
    OthersUnchanged(prev, init, m);
  }

  lemma KnownOrder(prev: Index, init: seq<Match>, m: Match)
    requires Describes(prev, init)
    requires HasKey(prev, Key(m))
    ensures KeysOccur(AddMatch(prev, m), init + [m])
    ensures FirstOccurrenceOrder(AddMatch(prev, m), init + [m])
  {
    var ms := init + [m];
    KnownKeys(prev, init, m);
    KeysStillOccur(prev, init, m);
    forall i | 0 <= i < |prev|
      ensures First(ms, prev[i].0) == First(init, prev[i].0)
    {
      FirstSnoc(init, m, prev[i].0);
    }
    SameFirsts(prev, AddMatch(prev, m), init, ms);
  }

  /** An index with the same keys in the same places, whose first matches did not move, keeps its order. */
  lemma SameFirsts(prev: Index, idx: Index, init: seq<Match>, ms: seq<Match>)
    requires KeysOccur(prev, init) && FirstOccurrenceOrder(prev, init)
    requires |idx| == |prev| && forall i :: 0 <= i < |prev| ==> idx[i].0 == prev[i].0
    requires forall i :: 0 <= i < |prev| ==> Occurs(ms, prev[i].0) && First(ms, prev[i].0) == First(init, prev[i].0)
    ensures KeysOccur(idx, ms)
    ensures FirstOccurrenceOrder(idx, ms)
  {
  }

  /** A match of a new word appends it, after every word seen before. */
  lemma StepNew(prev: Index, init: seq<Match>, m: Match)
    requires Describes(prev, init)
    requires !HasKey(prev, Key(m))
    ensures Describes(AddMatch(prev, m), init + [m])
  {
    var k := Key(m);
    var idx := AddMatch(prev, m);
    assert idx == prev + [(k, Span(m.start, m.end))];
    PutSpec(prev, k, Span(m.start, m.end));
    KeysStillOccur(prev, init, m);
    NewKeySnoc(init, m);
    assert idx[|prev|].0 == k;
    KeysCovered(prev, idx, init, m);
    NewSpans(prev, init, m);
    NewOrder(prev, init, m);
  }

  /** A word the index lacks has no match yet. */
  lemma NotYetMatched(prev: Index, init: seq<Match>, m: Match)
    requires MatchesIndexed(prev, init)
    requires !HasKey(prev, Key(m))
    ensures !Occurs(init, Key(m))
  {
  }

  lemma NewSpans(prev: Index, init: seq<Match>, m: Match)
    requires Describes(prev, init)
    requires !HasKey(prev, Key(m))
    ensures KeysOccur(AddMatch(prev, m), init + [m])
    ensures SpansFromMatches(AddMatch(prev, m), init + [m])
  {
    var k := Key(m);
    var ms := init + [m];
    var idx := AddMatch(prev, m);
    assert idx == prev + [(k, Span(m.start, m.end))];
    NotYetMatched(prev, init, m);
    NewKeySnoc(init, m);
    assert KeysOccur(idx, ms) by {
      KeysStillOccur(prev, init, m);
    }
    assert First(ms, k) == |init| && Last(ms, k) == |init| && ms[|init|] == m;
    forall i | 0 <= i < |prev|
      ensures idx[i].1 == Span(ms[First(ms, idx[i].0)].start, ms[Last(ms, idx[i].0)].end)
    {
      OldSpan(prev, init, m, i);
    }
  }

  /** An older key's span is still described by its first and last match after a new word's match. */
  lemma OldSpan(prev: Index, init: seq<Match>, m: Match, i: nat)
    requires KeysOccur(prev, init) && SpansFromMatches(prev, init)
    requires i < |prev| && prev[i].0 != Key(m)
    ensures Occurs(init + [m], prev[i].0)
    ensures prev[i].1 == Span((init + [m])[First(init + [m], prev[i].0)].start, (init + [m])[Last(init + [m], prev[i].0)].end)
  {
    var ms := init + [m];
    FirstSnoc(init, m, prev[i].0);
    LastSnoc(init, m, prev[i].0);
    assert ms[First(init, prev[i].0)] == init[First(init, prev[i].0)];
    assert ms[Last(init, prev[i].0)] == init[Last(init, prev[i].0)];
  }

  lemma NewOrder(prev: Index, init: seq<Match>, m: Match)
    requires KeysOccur(prev, init) && MatchesIndexed(prev, init) && FirstOccurrenceOrder(prev, init)
    requires !HasKey(prev, Key(m))
    ensures KeysOccur(AddMatch(prev, m), init + [m])
    ensures FirstOccurrenceOrder(AddMatch(prev, m), init + [m])
  {
    var k := Key(m);
    var idx := AddMatch(prev, m);
    assert idx == prev + [(k, Span(m.start, m.end))];
    NotYetMatched(prev, init, m);
    KeysStillOccur(prev, init, m);
    NewKeySnoc(init, m);
    OthersUnchanged(prev, init, m);
    forall i | 0 <= i < |prev|
      ensures prev[i].0 != k
    {
    }
    AppendedLast(prev, init, m, idx);
  }

  /** Appending the first match of a new word keeps the first-occurrence order. */
  lemma AppendedLast(prev: Index, init: seq<Match>, m: Match, idx: Index)
    requires KeysOccur(prev, init) && FirstOccurrenceOrder(prev, init)
    requires idx == prev + [(Key(m), Span(m.start, m.end))]
    requires Occurs(init + [m], Key(m)) && First(init + [m], Key(m)) == |init|
    requires forall i :: 0 <= i < |prev| ==>
      Occurs(init + [m], prev[i].0) && First(init + [m], prev[i].0) == First(init, prev[i].0)
    ensures KeysOccur(idx, init + [m])
    ensures FirstOccurrenceOrder(idx, init + [m])
  {
    var ms := init + [m];
    forall i, j | 0 <= i < j < |idx|
      ensures First(ms, idx[i].0) < First(ms, idx[j].0)
    {
      assert idx[i] == prev[i];
      if j < |prev| {
        assert idx[j] == prev[j];
      }
    }
  }

  /** In a left-to-right scan, an earlier match ends no later than a later one starts. */
  lemma {:induction false} MatchesOrdered(ms: seq<Match>, body: string, a: nat, b: nat)
    requires Sequential(ms, body)
    requires a < b < |ms|
    ensures ms[a].end <= ms[b].start
    decreases b - a
  {
    if a + 1 < b {
      MatchesOrdered(ms, body, a + 1, b);
    }
  }

  /** Along the index order, span starts never decrease, and every span lies within the body. */
  lemma BuildStartsOrdered(ms: seq<Match>, body: string)
    requires Sequential(ms, body)
    ensures forall i :: 0 <= i < |Build(ms)| ==>
      Build(ms)[i].1.start <= Build(ms)[i].1.end <= |body|
    ensures forall i, j :: 0 <= i < j < |Build(ms)| ==> Build(ms)[i].1.start <= Build(ms)[j].1.start
  {
    BuildDescribes(ms);
    DescribedStartsOrdered(Build(ms), ms, body);
  }

  /** When no match is empty, span starts strictly increase along the index order. */
  lemma BuildStartsIncrease(ms: seq<Match>, body: string)
    requires Sequential(ms, body) && NoEmptyMatch(ms)
    ensures forall i, j :: 0 <= i < j < |Build(ms)| ==> Build(ms)[i].1.start < Build(ms)[j].1.start
  {
    BuildDescribes(ms);
    DescribedStartsIncrease(Build(ms), ms, body);
  }

  predicate NoEmptyMatch(ms: seq<Match>) {
    forall n :: 0 <= n < |ms| ==> ms[n].start < ms[n].end
  }

  /** `BuildStartsOrdered` for any index that describes a scan's spans and order. */
  lemma DescribedStartsOrdered(idx: Index, ms: seq<Match>, body: string)
    requires Sequential(ms, body) && KeysOccur(idx, ms)
    requires SpansFromMatches(idx, ms) && FirstOccurrenceOrder(idx, ms)
    ensures forall i :: 0 <= i < |idx| ==> idx[i].1.start <= idx[i].1.end <= |body|
    ensures forall i, j :: 0 <= i < j < |idx| ==> idx[i].1.start <= idx[j].1.start
  {
    SpansWithin(idx, ms, body);
    assert StartsAtFirst(idx, ms);
    StartsIncrease(idx, ms, body);
  }

  /** `BuildStartsIncrease` for any index that describes a scan's spans and order. */
  lemma DescribedStartsIncrease(idx: Index, ms: seq<Match>, body: string)
    requires Sequential(ms, body) && NoEmptyMatch(ms) && KeysOccur(idx, ms)
    requires SpansFromMatches(idx, ms) && FirstOccurrenceOrder(idx, ms)
    ensures forall i, j :: 0 <= i < j < |idx| ==> idx[i].1.start < idx[j].1.start
  {
    assert StartsAtFirst(idx, ms);
    StartsIncrease(idx, ms, body);
  }

  /** Every span runs forwards and lies within the body. */
  lemma SpansWithin(idx: Index, ms: seq<Match>, body: string)
    requires Sequential(ms, body) && KeysOccur(idx, ms) && SpansFromMatches(idx, ms)
    ensures forall i :: 0 <= i < |idx| ==> idx[i].1.start <= idx[i].1.end <= |body|
  {
    forall i | 0 <= i < |idx|
      ensures idx[i].1.start <= idx[i].1.end <= |body|
    {
      var f := First(ms, idx[i].0);
      var l := Last(ms, idx[i].0);
      if f < l {
        MatchesOrdered(ms, body, f, l);
      }
    }
  }

  /** Span starts follow the order of first matches. */
  lemma StartsIncrease(idx: Index, ms: seq<Match>, body: string)
    requires Sequential(ms, body) && KeysOccur(idx, ms)
    requires StartsAtFirst(idx, ms) && FirstOccurrenceOrder(idx, ms)
    ensures forall i, j :: 0 <= i < j < |idx| ==> idx[i].1.start <= idx[j].1.start
    ensures NoEmptyMatch(ms) ==> forall i, j :: 0 <= i < j < |idx| ==> idx[i].1.start < idx[j].1.start
  {
    forall i, j | 0 <= i < j < |idx|
      ensures idx[i].1.start <= idx[j].1.start
      ensures ms[First(ms, idx[i].0)].start < ms[First(ms, idx[i].0)].end ==> idx[i].1.start < idx[j].1.start
    {
      MatchesOrdered(ms, body, First(ms, idx[i].0), First(ms, idx[j].0));
    }
  }

  /**
   A word matched twice gets one key, spanning from the start of its first
   match to the end of its second.
   */
  lemma RepeatedWord(m1: Match, m2: Match)
    requires Key(m1) == Key(m2)
    ensures Build([m1, m2]) == [(Key(m1), Span(m1.start, m2.end))]
  {
    var ms := [m1, m2];
    var one := [(Key(m1), Span(m1.start, m1.end))];
    assert ms[..1] == [m1] && [m1][..0] == [];
    assert Build([m1]) == one;
    assert one[0].0 == Key(m1);
    assert IndexOf(one, Key(m1)) == 0;
    assert Build(ms) == AddMatch(one, m2);
  }
}
