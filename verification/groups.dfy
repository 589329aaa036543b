/**
 Dictionary groups: stepping through the group names with the arrow keys,
 and choosing which dictionaries a group selects, for word suggestions
 (`_choose_dictionaries_groups_for_search`) and for the search itself
 (`_text_widget_insert`).

 The `dict groups` setting is a Python literal read with `ast.literal_eval`;
 here it is given already read, as a map from group name to the labels
 `title(pair)` of its dictionaries, or `None` when the setting is empty.
 */
module Groups {
  import opened Wrappers
  import opened Text
  import opened OrderedMap
  import opened Indexing
  import opened Records

  // ---------------------------------------------------------------------
  // Cyclic navigation
  // ---------------------------------------------------------------------

  /** `options.index(x)`: the first position of `x`. */
  function Position(options: seq<string>, x: string): (p: nat)
    requires x in options
    ensures p < |options| && options[p] == x
    ensures forall j :: 0 <= j < p ==> options[j] != x
  {
    if options[0] == x then 0 else 1 + Position(options[1..], x)
  }

  /** Python's `options[i]` for `-len(options) <= i < len(options)`. */
  function PyIndex(options: seq<string>, i: int): string
    requires -|options| <= i < |options|
  {
    if i < 0 then options[|options| + i] else options[i]
  }

  /**
   The group after the current one, wrapping from the last to the first.
   With fewer than two groups nothing moves; a current name that is not
   among the groups makes `options.index` raise `ValueError` (`None`).
   */
  function Down(options: seq<string>, current: string): Option<string> {
    if |options| <= 1 then Some(current)
    else if current !in options then None
    else
      var pos := Position(options, current) + 1;
      Some(if pos < |options| then options[pos] else options[0])
  }

  /**
   The group before the current one, wrapping from the first to the last.
   The code steps through negative indexes: one below the current position,
   counted from the end, or `options[-1]` once that falls off the front.
   */
  function Up(options: seq<string>, current: string): Option<string> {
    if |options| <= 1 then Some(current)
    else if current !in options then None
    else
      var neg := Position(options, current) - |options| - 1;
      Some(if neg >= -|options| then PyIndex(options, neg) else PyIndex(options, -1))
  }

  /**
   Navigation in modular terms: down goes to position `p + 1`, up to
   position `p - 1`, both modulo the number of groups; a current name
   outside the groups is an error only when there are two or more.
   */
  lemma NavigationSpec(options: seq<string>, current: string)
    ensures |options| <= 1 ==> Down(options, current) == Some(current) && Up(options, current) == Some(current)
    ensures Down(options, current).None? <==> |options| > 1 && current !in options
    ensures Up(options, current).None? <==> |options| > 1 && current !in options
    ensures |options| > 1 && current in options ==>
      var p := Position(options, current);
      && Down(options, current) == Some(options[(p + 1) % |options|])
      && Up(options, current) == Some(options[(p - 1 + |options|) % |options|])
  {
    if |options| > 1 && current in options {
      var n := |options|;
      var p := Position(options, current);
      StepMod(p, n);
    }
  }

  /** One step forward or back around a cycle of `n` positions. */
  lemma StepMod(p: int, n: int)
    requires 0 <= p < n
    ensures (p + 1) % n == if p + 1 < n then p + 1 else 0
    ensures (p - 1 + n) % n == if p > 0 then p - 1 else n - 1
  {
    ModIn(p + 1, n);
    ModIn(p - 1 + n, n);
  }

  lemma ModIn(a: int, n: int)
    requires 0 <= a < 2 * n
    ensures a % n == if a < n then a else a - n
  {
    if a >= n {
      assert a == n + (a - n);
    }
  }

  predicate NoDuplicates(s: seq<string>) {
    forall i, j :: 0 <= i < j < |s| ==> s[i] != s[j]
  }

  /**
   With distinct group names, up undoes down and down undoes up. The
   definitions of `Down` and `Up` already give this; the calls below spell
   out the two steps.
   */
  lemma NavigationRoundTrip(options: seq<string>, current: string)
    requires NoDuplicates(options) && current in options
    ensures Down(options, current).Some? && Up(options, Down(options, current).value) == Some(current)
    ensures Up(options, current).Some? && Down(options, Up(options, current).value) == Some(current)
  {
    NavigationSpec(options, current);
    if |options| > 1 {
      UpAfterDown(options, current);
      DownAfterUp(options, current);
    }
  }

  /** Among distinct names, a name's first position is its only one. */
  lemma PositionOfDistinct(options: seq<string>, i: nat)
    requires NoDuplicates(options) && i < |options|
    ensures Position(options, options[i]) == i
  {
    var q := Position(options, options[i]);
    assert options[q] == options[i];
  }

  lemma UpAfterDown(options: seq<string>, current: string)
    requires NoDuplicates(options) && current in options && |options| > 1
    ensures Down(options, current).Some? && Up(options, Down(options, current).value) == Some(current)
  {
    var n := |options|;
    var p := Position(options, current);
    var d := (p + 1) % n;
    NavigationSpec(options, current);
    assert Down(options, current) == Some(options[d]);
    StepMod(p, n);
    PositionOfDistinct(options, d);
    NavigationSpec(options, options[d]);
    StepMod(d, n);
    assert (d - 1 + n) % n == p;
  }

  lemma DownAfterUp(options: seq<string>, current: string)
    requires NoDuplicates(options) && current in options && |options| > 1
    ensures Up(options, current).Some? && Down(options, Up(options, current).value) == Some(current)
  {
    var n := |options|;
    var p := Position(options, current);
    var u := (p - 1 + n) % n;
    NavigationSpec(options, current);
    assert Up(options, current) == Some(options[u]);
    StepMod(p, n);
    PositionOfDistinct(options, u);
    NavigationSpec(options, options[u]);
    StepMod(u, n);
    assert (u + 1) % n == p;
  }

  // ---------------------------------------------------------------------
  // Which dictionaries a group selects
  // ---------------------------------------------------------------------

  /**
   `index_search`: the index of every loaded dictionary whose index exists
   and is not empty, in load order.
   */
  function IndexSearch(c: Collection): (s: OMap<string, Index>)
    ensures forall t, idx :: (t, idx) in s <==> exists i :: 0 <= i < |c| && c[i].0 == t && c[i].1.index == Some(idx) && |idx| > 0
  {
    if |c| == 0 then []
    else
      var rest := IndexSearch(c[1..]);
      assert forall i :: 0 <= i < |c| - 1 ==> c[1..][i] == c[i + 1];
      match c[0].1.index
      case Some(idx) => if |idx| > 0 then [(c[0].0, idx)] + rest else rest
      case None => rest
  }

  /** The dictionaries of `c` whose label is listed in `group`, in load order. */
  function InGroup(c: Collection, group: seq<string>): (s: Collection)
    ensures forall t, r :: (t, r) in s <==> (t, r) in c && Label(t, r.pair) in group
  {
    if |c| == 0 then []
    else
      var rest := InGroup(c[1..], group);
      assert forall e :: e in c <==> e == c[0] || e in c[1..];
      if Label(c[0].0, c[0].1.pair) in group then [c[0]] + rest else rest
  }

  /** What choosing a group leaves behind: the shown group, the suggestion indexes, the saved default group. */
  datatype Choice = Choice(current: string, selected: OMap<string, Index>, defaultGroup: string)

  /**
   How a choice ends: the fields as it leaves them, and the key of the
   `IndexError` or `KeyError` it raises part-way, if it raises one.
   */
  datatype Chosen = Chosen(state: Choice, raised: Option<string>)

  /** The group name shown once an unknown current name is replaced by the first option. */
  function Shown(options: seq<string>, current: string): (name: string)
    requires |options| > 0
    ensures name in options
    ensures current in options ==> name == current
  {
    if current in options then current else options[0]
  }

  /**
   `_choose_dictionaries_groups_for_search` as written. A current name that
   is not among the options is replaced by the first option ("all
   dictionaries"), which raises `IndexError` when there are none. The
   selection changes only when the `dict groups` setting is not empty: it is
   first emptied, then holds all indexes for the first option, otherwise the
   indexes of the titles read back from the group's labels with
   `label.split("(")[0]`, in label order. A group name missing from the
   setting, or a title read back that has no index, raises `KeyError` and
   leaves the selection as far as it got and the default group unchanged.
   */
  function ChooseAsWritten(options: seq<string>, current: string, groups: Option<map<string, seq<string>>>,
                           indexSearch: OMap<string, Index>, prior: Choice): Chosen
  {
    if |options| == 0 then Chosen(prior, Some("0"))
    else
      var name := Shown(options, current);
      match groups
      case None => Chosen(prior.(current := name), None)
      case Some(gs) =>
        if name == options[0] then Chosen(Choice(name, indexSearch, name), None)
        else if name !in gs then Chosen(Choice(name, [], prior.defaultGroup), Some(name))
        else
          var p := SelectByTitle(gs[name], indexSearch, [], 0);
          Chosen(Choice(name, p.selected, if p.missing.None? then name else prior.defaultGroup), p.missing)
  }

  /** The selection the loop over a group's labels has built, and the title it stopped at, if any. */
  datatype Partial = Partial(selected: OMap<string, Index>, missing: Option<string>)

  /** The loop over a group's labels: `selected[label.split("(")[0]] = index_search[...]`. */
  function SelectByTitle(labels: seq<string>, indexSearch: OMap<string, Index>, sel: OMap<string, Index>, from: nat)
    : Partial
    requires from <= |labels|
    decreases |labels| - from
  {
    if from == |labels| then Partial(sel, None)
    else
      var t := LabelTitle(labels[from]);
      match Get(indexSearch, t)
      case None => Partial(sel, Some(t))
      case Some(idx) => SelectByTitle(labels, indexSearch, Put(sel, t, idx), from + 1)
  }

  /** The first label from `from` on whose title read back has no index, or `|labels|`. */
  function FirstUnindexed(labels: seq<string>, indexSearch: OMap<string, Index>, from: nat): (k: nat)
    requires from <= |labels|
    ensures from <= k <= |labels|
    ensures forall j :: from <= j < k ==> HasKey(indexSearch, LabelTitle(labels[j]))
    ensures k < |labels| ==> !HasKey(indexSearch, LabelTitle(labels[k]))
    decreases |labels| - from
  {
    if from == |labels| || !HasKey(indexSearch, LabelTitle(labels[from])) then from
    else FirstUnindexed(labels, indexSearch, from + 1)
  }

  /** Some label in `labels[from..to]` reads back as the title `t`. */
  predicate ListsTitle(labels: seq<string>, from: nat, to: nat, t: string)
    requires from <= to <= |labels|
  {
    exists j :: from <= j < to && LabelTitle(labels[j]) == t
  }

  /**
   The loop stops at the first label whose title has no index and raises
   `KeyError` with that title; until then it has stored, under every title
   read back, that title's index, and left every other title as it was.
   */
  lemma {:induction false} SelectSpec(labels: seq<string>, indexSearch: OMap<string, Index>, sel: OMap<string, Index>, from: nat)
    requires from <= |labels| && Distinct(sel)
    ensures Distinct(SelectByTitle(labels, indexSearch, sel, from).selected)
    ensures SelectByTitle(labels, indexSearch, sel, from).missing ==
      var k := FirstUnindexed(labels, indexSearch, from);
      if k < |labels| then Some(LabelTitle(labels[k])) else None
    ensures forall t :: Get(SelectByTitle(labels, indexSearch, sel, from).selected, t) ==
                        (if ListsTitle(labels, from, FirstUnindexed(labels, indexSearch, from), t)
                         then Get(indexSearch, t) else Get(sel, t))
    decreases |labels| - from
  {
    if from < |labels| {
      var t := LabelTitle(labels[from]);
      if HasKey(indexSearch, t) {
        var sel' := Put(sel, t, Get(indexSearch, t).value);
        PutSpec(sel, t, Get(indexSearch, t).value);
        SelectSpec(labels, indexSearch, sel', from + 1);
        var k := FirstUnindexed(labels, indexSearch, from);
        assert k == FirstUnindexed(labels, indexSearch, from + 1);
        forall u
          ensures ListsTitle(labels, from, k, u) <==> u == t || ListsTitle(labels, from + 1, k, u)
        {
          if ListsTitle(labels, from, k, u) && u != t {
            var j :| from <= j < k && LabelTitle(labels[j]) == u;
            assert j != from;
          }
          if u == t {
            assert LabelTitle(labels[from]) == u;
          }
        }
      }
    }
  }

  /**
   The same choice with the group's dictionaries picked by their full label,
   as the search itself picks them: never fails on a title holding `(`.
   */
  function Choose(options: seq<string>, current: string, groups: Option<map<string, seq<string>>>,
                  c: Collection, prior: Choice): Chosen
  {
    if |options| == 0 then Chosen(prior, Some("0"))
    else
      var name := Shown(options, current);
      match groups
      case None => Chosen(prior.(current := name), None)
      case Some(gs) =>
        if name == options[0] then Chosen(Choice(name, IndexSearch(c), name), None)
        else if name !in gs then Chosen(Choice(name, [], prior.defaultGroup), Some(name))
        else Chosen(Choice(name, IndexSearch(InGroup(c, gs[name])), name), None)
  }

  /**
   Choosing a group shows a valid group name and, once groups are
   configured, selects for suggestions exactly the non-empty indexes of the
   loaded dictionaries whose label the group lists (all of them for the
   first option) and remembers the group as the default. It raises only
   when there are no options, leaving everything as it was, or when a
   named group is missing from the setting, leaving the selection empty.
   */
  lemma ChooseSpec(options: seq<string>, current: string, groups: Option<map<string, seq<string>>>,
                   c: Collection, prior: Choice)
    ensures Choose(options, current, groups, c, prior).raised.Some? <==>
      |options| == 0
      || (groups.Some? && Shown(options, current) != options[0] && Shown(options, current) !in groups.value)
    ensures |options| == 0 ==> Choose(options, current, groups, c, prior) == Chosen(prior, Some("0"))
    ensures |options| > 0 && Choose(options, current, groups, c, prior).raised.Some? ==>
      Choose(options, current, groups, c, prior) ==
        Chosen(Choice(Shown(options, current), [], prior.defaultGroup), Some(Shown(options, current)))
    ensures Choose(options, current, groups, c, prior).raised.None? ==>
      var ch := Choose(options, current, groups, c, prior).state;
      && ch.current in options
      && (current in options ==> ch.current == current)
      && (groups.None? ==> ch.selected == prior.selected && ch.defaultGroup == prior.defaultGroup)
      && (groups.Some? ==> ch.defaultGroup == ch.current)
      && (groups.Some? && ch.current == options[0] ==> ch.selected == IndexSearch(c))
      && (groups.Some? && ch.current != options[0] ==>
            forall t, idx :: (t, idx) in ch.selected <==>
              exists i :: 0 <= i < |c| && c[i].0 == t && c[i].1.index == Some(idx) && |idx| > 0
                && Label(t, c[i].1.pair) in groups.value[ch.current])
  {
    if |options| > 0 && groups.Some? {
      var name := Shown(options, current);
      if name != options[0] && name in groups.value {
        InGroupIndexes(c, groups.value[name]);
      }
    }
  }

  /** The indexes of a group's dictionaries are the loaded non-empty indexes whose label it lists. */
  lemma InGroupIndexes(c: Collection, group: seq<string>)
    ensures forall t, idx :: (t, idx) in IndexSearch(InGroup(c, group)) <==>
      exists i :: 0 <= i < |c| && c[i].0 == t && c[i].1.index == Some(idx) && |idx| > 0
        && Label(t, c[i].1.pair) in group
  {
    var g := InGroup(c, group);
    forall t, idx
      ensures (t, idx) in IndexSearch(g) <==>
        exists i :: 0 <= i < |c| && c[i].0 == t && c[i].1.index == Some(idx) && |idx| > 0
          && Label(t, c[i].1.pair) in group
    {
      if (t, idx) in IndexSearch(g) {
        var j :| 0 <= j < |g| && g[j].0 == t && g[j].1.index == Some(idx) && |idx| > 0;
        assert g[j] in g;
      }
      if exists i :: 0 <= i < |c| && c[i].0 == t && c[i].1.index == Some(idx) && |idx| > 0
          && Label(t, c[i].1.pair) in group {
        var i :| 0 <= i < |c| && c[i].0 == t && c[i].1.index == Some(idx) && |idx| > 0
          && Label(t, c[i].1.pair) in group;
        assert c[i] in c;
        assert (t, c[i].1) in g;
      }
    }
  }

  /**
   The choice as written: what it raises, and the state it leaves behind
   whether it raises or not. A named group is read label by label; the
   selection ends up holding the index of every title read back before the
   first one without an index, and the default group is saved only when
   no label fails.
   */
  lemma ChooseAsWrittenSpec(options: seq<string>, current: string, gs: map<string, seq<string>>,
                            indexSearch: OMap<string, Index>, prior: Choice)
    requires |options| > 0 && Shown(options, current) != options[0] && Shown(options, current) in gs
    ensures var name := Shown(options, current);
      var labels := gs[name];
      var k := FirstUnindexed(labels, indexSearch, 0);
      var r := ChooseAsWritten(options, current, Some(gs), indexSearch, prior);
      && r.raised == (if k < |labels| then Some(LabelTitle(labels[k])) else None)
      && r.state.current == name
      && r.state.defaultGroup == (if k < |labels| then prior.defaultGroup else name)
      && Distinct(r.state.selected)
      && forall t :: Get(r.state.selected, t) ==
                     (if ListsTitle(labels, 0, k, t) then Get(indexSearch, t) else None)
  {
    SelectSpec(gs[Shown(options, current)], indexSearch, [], 0);
  }

  /** Every title is free of `(`, so it is read back from its label unchanged. */
  predicate PlainTitles(c: Collection) {
    forall i :: 0 <= i < |c| ==> '(' !in c[i].0
  }

  /** Every label of `group` is the label of a loaded dictionary with a non-empty index. */
  predicate Resolvable(c: Collection, group: seq<string>) {
    forall l :: l in group ==>
      exists i :: 0 <= i < |c| && Label(c[i].0, c[i].1.pair) == l && c[i].1.index.Some? && |c[i].1.index.value| > 0
  }

  /**
   Where nothing in the group trips it, the choice as written agrees with
   the choice by label: when titles hold no `(` and every label the shown
   group lists belongs to a loaded dictionary with a non-empty index, both
   raise the same error or none, show the same group, save the same
   default, and select the same title and index pairs. Only their order
   can differ: label order as written, load order by label.
   */
  lemma ChooseAgrees(options: seq<string>, current: string, gs: map<string, seq<string>>, c: Collection, prior: Choice)
    requires Distinct(c) && PlainTitles(c)
    requires |options| > 0 && Shown(options, current) in gs ==> Resolvable(c, gs[Shown(options, current)])
    ensures ChooseAsWritten(options, current, Some(gs), IndexSearch(c), prior).raised ==
      Choose(options, current, Some(gs), c, prior).raised
    ensures ChooseAsWritten(options, current, Some(gs), IndexSearch(c), prior).state.current ==
      Choose(options, current, Some(gs), c, prior).state.current
    ensures ChooseAsWritten(options, current, Some(gs), IndexSearch(c), prior).state.defaultGroup ==
      Choose(options, current, Some(gs), c, prior).state.defaultGroup
    ensures forall t, idx ::
      (t, idx) in ChooseAsWritten(options, current, Some(gs), IndexSearch(c), prior).state.selected <==>
      (t, idx) in Choose(options, current, Some(gs), c, prior).state.selected
  {
    if |options| > 0 && Shown(options, current) != options[0] && Shown(options, current) in gs {
      var name := Shown(options, current);
      var labels := gs[name];
      var search := IndexSearch(c);
      IndexSearchDistinct(c);
      ResolvableTitles(c, labels);
      assert FirstUnindexed(labels, search, 0) == |labels|;
      ChooseAsWrittenSpec(options, current, gs, search, prior);
      var a := ChooseAsWritten(options, current, Some(gs), search, prior).state.selected;
      LabelledPairs(c, labels);
      forall t, idx
        ensures (t, idx) in a <==> ListsTitle(labels, 0, |labels|, t) && (t, idx) in search
      {
        GetIn(a, t, idx);
        GetIn(search, t, idx);
      }
    }
  }

  /**
   With plain titles and a resolvable group, a title read back from one of
   the group's labels, paired with its index, is exactly a pair the choice
   by label selects.
   */
  lemma LabelledPairs(c: Collection, labels: seq<string>)
    requires Distinct(c) && PlainTitles(c) && Resolvable(c, labels)
    ensures forall t, idx :: ListsTitle(labels, 0, |labels|, t) && (t, idx) in IndexSearch(c) <==>
      (t, idx) in IndexSearch(InGroup(c, labels))
  {
    InGroupIndexes(c, labels);
    forall t, idx
      ensures ListsTitle(labels, 0, |labels|, t) && (t, idx) in IndexSearch(c) <==>
        (t, idx) in IndexSearch(InGroup(c, labels))
    {
      if ListsTitle(labels, 0, |labels|, t) && (t, idx) in IndexSearch(c) {
        var j :| 0 <= j < |labels| && LabelTitle(labels[j]) == t;
        assert labels[j] in labels;
        var i :| 0 <= i < |c| && Label(c[i].0, c[i].1.pair) == labels[j] && c[i].1.index.Some? && |c[i].1.index.value| > 0;
        LabelTitleRoundTrip(c[i].0, c[i].1.pair);
        var i' :| 0 <= i' < |c| && c[i'].0 == t && c[i'].1.index == Some(idx) && |idx| > 0;
        assert i' == i;
      }
      if (t, idx) in IndexSearch(InGroup(c, labels)) {
        var i :| 0 <= i < |c| && c[i].0 == t && c[i].1.index == Some(idx) && |idx| > 0
          && Label(t, c[i].1.pair) in labels;
        var j :| 0 <= j < |labels| && labels[j] == Label(t, c[i].1.pair);
        LabelTitleRoundTrip(t, c[i].1.pair);
        assert ListsTitle(labels, 0, |labels|, t);
      }
    }
  }

  /** Under the conditions of `ChooseAgrees`, every label's title has an index. */
  lemma ResolvableTitles(c: Collection, labels: seq<string>)
    requires PlainTitles(c) && Resolvable(c, labels)
    ensures forall j :: 0 <= j < |labels| ==> HasKey(IndexSearch(c), LabelTitle(labels[j]))
  {
    forall j | 0 <= j < |labels|
      ensures HasKey(IndexSearch(c), LabelTitle(labels[j]))
    {
      assert labels[j] in labels;
      var i :| 0 <= i < |c| && Label(c[i].0, c[i].1.pair) == labels[j] && c[i].1.index.Some? && |c[i].1.index.value| > 0;
      LabelTitleRoundTrip(c[i].0, c[i].1.pair);
      assert (c[i].0, c[i].1.index.value) in IndexSearch(c);
      var s := IndexSearch(c);
      var p :| 0 <= p < |s| && s[p] == (c[i].0, c[i].1.index.value);
      assert s[p].0 == c[i].0;
    }
  }

  /** `index_search` has distinct titles when the loaded dictionaries do. */
  lemma {:induction false} IndexSearchDistinct(c: Collection)
    requires Distinct(c)
    ensures Distinct(IndexSearch(c))
  {
    if |c| > 0 {
      IndexSearchDistinct(c[1..]);
      var rest := IndexSearch(c[1..]);
      forall p | 0 <= p < |rest|
        ensures rest[p].0 != c[0].0
      {
        assert rest[p] in rest;
        var i :| 0 <= i < |c[1..]| && c[1..][i].0 == rest[p].0 && c[1..][i].1.index == Some(rest[p].1) && |rest[p].1| > 0;
        assert c[1..][i] == c[i + 1];
      }
    }
  }

  /**
   A dictionary whose title holds `(` breaks the choice as written: its label
   reads back as a title that has no index, and choosing its group raises
   `KeyError` with an empty selection, while picking by label selects it.
   */
  lemma TitleWithParenthesis(idx: Index)
    requires |idx| > 0
    ensures var c := [("English (UK)", DictRecord("Eng-Eng", "", "", "", Some(idx)))];
      var groups := Some(map["Mine" := [Label("English (UK)", "Eng-Eng")]]);
      var prior := Choice("", [], "");
      && ChooseAsWritten(["All", "Mine"], "Mine", groups, IndexSearch(c), prior) == Chosen(Choice("Mine", [], ""), Some("English "))
      && Choose(["All", "Mine"], "Mine", groups, c, prior) == Chosen(Choice("Mine", [("English (UK)", idx)], "Mine"), None)
  {
    var c := [("English (UK)", DictRecord("Eng-Eng", "", "", "", Some(idx)))];
    var labels := [Label("English (UK)", "Eng-Eng")];
    var options := ["All", "Mine"];
    assert options[0] == "All" && options[1] == "Mine" && "Mine" != "All";
    var gs := map["Mine" := labels];
    assert gs["Mine"] == labels;
    NamedGroupChoice(options, "Mine", gs, c, Choice("", [], ""));
    ParenthesisTitleMissing(idx);
    assert InGroup(c, labels) == c;
    assert IndexSearch(c) == [("English (UK)", idx)];
  }

  /** The title read back from the label `English (UK)(Eng-Eng)` is not the loaded title. */
  lemma ParenthesisTitleMissing(idx: Index)
    requires |idx| > 0
    ensures var c := [("English (UK)", DictRecord("Eng-Eng", "", "", "", Some(idx)))];
      var labels := [Label("English (UK)", "Eng-Eng")];
      SelectByTitle(labels, IndexSearch(c), [], 0) == Partial([], Some("English "))
  {
    var c := [("English (UK)", DictRecord("Eng-Eng", "", "", "", Some(idx)))];
    var labels := [Label("English (UK)", "Eng-Eng")];
    LabelTitleBreaks();
    assert IndexSearch(c) == [("English (UK)", idx)];
    assert |"English "| != |"English (UK)"|;
    TitleNotIndexed(labels, IndexSearch(c));
  }

  /** A group whose first label reads back as a title without an index fails with that title. */
  lemma TitleNotIndexed(labels: seq<string>, indexSearch: OMap<string, Index>)
    requires |labels| > 0 && !HasKey(indexSearch, LabelTitle(labels[0]))
    ensures SelectByTitle(labels, indexSearch, [], 0) == Partial([], Some(LabelTitle(labels[0])))
  {
  }

  /** Choosing a named group that the setting defines. */
  lemma NamedGroupChoice(options: seq<string>, name: string, gs: map<string, seq<string>>, c: Collection, prior: Choice)
    requires name in options && name != options[0] && name in gs
    ensures ChooseAsWritten(options, name, Some(gs), IndexSearch(c), prior) ==
      var p := SelectByTitle(gs[name], IndexSearch(c), [], 0);
      Chosen(Choice(name, p.selected, if p.missing.None? then name else prior.defaultGroup), p.missing)
    ensures Choose(options, name, Some(gs), c, prior) == Chosen(Choice(name, IndexSearch(InGroup(c, gs[name])), name), None)
  {
  }

  /**
   The search's own selection (`sel_dict_set`): every loaded dictionary when
   no groups are configured or the "all dictionaries" group is shown,
   otherwise those whose label the group lists; a group name missing from
   the setting raises `KeyError`.
   */
  function SearchSelection(c: Collection, groups: Option<map<string, seq<string>>>, name: string, allName: string)
    : (r: Result<Collection, string>)
    ensures r.Failure? <==> groups.Some? && name != allName && name !in groups.value
    ensures r.Success? && groups.Some? && name != allName ==>
      forall t, rec :: (t, rec) in r.value <==> (t, rec) in c && Label(t, rec.pair) in groups.value[name]
    ensures r.Success? && (groups.None? || name == allName) ==> r.value == c
  {
    match groups
    case None => Success(c)
    case Some(gs) =>
      if name == allName then Success(c)
      else if name !in gs then Failure(name)
      else Success(InGroup(c, gs[name]))
  }
}
