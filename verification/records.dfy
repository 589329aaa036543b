/**
 The loaded dictionaries (`TextSearch.total_dict`): one record per title,
 in load order, and the "title(pair)" labels under which the user sees them.
 */
module Records {
  import opened Wrappers
  import opened Text
  import opened OrderedMap
  import opened Indexing

  /**
   One loaded dictionary. `index` is `None` while the index pass for the
   dictionary's location has not run: the record has no `Indexes` entry.
   */
  datatype DictRecord = DictRecord(
    pair: string,
    description: string,
    regexFilter: string,
    body: string,
    index: Option<Index>)

  /** Title to record, in insertion order. */
  type Collection = OMap<string, DictRecord>

  /** How a dictionary is listed and stored in groups: `title(pair)`. */
  function Label(title: string, pair: string): string {
    title + "(" + pair + ")"
  }

  function Labels(c: Collection): (ls: seq<string>)
    ensures |ls| == |c|
    ensures forall i :: 0 <= i < |c| ==> ls[i] == Label(c[i].0, c[i].1.pair)
  {
    seq(|c|, i requires 0 <= i < |c| => Label(c[i].0, c[i].1.pair))
  }

  /** The `active dicts` setting: every label followed by a newline. */
  function ActiveDictsText(c: Collection): string {
    if |c| == 0 then "" else Label(c[0].0, c[0].1.pair) + "\n" + ActiveDictsText(c[1..])
  }

  /**
   The `active dicts` setting lists the labels one per line, in load order,
   and is empty exactly when nothing is loaded.
   */
  lemma {:induction false} ActiveDictsLines(c: Collection)
    requires forall i :: 0 <= i < |c| ==> '\n' !in c[i].0 && '\n' !in c[i].1.pair
    ensures ActiveDictsText(c) == "" <==> |c| == 0
    ensures Split(ActiveDictsText(c), '\n') == Labels(c) + [""]
  {
    if |c| > 0 {
      ActiveDictsLines(c[1..]);
      var l := Label(c[0].0, c[0].1.pair);
      assert '\n' !in l;
      SplitPrefix(l, ActiveDictsText(c[1..]), '\n');
      assert l + "\n" + ActiveDictsText(c[1..]) == l + ['\n'] + ActiveDictsText(c[1..]);
      assert Labels(c) == [l] + Labels(c[1..]);
    }
  }

  /** The title that the group code reads back from a label: the text before the first `(`. */
  function LabelTitle(shown: string): string {
    Split(shown, '(')[0]
  }

  /** A title without `(` is read back from its label unchanged. */
  lemma LabelTitleRoundTrip(title: string, pair: string)
    requires '(' !in title
    ensures LabelTitle(Label(title, pair)) == title
  {
    SplitPrefix(title, pair + ")", '(');
    assert Label(title, pair) == title + ['('] + (pair + ")");
  }

  /** A title containing `(` is not: "English (UK)" comes back as "English ". */
  lemma LabelTitleBreaks()
    ensures LabelTitle(Label("English (UK)", "Eng-Eng")) == "English "
  {
    var title := "English (UK)";
    assert title == "English " + ['('] + "UK)";
    assert Label(title, "Eng-Eng") == "English " + ['('] + ("UK)" + "(" + "Eng-Eng" + ")");
    assert '(' !in "English ";
    SplitPrefix("English ", "UK)" + "(" + "Eng-Eng" + ")", '(');
  }
}
