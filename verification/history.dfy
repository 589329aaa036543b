/**
 The search history (`history` setting): words separated by newlines.
 After each search the looked-up word is appended, unless the history
 already holds it or already has 300 entries.
 */
module History {
  import opened Text

  /** The most entries the history grows to. */
  const Capacity: nat := 300

  /** `history.strip('\n').split('\n')`: the entries the code compares against. */
  function Entries(history: string): seq<string> {
    Split(StripNewlines(history), '\n')
  }

  /** Whether a search for `word` records it. */
  predicate Records(history: string, word: string) {
    |Entries(history)| < Capacity && word !in Entries(history)
  }

  /** The `history` setting after a search for `word`. */
  function Append(history: string, word: string): string {
    var h := StripNewlines(history);
    if Records(history, word) then h + "\n" + word else history
  }

  predicate NoDuplicates(s: seq<string>) {
    forall i, j :: 0 <= i < j < |s| ==> s[i] != s[j]
  }

  /**
   The entries a word adds after a non-empty history: its lines, once the
   newlines at its end are stripped. A word typed on one line adds itself;
   a pasted text adds every line of it.
   */
  function Added(word: string): seq<string> {
    if RStripNewlines(word) == "" then [] else Split(RStripNewlines(word), '\n')
  }

  /**
   What a search does to the entries: nothing unless the word is recorded.
   A recorded word is read back, on the next search, as the entries of the
   old history followed by the lines of the word; an empty history
   contributes nothing, not even its one blank entry.
   */
  lemma AppendSpec(history: string, word: string)
    ensures !Records(history, word) ==> Append(history, word) == history
    ensures Records(history, word) && StripNewlines(history) == "" ==>
      Entries(Append(history, word)) == Entries(word)
    ensures Records(history, word) && StripNewlines(history) != "" ==>
      Entries(Append(history, word)) == Entries(history) + Added(word)
  {
    var h := StripNewlines(history);
    if Records(history, word) {
      assert Append(history, word) == h + "\n" + word;
      if h == "" {
        assert h + "\n" + word == ['\n'] + word;
        StripLeadingNewline(word);
      } else {
        StripJoined(h, word);
        if RStripNewlines(word) != "" {
          assert h + "\n" + RStripNewlines(word) == h + ['\n'] + RStripNewlines(word);
          SplitAppend(h, RStripNewlines(word), '\n');
        }
      }
    }
  }

  /**
   A word typed on one line becomes the new last entry, and the one blank
   entry an empty history reads as is dropped. An empty word adds a trailing
   newline that the next read strips again.
   */
  lemma AppendLine(history: string, word: string)
    requires '\n' !in word
    ensures Records(history, word) && word != "" ==>
      Entries(Append(history, word)) ==
        (if StripNewlines(history) == "" then [] else Entries(history)) + [word]
    ensures word == "" ==> Entries(Append(history, word)) == Entries(history)
  {
    AppendSpec(history, word);
    if word != "" {
      StripAround(word, IsNewline, '\n');
      TrailCountIs(word, IsNewline, 0);
      assert RStripNewlines(word) == word;
      SplitFree(word, '\n');
    }
  }

  /** A pasted text repeats an entry: "b\na" after the history "a" reads as a, b, a. */
  lemma PasteRepeats()
    ensures Entries(Append("a", "b\na")) == ["a", "b", "a"]
    ensures !NoDuplicates(Entries(Append("a", "b\na")))
  {
    OneEntry("a");
    var w := "b\na";
    assert w == "b" + "\n" + "a";
    assert w != "a";
    AppendSpec("a", w);
    TwoLines("b", "a");
    var e := Entries(Append("a", w));
    assert e == ["a", "b", "a"];
    assert e[0] == e[2];
  }

  /** A two-line paste into a history one short of full leaves it one over. */
  lemma PasteOverflows(history: string)
    requires |Entries(history)| == Capacity - 1 && StripNewlines(history) != ""
    ensures |Entries(Append(history, "a\nb"))| == Capacity + 1
  {
    SplitPartsFree(StripNewlines(history), '\n');
    assert '\n' in "a\nb";
    assert Records(history, "a\nb");
    AppendSpec(history, "a\nb");
    TwoLines("a", "b");
  }

  lemma OneEntry(w: string)
    requires w != "" && '\n' !in w
    ensures StripNewlines(w) == w
    ensures Entries(w) == [w]
  {
    StripAround(w, IsNewline, '\n');
    SplitFree(w, '\n');
  }

  lemma TwoLines(a: string, b: string)
    requires '\n' !in a && '\n' !in b && b != ""
    ensures Added(a + "\n" + b) == [a, b]
  {
    var w := a + "\n" + b;
    assert w[|w| - 1] == b[|b| - 1];
    TrailCountIs(w, IsNewline, 0);
    assert RStripNewlines(w) == w;
    assert w == a + ['\n'] + b;
    SplitPrefix(a, b, '\n');
    SplitFree(b, '\n');
  }

  /**
   Over any run of searches the history keeps at most 300 entries and never
   holds the same word twice, and a recorded word ends up among the entries.
   */
  lemma AppendKeeps(history: string, word: string)
    requires '\n' !in word
    requires |Entries(history)| <= Capacity && NoDuplicates(Entries(history))
    ensures |Entries(Append(history, word))| <= Capacity
    ensures NoDuplicates(Entries(Append(history, word)))
    ensures Records(history, word) && word != "" ==> word in Entries(Append(history, word))
  {
    AppendSpec(history, word);
    AppendLine(history, word);
    if Records(history, word) && word != "" {
      var before := if StripNewlines(history) == "" then [] else Entries(history);
      var after := before + [word];
      assert after[|after| - 1] == word;
      forall i, j | 0 <= i < j < |after|
        ensures after[i] != after[j]
      {
        if j == |after| - 1 {
          assert after[i] == before[i] && before[i] in Entries(history);
        } else {
          assert after[i] == before[i] && after[j] == before[j];
        }
      }
    }
  }
}
