/**
 Word suggestions while typing (`_key_press`): every indexed word of the
 selected dictionaries that starts with the typed text, ignoring case,
 either as written or with its non-word characters removed.

 `re.sub(r'\W', '', item)` is the parameter `clean`; the regex engine is
 not modelled.
 */
module Suggest {
  import opened Wrappers
  import opened Text
  import opened OrderedMap
  import opened Indexing

  /** What a key press does to the suggestion list. */
  datatype Update =
    | Hide                      // the entry is empty: the list window is withdrawn
    | Keep                      // Return was pressed: the list is left as it is
    | Show(items: seq<string>)  // the list is refilled with these words

  /** `item` answers the typed `key`: as written or cleaned, it starts with `key`, ignoring case. */
  predicate Answers(item: string, key: string, clean: string -> string) {
    StartsWith(LowerStr(clean(item)), LowerStr(key)) || StartsWith(LowerStr(item), LowerStr(key))
  }

  /** `item` is a word of one of the first `d` selected indexes. */
  predicate IndexedIn(selected: OMap<string, Index>, d: nat, item: string)
    requires d <= |selected|
  {
    exists e :: 0 <= e < d && HasKey(selected[e].1, item)
  }

  predicate NoDuplicates(s: seq<string>) {
    forall i, j :: 0 <= i < j < |s| ==> s[i] != s[j]
  }

  /** The effect of a key press, given the entry's text and whether the key was Return. */
  method KeyPress(selected: OMap<string, Index>, key: string, isReturn: bool, clean: string -> string)
    returns (u: Update)
    ensures key == "" <==> u == Hide
    ensures key != "" && isReturn <==> u == Keep
    ensures u.Show? ==> NoDuplicates(u.items)
    ensures u.Show? ==> forall x :: x in u.items <==> IndexedIn(selected, |selected|, x) && Answers(x, key, clean)
  {
    if key == "" {
      return Hide;
    } else if isReturn {
      return Keep;
    }
    var data := Suggestions(selected, key, clean);
    return Show(data);
  }

  /**
   The loop over the selected indexes and their words: a word is added when
   it answers the key and is not in the list yet.
   */
  method Suggestions(selected: OMap<string, Index>, key: string, clean: string -> string) returns (data: seq<string>)
    ensures NoDuplicates(data)
    ensures forall x :: x in data <==> IndexedIn(selected, |selected|, x) && Answers(x, key, clean)
  {
    data := [];
    var d := 0;
    while d < |selected|
      invariant 0 <= d <= |selected|
      invariant NoDuplicates(data)
      invariant forall x :: x in data <==> IndexedIn(selected, d, x) && Answers(x, key, clean)
    {
      var idx := selected[d].1;
      var i := 0;
      while i < |idx|
        invariant 0 <= i <= |idx|
        invariant NoDuplicates(data)
        invariant forall x :: x in data <==>
          (IndexedIn(selected, d, x) || exists j :: 0 <= j < i && idx[j].0 == x) && Answers(x, key, clean)
      {
        var item := idx[i].0;
        if Answers(item, key, clean) && item !in data {
          data := data + [item];
        }
        i := i + 1;
      }
      forall x
        ensures IndexedIn(selected, d + 1, x) <==> IndexedIn(selected, d, x) || exists j :: 0 <= j < |idx| && idx[j].0 == x
      {
        if IndexedIn(selected, d + 1, x) {
          var e :| 0 <= e < d + 1 && HasKey(selected[e].1, x);
          if e == d {
            assert HasKey(idx, x);
          }
        }
        if exists j :: 0 <= j < |idx| && idx[j].0 == x {
          assert HasKey(selected[d].1, x);
        }
      }
      d := d + 1;
    }
  }
}
