# Movar dictionary engine in Dafny

Movar is a desktop dictionary viewer. A dictionary is a UTF-8 `.txt` file.
Its four header lines (`#Title:`, `#Pair:`, `#Description:`,
`#Regex filter:`) are followed by the body. The filter's matches in the
body are the headwords.

This project models the engine behind the viewer:

- **Loading.** `TextSearch.load_dictionaries` reads every folder listed in
  the `location` setting. It parses each `.txt` file into a record keyed
  by its title, and then indexes each record. The index maps every
  lower-cased headword to a span: from the start of its first match to
  the end of its last match, in first-occurrence order.
- **Load signalling.** The worker thread reports completion with `Done!`
  messages on a queue, and the waiting window loops until one arrives.
- **Searching.** The article of a word runs from its span start to the
  span start of the next index word, or to the end of the body. The
  search also handles group selection, the "no word" message and the
  search history.
- **Browsing helpers:**
  - `index_search`, the indexes used for suggestions;
  - the `active dicts` text;
  - cyclic navigation through dictionary groups;
  - type-suggestions while typing;
  - the settings table with its type-checked `set`.

Python dicts are insertion-ordered. They are modelled as association
lists (`OrderedMap`), where `Put` updates a key in place or appends it.

Modules:

| module | what it holds |
|---|---|
| `Wrappers` | `Option` and `Result` |
| `Text` | `str` helpers: `strip`, `rstrip`, `split`, `splitlines`, `lower`, `startswith`, slicing |
| `OrderedMap` | the ordered dictionary |
| `Header` | parsing a dictionary file's header into a record |
| `Indexing` | the index pass |
| `Records` | loaded records and their `title(pair)` labels |
| `Loader` | the whole load, including how it ends |
| `Lookup` | articles and the search loop |
| `Groups` | group navigation and selection |
| `Suggest` | the suggestion list |
| `History` | the search history |
| `Settings` | the settings table |

The model takes these as inputs:

- the folder listings and file contents (`Loader.FileSystem`);
- the regex engine (`Loader.Finder`);
- the `re.sub(r'\W', '', …)` cleaning (`Suggest.Answers`'s `clean`);
- the `dict groups` setting, already read by `ast.literal_eval`.

## Model

| member | source | states |
|---|---|---|
| Header.ParseLineSpec | Movar/movar_models.py:67-70 | A header line gives a key/value pair exactly when its stripped text holds exactly one `:`. The key and value are the text on either side of it. Otherwise `dict()` is handed a sequence of the wrong length, and its length is reported. |
| Header.ParseFileAccepts | Movar/movar_models.py:66-84 | A file's header is accepted if and only if each of the first four lines holds one `:` and all four field names `#Title`, `#Pair`, `#Description` and `#Regex filter` occur among their keys. |
| Header.ParseFileFields | Movar/movar_models.py:67-84 | Each field of an accepted record holds the value of the last header line that names that field. The body is all the text after the fourth line, so header lines plus body give back the file. |
| Header.DictOfLast | Movar/movar_models.py:67-70 | `dict(pairs)` has a key exactly when some pair carries it, and its value is that of the last such pair. |
| Header.RenderParse | Movar/movar_models.py:56-84 | Round trip: a header written in the file format with plain values is parsed back to the same header, and the body comes back unchanged. |
| Header.SplitHeader | Movar/movar_models.py:67-72 | The four `readline()` calls and the following `read()` cut the file into four lines and a rest that concatenate back to the file. Each line holds a newline at most as its last character. A line that does not end in a newline reached the end of the file, so every later line and the rest are empty. |
| OrderedMap.PutSpec | Movar/movar_models.py:74-75 | Storing under a key keeps the keys distinct. The key then holds the new value and every other key keeps its value. An existing key keeps its position; a new key is appended at the end. |
| OrderedMap.PutAllLast | Movar/movar_models.py:74-75 | After a sequence of stores, a key holds the value of the last store that carried it. A key that no store carried is unchanged. |
| Indexing.BuildDescribes | Movar/movar_models.py:94-105 | The index built from the matches has distinct keys, and they are exactly the lower-cased match texts. Each span runs from the start of the word's first match to the end of its last match. Keys appear in order of first occurrence. |
| Indexing.BuildStartsOrdered | Movar/movar_models.py:94-105 | For matches found in one left-to-right scan of a body, the span starts never decrease in index order, and every span lies inside the body. |
| Indexing.BuildStartsIncrease | Movar/movar_models.py:94-105 | For such a scan in which no match is empty, the span starts strictly increase in index order. |
| Indexing.RepeatedWord | Movar/movar_models.py:96-103 | Two matches that lower-case to the same word give a single key, whose span runs from the first match's start to the second match's end. |
| Lookup.CaseInsensitive | Movar/movar_application.py:731-733 | Queries that differ only in letter case find the same article. |
| Lookup.ArticleSpec | Movar/movar_application.py:731-748 | For an index built from a scan, a query is found if and only if some match lower-cases to it. The article then starts at the word's first match and begins with its text. It ends at the end of the body or where another word first occurs, and no other word first occurs inside it. |
| Lookup.ArticlesTile | Movar/movar_application.py:733-748 | Read in index order, the articles give back all body text from the first word on, without gap or overlap. |
| Lookup.SearchAsWrittenSpec | Movar/movar_application.py:729-756 | The search as written succeeds if and only if every selected record has an index, and otherwise fails naming an unindexed record. On success it produces, in dictionary order, the article of every selected dictionary that indexes the lower-cased word. It writes "no word" exactly when a dictionary is selected and none has the word. |
| Lookup.SearchSpec | Movar/movar_application.py:729-756 | The search that treats an unindexed record as a miss never fails. It shows the same articles and follows the same "no word" rule. |
| Lookup.SearchAgrees | Movar/movar_application.py:729-756 | When every selected record is indexed, the two searches give identical results. |
| Records.ActiveDictsLines | Movar/movar_application.py:266-273 | The `active dicts` text is empty exactly when nothing is loaded. Otherwise it holds the `title(pair)` labels one per line, in load order, ending with a newline. |
| Records.LabelTitleRoundTrip | Movar/movar_application.py:294-296 | A title without `(` is read back unchanged from its label by `split("(")[0]`. |
| Records.LabelTitleBreaks | Movar/movar_application.py:294-296 | A title containing `(` is not read back: "English (UK)" comes back as "English ". |
| Loader.LoadCompleted | Movar/movar_models.py:56-105 | A completed load read every listed `.txt` file successfully. Its records are keyed by title with distinct keys. Later files overwrite earlier ones with the same title. Apart from the index, the result is the dictionary of the files' records in listing order, and every record carries the index its own regex filter yields. |
| Loader.LastTitleWins | Movar/movar_models.py:74-84 | Of several files with the same title, a completed load keeps the record of the last one read. |
| Loader.StopsAtUnreadable | Movar/movar_models.py:60-88 | Within a folder, the loop stops at the first unreadable `.txt` file. As written, an empty one crashes the load with `EmptyFile` naming it. Otherwise, and always when every failure is reported, the load ends with a mistake naming that file and holding what the files before it gave. Nothing listed after it affects the result. |
| Loader.EmptyFileHangs | Movar/movar_models.py:39-43 | As written, a folder holding one empty `.txt` file makes the load crash with no `Done!` on the queue, which leaves the progress window waiting. |
| Loader.LoadSignals | Movar/movar_models.py:39-47 | When every failure is reported, every load puts at least one `Done!` on the queue. |
| Loader.LoadAgrees | Movar/movar_models.py:39-105 | The reporting load differs from the load as written only where the latter crashes, and there it reports a mistake naming the same file, folder or title. Whenever the load as written does not crash, the two are equal. |
| Loader.RenderedFileLoads | Movar/movar_models.py:56-105 | Round trip: a folder holding one well-formed dictionary file loads into exactly one record under its title, holding its header values and body and indexed with its regex filter. |
| Loader.MistakeLeavesUnindexed | Movar/movar_models.py:85-88 | A good file followed by an undecodable one ends the load with a mistake. The good record is kept without an index, so the search as written fails on it while the corrected search reports "no word". |
| Groups.NavigationSpec | Movar/movar_application.py:401-424 | Down moves to position p+1 and up to position p-1, both modulo the number of groups. With fewer than two groups nothing moves. A current name outside the groups is an error if and only if there are two or more groups. |
| Groups.NavigationRoundTrip | Movar/movar_application.py:401-424 | With distinct group names, up undoes down and down undoes up. |
| Groups.IndexSearch | Movar/movar_application.py:260-264 | A title is paired with an index in `index_search` if and only if a loaded record with that title has that index and it is not empty. |
| Groups.ChooseSpec | Movar/movar_application.py:284-298 | Choosing a group raises only when there are no options, leaving everything as it was, or when a named group is missing from the setting. In that case the shown group has been reset, the selection is left empty and the default group is unchanged. Otherwise it keeps a valid current group. Once groups are configured, the dictionaries it selects for suggestions are exactly the non-empty indexes of the loaded dictionaries whose label the group lists (all of them for the first option), and the group is remembered as the default. |
| Groups.SelectSpec | Movar/movar_application.py:295-297 | The loop over a group's labels raises `KeyError` at the first label whose title, read back with `split("(")[0]`, has no index. Up to there it has stored each title read back with that title's index, and it has left every other title as it was. |
| Groups.ChooseAsWrittenSpec | Movar/movar_application.py:284-298 | As written, a named group raises the `KeyError` of its first label without an index, or nothing. Either way the shown group is the chosen name and the selection holds exactly the indexes of the titles read back before that label. The default group is saved only when no label fails. |
| Groups.ChooseAgrees | Movar/movar_application.py:284-298 | Suppose titles hold no `(` and every label of the shown group belongs to a loaded dictionary with a non-empty index. Then the choice as written and the choice by label raise the same error or none, show the same group, save the same default and select the same title and index pairs. Only the order of the pairs can differ. |
| Groups.TitleWithParenthesis | Movar/movar_application.py:292-297 | As written, choosing a group that lists "English (UK)(Eng-Eng)" fails with `KeyError` 'English '. The selection is left empty and the default group unchanged. Choosing by label selects that dictionary. |
| Groups.SearchSelection | Movar/movar_application.py:713-728 | The search fails if and only if groups are configured, a named group is shown, and the setting lacks it. Otherwise it selects the dictionaries whose label the group lists, or all of them. |
| Suggest.KeyPress | Movar/movar_application.py:624-644 | An empty entry hides the list, and Return leaves it as it is. Any other key refills it with distinct words. A word is listed if and only if a selected index holds it and, as written or cleaned, it starts with the typed text ignoring case. |
| Suggest.Suggestions | Movar/movar_application.py:634-644 | The nested loop collects each answering indexed word exactly once. |
| History.AppendSpec | Movar/movar_application.py:758-764 | A search changes the history only when it has fewer than 300 entries and lacks the word. After a recorded word, the next read of the history gives the old entries followed by the word's lines, with the newlines at its end stripped. An empty history contributes nothing, not even its single blank entry. |
| History.AppendLine | Movar/movar_application.py:758-764 | A recorded one-line word becomes the new last entry, and the single blank entry of an empty history is dropped. An empty word leaves the entries as they were. |
| History.PasteRepeats | Movar/movar_application.py:758-764 | A pasted two-line query "b\na" after the history "a" is recorded, and the history then reads as "a", "b", "a", with a repeated entry. |
| History.PasteOverflows | Movar/movar_application.py:758-764 | A pasted two-line query recorded into a history of 299 entries leaves it with 301 entries. |
| History.AppendKeeps | Movar/movar_application.py:758-764 | Across searches for one-line words, the history keeps at most 300 entries and never holds a word twice. A recorded word ends up among its entries. |
| Settings.SetSpec | Movar/movar_models.py:162-170 | `set` succeeds if and only if the name is in the table and the value's type name is the declared one. Otherwise it raises `ValueError` with a fixed message; the model's error also carries the key, which the code does not report. On success the name holds the value under its declared type, and every other name and the order of names are unchanged. |
| Settings.SetTwice | Movar/movar_models.py:162-170 | Setting never changes which names exist or their declared types, and setting the same value again changes nothing. |
| Settings.DefaultsSpec | Movar/movar_models.py:110-127 | The starting table has sixteen distinct names. A font size given as a string is refused and one given as an `int` is accepted. An unknown name is refused. |
| Text.LinesAroundBreak | Movar/movar_models.py:58-59 | The non-empty lines of a text around a line break are those before it followed by those after it. This is how the folder list is read from the `location` setting. |

## Left out

- File system: `os.listdir` order, `open` and `mmap` are not modelled. Each folder listing is given as a sequence in listing order, and each file as its decoded text or as undecodable.
- Per-line UTF-8 decoding is taken as whole-file decoding, since a newline byte never occurs inside a multi-byte UTF-8 sequence.
- Threads, the lock and the queue are not modelled. How a load ends is represented by the number of `Done!` messages it queues (`Loader.Signals`). The effect of the second `Done!` after a mistake on later loads is not modelled.
- The regex engine is a parameter (`Loader.Finder`). Its matches are assumed to come from a left-to-right scan (`Indexing.Sequential`) where the index ordering lemmas need it.
- `re.sub(r'\W', '', …)` is a parameter (`clean`).
- `ast.literal_eval` of the `dict groups` setting is not modelled. The setting is given already read, or `None` when it is empty.
- The Tk user interface, message boxes, text-to-speech, styles and fonts are out of scope. So is JSON loading and saving of the settings file, which is I/O.
- Floating-point setting values are kept as their literal text. Only their type name matters to `set`.
- `str.lower` is modelled for the ASCII capitals, the Latin-1 capitals U+00C0–U+00DE except U+00D7, the Cyrillic capitals U+0400–U+042F and Ґ (U+0490). Other cased letters, the rest of Cyrillic included, keep their case in the model.
- Suggest.Suggestions: states which words are listed, not their order. The list is later sorted for display (movar_application.py:649), and that sort is left out.
- A directory whose name ends in `.txt` is not modelled. Listing entries are files.
- Lookup.SearchAsWrittenSpec: a failing search is modelled as producing no output. Articles of dictionaries before the failing one are already on screen when the `KeyError` is raised, and the model does not show them.
- Lookup.SearchAsWrittenSpec: the articles are produced in dictionary order. Each is inserted at the top of the results widget (movar_application.py:780), so the screen shows them in reverse order; the display is not modelled.
- History.AppendKeeps: holds only for a word without a newline. A query pasted from the clipboard can hold newlines (movar_application.py:356-358), and it is not stripped before it is recorded. Such a query adds one entry per line, so it can repeat an entry and push the history past 300 entries (History.PasteRepeats, History.PasteOverflows).
- Groups.ChooseAgrees: the selection as written is filled in the group's label order, while the choice by label keeps load order. The two are compared as sets of pairs. Outside its conditions the choice as written raises `KeyError` for a listed label whose dictionary is not loaded or has no non-empty index, while the choice by label skips that label.
- Groups.ChooseAsWritten: `ast.literal_eval` failing on a malformed `dict groups` setting, and the `menu.total_dict` assignment, are not modelled.
- Loading aborts the whole run at the first unreadable file, as the code does with its `return`. It does not skip that file and go on.

## Findings

| source | as written | input that shows it | evidently intended | confidence | as-written member | corrected member |
|---|---|---|---|---|---|---|
| Movar/movar_models.py:39-43, 60-65, 94-95 | An empty file (`mmap` raises `ValueError`), a missing folder (`os.listdir`) or a regex filter that does not compile (`re.finditer`) raises outside the `try`. The worker thread dies before `Done!` is queued, and `_show_progress_bar` (movar_application.py:245-248) loops forever. | a `location` of one folder holding one empty `a.txt` | every failure is reported like a bad file, so at least one `Done!` is queued | not executed | Loader.EmptyFileHangs | Loader.LoadSignals |
| Movar/movar_application.py:294-296 | A group's dictionaries are looked up by `label.split("(")[0]`, which is wrong for a title that contains `(`, and raises `KeyError`. | a dictionary titled "English (UK)", pair "Eng-Eng", in a named group | select the dictionaries whose full `title(pair)` label the group lists, as the search itself does | not executed | Groups.TitleWithParenthesis | Groups.ChooseSpec |
| Movar/movar_models.py:85-88 with Movar/movar_application.py:732 | After a mistake the load returns before the index pass, so records already read from that folder have no `Indexes`. Every later search that reaches them raises `KeyError`. | a folder with a good `a.txt` then an undecodable `b.txt`; then search any word | an unindexed dictionary counts as not having the word | not executed | Loader.MistakeLeavesUnindexed | Lookup.SearchSpec |
