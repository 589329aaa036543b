/**
 Python's `str` operations that the dictionary engine relies on, stated on
 `seq<char>`: whitespace stripping, `split`/`join` on one separator
 character, per-character lower-casing, prefix/suffix tests and slicing.
 */
module Text {
  import opened Wrappers

  /** `c.isspace()` in Python 3. */
  predicate IsSpace(c: char) {
    || c == ' '
    || ('\t' <= c <= '\r')
    || ('\U{1C}' <= c <= '\U{1F}')
    || c == '\U{85}' || c == '\U{A0}' || c == '\U{1680}'
    || ('\U{2000}' <= c <= '\U{200A}')
    || c == '\U{2028}' || c == '\U{2029}' || c == '\U{202F}'
    || c == '\U{205F}' || c == '\U{3000}'
  }

  predicate IsNewline(c: char) {
    c == '\n'
  }

  /** The characters `str.splitlines()` ends a line at; a `\r\n` pair is one break. */
  predicate IsLineBreak(c: char) {
    || ('\n' <= c <= '\r')
    || ('\U{1C}' <= c <= '\U{1E}')
    || c == '\U{85}' || c == '\U{2028}' || c == '\U{2029}'
  }

  predicate InLine(c: char) {
    !IsLineBreak(c)
  }

  /**
   `[l for l in s.splitlines() if l]`. Once empty lines are dropped, a `\r\n`
   pair and two separate breaks give the same lines, so every break
   character simply ends a line.
   */
  function NonEmptyLines(s: string): (ls: seq<string>)
    ensures forall i :: 0 <= i < |ls| ==> |ls[i]| > 0
    ensures forall i, k :: 0 <= i < |ls| && 0 <= k < |ls[i]| ==> InLine(ls[i][k])
    decreases |s|
  {
    if |s| == 0 then []
    else if IsLineBreak(s[0]) then NonEmptyLines(s[1..])
    else
      var n := LeadCount(s, InLine);
      [s[..n]] + NonEmptyLines(s[n..])
  }

  /** A line without breaks is its own only line. */
  lemma OneLine(s: string)
    requires |s| > 0 && forall k :: 0 <= k < |s| ==> InLine(s[k])
    ensures NonEmptyLines(s) == [s]
  {
    LeadCountIs(s, InLine, |s|);
    assert s[..|s|] == s && s[|s|..] == [];
  }

  /** A break splits the lines of a text into those before it and those after it. */
  lemma {:induction false} LinesAroundBreak(a: string, c: char, b: string)
    requires IsLineBreak(c)
    ensures NonEmptyLines(a + [c] + b) == NonEmptyLines(a) + NonEmptyLines(b)
    decreases |a|
  {
    if |a| == 0 {
      assert a + [c] + b == [c] + b;
      assert ([c] + b)[1..] == b;
    } else if IsLineBreak(a[0]) {
      LinesAroundBreak(a[1..], c, b);
      BreakFirst(a, c, b);
    } else {
      var m := LeadCount(a, InLine);
      assert InLine(a[0]);
      var x, y := a[..m], a[m..];
      assert a == x + y;
      LinesAroundBreak(y, c, b);
      LineFirst(x, y, c, b);
    }
  }

  /** The step of `LinesAroundBreak` for a text that starts with a break. */
  lemma BreakFirst(a: string, c: char, b: string)
    requires |a| > 0 && IsLineBreak(a[0])
    requires NonEmptyLines(a[1..] + [c] + b) == NonEmptyLines(a[1..]) + NonEmptyLines(b)
    ensures NonEmptyLines(a + [c] + b) == NonEmptyLines(a) + NonEmptyLines(b)
  {
    var s := a + [c] + b;
    assert s[0] == a[0];
    assert s[1..] == a[1..] + [c] + b;
  }

  /** The step of `LinesAroundBreak` for a text that starts with a line `x`. */
  lemma LineFirst(x: string, y: string, c: char, b: string)
    requires |x| > 0 && forall k :: 0 <= k < |x| ==> InLine(x[k])
    requires (|y| > 0 ==> IsLineBreak(y[0])) && IsLineBreak(c)
    requires NonEmptyLines(y + [c] + b) == NonEmptyLines(y) + NonEmptyLines(b)
    ensures NonEmptyLines(x + y + [c] + b) == NonEmptyLines(x + y) + NonEmptyLines(b)
  {
    var t := y + [c] + b;
    assert x + y + [c] + b == x + t by {
      Assoc(x, y, [c]);
      Assoc(x, y + [c], b);
    }
    assert NonEmptyLines(x + y) == [x] + NonEmptyLines(y) by {
      LineThenRest(x, y);
    }
    assert NonEmptyLines(x + t) == [x] + NonEmptyLines(t) by {
      assert t[0] == if |y| > 0 then y[0] else c;
      LineThenRest(x, t);
    }
    Assoc([x], NonEmptyLines(y), NonEmptyLines(b));
  }

  lemma Assoc<T>(p: seq<T>, q: seq<T>, r: seq<T>)
    ensures p + q + r == p + (q + r)
  {
  }

  /** A run of line characters ended by a break, or by the end of the text, is the first line. */
  lemma LineThenRest(x: string, y: string)
    requires |x| > 0 && forall k :: 0 <= k < |x| ==> InLine(x[k])
    requires |y| > 0 ==> IsLineBreak(y[0])
    ensures NonEmptyLines(x + y) == [x] + NonEmptyLines(y)
  {
    var s := x + y;
    assert |x| < |s| ==> s[|x|] == y[0];
    LeadCountIs(s, InLine, |x|);
    assert s[..|x|] == x && s[|x|..] == y;
  }

  /** Number of leading characters of `s` that satisfy `drop`. */
  function LeadCount(s: string, drop: char -> bool): (n: nat)
    ensures n <= |s|
    ensures forall k :: 0 <= k < n ==> drop(s[k])
    ensures n < |s| ==> !drop(s[n])
  {
    if |s| == 0 || !drop(s[0]) then 0 else 1 + LeadCount(s[1..], drop)
  }

  /** `LeadCount` is the one count its postcondition describes. */
  lemma {:induction false} LeadCountIs(s: string, drop: char -> bool, n: nat)
    requires n <= |s| && (forall k :: 0 <= k < n ==> drop(s[k])) && (n < |s| ==> !drop(s[n]))
    ensures LeadCount(s, drop) == n
  {
    if n > 0 {
      LeadCountIs(s[1..], drop, n - 1);
    }
  }

  /** Number of trailing characters of `s` that satisfy `drop`. */
  function TrailCount(s: string, drop: char -> bool): (n: nat)
    ensures n <= |s|
    ensures forall k :: |s| - n <= k < |s| ==> drop(s[k])
    ensures n < |s| ==> !drop(s[|s| - n - 1])
  {
    if |s| == 0 || !drop(s[|s| - 1]) then 0 else 1 + TrailCount(s[..|s| - 1], drop)
  }

  /** `s.strip(chars)`: remove the longest prefix and suffix made of dropped characters. */
  function StripBy(s: string, drop: char -> bool): (r: string)
    ensures |r| <= |s|
    ensures |r| > 0 ==> !drop(r[0]) && !drop(r[|r| - 1])
    ensures forall k :: 0 <= k < |r| ==> r[k] in s
  {
    var i := LeadCount(s, drop);
    var rest := s[i..];
    var r := rest[..|rest| - TrailCount(rest, drop)];
    assert forall k :: 0 <= k < |r| ==> r[k] == s[i + k];
    r
  }

  /** `TrailCount` is the one count its postcondition describes. */
  lemma {:induction false} TrailCountIs(s: string, drop: char -> bool, n: nat)
    requires n <= |s| && (forall k :: |s| - n <= k < |s| ==> drop(s[k])) && (n < |s| ==> !drop(s[|s| - n - 1]))
    ensures TrailCount(s, drop) == n
  {
    if n > 0 {
      var init := s[..|s| - 1];
      assert forall k :: |init| - (n - 1) <= k < |init| ==> init[k] == s[k];
      assert n - 1 < |init| ==> init[|init| - (n - 1) - 1] == s[|s| - n - 1];
      TrailCountIs(init, drop, n - 1);
    }
  }

  /**
   Stripping keeps a text that neither starts nor ends with a dropped
   character, and removes one dropped character added before or after it.
   */
  lemma StripAround(s: string, drop: char -> bool, c: char)
    requires |s| > 0 && !drop(s[0]) && !drop(s[|s| - 1]) && drop(c)
    ensures StripBy(s, drop) == s
    ensures StripBy(s + [c], drop) == s
    ensures StripBy([c] + s, drop) == s
  {
    LeadCountIs(s, drop, 0);
    TrailCountIs(s, drop, 0);
    assert s[0..] == s && s[..|s| - 0] == s;
    var t := s + [c];
    LeadCountIs(t, drop, 0);
    TrailCountIs(t, drop, 1);
    assert t[0..][..|t| - 1] == s;
    var u := [c] + s;
    LeadCountIs(u, drop, 1);
    assert u[1..] == s;
  }

  /** `s.strip()` */
  function Strip(s: string): string {
    StripBy(s, IsSpace)
  }

  /** `s.rstrip()` */
  function RStrip(s: string): (r: string)
    ensures |r| <= |s| && r == s[..|r|]
    ensures |r| > 0 ==> !IsSpace(r[|r| - 1])
    ensures forall k :: |r| <= k < |s| ==> IsSpace(s[k])
  {
    s[..|s| - TrailCount(s, IsSpace)]
  }

  /** `s.strip('\n')` */
  function StripNewlines(s: string): string {
    StripBy(s, IsNewline)
  }

  /** `s.rstrip('\n')` */
  function RStripNewlines(s: string): (r: string)
    ensures |r| <= |s| && r == s[..|r|]
    ensures |r| > 0 ==> !IsNewline(r[|r| - 1])
    ensures forall k :: |r| <= k < |s| ==> IsNewline(s[k])
  {
    s[..|s| - TrailCount(s, IsNewline)]
  }

  /** A newline put before a text disappears when the newlines around it are stripped. */
  lemma StripLeadingNewline(w: string)
    ensures StripNewlines(['\n'] + w) == StripNewlines(w)
  {
    var u := ['\n'] + w;
    assert u[1..] == w;
    assert LeadCount(u, IsNewline) == 1 + LeadCount(w, IsNewline);
    assert u[1 + LeadCount(w, IsNewline)..] == w[LeadCount(w, IsNewline)..];
  }

  /**
   Stripping `h + "\n" + w`, where `h` neither starts nor ends with a newline,
   keeps `h` and the newline and strips only the end of `w`; when `w` is all
   newlines, only `h` is left.
   */
  lemma StripJoined(h: string, w: string)
    requires |h| > 0 && !IsNewline(h[0]) && !IsNewline(h[|h| - 1])
    ensures StripNewlines(h + "\n" + w) ==
      if RStripNewlines(w) == "" then h else h + "\n" + RStripNewlines(w)
  {
    var s := h + "\n" + w;
    LeadCountIs(s, IsNewline, 0);
    assert s[0..] == s;
    var t := TrailCount(w, IsNewline);
    if t == |w| {
      assert s[|h|] == '\n';
      assert forall k :: |h| < k < |s| ==> s[k] == w[k - |h| - 1];
      TrailCountIs(s, IsNewline, |w| + 1);
      assert s[..|s| - (|w| + 1)] == h;
    } else {
      assert forall k :: |s| - t <= k < |s| ==> s[k] == w[k - |h| - 1];
      assert s[|s| - t - 1] == w[|w| - t - 1];
      TrailCountIs(s, IsNewline, t);
      assert s[..|s| - t] == h + "\n" + w[..|w| - t];
    }
  }

  /** Number of occurrences of `c` in `s`. */
  function Count(s: string, c: char): nat {
    if |s| == 0 then 0 else (if s[0] == c then 1 else 0) + Count(s[1..], c)
  }

  /** `s.split(sep)` with an explicit one-character separator. */
  function Split(s: string, sep: char): (parts: seq<string>)
    ensures |parts| > 0
  {
    if |s| == 0 then [""]
    else if s[0] == sep then [""] + Split(s[1..], sep)
    else
      var rest := Split(s[1..], sep);
      [[s[0]] + rest[0]] + rest[1..]
  }

  /** `sep.join(parts)` */
  function Join(parts: seq<string>, sep: char): string {
    if |parts| == 0 then ""
    else if |parts| == 1 then parts[0]
    else parts[0] + [sep] + Join(parts[1..], sep)
  }

  /** `Split` never loses text: joining the parts back gives the input. */
  lemma {:induction false} JoinSplit(s: string, sep: char)
    ensures Join(Split(s, sep), sep) == s
  {
    if |s| == 0 {
    } else if s[0] == sep {
      var rest := Split(s[1..], sep);
      JoinSplit(s[1..], sep);
      assert Split(s, sep) == [""] + rest;
    } else {
      var rest := Split(s[1..], sep);
      JoinSplit(s[1..], sep);
      var parts := [[s[0]] + rest[0]] + rest[1..];
      if |rest| == 1 {
        assert Join(parts, sep) == [s[0]] + rest[0];
      } else {
        assert parts[1..] == rest[1..];
        assert Join(rest, sep) == rest[0] + [sep] + Join(rest[1..], sep);
      }
    }
  }

  /** The parts of a split never contain the separator. */
  lemma {:induction false} SplitPartsFree(s: string, sep: char)
    ensures forall i :: 0 <= i < |Split(s, sep)| ==> sep !in Split(s, sep)[i]
  {
    if |s| == 0 {
    } else if s[0] == sep {
      SplitPartsFree(s[1..], sep);
    } else {
      SplitPartsFree(s[1..], sep);
      var rest := Split(s[1..], sep);
      assert sep !in [s[0]] + rest[0];
    }
  }

  /** Splitting a joined list of separator-free parts gives the parts back. */
  lemma {:induction false} SplitJoin(parts: seq<string>, sep: char)
    requires |parts| > 0
    requires forall i :: 0 <= i < |parts| ==> sep !in parts[i]
    ensures Split(Join(parts, sep), sep) == parts
  {
    if |parts| == 1 {
      SplitFree(parts[0], sep);
    } else {
      SplitJoin(parts[1..], sep);
      SplitPrefix(parts[0], Join(parts[1..], sep), sep);
      assert [parts[0]] + parts[1..] == parts;
    }
  }

  /** A separator-free string splits into itself. */
  lemma {:induction false} SplitFree(s: string, sep: char)
    requires sep !in s
    ensures Split(s, sep) == [s]
  {
    if |s| > 0 {
      SplitFree(s[1..], sep);
      assert [s[0]] + s[1..] == s;
    }
  }

  /** Splitting `a + sep + b` with a separator-free `a` puts `a` first. */
  lemma {:induction false} SplitPrefix(a: string, b: string, sep: char)
    requires sep !in a
    ensures Split(a + [sep] + b, sep) == [a] + Split(b, sep)
  {
    if |a| == 0 {
      assert a + [sep] + b == [sep] + b;
      assert ([sep] + b)[1..] == b;
    } else {
      SplitPrefix(a[1..], b, sep);
      assert (a + [sep] + b)[1..] == a[1..] + [sep] + b;
      assert [a[0]] + a[1..] == a;
    }
  }

  /** Adding a separator and a separator-free tail adds one part. */
  lemma {:induction false} SplitSnoc(a: string, b: string, sep: char)
    requires sep !in b
    ensures Split(a + [sep] + b, sep) == Split(a, sep) + [b]
  {
    SplitFree(b, sep);
    if |a| == 0 {
      assert a + [sep] + b == [sep] + b;
      assert ([sep] + b)[1..] == b;
    } else {
      var t := a + [sep] + b;
      assert t[0] == a[0];
      assert t[1..] == a[1..] + [sep] + b;
      SplitSnoc(a[1..], b, sep);
    }
  }

  /** Splitting at a separator between two texts splits each of them. */
  lemma {:induction false} SplitAppend(a: string, b: string, sep: char)
    ensures Split(a + [sep] + b, sep) == Split(a, sep) + Split(b, sep)
  {
    var t := a + [sep] + b;
    if |a| == 0 {
      assert t == [sep] + b;
      assert t[1..] == b;
    } else {
      assert t[0] == a[0];
      assert t[1..] == a[1..] + [sep] + b;
      SplitAppend(a[1..], b, sep);
    }
  }

  /** The number of parts is one more than the number of separators. */
  lemma {:induction false} SplitCount(s: string, sep: char)
    ensures |Split(s, sep)| == Count(s, sep) + 1
  {
    if |s| > 0 {
      SplitCount(s[1..], sep);
    }
  }

  /** Python's `str.lower()` on one character: ASCII, Latin-1 and Cyrillic capitals. */
  function Lower(c: char): (l: char)
    ensures l == c || IsUpper(c)
    ensures !IsUpper(l)
  {
    if 'A' <= c <= 'Z' || ('\U{C0}' <= c <= '\U{DE}' && c != '\U{D7}') || ('\U{410}' <= c <= '\U{42F}') then
      (c as int + 32) as char
    else if '\U{400}' <= c <= '\U{40F}' then
      (c as int + 80) as char
    else if c == '\U{490}' then
      '\U{491}'
    else
      c
  }

  /** The capitals `Lower` maps to small letters. */
  predicate IsUpper(c: char) {
    || 'A' <= c <= 'Z'
    || ('\U{C0}' <= c <= '\U{DE}' && c != '\U{D7}')
    || ('\U{400}' <= c <= '\U{42F}')
    || c == '\U{490}'
  }

  /** `s.lower()` */
  function LowerStr(s: string): (r: string)
    ensures |r| == |s|
    ensures forall i :: 0 <= i < |s| ==> r[i] == Lower(s[i])
  {
    seq(|s|, i requires 0 <= i < |s| => Lower(s[i]))
  }

  /** Lower-casing twice is lower-casing once. */
  lemma LowerIdempotent(s: string)
    ensures LowerStr(LowerStr(s)) == LowerStr(s)
  {
    assert forall i :: 0 <= i < |s| ==> Lower(Lower(s[i])) == Lower(s[i]);
  }

  /** `s.startswith(p)` */
  predicate StartsWith(s: string, p: string) {
    |p| <= |s| && s[..|p|] == p
  }

  /** `s.endswith(p)` */
  predicate EndsWith(s: string, p: string) {
    |p| <= |s| && s[|s| - |p|..] == p
  }

  /** `s[i:j]` for non-negative `i`, and `s[i:]` when `j` is `None`. */
  function Slice(s: string, i: nat, j: Option<nat>): (r: string)
    ensures j.None? && i <= |s| ==> r == s[i..]
    ensures j.Some? && i <= j.value <= |s| ==> r == s[i..j.value]
    ensures j.Some? && j.value <= i ==> r == ""
    ensures i >= |s| ==> r == ""
  {
    var hi := match j
      case None => |s|
      case Some(v) => if v < |s| then v else |s|;
    if i >= hi then "" else s[i..hi]
  }
}
