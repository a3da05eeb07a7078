/**
 * The parts of Python's `str` behaviour that the device-tree tools rely on:
 * whitespace stripping, line splitting, whitespace splitting, joining and
 * (ASCII) case mapping.
 */
module Text {

  /** Python's `str.isspace()`: the characters `strip()` and `split()` treat as whitespace. */
  predicate IsSpace(c: char)
  {
    c == ' ' || ('\t' <= c <= '\r') || ('\U{1C}' <= c <= '\U{1F}') || c == '\U{85}' || c == '\U{A0}'
    || c == '\U{1680}' || ('\U{2000}' <= c <= '\U{200A}') || c == '\U{2028}' || c == '\U{2029}'
    || c == '\U{202F}' || c == '\U{205F}' || c == '\U{3000}'
  }

  /** The line boundaries of Python's `str.splitlines()` (`\r\n` counts as one). */
  predicate IsLineBoundary(c: char)
  {
    c == '\n' || c == '\r' || c == '\U{0B}' || c == '\U{0C}' || ('\U{1C}' <= c <= '\U{1E}')
    || c == '\U{85}' || c == '\U{2028}' || c == '\U{2029}'
  }

  /** The line ends of a text file read with universal newlines (`\n`, `\r`, `\r\n`). */
  predicate IsFileNewline(c: char)
  {
    c == '\n' || c == '\r'
  }

  lemma BoundaryIsSpace(c: char)
    ensures IsFileNewline(c) ==> IsLineBoundary(c)
    ensures IsLineBoundary(c) ==> IsSpace(c)
  {
  }

  predicate NoSpace(s: string)
  {
    forall i :: 0 <= i < |s| ==> !IsSpace(s[i])
  }

  predicate NoBreak(s: string, brk: char -> bool)
  {
    forall i :: 0 <= i < |s| ==> !brk(s[i])
  }

  predicate StartsWith(s: string, p: string)
  {
    |p| <= |s| && s[..|p|] == p
  }

  predicate EndsWith(s: string, p: string)
  {
    |p| <= |s| && s[|s| - |p|..] == p
  }

  /** `s.lstrip(chars)`: drops the leading characters that are in `cs`. */
  function LStripSet(s: string, cs: set<char>): (r: string)
    ensures |r| <= |s|
    ensures r == [] || r[0] !in cs
  {
    if s != [] && s[0] in cs then LStripSet(s[1..], cs) else s
  }

  /** `s.rstrip(chars)`: drops the trailing characters that are in `cs`. */
  function RStripSet(s: string, cs: set<char>): (r: string)
    ensures |r| <= |s|
    ensures r == [] || r[|r| - 1] !in cs
  {
    if s != [] && s[|s| - 1] in cs then RStripSet(s[..|s| - 1], cs) else s
  }

  /** `s.strip(chars)`. */
  function StripSet(s: string, cs: set<char>): (r: string)
    ensures |r| <= |s|
  {
    RStripSet(LStripSet(s, cs), cs)
  }

  /** `s.lstrip()`. */
  function LStrip(s: string): (r: string)
    ensures |r| <= |s|
    ensures r == [] || !IsSpace(r[0])
  {
    if s != [] && IsSpace(s[0]) then LStrip(s[1..]) else s
  }

  /** `s.rstrip()`. */
  function RStrip(s: string): (r: string)
    ensures |r| <= |s|
    ensures r == [] || !IsSpace(r[|r| - 1])
  {
    if s != [] && IsSpace(s[|s| - 1]) then RStrip(s[..|s| - 1]) else s
  }

  /** `s.strip()`. */
  function Strip(s: string): (r: string)
    ensures |r| <= |s|
    ensures r == [] || (!IsSpace(r[0]) && !IsSpace(r[|r| - 1]))
  {
    RStripPrefix(LStrip(s));
    RStrip(LStrip(s))
  }

  /** `s.rstrip()` only drops characters from the end. */
  lemma {:induction false} RStripPrefix(s: string)
    ensures RStrip(s) == s[..|RStrip(s)|]
    decreases |s|
  {
    if s != [] && IsSpace(s[|s| - 1]) {
      var t := s[..|s| - 1];
      RStripPrefix(t);
      assert t[..|RStrip(t)|] == s[..|RStrip(t)|];
    }
  }

  /** A string that begins and ends with non-whitespace is its own `strip()`. */
  lemma StripTrimmed(s: string)
    requires s == [] || (!IsSpace(s[0]) && !IsSpace(s[|s| - 1]))
    ensures LStrip(s) == s && RStrip(s) == s && Strip(s) == s
  {
  }

  /** Trailing whitespace after a string that ends in non-whitespace is all `rstrip()` removes. */
  lemma {:induction false} RStripAppendSpace(s: string, t: string)
    requires s == [] || !IsSpace(s[|s| - 1])
    requires forall i :: 0 <= i < |t| ==> IsSpace(t[i])
    ensures RStrip(s + t) == s
    decreases |t|
  {
    if t == [] {
      assert s + t == s;
    } else {
      assert (s + t)[..|s + t| - 1] == s + t[..|t| - 1];
      RStripAppendSpace(s, t[..|t| - 1]);
    }
  }

  /** Leading whitespace before a string that begins with non-whitespace is all `lstrip()` removes. */
  lemma {:induction false} LStripPrependSpace(t: string, s: string)
    requires s == [] || !IsSpace(s[0])
    requires forall i :: 0 <= i < |t| ==> IsSpace(t[i])
    ensures LStrip(t + s) == s
    decreases |t|
  {
    if t == [] {
      assert t + s == s;
    } else {
      assert (t + s)[1..] == t[1..] + s;
      LStripPrependSpace(t[1..], s);
    }
  }

  function LowerChar(c: char): char
  {
    if 'A' <= c <= 'Z' then (c as int + 32) as char else c
  }

  function UpperChar(c: char): char
  {
    if 'a' <= c <= 'z' then (c as int - 32) as char else c
  }

  /** `s.lower()`, for the ASCII letters. */
  function Lower(s: string): (r: string)
    ensures |r| == |s| && forall i :: 0 <= i < |s| ==> r[i] == LowerChar(s[i])
  {
    seq(|s|, i requires 0 <= i < |s| => LowerChar(s[i]))
  }

  /** `s.upper()`, for the ASCII letters. */
  function Upper(s: string): (r: string)
    ensures |r| == |s| && forall i :: 0 <= i < |s| ==> r[i] == UpperChar(s[i])
  {
    seq(|s|, i requires 0 <= i < |s| => UpperChar(s[i]))
  }

  /** Upper-casing a lower-case string and lower-casing it again gives it back. */
  lemma LowerUpper(s: string)
    requires Lower(s) == s
    ensures Lower(Upper(s)) == s
  {
    forall i | 0 <= i < |s| ensures LowerChar(UpperChar(s[i])) == s[i] {
      assert LowerChar(s[i]) == s[i];
    }
  }

  /** Lower-casing twice is lower-casing once. */
  lemma LowerLower(s: string)
    ensures Lower(Lower(s)) == Lower(s)
  {
    forall i | 0 <= i < |s| ensures LowerChar(LowerChar(s[i])) == LowerChar(s[i]) {
    }
  }

  /** Case mapping never turns a character into whitespace or out of it. */
  lemma CaseKeepsSpace(s: string)
    ensures NoSpace(s) ==> NoSpace(Upper(s)) && NoSpace(Lower(s))
    ensures forall i :: 0 <= i < |s| ==> (IsSpace(Upper(s)[i]) <==> IsSpace(s[i]))
    ensures forall i :: 0 <= i < |s| ==> (IsSpace(Lower(s)[i]) <==> IsSpace(s[i]))
  {
  }

  /** `sep.join(xs)`. */
  function Join(xs: seq<string>, sep: string): string
  {
    if |xs| == 0 then "" else if |xs| == 1 then xs[0] else xs[0] + sep + Join(xs[1..], sep)
  }

  /** Position of the first character of `s` that satisfies `p`, or `|s|` if none does. */
  function FirstWhere(s: string, p: char -> bool): (i: nat)
    ensures i <= |s|
    ensures i < |s| ==> p(s[i])
    ensures forall j :: 0 <= j < i ==> !p(s[j])
  {
    if s == [] then 0 else if p(s[0]) then 0 else 1 + FirstWhere(s[1..], p)
  }

  /**
   * Splitting at the characters that satisfy `brk`, with `\r\n` as a single
   * boundary and no empty line after a final boundary: `str.splitlines()`
   * when `brk` is `IsLineBoundary`.
   */
  function Lines(s: string, brk: char -> bool): (ls: seq<string>)
    decreases |s|
  {
    if s == [] then []
    else
      var i := FirstWhere(s, brk);
      if i == |s| then [s]
      else
        var next := if s[i] == '\r' && i + 1 < |s| && s[i + 1] == '\n' then i + 2 else i + 1;
        [s[..i]] + Lines(s[next..], brk)
  }

  /** `s.splitlines()`. */
  function SplitLines(s: string): seq<string>
  {
    Lines(s, IsLineBoundary)
  }

  /** The lines a text file yields when iterated, before each is stripped. */
  function FileLines(s: string): seq<string>
  {
    Lines(s, IsFileNewline)
  }

  /** Lines free of boundaries, joined with `\n`, split back into themselves. */
  lemma {:induction false} LinesOfJoin(ls: seq<string>, brk: char -> bool)
    requires brk('\n')
    requires forall i :: 0 <= i < |ls| ==> NoBreak(ls[i], brk)
    requires ls == [] || ls[|ls| - 1] != ""
    ensures Lines(Join(ls, "\n"), brk) == ls
    decreases |ls|
  {
    if |ls| == 0 {
    } else if |ls| == 1 {
      var s := ls[0];
      FirstWhereAt(s, brk, |s|);
    } else {
      var rest := ls[1..];
      forall i | 0 <= i < |rest| ensures NoBreak(rest[i], brk) {
        assert rest[i] == ls[i + 1];
      }
      assert rest[|rest| - 1] == ls[|ls| - 1];
      LinesJoinStep(ls, brk);
      LinesOfJoin(rest, brk);
      assert [ls[0]] + rest == ls;
    }
  }

  lemma LinesJoinStep(ls: seq<string>, brk: char -> bool)
    requires |ls| >= 2 && brk('\n') && NoBreak(ls[0], brk)
    ensures Lines(Join(ls, "\n"), brk) == [ls[0]] + Lines(Join(ls[1..], "\n"), brk)
  {
    LinesCons(ls[0], Join(ls[1..], "\n"), brk);
  }

  /** A line free of boundaries followed by `\n` splits off as the first line. */
  lemma LinesCons(a: string, rest: string, brk: char -> bool)
    requires brk('\n') && NoBreak(a, brk)
    ensures Lines(a + "\n" + rest, brk) == [a] + Lines(rest, brk)
  {
    var s := a + "\n" + rest;
    assert forall j :: 0 <= j < |a| ==> s[j] == a[j];
    assert s[|a|] == '\n';
    FirstWhereAt(s, brk, |a|);
    assert s[..|a|] == a;
    assert s[|a| + 1..] == rest;
  }

  /** A first line in front of lines free of boundaries, joined with `\n`, splits back as well. */
  lemma LinesOfJoinCons(h: string, ls: seq<string>, brk: char -> bool)
    requires brk('\n') && h != [] && NoBreak(h, brk)
    requires forall i :: 0 <= i < |ls| ==> ls[i] != [] && NoBreak(ls[i], brk)
    ensures Lines(Join([h] + ls, "\n"), brk) == [h] + ls
  {
    if ls == [] {
      assert Join([h] + ls, "\n") == h;
      FirstWhereAt(h, brk, |h|);
    } else {
      assert ([h] + ls)[1..] == ls;
      LinesCons(h, Join(ls, "\n"), brk);
      LinesOfJoin(ls, brk);
    }
  }

  /** `FirstWhere` is pinned down by the first position that satisfies `p`. */
  lemma {:induction false} FirstWhereAt(s: string, p: char -> bool, i: nat)
    requires i <= |s| && (i < |s| ==> p(s[i]))
    requires forall j :: 0 <= j < i ==> !p(s[j])
    ensures FirstWhere(s, p) == i
    decreases |s|
  {
    if s != [] && i > 0 {
      FirstWhereAt(s[1..], p, i - 1);
    }
  }

  /** A word: non-empty and free of whitespace, as every element of `split()` is. */
  predicate IsWord(w: string)
  {
    w != "" && NoSpace(w)
  }

  /** Length of the leading run of non-whitespace characters. */
  function WordLength(s: string): (n: nat)
    ensures n <= |s| && (n < |s| ==> IsSpace(s[n]))
    ensures forall j :: 0 <= j < n ==> !IsSpace(s[j])
  {
    FirstWhere(s, IsSpace)
  }

  /** A word followed by whitespace or by nothing has the word's length as its leading run. */
  lemma WordLengthOf(w: string, rest: string)
    requires IsWord(w)
    requires rest == [] || IsSpace(rest[0])
    ensures WordLength(w + rest) == |w| && (w + rest)[..|w|] == w
  {
    var s := w + rest;
    assert forall j :: 0 <= j < |w| ==> s[j] == w[j];
    FirstWhereAt(s, IsSpace, |w|);
  }

  /** The word a text starts with, when it starts with non-whitespace. */
  function FirstWord(t: string): (w: string)
    requires t != [] && !IsSpace(t[0])
    ensures IsWord(w) && |w| <= |t| && w == t[..|w|]
    ensures |w| < |t| ==> IsSpace(t[|w|])
  {
    var n := WordLength(t);
    var w := t[..n];
    assert forall j :: 0 <= j < |w| ==> w[j] == t[j];
    w
  }

  /** `s.split()`: the maximal runs of non-whitespace characters. */
  function SplitWs(s: string): (ws: seq<string>)
    decreases |s|
  {
    var t := LStrip(s);
    if t == [] then []
    else
      var w := FirstWord(t);
      [w] + SplitWs(t[|w|..])
  }

  /** Leading whitespace does not change `split()`. */
  lemma SplitWsSkipsSpace(t: string, r: string)
    requires forall i :: 0 <= i < |t| ==> IsSpace(t[i])
    requires r == [] || !IsSpace(r[0])
    ensures SplitWs(t + r) == SplitWs(r)
  {
    LStripPrependSpace(t, r);
    LStripPrependSpace([], r);
    assert [] + r == r;
  }

  /** A word followed by whitespace or by nothing is the first element of `split()`. */
  lemma SplitWsWord(w: string, r: string)
    requires IsWord(w)
    requires r == [] || IsSpace(r[0])
    ensures SplitWs(w + r) == [w] + SplitWs(r)
  {
    var s := w + r;
    LStripPrependSpace([], s);
    assert [] + s == s;
    assert LStrip(s) == s;
    WordLengthOf(w, r);
    assert s[|w|..] == r;
    assert FirstWord(s) == w;
    assert SplitWs(s) == [FirstWord(s)] + SplitWs(s[|FirstWord(s)|..]);
  }

  /** `s.split(None, 1)`: the first word and, if anything but whitespace follows, the rest with its leading whitespace removed. */
  function SplitOnceWs(s: string): (ws: seq<string>)
    ensures |ws| <= 2
    ensures LStrip(s) != [] <==> |ws| >= 1
    ensures |ws| >= 1 ==> IsWord(ws[0])
    ensures |ws| == 2 ==> ws[1] != "" && !IsSpace(ws[1][0])
  {
    var t := LStrip(s);
    if t == [] then []
    else
      var n := WordLength(t);
      var w := t[..n];
      assert forall j :: 0 <= j < |w| ==> w[j] == t[j];
      assert IsWord(w);
      var rest := LStrip(t[n..]);
      if rest == [] then [w] else [w, rest]
  }

  /** A word followed by whitespace or by nothing is the first element of `split(None, 1)`. */
  lemma SplitOnceWsWordThen(w: string, r: string)
    requires IsWord(w)
    requires r == [] || IsSpace(r[0])
    ensures SplitOnceWs(w + r) == if LStrip(r) == [] then [w] else [w, LStrip(r)]
  {
    var s := w + r;
    LStripPrependSpace([], s);
    assert [] + s == s;
    assert LStrip(s) == s;
    WordLengthOf(w, r);
    assert s[|w|..] == r;
  }

  /** A word, a space and a text that starts with non-whitespace split once into exactly those two. */
  lemma SplitOnceWsPair(k: string, v: string)
    requires IsWord(k)
    requires v != "" && !IsSpace(v[0])
    ensures SplitOnceWs(k + " " + v) == [k, v]
  {
    assert k + " " + v == k + (" " + v);
    SplitOnceWsWordThen(k, " " + v);
    LStripPrependSpace(" ", v);
  }

  /** A single word is split once into itself. */
  lemma SplitOnceWsWord(k: string)
    requires IsWord(k)
    ensures SplitOnceWs(k) == [k]
  {
    LStripPrependSpace([], k);
    assert [] + k == k;
    WordLengthOf(k, []);
    assert k + [] == k;
  }

  /** A join whose first element is non-empty starts with that element's first character. */
  lemma JoinHead(xs: seq<string>, sep: string)
    requires |xs| > 0 && xs[0] != ""
    ensures Join(xs, sep) != "" && Join(xs, sep)[0] == xs[0][0]
  {
  }

  /** A join whose last part is non-empty ends with that part's last character. */
  lemma {:induction false} JoinLast(xs: seq<string>, sep: string)
    requires |xs| > 0 && xs[|xs| - 1] != ""
    ensures var j, l := Join(xs, sep), xs[|xs| - 1]; j != "" && j[|j| - 1] == l[|l| - 1]
    decreases |xs|
  {
    if |xs| > 1 {
      var rest := xs[1..];
      assert rest[|rest| - 1] == xs[|xs| - 1];
      JoinLast(rest, sep);
    }
  }

  /** A word, a space and what follows: `split()` yields the word, then the split of the rest. */
  lemma SplitWsSpaced(w: string, rest: string)
    requires IsWord(w)
    requires rest == [] || !IsSpace(rest[0])
    ensures SplitWs(w + " " + rest) == [w] + SplitWs(rest)
  {
    var sr := " " + rest;
    assert w + " " + rest == w + sr;
    assert SplitWs(sr) == SplitWs(rest) by { SplitWsSkipsSpace(" ", rest); }
    SplitWsWord(w, sr);
  }

  lemma ConsSlice<T>(xs: seq<T>)
    requires |xs| > 0
    ensures [xs[0]] + xs[1..] == xs
  {
  }

  lemma ButLast<T>(s: seq<T>)
    requires s != []
    ensures s == s[..|s| - 1] + [s[|s| - 1]]
  {
  }

  /** Every element is a word (stated recursively, which keeps the solver's work small). */
  predicate AllWords(ws: seq<string>)
  {
    |ws| == 0 || (IsWord(ws[0]) && AllWords(ws[1..]))
  }

  lemma {:induction false} AllWordsAt(ws: seq<string>, i: nat)
    requires AllWords(ws) && i < |ws|
    ensures IsWord(ws[i])
  {
    if i > 0 { AllWordsAt(ws[1..], i - 1); }
  }

  /** Words without whitespace, joined with single spaces, split back into themselves. */
  lemma {:induction false} SplitWsJoin(ws: seq<string>)
    requires AllWords(ws)
    ensures SplitWs(Join(ws, " ")) == ws
    decreases |ws|
  {
    if |ws| == 1 {
      SplitWsWord(ws[0], []);
      assert ws[0] + [] == ws[0];
    } else if |ws| > 1 {
      var tail := ws[1..];
      JoinHead(tail, " ");
      SplitWsSpaced(ws[0], Join(tail, " "));
      SplitWsJoin(tail);
      ConsSlice(ws);
    }
  }
  /** Joining one more string appends the separator and that string. */
  lemma {:induction false} JoinSnoc(xs: seq<string>, y: string, sep: string)
    requires xs != []
    ensures Join(xs + [y], sep) == Join(xs, sep) + sep + y
    decreases |xs|
  {
    if |xs| == 1 {
      assert xs + [y] == [xs[0], y];
      assert [xs[0], y][1..] == [y];
    } else {
      var t := xs[1..];
      assert (xs + [y])[1..] == t + [y];
      JoinSnoc(t, y, sep);
    }
  }

  /** Words joined by single spaces: not empty, no whitespace at either end, and no line boundary. */
  lemma {:induction false} JoinWords(ws: seq<string>)
    requires AllWords(ws) && ws != []
    ensures var s := Join(ws, " "); s != [] && !IsSpace(s[0]) && !IsSpace(s[|s| - 1])
    ensures NoBreak(Join(ws, " "), IsLineBoundary)
    decreases |ws|
  {
    var w := ws[0];
    forall i | 0 <= i < |w| ensures !IsLineBoundary(w[i]) {
      BoundaryIsSpace(w[i]);
    }
    if |ws| > 1 {
      var j := Join(ws[1..], " ");
      JoinWords(ws[1..]);
      var s := w + " " + j;
      assert s == Join(ws, " ");
      assert s[|s| - 1] == j[|j| - 1];
      forall i | 0 <= i < |s| ensures !IsLineBoundary(s[i]) {
        if i > |w| { assert s[i] == j[i - |w| - 1]; }
      }
    }
  }

  /** The lines up to the last non-empty one. */
  function TrimBlank(ls: seq<string>): (r: seq<string>)
    ensures |r| <= |ls| && r == ls[..|r|]
    ensures r == [] || r[|r| - 1] != ""
    ensures forall i :: |r| <= i < |ls| ==> ls[i] == ""
  {
    if ls != [] && ls[|ls| - 1] == "" then TrimBlank(ls[..|ls| - 1]) else ls
  }

  /** `"\n".join(ls).rstrip()` drops exactly the trailing empty lines, when no line ends in whitespace. */
  lemma {:induction false} RStripJoin(ls: seq<string>)
    requires forall i :: 0 <= i < |ls| ==> ls[i] == "" || !IsSpace(ls[i][|ls[i]| - 1])
    ensures RStrip(Join(ls, "\n")) == Join(TrimBlank(ls), "\n")
    decreases |ls|
  {
    if ls == [] {
    } else if ls[|ls| - 1] == "" {
      var ini := ls[..|ls| - 1];
      assert ls == ini + [""];
      if ini != [] {
        forall i | 0 <= i < |ini| ensures ini[i] == "" || !IsSpace(ini[i][|ini[i]| - 1]) {
          assert ini[i] == ls[i];
        }
        JoinSnoc(ini, "", "\n");
        RStripNewline(Join(ini, "\n"));
        RStripJoin(ini);
      }
    } else {
      JoinEndsWithLast(ls);
    }
  }

  /** A trailing `\n` is whitespace to `rstrip()`. */
  lemma RStripNewline(s: string)
    ensures RStrip(s + "\n" + "") == RStrip(s)
  {
    assert (s + "\n" + "")[..|s|] == s;
  }

  /** Lines joined with `\n` end in the last line's last character, so `rstrip()` keeps them when that is not whitespace. */
  lemma JoinEndsWithLast(ls: seq<string>)
    requires ls != [] && ls[|ls| - 1] != "" && !IsSpace(ls[|ls| - 1][|ls[|ls| - 1]| - 1])
    ensures RStrip(Join(ls, "\n")) == Join(ls, "\n")
  {
    var s := Join(ls, "\n");
    var last := ls[|ls| - 1];
    if |ls| > 1 {
      var ini := ls[..|ls| - 1];
      assert ls == ini + [last];
      JoinSnoc(ini, last, "\n");
    }
    assert s[|s| - 1] == last[|last| - 1];
  }

  /** `lstrip()` of a string ending in non-whitespace leaves something, ending in that same character. */
  lemma {:induction false} LStripKeepsLast(s: string)
    requires s != [] && !IsSpace(s[|s| - 1])
    ensures LStrip(s) != [] && LStrip(s)[|LStrip(s)| - 1] == s[|s| - 1]
    decreases |s|
  {
    if IsSpace(s[0]) {
      LStripKeepsLast(s[1..]);
    }
  }

  /** `strip()` of a string ending in non-whitespace is not empty. */
  lemma StripNonEmpty(s: string)
    requires s != [] && !IsSpace(s[|s| - 1])
    ensures Strip(s) != []
  {
    LStripKeepsLast(s);
  }
  /** Whitespace-free text holds no line boundary. */
  lemma NoSpaceNoBreak(s: string)
    requires NoSpace(s)
    ensures NoBreak(s, IsLineBoundary)
  {
    forall i | 0 <= i < |s| ensures !IsLineBoundary(s[i]) {
      BoundaryIsSpace(s[i]);
    }
  }
  /** `lstrip()` removes a four-space indentation in front of non-whitespace. */
  lemma LStripIndent(s: string)
    requires s == [] || !IsSpace(s[0])
    ensures LStrip("    " + s) == s
  {
    var a := " " + s;
    var b := " " + a;
    var c := " " + b;
    var d := " " + c;
    assert "    " + s == d;
    SpaceThenLStrip(c);
    SpaceThenLStrip(b);
    SpaceThenLStrip(a);
    SpaceThenLStrip(s);
  }

  /** `lstrip()` passes over one leading space. */
  lemma SpaceThenLStrip(s: string)
    ensures LStrip(" " + s) == LStrip(s)
  {
    assert (" " + s)[1..] == s;
  }
  /** A concatenation holds no boundary when neither part does. */
  lemma NoBreakConcat(a: string, b: string, brk: char -> bool)
    requires NoBreak(a, brk) && NoBreak(b, brk)
    ensures NoBreak(a + b, brk)
  {
    var s := a + b;
    forall i | 0 <= i < |s| ensures !brk(s[i]) {
      if i >= |a| { assert s[i] == b[i - |a|]; }
    }
  }

  /** Joining texts free of boundaries with a separator free of them gives a text free of them. */
  lemma {:induction false} JoinNoBreak(xs: seq<string>, sep: string, brk: char -> bool)
    requires NoBreak(sep, brk) && forall i :: 0 <= i < |xs| ==> NoBreak(xs[i], brk)
    ensures NoBreak(Join(xs, sep), brk)
    decreases |xs|
  {
    if |xs| > 1 {
      JoinNoBreak(xs[1..], sep, brk);
      NoBreakConcat(xs[0], sep, brk);
      NoBreakConcat(xs[0] + sep, Join(xs[1..], sep), brk);
    }
  }
}
