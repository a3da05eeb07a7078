/**
 * The shell-style `KEY=value` files `/etc/default/u-boot` and
 * `/etc/default/grub`: `force_quote`, the line reader of `parse_uboot` and
 * `parse_grub` (with the POSIX `shlex.split` they call) and the writers
 * `encode_uboot` and `encode_grub`.
 */
module BootEnv {
  import opened Wrappers
  import opened Text
  import opened Assoc
  import opened Numerals

  /** An element of a list value: a word, or a word of digits read as a number. */
  datatype Item = Text(s: string) | Num(n: int)

  /** A setting: one word (a number when it is all digits), or the list of several words. */
  datatype EnvValue = Str(s: string) | Int(n: int) | List(items: seq<Item>)

  /** A configuration dictionary, in insertion order. */
  type Settings = seq<(string, EnvValue)>

  const UbootHeader := "## /etc/default/u-boot - configuration file"
  const GrubHeader := "## /etc/default/grub - configuration file"

  /** What `parse_uboot` starts from, and returns when the file cannot be read. */
  const UbootDefaults: Settings := [("U_BOOT_IS_SETUP", Str("false")), ("U_BOOT_PARAMETERS", Str("splash quiet"))]

  // force_quote

  /** `s.replace("'", "'\"'\"'")`: every single quote closes the quoting, is written in double quotes, and reopens it. */
  function Escape(s: string): (r: string)
    ensures |r| >= |s|
  {
    if s == [] then ""
    else if s[0] == '\'' then "'\"'\"'" + Escape(s[1..])
    else [s[0]] + Escape(s[1..])
  }

  /** Escaping works character by character: the escape of a concatenation is the concatenation of the escapes. */
  lemma {:induction false} EscapeAppend(a: string, b: string)
    ensures Escape(a + b) == Escape(a) + Escape(b)
    decreases |a|
  {
    if a != [] {
      assert (a + b)[0] == a[0] && (a + b)[1..] == a[1..] + b;
      EscapeAppend(a[1..], b);
      var head := if a[0] == '\'' then "'\"'\"'" else [a[0]];
      assert Escape(a + b) == head + Escape(a[1..] + b);
      assert Escape(a) == head + Escape(a[1..]);
    } else {
      assert a + b == b;
    }
  }

  /** A single quote becomes `'"'"'`, and text without single quotes is kept as it is. */
  lemma {:induction false} EscapeChars(s: string)
    ensures Escape("'") == "'\"'\"'"
    ensures '\'' !in s ==> Escape(s) == s
    decreases |s|
  {
    if s != [] {
      EscapeChars(s[1..]);
      if '\'' !in s {
        assert '\'' !in s[1..];
      }
    }
  }

  /**
   * `force_quote(val)`: an integer's decimal text, or the text in single
   * quotes for a POSIX shell; `None` where `str(val)` raises.
   */
  function ForceQuote(v: EnvValue): (q: Option<string>)
    requires !v.List?
    ensures v.Int? ==> (q.Some? <==> |DecimalText(Abs(v.n))| <= MaxStrDigits) && (q.Some? ==> q.value == IntText(v.n))
    ensures v.Str? ==> q.Some? && |q.value| >= 2 && q.value[0] == '\'' && q.value[|q.value| - 1] == '\''
  {
    if v.Int? then IntStr(v.n) else Some("'" + Escape(v.s) + "'")
  }

  // shlex.split(val, posix=True)

  /** The whitespace of `shlex`. */
  predicate IsShlexSpace(c: char)
  {
    c == ' ' || c == '\t' || c == '\r' || c == '\n'
  }

  /** Where the lexer stands: between words, in a word, inside quotes, or just after a backslash. */
  datatype Mode = Between | Word | Single | Double | WordEscape | DoubleEscape

  /**
   * POSIX `shlex` with comments off and splitting on whitespace only: the words
   * of `s` appended to `acc`, or `None` where `shlex` raises `ValueError` (a
   * quote left open, a backslash at the end).
   */
  function Lex(s: string, mode: Mode, tok: string, acc: seq<string>): (r: Option<seq<string>>)
    ensures r.Some? ==> |r.value| >= |acc| && r.value[..|acc|] == acc
    decreases |s|
  {
    if s == [] then
      match mode
      case Between => Some(acc)
      case Word => Some(acc + [tok])
      case _ => None
    else
      var c := s[0];
      var rest := s[1..];
      match mode
      case Between =>
        if IsShlexSpace(c) then Lex(rest, Between, "", acc)
        else if c == '\\' then Lex(rest, WordEscape, "", acc)
        else if c == '\'' then Lex(rest, Single, "", acc)
        else if c == '"' then Lex(rest, Double, "", acc)
        else Lex(rest, Word, [c], acc)
      case Word =>
        if IsShlexSpace(c) then Lex(rest, Between, "", acc + [tok])
        else if c == '\\' then Lex(rest, WordEscape, tok, acc)
        else if c == '\'' then Lex(rest, Single, tok, acc)
        else if c == '"' then Lex(rest, Double, tok, acc)
        else Lex(rest, Word, tok + [c], acc)
      case Single =>
        if c == '\'' then Lex(rest, Word, tok, acc) else Lex(rest, Single, tok + [c], acc)
      case Double =>
        if c == '"' then Lex(rest, Word, tok, acc)
        else if c == '\\' then Lex(rest, DoubleEscape, tok, acc)
        else Lex(rest, Double, tok + [c], acc)
      case WordEscape =>
        Lex(rest, Word, tok + [c], acc)
      case DoubleEscape =>
        // Inside double quotes a backslash escapes only `"` and itself.
        Lex(rest, Double, (if c == '"' || c == '\\' then tok else tok + "\\") + [c], acc)
  }

  /** `shlex.split(s, posix=True)`. */
  function ShlexSplit(s: string): Option<seq<string>>
  {
    Lex(s, Between, "", [])
  }

  // The line reader of parse_uboot and parse_grub

  /**
   * A word as the reader keeps it: a number when `isdigit()` holds and
   * `int()` accepts it; the bare `except` keeps a word of more than
   * `MaxStrDigits` digits as text.
   */
  function Scalar(t: string): (v: EnvValue)
    ensures v.Int? <==> IsDigits(t) && |t| <= MaxStrDigits
    ensures v.Int? ==> v.n >= 0 && v.n == DigitsValue(t)
    ensures v.Str? ==> v.s == t
  {
    if IntReadable(t) then Int(DigitsValue(t)) else Str(t)
  }

  /** A list element as the reader keeps it. */
  function ItemOf(t: string): (x: Item)
    ensures x.Num? <==> IsDigits(t) && |t| <= MaxStrDigits
    ensures x.Num? ==> x.n == DigitsValue(t)
    ensures x.Text? ==> x.s == t
  {
    if IntReadable(t) then Num(DigitsValue(t)) else Text(t)
  }

  /**
   * The value stored for the text after `=`: one word as a scalar, any other
   * number of words as a list, and the stripped text itself when `shlex`
   * fails.
   */
  function ReadValue(val: string): (v: EnvValue)
    ensures ShlexSplit(val).None? ==> v == Str(Strip(val))
    ensures ShlexSplit(val).Some? && |ShlexSplit(val).value| == 1 ==> v == Scalar(ShlexSplit(val).value[0])
    ensures ShlexSplit(val).Some? && |ShlexSplit(val).value| != 1 ==>
      v.List? && |v.items| == |ShlexSplit(val).value|
      && forall i :: 0 <= i < |v.items| ==> v.items[i] == ItemOf(ShlexSplit(val).value[i])
  {
    match ShlexSplit(val)
    case None => Str(Strip(val))
    case Some(toks) =>
      if |toks| == 1 then Scalar(toks[0])
      else List(seq(|toks|, i requires 0 <= i < |toks| => ItemOf(toks[i])))
  }

  /** Position of the first `=` of a line that has one. */
  function FirstEquals(line: string): (i: nat)
    requires '=' in line
    ensures i < |line| && line[i] == '='
    ensures forall j :: 0 <= j < i ==> line[j] != '='
  {
    if line[0] == '=' then 0 else 1 + FirstEquals(line[1..])
  }

  /** One line of the file: blank lines, comments and lines without `=` change nothing; `key=val` sets the stripped key. */
  function ReadLine(config: Settings, raw: string): (r: Settings)
  {
    var line := Strip(raw);
    if line == [] || StartsWith(line, "#") || '=' !in line then config
    else
      var i := FirstEquals(line);
      Set(config, Strip(line[..i]), ReadValue(line[i + 1..]))
  }

  /** The state after `step` has read the given lines, in order. */
  function Fold<S>(step: (S, string) -> S, state: S, lines: seq<string>): S
    decreases |lines|
  {
    if lines == [] then state else step(Fold(step, state, lines[..|lines| - 1]), lines[|lines| - 1])
  }

  /** The settings after reading the given lines, in order. */
  function ReadLines(config: Settings, lines: seq<string>): Settings
  {
    Fold(ReadLine, config, lines)
  }

  /** The loop of `parse_uboot` and `parse_grub` over the lines of the file's text. */
  method ReadSettings(config0: Settings, content: string) returns (config: Settings)
    ensures config == ReadLines(config0, FileLines(content))
  {
    var lines := FileLines(content);
    config := config0;
    var i := 0;
    while i < |lines|
      invariant i <= |lines|
      invariant config == ReadLines(config0, lines[..i])
    {
      assert lines[..i + 1][..i] == lines[..i];
      config := ReadLine(config, lines[i]);
      i := i + 1;
    }
    assert lines[..i] == lines;
  }

  /** `parse_uboot()`: the defaults, overridden by the file's settings; any failure to read the file leaves the defaults. */
  method ParseUboot(content: Option<string>) returns (config: Settings)
    ensures content.None? ==> config == UbootDefaults
    ensures content.Some? ==> config == ReadLines(UbootDefaults, FileLines(content.value))
  {
    if content.None? {
      return UbootDefaults;
    }
    config := ReadSettings(UbootDefaults, content.value);
  }

  /** `parse_grub()`: the file's settings, starting from nothing. */
  method ParseGrub(content: string) returns (config: Settings)
    ensures config == ReadLines([], FileLines(content))
  {
    config := ReadSettings([], content);
  }

  // encode_uboot and encode_grub

  /** The words of a list that holds no number. */
  function Texts(items: seq<Item>): (ws: seq<string>)
    requires forall i :: 0 <= i < |items| ==> items[i].Text?
    ensures |ws| == |items| && forall i :: 0 <= i < |items| ==> ws[i] == items[i].s
  {
    seq(|items|, i requires 0 <= i < |items| => items[i].s)
  }

  /**
   * The text written after `=`: a list is joined with spaces first. `None`
   * when a list holds a number (`join` raises `TypeError`) or a number has
   * too many digits for `str` (`ValueError`).
   */
  function Quoted(v: EnvValue): (q: Option<string>)
    ensures q.None? <==>
      (v.List? && exists i :: 0 <= i < |v.items| && v.items[i].Num?) || (v.Int? && |DecimalText(Abs(v.n))| > MaxStrDigits)
  {
    if v.List? then
      if forall i :: 0 <= i < |v.items| ==> v.items[i].Text? then ForceQuote(Str(Join(Texts(v.items), " ")))
      else None
    else ForceQuote(v)
  }

  /** The `KEY=value` lines of the settings, in order, or `None` if one of them cannot be written. */
  function EncodeLines(config: Settings): (ls: Option<seq<string>>)
    ensures ls.Some? ==> |ls.value| == |config|
    decreases |config|
  {
    if config == [] then Some([])
    else
      match EncodeLines(config[..|config| - 1])
      case None => None
      case Some(ls) =>
        var (k, v) := config[|config| - 1];
        match Quoted(v)
        case None => None
        case Some(q) => Some(ls + [k + "=" + q])
  }

  /** The header line and the settings' lines, joined by newlines. */
  function Encode(header: string, config: Settings): Option<string>
  {
    match EncodeLines(config)
    case None => None
    case Some(ls) => Some(Join([header] + ls, "\n"))
  }

  /** The loop shared by `encode_uboot` and `encode_grub`: one line per setting after the header. */
  method EncodeSettings(header: string, config: Settings) returns (text: Option<string>)
    ensures text == Encode(header, config)
  {
    var lines: seq<string> := [];
    var i := 0;
    while i < |config|
      invariant i <= |config|
      invariant EncodeLines(config[..i]) == Some(lines)
    {
      assert config[..i + 1][..i] == config[..i];
      var (k, v) := config[i];
      var q := Quoted(v);
      if q.None? {
        assert EncodeLines(config[..i + 1]) == None;
        EncodeNone(config, i + 1);
        return None;
      }
      lines := lines + [k + "=" + q.value];
      i := i + 1;
    }
    assert config[..i] == config;
    text := Some(Join([header] + lines, "\n"));
  }

  /** Once a prefix cannot be written, neither can the whole. */
  lemma {:induction false} EncodeNone(config: Settings, n: nat)
    requires n <= |config| && EncodeLines(config[..n]) == None
    ensures EncodeLines(config) == None
    decreases |config| - n
  {
    if n < |config| {
      assert config[..n + 1][..n] == config[..n];
      EncodeNone(config, n + 1);
    } else {
      assert config[..n] == config;
    }
  }

  /** `encode_uboot(config)`. */
  method EncodeUboot(config: Settings) returns (text: Option<string>)
    ensures text == Encode(UbootHeader, config)
  {
    text := EncodeSettings(UbootHeader, config);
  }

  /** `encode_grub(config)`. */
  method EncodeGrub(config: Settings) returns (text: Option<string>)
    ensures text == Encode(GrubHeader, config)
  {
    text := EncodeSettings(GrubHeader, config);
  }

  // What a written file reads back as

  /** A character `shlex` takes as part of a word, with no special meaning. */
  predicate Plain(c: char)
  {
    !IsShlexSpace(c) && c != '\\' && c != '\'' && c != '"'
  }

  /** A run of plain characters extends the word being read. */
  lemma {:induction false} PlainWord(w: string, tok: string, acc: seq<string>)
    requires forall i :: 0 <= i < |w| ==> Plain(w[i])
    ensures Lex(w, Word, tok, acc) == Some(acc + [tok + w])
    decreases |w|
  {
    if w != [] {
      assert Plain(w[0]);
      assert Lex(w, Word, tok, acc) == Lex(w[1..], Word, tok + [w[0]], acc);
      PlainWord(w[1..], tok + [w[0]], acc);
      assert tok + [w[0]] + w[1..] == tok + w;
    } else {
      assert tok + w == tok;
    }
  }

  /** `shlex` reads the decimal text of an integer as that one word. */
  lemma IntTextLexes(n: int)
    ensures ShlexSplit(IntText(n)) == Some([IntText(n)])
  {
    var m := Abs(n);
    DecimalTextValue(m);
    var t := IntText(n);
    assert forall i :: 0 <= i < |t| ==> Plain(t[i]) by {
      forall i | 0 <= i < |t| ensures Plain(t[i]) {
        if n < 0 && i > 0 { assert t[i] == DecimalText(m)[i - 1]; }
      }
    }
    PlainWord(t[1..], [t[0]], []);
    assert [t[0]] + t[1..] == t;
  }

  /** Inside single quotes, an escaped text followed by the closing quote is read as the text itself. */
  lemma {:induction false} EscapedRun(s: string, rest: string, tok: string, acc: seq<string>)
    ensures Lex(Escape(s) + "'" + rest, Single, tok, acc) == Lex(rest, Word, tok + s, acc)
    decreases |s|
  {
    var x := Escape(s) + "'" + rest;
    if s == [] {
      assert x == ['\''] + rest;
      assert tok + s == tok;
    } else {
      var y := Escape(s[1..]) + "'" + rest;
      var t := tok + [s[0]];
      EscapedRun(s[1..], rest, t, acc);
      assert t + s[1..] == tok + s;
      if s[0] == '\'' {
        assert x == "'\"'\"'" + y;
        EscapedQuote(y, tok, acc);
      } else {
        assert x == [s[0]] + y;
      }
    }
  }

  /** The escape of one quote, inside single quotes, adds a quote to the word. */
  lemma EscapedQuote(y: string, tok: string, acc: seq<string>)
    ensures Lex("'\"'\"'" + y, Single, tok, acc) == Lex(y, Single, tok + "'", acc)
  {
    var x4 := ['\''] + y;
    var x3 := ['"'] + x4;
    var x2 := ['\''] + x3;
    var x1 := ['"'] + x2;
    var x := ['\''] + x1;
    assert x == "'\"'\"'" + y;
    assert x[1..] == x1 && x1[1..] == x2 && x2[1..] == x3 && x3[1..] == x4 && x4[1..] == y;
    assert Lex(x, Single, tok, acc) == Lex(x1, Word, tok, acc);
    assert Lex(x1, Word, tok, acc) == Lex(x2, Double, tok, acc);
    assert Lex(x2, Double, tok, acc) == Lex(x3, Double, tok + "'", acc);
    assert Lex(x3, Double, tok + "'", acc) == Lex(x4, Word, tok + "'", acc);
  }

  /** `shlex.split(force_quote(s))` is `[s]`, whatever quotes `s` holds. */
  lemma QuoteLexes(s: string)
    ensures ShlexSplit(ForceQuote(Str(s)).value) == Some([s])
  {
    var q := ForceQuote(Str(s)).value;
    assert q == ['\''] + (Escape(s) + "'" + "");
    EscapedRun(s, "", "", []);
    assert "" + s == s;
  }

  /** What the reader stores for a value the writer wrote. */
  function ReadBack(v: EnvValue): (r: EnvValue)
    requires Quoted(v).Some?
  {
    match v
    case Str(s) => Scalar(s)
    case Int(n) => if n >= 0 then Int(n) else Str(IntText(n))
    case List(items) => Scalar(Join(Texts(items), " "))
  }

  /**
   * The text written for a value reads back as `ReadBack` says: a string as
   * itself (a number if it is all digits), a natural number as itself, a
   * negative one as its text, and a list as the one string of its words.
   */
  lemma ReadQuoted(v: EnvValue)
    requires Quoted(v).Some?
    ensures ReadValue(Quoted(v).value) == ReadBack(v)
  {
    match v
    case Str(s) => QuoteLexes(s);
    case Int(n) =>
      IntTextLexes(n);
      if n >= 0 {
        DigitsValueOfText(n);
      }
    case List(items) => QuoteLexes(Join(Texts(items), " "));
  }

  /** A negative number is written unquoted and read back as text, not as a number. */
  lemma NegativeReadsAsText(n: int)
    requires n < 0
    ensures ForceQuote(Int(n)).Some? ==> ReadValue(ForceQuote(Int(n)).value) == Str(IntText(n))
  {
    if ForceQuote(Int(n)).Some? {
      ReadQuoted(Int(n));
    }
  }

  /** The list the reader would hold for the words `ws`, none of them a number. */
  function TextItems(ws: seq<string>): (items: seq<Item>)
    ensures |items| == |ws| && forall i :: 0 <= i < |ws| ==> items[i] == Text(ws[i])
  {
    seq(|ws|, i requires 0 <= i < |ws| => Text(ws[i]))
  }

  /** A list of words is written as one quoted string and read back as that one string. */
  lemma ListReadsAsOneString(ws: seq<string>)
    requires |ws| >= 2
    ensures Quoted(List(TextItems(ws))).Some? && ReadValue(Quoted(List(TextItems(ws))).value) == Str(Join(ws, " "))
  {
    ListReadBack(ws);
    ReadQuoted(List(TextItems(ws)));
  }

  /** A list of several words can be written, and what it reads back as is the one string of its words. */
  lemma ListReadBack(ws: seq<string>)
    requires |ws| >= 2
    ensures Quoted(List(TextItems(ws))).Some? && ReadBack(List(TextItems(ws))) == Str(Join(ws, " "))
  {
    var v := List(TextItems(ws));
    assert Texts(v.items) == ws;
    SpacedNotDigits(ws);
  }

  /** Several words joined with spaces are not all digits. */
  lemma SpacedNotDigits(ws: seq<string>)
    requires |ws| >= 2
    ensures !IsDigits(Join(ws, " "))
  {
    var j := Join(ws, " ");
    assert j == ws[0] + " " + Join(ws[1..], " ");
    assert j[|ws[0]|] == ' ';
  }

  // Reading a written file

  /** A key written as `key=...` is read back as itself: no `=`, no line break, no surrounding whitespace, not a comment. */
  predicate KeyOk(k: string)
  {
    KeyShape(k) && NoBreak(k, IsFileNewline)
  }

  /** A key the reader splits off a `key=...` line as it is: no `=`, no surrounding whitespace, not a comment. */
  predicate KeyShape(k: string)
  {
    '=' !in k && Strip(k) == k && !StartsWith(k, "#")
  }

  /** A value the writer can write on one line: its text holds no line break, a number is printable and a list holds no number. */
  predicate ValueOk(v: EnvValue)
  {
    match v
    case Str(s) => NoBreak(s, IsFileNewline)
    case Int(n) => |DecimalText(Abs(n))| <= MaxStrDigits
    case List(items) => forall i :: 0 <= i < |items| ==> items[i].Text? && NoBreak(items[i].s, IsFileNewline)
  }

  predicate Writable(c: Settings)
  {
    forall i :: 0 <= i < |c| ==> KeyOk(c[i].0) && ValueOk(c[i].1)
  }

  lemma {:induction false} EscapeNoBreak(s: string)
    requires NoBreak(s, IsFileNewline)
    ensures NoBreak(Escape(s), IsFileNewline)
    decreases |s|
  {
    if s != [] {
      EscapeNoBreak(s[1..]);
      var head: string := if s[0] == '\'' then "'\"'\"'" else [s[0]];
      assert Escape(s) == head + Escape(s[1..]);
      NoBreakConcat(head, Escape(s[1..]), IsFileNewline);
    }
  }

  /** A value with no number in a list can be written. */
  lemma ValueWritable(v: EnvValue)
    requires ValueOk(v)
    ensures Quoted(v).Some?
  {
  }

  /** Non-empty, beginning and ending with non-whitespace. */
  predicate Trimmed(q: string)
  {
    q != [] && !IsSpace(q[0]) && !IsSpace(q[|q| - 1])
  }

  /** The text written for a value begins and ends with non-whitespace. */
  lemma QuotedTrimmed(v: EnvValue)
    requires Quoted(v).Some?
    ensures Trimmed(Quoted(v).value)
  {
    if v.Int? {
      IntTextTrimmed(v.n);
    }
  }

  /** The text of an integer begins with a minus sign or a digit and ends with a digit. */
  lemma IntTextTrimmed(n: int)
    ensures Trimmed(IntText(n))
  {
    var m := Abs(n);
    var d := DecimalText(m);
    DecimalTextEnds(m);
    var t := IntText(n);
    assert t[|t| - 1] == d[|d| - 1];
  }

  /** The decimal text of a number is not empty and begins and ends with a digit. */
  lemma {:induction false} DecimalTextEnds(n: nat)
    ensures DecimalText(n) != [] && IsDigit(DecimalText(n)[0]) && IsDigit(DecimalText(n)[|DecimalText(n)| - 1])
    decreases n
  {
    if n >= 10 {
      DecimalTextEnds(n / 10);
    }
  }

  /** The text written for a writable value is one line. */
  lemma QuotedOneLine(v: EnvValue)
    requires ValueOk(v)
    ensures Quoted(v).Some? && NoBreak(Quoted(v).value, IsFileNewline)
  {
    if v.Int? {
      var m := Abs(v.n);
      DecimalTextValue(m);
      var t := IntText(v.n);
      forall i | 0 <= i < |t| ensures !IsFileNewline(t[i]) {
        if v.n < 0 && i > 0 { assert t[i] == DecimalText(m)[i - 1]; }
      }
    } else {
      var s := if v.Str? then v.s else Join(Texts(v.items), " ");
      assert NoBreak(s, IsFileNewline) by {
        if v.List? { JoinNoBreak(Texts(v.items), " ", IsFileNewline); }
      }
      EscapeNoBreak(s);
      NoBreakConcat("'", Escape(s), IsFileNewline);
      NoBreakConcat("'" + Escape(s), "'", IsFileNewline);
    }
  }

  /** A written `key=value` line is its own `strip()`. */
  lemma KeyLineTrimmed(k: string, q: string)
    requires KeyShape(k) && Trimmed(q)
    ensures Strip(k + "=" + q) == k + "=" + q
  {
    var line := k + "=" + q;
    assert line[|line| - 1] == q[|q| - 1];
    if k != [] {
      assert line[0] == k[0];
    } else {
      assert line[0] == '=';
    }
    StripTrimmed(line);
  }

  /** A written `key=value` line is neither blank nor a comment, and has an `=`. */
  lemma KeyLineCounts(k: string, q: string)
    requires KeyShape(k)
    ensures var line := k + "=" + q; line != [] && !StartsWith(line, "#") && '=' in line
  {
    var line := k + "=" + q;
    assert line[|k|] == '=';
    assert line[..1][0] == line[0];
    if k != [] {
      assert line[0] == k[0];
      assert k[..1][0] == k[0];
    }
  }

  lemma EqualsAfterKey(k: string, q: string)
    requires '=' !in k
    ensures '=' in k + "=" + q && FirstEquals(k + "=" + q) == |k|
  {
    var line := k + "=" + q;
    assert line[|k|] == '=';
    assert forall j :: 0 <= j < |k| ==> line[j] == k[j];
  }

  /** A `key=text` line with a trimmed, non-empty text sets the key to the value read from the text. */
  lemma LineSets(m: Settings, k: string, q: string)
    requires KeyShape(k) && Trimmed(q)
    ensures ReadLine(m, k + "=" + q) == Set(m, k, ReadValue(q))
  {
    var line := k + "=" + q;
    KeyLineTrimmed(k, q);
    KeyLineCounts(k, q);
    EqualsAfterKey(k, q);
    ReadLineAt(m, line, |k|);
    assert line[..|k|] == k;
    assert line[|k| + 1..] == q;
  }

  /** A stripped line with an `=` at position `i`, the first one, sets what is before it to the value after it. */
  lemma ReadLineAt(m: Settings, raw: string, i: nat)
    requires Strip(raw) != [] && !StartsWith(Strip(raw), "#") && '=' in Strip(raw) && FirstEquals(Strip(raw)) == i
    ensures ReadLine(m, raw) == Set(m, Strip(Strip(raw)[..i]), ReadValue(Strip(raw)[i + 1..]))
  {
  }

  /** A written `key=value` line sets the key to what its value reads back as. */
  lemma EntryLine(m: Settings, k: string, v: EnvValue)
    requires KeyOk(k) && ValueOk(v)
    ensures Quoted(v).Some?
    ensures ReadLine(m, k + "=" + Quoted(v).value) == Set(m, k, ReadBack(v))
  {
    ValueWritable(v);
    QuotedTrimmed(v);
    LineSets(m, k, Quoted(v).value);
    ReadQuoted(v);
  }

  /** `m[k] = v` for each pair of `c`, in order. */
  function Assign(m: Settings, c: Settings): Settings
    decreases |c|
  {
    if c == [] then m else Set(Assign(m, c[..|c| - 1]), c[|c| - 1].0, c[|c| - 1].1)
  }

  /** The settings as the reader gets them back. */
  function ReadBacks(c: Settings): (r: Settings)
    requires Writable(c)
    ensures |r| == |c| && forall i :: 0 <= i < |c| ==> r[i].0 == c[i].0
  {
    seq(|c|, i requires 0 <= i < |c| && Writable(c) => (c[i].0, ReadBack(c[i].1)))
  }

  /** Every written line is a non-empty line. */
  lemma {:induction false} EncodedLinesOneLine(c: Settings)
    requires Writable(c)
    ensures EncodeLines(c).Some?
    ensures forall i :: 0 <= i < |c| ==> EncodeLines(c).value[i] != [] && NoBreak(EncodeLines(c).value[i], IsFileNewline)
    decreases |c|
  {
    if c != [] {
      var ini := c[..|c| - 1];
      var (k, v) := c[|c| - 1];
      EncodedLinesOneLine(ini);
      QuotedOneLine(v);
      var q := Quoted(v).value;
      NoBreakConcat(k, "=", IsFileNewline);
      NoBreakConcat(k + "=", q, IsFileNewline);
    }
  }

  /** Reading the written lines assigns each key what its value reads back as. */
  lemma {:induction false} ReadEncoded(m: Settings, c: Settings)
    requires Writable(c)
    ensures EncodeLines(c).Some?
    ensures ReadLines(m, EncodeLines(c).value) == Assign(m, ReadBacks(c))
    decreases |c|
  {
    if c != [] {
      var ini := c[..|c| - 1];
      var (k, v) := c[|c| - 1];
      ReadEncoded(m, ini);
      var ls := EncodeLines(ini).value;
      var line := EncodeSnoc(c);
      calc {
        ReadLines(m, EncodeLines(c).value);
        { ReadLinesSnoc(m, ls, line); }
        ReadLine(ReadLines(m, ls), line);
        { EntryLine(ReadLines(m, ls), k, v); }
        Set(Assign(m, ReadBacks(ini)), k, ReadBack(v));
        { AssignReadBacksSnoc(m, c); }
        Assign(m, ReadBacks(c));
      }
    }
  }

  /** The lines written for `c` are those written for all settings but the last, then the last one's line. */
  lemma EncodeSnoc(c: Settings) returns (line: string)
    requires c != [] && Writable(c) && EncodeLines(c[..|c| - 1]).Some?
    ensures ValueOk(c[|c| - 1].1) && Quoted(c[|c| - 1].1).Some?
    ensures line == c[|c| - 1].0 + "=" + Quoted(c[|c| - 1].1).value
    ensures EncodeLines(c).Some? && EncodeLines(c).value == EncodeLines(c[..|c| - 1]).value + [line]
  {
    ValueWritable(c[|c| - 1].1);
    line := c[|c| - 1].0 + "=" + Quoted(c[|c| - 1].1).value;
  }

  lemma ReadLinesSnoc(m: Settings, ls: seq<string>, line: string)
    ensures ReadLines(m, ls + [line]) == ReadLine(ReadLines(m, ls), line)
  {
    assert (ls + [line])[..|ls|] == ls;
  }

  lemma AssignReadBacksSnoc(m: Settings, c: Settings)
    requires c != [] && Writable(c)
    ensures Writable(c[..|c| - 1]) && Quoted(c[|c| - 1].1).Some?
    ensures Assign(m, ReadBacks(c)) == Set(Assign(m, ReadBacks(c[..|c| - 1])), c[|c| - 1].0, ReadBack(c[|c| - 1].1))
  {
    ValueWritable(c[|c| - 1].1);
    assert ReadBacks(c)[..|c| - 1] == ReadBacks(c[..|c| - 1]);
  }

  /** A line that changes nothing may be dropped from the front. */
  lemma ReadLinesSkipFirst(m: Settings, h: string, ls: seq<string>)
    requires ReadLine(m, h) == m
    ensures ReadLines(m, [h] + ls) == ReadLines(m, ls)
  {
    FoldSkipFirst(ReadLine, m, h, ls);
  }

  /** A step that changes nothing may be dropped from the front, whatever the step. */
  lemma FoldSkipFirst<S>(step: (S, string) -> S, state: S, h: string, ls: seq<string>)
    requires step(state, h) == state
    ensures Fold(step, state, [h] + ls) == Fold(step, state, ls)
  {
    FoldAppend(step, state, [h], ls);
    assert [h][..0] == [];
  }

  /** Reading two runs of lines one after the other is reading them together. */
  lemma {:induction false} FoldAppend<S>(step: (S, string) -> S, state: S, a: seq<string>, b: seq<string>)
    ensures Fold(step, state, a + b) == Fold(step, Fold(step, state, a), b)
    decreases |b|
  {
    if b == [] {
      assert a + b == a;
    } else {
      var ini := b[..|b| - 1];
      FoldAppend(step, state, a, ini);
      assert (a + b)[..|a + b| - 1] == a + ini;
    }
  }

  /** The written file, read line by line, assigns each setting what its value reads back as. */
  lemma EncodedFileReadsBack(header: string, m: Settings, c: Settings)
    requires HeaderOk(header) && Writable(c)
    ensures Encode(header, c).Some?
    ensures ReadLines(m, FileLines(Encode(header, c).value)) == Assign(m, ReadBacks(c))
  {
    var ls := EncodedFileLines(header, c);
    calc {
      ReadLines(m, FileLines(Encode(header, c).value));
      ReadLines(m, [header] + ls);
      { HeaderSkipped(m, header, ls); }
      ReadLines(m, ls);
      { ReadEncoded(m, c); }
      Assign(m, ReadBacks(c));
    }
  }

  /** The written file splits back into the header and the setting lines. */
  lemma EncodedFileLines(header: string, c: Settings) returns (ls: seq<string>)
    requires HeaderOk(header) && Writable(c)
    ensures EncodeLines(c).Some? && ls == EncodeLines(c).value
    ensures Encode(header, c).Some? && FileLines(Encode(header, c).value) == [header] + ls
  {
    EncodedLinesOneLine(c);
    ls := EncodeLines(c).value;
    assert NoBreak(header, IsFileNewline);
    LinesOfJoinCons(header, ls, IsFileNewline);
  }

  /** The comment header in front of the setting lines is skipped. */
  lemma HeaderSkipped(m: Settings, header: string, ls: seq<string>)
    requires HeaderOk(header)
    ensures ReadLines(m, [header] + ls) == ReadLines(m, ls)
  {
    assert StartsWith(header, "#");
    ReadLinesSkipFirst(m, header, ls);
  }

  /** Assigning pairs with distinct keys to an empty dictionary gives those pairs. */
  lemma {:induction false} AssignFresh(c: Settings)
    requires DistinctKeys(c)
    ensures Assign([], c) == c
    decreases |c|
  {
    if c != [] {
      var ini := c[..|c| - 1];
      AssignFresh(ini);
      assert !HasKey(ini, c[|c| - 1].0);
      assert ini + [c[|c| - 1]] == c;
    }
  }

  /** A header is a comment on one line of its own. */
  predicate HeaderOk(h: string)
  {
    h != [] && h[0] == '#' && Strip(h) == h && NoBreak(h, IsFileNewline)
  }

  lemma UbootHeaderOk()
    ensures HeaderOk(UbootHeader)
  {
    var h := UbootHeader;
    assert forall i :: 0 <= i < |h| ==> !IsFileNewline(h[i]);
    StripTrimmed(h);
  }

  lemma GrubHeaderOk()
    ensures HeaderOk(GrubHeader)
  {
    var h := GrubHeader;
    assert forall i :: 0 <= i < |h| ==> !IsFileNewline(h[i]);
    StripTrimmed(h);
  }

  /**
   * `parse_grub` of the text `encode_grub` writes: every setting comes back,
   * in order, with the value `ReadBack` gives it.
   */
  lemma GrubRoundTrip(c: Settings)
    requires Writable(c) && DistinctKeys(c)
    ensures Encode(GrubHeader, c).Some?
    ensures ReadLines([], FileLines(Encode(GrubHeader, c).value)) == ReadBacks(c)
  {
    GrubHeaderOk();
    EncodedFileReadsBack(GrubHeader, [], c);
    ReadBacksFresh(c);
  }

  lemma ReadBacksFresh(c: Settings)
    requires Writable(c) && DistinctKeys(c)
    ensures Assign([], ReadBacks(c)) == ReadBacks(c)
  {
    AssignFresh(ReadBacks(c));
  }

  /** `parse_uboot` of the text `encode_uboot` writes: the defaults, then every setting with the value `ReadBack` gives it. */
  lemma UbootRoundTrip(c: Settings)
    requires Writable(c)
    ensures Encode(UbootHeader, c).Some?
    ensures ReadLines(UbootDefaults, FileLines(Encode(UbootHeader, c).value)) == Assign(UbootDefaults, ReadBacks(c))
  {
    UbootHeaderOk();
    EncodedFileReadsBack(UbootHeader, UbootDefaults, c);
  }

  /** Reading lines never removes a key, so the u-boot defaults are always present. */
  lemma {:induction false} ReadLinesKeepsKeys(m: Settings, ls: seq<string>)
    ensures forall k :: HasKey(m, k) ==> HasKey(ReadLines(m, ls), k)
    decreases |ls|
  {
    if ls != [] {
      var mid := ReadLines(m, ls[..|ls| - 1]);
      ReadLinesKeepsKeys(m, ls[..|ls| - 1]);
      assert ReadLines(m, ls) == ReadLine(mid, ls[|ls| - 1]);
      ReadLineKeepsKeys(mid, ls[|ls| - 1]);
    }
  }

  /** One line never removes a key. */
  lemma ReadLineKeepsKeys(m: Settings, raw: string)
    ensures forall k :: HasKey(m, k) ==> HasKey(ReadLine(m, raw), k)
  {
    var key, v := ReadLineSets(m, raw);
    SetOthers(m, key, v);
  }

  /** One line leaves the settings alone or assigns one key. */
  lemma ReadLineSets(m: Settings, raw: string) returns (key: string, v: EnvValue)
    ensures ReadLine(m, raw) == m || ReadLine(m, raw) == Set(m, key, v)
  {
    var line := Strip(raw);
    if !(line == [] || StartsWith(line, "#") || '=' !in line) {
      var i := FirstEquals(line);
      ReadLineAt(m, raw, i);
      key := Strip(line[..i]);
      v := ReadValue(line[i + 1..]);
    } else {
      key, v := "", Str("");
    }
  }
}
