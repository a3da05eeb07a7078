/**
 * `_parse_scalar`, which types one value of the device-tree YAML text, and
 * `_no_brackets`, which unquotes a mapping key.
 */
module Scalar {
  import opened Wrappers
  import opened Text
  import opened Numerals
  import opened Tree

  predicate IsQuote(c: char)
  {
    c == '"'
  }

  /** A character the unquoted alternative of the flow-list token pattern accepts: not a comma, whitespace or `]`. */
  predicate IsBare(c: char)
  {
    c != ',' && c != ']' && !IsSpace(c)
  }

  predicate NotBare(c: char)
  {
    !IsBare(c)
  }

  /** `token.strip().rstrip(",")`. */
  function CleanToken(t: string): (r: string)
    ensures |r| <= |t|
  {
    RStripSet(Strip(t), {','})
  }

  /**
   * The tokens `re.finditer(r'"([^"]*)"|([^,\s\]]+)', s)` finds, each
   * cleaned: at each position a double-quoted run (the text between the
   * quotes) when a closing quote follows, otherwise a maximal run of bare
   * characters; characters that start neither are skipped.
   */
  function FlowTokens(s: string): (ts: seq<string>)
    ensures forall i :: 0 <= i < |ts| ==> |ts[i]| <= |s|
    decreases |s|
  {
    if s == [] then []
    else
      var k := FirstWhere(s[1..], IsQuote);
      if s[0] == '"' && k < |s| - 1 then
        [CleanToken(s[1..k + 1])] + FlowTokens(s[k + 2..])
      else if IsBare(s[0]) then
        var n := FirstWhere(s, NotBare);
        [CleanToken(s[..n])] + FlowTokens(s[n..])
      else FlowTokens(s[1..])
  }

  /** A token the unquoted alternative reads whole: non-empty, of bare characters only, and without a double quote. */
  predicate FlowWord(w: string)
  {
    w != [] && forall i :: 0 <= i < |w| ==> IsBare(w[i]) && w[i] != '"'
  }

  /** A double-quoted token is the text between its quotes, commas and spaces included. */
  lemma QuotedFlowToken(x: string, rest: string)
    requires '"' !in x
    ensures FlowTokens("\"" + x + "\"" + rest) == [CleanToken(x)] + FlowTokens(rest)
  {
    var s := "\"" + x + "\"" + rest;
    assert s[1..] == x + "\"" + rest;
    assert forall j :: 0 <= j < |x| ==> s[1..][j] == x[j];
    FirstWhereAt(s[1..], IsQuote, |x|);
    assert s[1..|x| + 1] == x;
    assert s[|x| + 2..] == rest;
  }

  /** An unquoted token ends at the first character that is not bare. */
  lemma BareFlowToken(w: string, rest: string)
    requires FlowWord(w) && (rest == [] || NotBare(rest[0]))
    ensures FlowTokens(w + rest) == [w] + FlowTokens(rest)
  {
    var s := w + rest;
    assert s[0] == w[0];
    assert forall j :: 0 <= j < |w| ==> s[j] == w[j];
    FirstWhereAt(s, NotBare, |w|);
    assert s[..|w|] == w && s[|w|..] == rest;
    StripTrimmed(w);
  }

  /** The separator `, ` between tokens yields no token. */
  lemma SeparatorSkipped(rest: string)
    ensures FlowTokens(", " + rest) == FlowTokens(rest)
  {
    assert (", " + rest)[1..] == " " + rest;
    assert (" " + rest)[1..] == rest;
  }

  /** Unquoted tokens joined with `, ` are found again, one by one. */
  lemma {:induction false} FlowTokensJoin(ws: seq<string>)
    requires forall i :: 0 <= i < |ws| ==> FlowWord(ws[i])
    ensures FlowTokens(Join(ws, ", ")) == ws
    decreases |ws|
  {
    if |ws| == 1 {
      BareFlowToken(ws[0], []);
      assert ws[0] + [] == ws[0];
    } else if |ws| > 1 {
      var rest := ws[1..];
      var j := Join(rest, ", ");
      assert Join(ws, ", ") == ws[0] + (", " + j);
      BareFlowToken(ws[0], ", " + j);
      SeparatorSkipped(j);
      forall i | 0 <= i < |rest| ensures FlowWord(rest[i]) { assert rest[i] == ws[i + 1]; }
      FlowTokensJoin(rest);
      assert [ws[0]] + rest == ws;
    }
  }

  /** The text inside a flow list: after `[`, without one closing `]`, stripped, without trailing commas and semicolons. */
  function FlowInner(val: string): (inner: string)
    requires val != [] && val[0] == '['
    ensures |inner| < |val|
  {
    var a := val[1..];
    var b := if a != [] && a[|a| - 1] == ']' then a[..|a| - 1] else a;
    RStripSet(Strip(b), {',', ';'})
  }

  /** `s.startswith('"') and s.endswith('"')`. */
  predicate IsQuoted(s: string)
  {
    s != [] && s[0] == '"' && s[|s| - 1] == '"'
  }

  /** The two spellings, once lower-cased, that `_parse_scalar` reads as booleans. */
  predicate IsBoolText(t: string)
  {
    t == "true" || t == "false"
  }

  /** `s[1:-1]`. */
  function Inside(s: string): (r: string)
  {
    if |s| >= 2 then s[1..|s| - 1] else ""
  }

  /**
   * `_parse_scalar(val)`: after stripping, a double-quoted text is the text
   * inside the quotes; `true` or `false` in any case is a boolean; a text
   * opening with `[` is the list of its parsed tokens; a text with a `.` is
   * a float when `float()` accepts it; anything else is the integer
   * `int(val, 0)` reads, or the stripped text itself.
   */
  function ParseScalar(val0: string): (v: Value)
    decreases |val0|, 1
  {
    var val := Strip(val0);
    if IsQuoted(val) then Str(Inside(val))
    else if IsBoolText(Lower(val)) then Bool(Lower(val) == "true")
    else if val != [] && val[0] == '[' then ParseFlowList(val)
    else ParseNumber(val)
  }

  /** A flow list: an empty list when nothing but separators is inside, else each token parsed as a scalar. */
  function ParseFlowList(val: string): (v: Value)
    requires val != [] && val[0] == '['
    ensures v.List?
    decreases |val|, 0
  {
    var inner := FlowInner(val);
    if inner == [] then List([])
    else
      var toks := FlowTokens(inner);
      List(seq(|toks|, i requires 0 <= i < |toks| => ParseScalar(toks[i])))
  }

  /** A float when the text has a point and `float()` accepts it, else the integer `int(val, 0)` reads, else the text. */
  function ParseNumber(val: string): (v: Value)
    ensures v.Float? || v.Int? || v == Str(val)
    ensures v.Float? <==> '.' in val && IsFloatLiteral(val)
  {
    if '.' in val then
      if IsFloatLiteral(val) then Float(val) else Str(val)
    else
      match ParseIntLiteral(val)
      case Some(n) => Int(n)
      case None => Str(val)
  }

  /** `_no_brackets(key)`: a key wrapped in double or in single quotes loses them. */
  function NoBrackets(key: string): (r: string)
    ensures |r| <= |key|
  {
    if key != [] && ((key[0] == '"' && key[|key| - 1] == '"') || (key[0] == '\'' && key[|key| - 1] == '\''))
    then Inside(key)
    else key
  }

  /** Quoting in either style is undone by `_no_brackets`, and an unquoted key is kept. */
  lemma NoBracketsQuoted(k: string)
    ensures NoBrackets("'" + k + "'") == k
    ensures NoBrackets("\"" + k + "\"") == k
    ensures k == [] || (k[0] != '"' && k[0] != '\'') ==> NoBrackets(k) == k
  {
    assert ("'" + k + "'")[1..|k| + 1] == k;
    assert ("\"" + k + "\"")[1..|k| + 1] == k;
  }

  /** A double-quoted text is that text, whatever it looks like. */
  lemma QuotedScalar(x: string)
    ensures ParseScalar("\"" + x + "\"") == Str(x)
  {
    var q := "\"" + x + "\"";
    StripTrimmed(q);
    assert q[1..|q| - 1] == x;
  }

  /** A stripped text that is not quoted, not a boolean, not a list and has no point is read as an integer literal. */
  lemma NumericScalar(val: string)
    requires Strip(val) == val && val != [] && !IsQuoted(val) && val[0] != '['
    requires !IsBoolText(Lower(val)) && '.' !in val
    ensures ParseScalar(val) == match ParseIntLiteral(val) case Some(n) => Int(n) case None => Str(val)
  {
    assert ParseScalar(val) == ParseNumber(val);
  }

  /** The printed form of an integer: a sign or digit first, a digit last, and no point. */
  lemma IntTextShape(n: int)
    ensures var t := IntText(n);
      t != [] && (t[0] == '-' || IsDigit(t[0])) && IsDigit(t[|t| - 1]) && '.' !in t
  {
    var t := IntText(n);
    var m := Abs(n);
    var d := DecimalText(m);
    DecimalTextValue(m);
    assert t == if n < 0 then "-" + d else d;
    assert t[|t| - 1] == d[|d| - 1];
    forall i | 0 <= i < |t| ensures t[i] != '.' {
      if n < 0 && i > 0 { assert t[i] == d[i - 1]; }
    }
  }

  /**
   * The decimal text of an integer reads back as that integer when it has
   * no more than `MaxStrDigits` digits, and as the text itself otherwise.
   */
  lemma IntScalar(n: int)
    ensures ParseScalar(IntText(n)) == if IntStr(n).Some? then Int(n) else Str(IntText(n))
  {
    IntTextPlain(n);
    NumericScalar(IntText(n));
    IntTextRoundTrip(n);
  }

  /** The decimal text of an integer is stripped, unquoted, not a boolean, not a list, and has no point. */
  lemma IntTextPlain(n: int)
    ensures var t := IntText(n);
      Strip(t) == t && t != [] && !IsQuoted(t) && t[0] != '[' && !IsBoolText(Lower(t)) && '.' !in t
  {
    var t := IntText(n);
    IntTextShape(n);
    StripTrimmed(t);
    assert Lower(t)[0] == t[0];
  }

  /** A hexadecimal cell value is an integer. */
  lemma HexScalar()
    ensures ParseScalar("0x10") == Int(16)
  {
    var t := "0x10";
    assert Strip(t) == t && t != [] && !IsQuoted(t) && t[0] != '[' &&
      !IsBoolText(Lower(t)) && '.' !in t by {
      StripTrimmed(t);
      assert Lower(t)[0] == '0';
    }
    NumericScalar(t);
    HexLiteralExample();
  }

  /** Nothing but a stray comma lies inside `[]` and `[,]`. */
  lemma EmptyFlowInner(s: string)
    requires s == "[]" || s == "[,]"
    ensures FlowInner(s) == ""
  {
    var a := s[1..];
    assert a == "]" || a == ",]";
    var b := a[..|a| - 1];
    assert b == "" || b == ",";
    StripTrimmed(b);
    if b != "" { assert b[..0] == ""; }
  }

  /** An empty flow list, with or without a stray comma, is the empty list. */
  lemma EmptyListScalar(s: string)
    requires s == "[]" || s == "[,]"
    ensures ParseScalar(s) == List([])
  {
    assert s != [] && s[0] == '[' && Strip(s) == s by {
      StripTrimmed(s);
    }
    assert ParseFlowList(s) == List([]) by {
      EmptyFlowInner(s);
    }
    FlowListScalar(s);
  }

  /** A stripped text opening with `[` is read as a flow list. */
  lemma FlowListScalar(val: string)
    requires Strip(val) == val && val != [] && val[0] == '['
    ensures ParseScalar(val) == ParseFlowList(val)
  {
    assert !IsQuoted(val);
    assert !IsBoolText(Lower(val)) by {
      assert Lower(val)[0] == '[';
    }
  }

  /** Text between brackets that has no surrounding whitespace and does not end in `,` or `;` is the whole inside of the list. */
  lemma FlowInnerOf(j: string)
    requires j == [] || (!IsSpace(j[0]) && !IsSpace(j[|j| - 1]) && j[|j| - 1] != ',' && j[|j| - 1] != ';')
    ensures var val := "[" + j + "]"; val != [] && val[0] == '[' && FlowInner(val) == j
  {
    var val := "[" + j + "]";
    assert val[1..] == j + "]";
    assert (j + "]")[..|j|] == j;
    StripTrimmed(j);
  }

  /** Unquoted words joined with `, ` neither start nor end with whitespace, and end in neither `,` nor `;` when the last word does not end in `;`. */
  lemma JoinedWordsTrimmed(ws: seq<string>)
    requires forall i :: 0 <= i < |ws| ==> FlowWord(ws[i])
    requires ws != [] ==> !EndsWith(ws[|ws| - 1], ";")
    ensures var j := Join(ws, ", "); j == [] || (!IsSpace(j[0]) && !IsSpace(j[|j| - 1]) && j[|j| - 1] != ',' && j[|j| - 1] != ';')
  {
    if ws != [] {
      var f, l := ws[0], ws[|ws| - 1];
      assert FlowWord(f) && FlowWord(l);
      assert IsBare(f[0]) && IsBare(l[|l| - 1]);
      assert l[|l| - 1] != ';' by {
        assert l[|l| - 1..] == [l[|l| - 1]];
      }
      JoinHead(ws, ", ");
      JoinLast(ws, ", ");
    }
  }

  /** The brackets, the strip and the trailing `,;` strip leave the words and separators between the brackets as they are. */
  lemma FlowInnerOfWords(ws: seq<string>)
    requires forall i :: 0 <= i < |ws| ==> FlowWord(ws[i])
    requires ws != [] ==> !EndsWith(ws[|ws| - 1], ";")
    ensures var val := "[" + Join(ws, ", ") + "]"; val != [] && val[0] == '[' && FlowInner(val) == Join(ws, ", ")
  {
    JoinedWordsTrimmed(ws);
    FlowInnerOf(Join(ws, ", "));
  }

  /**
   * A flow list of unquoted words separated by `, ` is the list of those
   * words, each parsed as a scalar in turn; the last word must not end in
   * `;`, which the list reader strips.
   */
  lemma FlowListOfWords(ws: seq<string>)
    requires forall i :: 0 <= i < |ws| ==> FlowWord(ws[i])
    requires ws != [] ==> !EndsWith(ws[|ws| - 1], ";")
    ensures ParseScalar("[" + Join(ws, ", ") + "]") == List(seq(|ws|, i requires 0 <= i < |ws| => ParseScalar(ws[i])))
  {
    BracketedStripped(Join(ws, ", "));
    FlowListScalar("[" + Join(ws, ", ") + "]");
    FlowListWords(ws);
  }

  /** Text in brackets has no surrounding whitespace to strip. */
  lemma BracketedStripped(j: string)
    ensures var val := "[" + j + "]"; Strip(val) == val && val != [] && val[0] == '['
  {
    var val := "[" + j + "]";
    assert val[0] == '[' && val[|val| - 1] == ']';
    StripTrimmed(val);
  }

  lemma FlowListWords(ws: seq<string>)
    requires forall i :: 0 <= i < |ws| ==> FlowWord(ws[i])
    requires ws != [] ==> !EndsWith(ws[|ws| - 1], ";")
    ensures ParseFlowList("[" + Join(ws, ", ") + "]") == List(seq(|ws|, i requires 0 <= i < |ws| => ParseScalar(ws[i])))
  {
    FlowInnerOfWords(ws);
    if ws != [] {
      JoinHead(ws, ", ");
      FlowTokensJoin(ws);
    }
  }

  /** Text that is no quoted string, boolean, list or number is returned as it is, stripped. */
  lemma TextScalar(val: string)
    requires Strip(val) == val && val != [] && !IsQuoted(val) && val[0] != '['
    requires !IsBoolText(Lower(val))
    requires ParseIntLiteral(val) == None && !('.' in val && IsFloatLiteral(val))
    ensures ParseScalar(val) == Str(val)
  {
    assert ParseScalar(val) == ParseNumber(val);
  }

  /** Booleans come from exactly the unquoted texts `true` and `false`, in any letter case. */
  lemma BoolScalar(s: string)
    ensures ParseScalar(s).Bool? <==> !IsQuoted(Strip(s)) && IsBoolText(Lower(Strip(s)))
    ensures ParseScalar(s).Bool? ==> ParseScalar(s).b == (Lower(Strip(s)) == "true")
  {
  }
}
