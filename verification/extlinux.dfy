/**
 * The extlinux.conf codec. Directives before the first `LABEL` line are
 * global, later ones belong to the most recent label; keys are read in lower
 * case and written in upper case, a one-word directive has no value, and the
 * value of `fdtoverlays` is a list of words.
 */
module Extlinux {
  import opened Wrappers
  import opened Text
  import opened Assoc

  /** A directive's value: none (a one-word line), its text, or a list of words. */
  datatype Setting = NoValue | Value(s: string) | Words(ws: seq<string>)

  type Directives = seq<(string, Setting)>

  /** `{"global": {...}, "labels": {name: {...}}}`, both levels in insertion order. */
  datatype Config = Config(global: Directives, labels: seq<(string, Directives)>)

  /** The configuration read so far and `current_label`. */
  datatype State = State(config: Config, current: Option<string>)

  /** The label being filled, when there is one, is named and present in `labels`. */
  predicate Consistent(st: State)
  {
    st.current.Some? ==> st.current.value != "" && HasKey(st.config.labels, st.current.value)
  }

  const Start := State(Config([], []), None)

  /** A stripped line that is empty or a comment. */
  predicate Skipped(line: string)
  {
    line == [] || StartsWith(line, "#")
  }

  /** `line.lower().startswith("label ")`. */
  predicate IsLabelLine(line: string)
  {
    StartsWith(Lower(line), "label ")
  }

  /** The name a stripped label line introduces is never empty, so `if current_label:` holds once a label is open. */
  lemma LabelNameNonEmpty(line: string)
    requires line != [] && !IsSpace(line[|line| - 1]) && IsLabelLine(line)
    ensures |line| > 6 && Strip(line[6..]) != []
  {
    StripNonEmpty(line[6..]);
  }

  /** The stored value of a directive with text: `fdtoverlays` is split into words, anything else kept. */
  function ParseValue(key: string, value: string): (v: Setting)
    ensures v.Words? <==> key == "fdtoverlays"
    ensures v.Words? ==> v.ws == SplitWs(value)
    ensures v.Value? ==> v.s == value
  {
    if key == "fdtoverlays" then Words(SplitWs(value)) else Value(value)
  }

  /** `line.split(None, 1)` of a stripped, non-empty line: the lower-cased key and its value, `NoValue` for one word. */
  function Directive(line: string): (d: (string, Setting))
    requires line != [] && !IsSpace(line[0])
    ensures IsWord(d.0) && Lower(d.0) == d.0
    ensures d.1.Words? ==> d.0 == "fdtoverlays"
    ensures d.0 == "fdtoverlays" && !d.1.NoValue? ==> d.1.Words?
  {
    var kv := SplitOnceWs(line);
    var key := Lower(kv[0]);
    CaseKeepsSpace(kv[0]);
    LowerLower(kv[0]);
    if |kv| == 2 then (key, ParseValue(key, Strip(kv[1]))) else (key, NoValue)
  }

  /** A directive goes to the current label if one is open, to `global` otherwise. */
  function Store(st: State, key: string, v: Setting): (r: State)
    requires Consistent(st)
    ensures Consistent(r) && r.current == st.current
  {
    if st.current.Some? && st.current.value != "" then
      var name := st.current.value;
      var labels := st.config.labels;
      st.(config := st.config.(labels := Set(labels, name, Set(Get(labels, name), key, v))))
    else
      st.(config := st.config.(global := Set(st.config.global, key, v)))
  }

  /** One raw line: skipped, a `label` line that opens (or empties) a label, or a directive. */
  function Step(st: State, raw: string): (r: State)
    requires Consistent(st)
    ensures Consistent(r)
  {
    var line := Strip(raw);
    if Skipped(line) then st
    else if IsLabelLine(line) then
      LabelNameNonEmpty(line);
      var name := Strip(line[6..]);
      State(st.config.(labels := Set(st.config.labels, name, [])), Some(name))
    else
      var d := Directive(line);
      Store(st, d.0, d.1)
  }

  /** The state after the given lines. */
  function Run(st: State, lines: seq<string>): (r: State)
    requires Consistent(st)
    ensures Consistent(r)
    decreases |lines|
  {
    if lines == [] then st else Step(Run(st, lines[..|lines| - 1]), lines[|lines| - 1])
  }

  /** What `parse_extlinux_conf(source)` returns. */
  function Parse(source: string): Config
  {
    Run(Start, SplitLines(source)).config
  }

  /** One pass of the loop of `parse_extlinux_conf` over `global`, `labels` and `current_label`. */
  method ReadLine(global0: Directives, labels0: seq<(string, Directives)>, current0: Option<string>, raw: string)
    returns (global: Directives, labels: seq<(string, Directives)>, current: Option<string>)
    requires Consistent(State(Config(global0, labels0), current0))
    ensures State(Config(global, labels), current) == Step(State(Config(global0, labels0), current0), raw)
  {
    global, labels, current := global0, labels0, current0;
    var line := Strip(raw);
    if Skipped(line) {
      return;
    }
    if IsLabelLine(line) {
      LabelNameNonEmpty(line);
      current := Some(Strip(line[6..]));
      labels := Set(labels, current.value, []);
      return;
    }
    var d := Directive(line);
    if current.Some? && current.value != "" {
      labels := Set(labels, current.value, Set(Get(labels, current.value), d.0, d.1));
    } else {
      global := Set(global, d.0, d.1);
    }
  }

  /** `parse_extlinux_conf`: the lines of `source`, read one by one into `global` and `labels`. */
  method ParseExtlinuxConf(source: string) returns (config: Config)
    ensures config == Parse(source)
  {
    var lines := SplitLines(source);
    var global: Directives := [];
    var labels: seq<(string, Directives)> := [];
    var current: Option<string> := None;
    var i := 0;
    while i < |lines|
      invariant i <= |lines|
      invariant Run(Start, lines[..i]) == State(Config(global, labels), current)
    {
      assert lines[..i + 1][..i] == lines[..i];
      global, labels, current := ReadLine(global, labels, current, lines[i]);
      i := i + 1;
    }
    assert lines[..i] == lines;
    config := Config(global, labels);
  }

  // Serialisation

  /** `str(value)` of a list of strings, for strings without quotes, backslashes or unprintable characters. */
  function ListText(ws: seq<string>): string
  {
    "[" + Join(seq(|ws|, i requires 0 <= i < |ws| => "'" + ws[i] + "'"), ", ") + "]"
  }

  /** `f"{value}"` of a value that is not `None`. */
  function ValueText(v: Setting): string
    requires !v.NoValue?
  {
    if v.Value? then v.s else ListText(v.ws)
  }

  /** A global directive: `KEY` or `KEY value`. */
  function GlobalLine(key: string, v: Setting): string
  {
    if v.NoValue? then Upper(key) else Upper(key) + " " + ValueText(v)
  }

  /** A label's directive, indented by four spaces; an `fdtoverlays` list is written as its words. */
  function LabelLine(key: string, v: Setting): string
  {
    if v.NoValue? then "    " + Upper(key)
    else if key == "fdtoverlays" && v.Words? then "    " + Upper(key) + " " + Join(v.ws, " ")
    else "    " + Upper(key) + " " + ValueText(v)
  }

  function GlobalLines(ds: Directives): (ls: seq<string>)
    ensures |ls| == |ds|
  {
    if ds == [] then [] else GlobalLines(ds[..|ds| - 1]) + [GlobalLine(ds[|ds| - 1].0, ds[|ds| - 1].1)]
  }

  function LabelLines(ds: Directives): (ls: seq<string>)
    ensures |ls| == |ds|
  {
    if ds == [] then [] else LabelLines(ds[..|ds| - 1]) + [LabelLine(ds[|ds| - 1].0, ds[|ds| - 1].1)]
  }

  /** `LABEL name`, its directives, and an empty line. */
  function LabelBlock(name: string, ds: Directives): seq<string>
  {
    ["LABEL " + name] + LabelLines(ds) + [""]
  }

  function LabelBlocks(ls: seq<(string, Directives)>): seq<string>
  {
    if ls == [] then [] else LabelBlocks(ls[..|ls| - 1]) + LabelBlock(ls[|ls| - 1].0, ls[|ls| - 1].1)
  }

  /** The blocks of one more label. */
  lemma LabelBlocksSnoc(ls: seq<(string, Directives)>, j: nat)
    requires j < |ls|
    ensures LabelBlocks(ls[..j + 1]) == LabelBlocks(ls[..j]) + LabelBlock(ls[j].0, ls[j].1)
  {
    assert ls[..j + 1][..j] == ls[..j];
  }

  /** The `lines` list: the global directives, an empty line if there were any, then the label blocks. */
  function SerializeLines(c: Config): seq<string>
  {
    var g := GlobalLines(c.global);
    g + (if g != [] then [""] else []) + LabelBlocks(c.labels)
  }

  /** What `serialize_extlinux_conf(config)` returns. */
  function Serialize(c: Config): string
  {
    RStrip(Join(SerializeLines(c), "\n"))
  }

  /** The lines of one label appended to `lines0`. */
  method AppendLabel(lines0: seq<string>, name: string, directives: Directives) returns (lines: seq<string>)
    ensures lines == lines0 + LabelBlock(name, directives)
  {
    lines := lines0 + ["LABEL " + name];
    var k := 0;
    while k < |directives|
      invariant k <= |directives| && lines == lines0 + ["LABEL " + name] + LabelLines(directives[..k])
    {
      var (key, value) := directives[k];
      if value.NoValue? {
        lines := lines + ["    " + Upper(key)];
      } else if key == "fdtoverlays" && value.Words? {
        lines := lines + ["    " + Upper(key) + " " + Join(value.ws, " ")];
      } else {
        lines := lines + ["    " + Upper(key) + " " + ValueText(value)];
      }
      assert directives[..k + 1][..k] == directives[..k];
      k := k + 1;
    }
    assert directives[..k] == directives;
    lines := lines + [""];
  }

  /** The lines of the global directives. */
  method GlobalPart(global: Directives) returns (lines: seq<string>)
    ensures lines == GlobalLines(global)
  {
    lines := [];
    var i := 0;
    while i < |global|
      invariant i <= |global| && lines == GlobalLines(global[..i])
    {
      var (key, value) := global[i];
      if value.NoValue? {
        lines := lines + [Upper(key)];
      } else {
        lines := lines + [Upper(key) + " " + ValueText(value)];
      }
      assert global[..i + 1][..i] == global[..i];
      i := i + 1;
    }
    assert global[..i] == global;
  }

  /** The blocks of the labels, in order, appended to `lines0`. */
  method AppendLabels(lines0: seq<string>, labels: seq<(string, Directives)>) returns (lines: seq<string>)
    ensures lines == lines0 + LabelBlocks(labels)
  {
    lines := lines0;
    var j := 0;
    while j < |labels|
      invariant j <= |labels| && lines == lines0 + LabelBlocks(labels[..j])
    {
      lines := AppendLabel(lines, labels[j].0, labels[j].1);
      LabelBlocksSnoc(labels, j);
      j := j + 1;
    }
    assert labels[..j] == labels;
  }

  /** `serialize_extlinux_conf`: the lines appended one by one, joined with `\n`, trailing whitespace removed. */
  method SerializeExtlinuxConf(config: Config) returns (text: string)
    ensures text == Serialize(config)
  {
    var lines := GlobalPart(config.global);
    if lines != [] {
      lines := lines + [""];
    }
    lines := AppendLabels(lines, config.labels);
    text := RStrip(Join(lines, "\n"));
  }
  // The round trip

  /** A key the serializer writes in a form the parser reads back. */
  predicate KeyOk(k: string)
  {
    IsWord(k) && Lower(k) == k && k != "label" && k[0] != '#'
  }

  /** A trimmed, non-empty text on one line. */
  predicate TextOk(s: string)
  {
    s != [] && !IsSpace(s[0]) && !IsSpace(s[|s| - 1]) && NoBreak(s, IsLineBoundary)
  }

  /** Global directives carry no lists (a written list reads back as other words, `GlobalListBreaks`), and only `fdtoverlays` is read back as one. */
  predicate GlobalOk(k: string, v: Setting)
  {
    KeyOk(k) && match v
      case NoValue => true
      case Value(s) => TextOk(s) && k != "fdtoverlays"
      case Words(_) => false
  }

  /** Inside a label, a list is allowed under `fdtoverlays` only, as a non-empty list of words. */
  predicate LabelOk(k: string, v: Setting)
  {
    KeyOk(k) && match v
      case NoValue => true
      case Value(s) => TextOk(s) && k != "fdtoverlays"
      case Words(ws) => k == "fdtoverlays" && ws != [] && AllWords(ws)
  }

  predicate GlobalsOk(ds: Directives)
  {
    DistinctKeys(ds) && forall i :: 0 <= i < |ds| ==> GlobalOk(ds[i].0, ds[i].1)
  }

  predicate LabelDirsOk(ds: Directives)
  {
    DistinctKeys(ds) && forall i :: 0 <= i < |ds| ==> LabelOk(ds[i].0, ds[i].1)
  }

  predicate LabelsOk(ls: seq<(string, Directives)>)
  {
    DistinctKeys(ls) && forall i :: 0 <= i < |ls| ==> TextOk(ls[i].0) && LabelDirsOk(ls[i].1)
  }

  /** The configurations that survive a round trip. */
  predicate WellFormed(c: Config)
  {
    GlobalsOk(c.global) && LabelsOk(c.labels)
  }

  /** A written directive line never looks like a `label` line. */
  lemma NotLabelLine(k: string, rest: string)
    requires KeyOk(k) && (rest == [] || rest[0] == ' ')
    ensures !IsLabelLine(Upper(k) + rest)
  {
    var l := Lower(Upper(k) + rest);
    LowerUpper(k);
    assert forall i :: 0 <= i < |k| ==> l[i] == Lower(Upper(k))[i];
    if |l| >= 6 {
      if |k| >= 6 {
        assert l[5] != ' ';
      } else if |k| == 5 {
        assert l[..5] == k;
      } else {
        assert l[|k|] == ' ';
      }
    }
  }

  /** The key of a written directive is the first word of its line. */
  lemma KeyWord(k: string)
    requires KeyOk(k)
    ensures IsWord(Upper(k)) && Lower(Upper(k)) == k && Upper(k)[0] != '#'
    ensures NoBreak(Upper(k), IsLineBoundary)
  {
    CaseKeepsSpace(k);
    LowerUpper(k);
    NoSpaceNoBreak(Upper(k));
  }

  /** A line that starts with something other than `#` is not skipped. */
  lemma NotComment(line: string)
    requires line != [] && line[0] != '#'
    ensures !Skipped(line)
  {
    assert |line[..1]| == 1 && line[..1][0] != "#"[0];
  }

  /** The indentation of label directives holds no line boundary. */
  lemma IndentNoBreak()
    ensures NoBreak("    ", IsLineBoundary)
  {
    var pad := "    ";
    assert forall i :: 0 <= i < |pad| ==> pad[i] == ' ';
  }

  /** `KEY` alone is a kept line that reads back as the key with no value. */
  lemma WordLine(k: string)
    requires KeyOk(k)
    ensures var line := Upper(k);
      && Strip(line) == line && TextOk(line) && !Skipped(line) && !IsLabelLine(line)
      && Directive(line) == (k, NoValue)
  {
    KeyWord(k);
    NotComment(Upper(k));
    SplitOnceWsWord(Upper(k));
    NotLabelLine(k, []);
    assert Upper(k) + [] == Upper(k);
    StripTrimmed(Upper(k));
  }

  /** `KEY text` is a kept line that reads back as the key with the stored form of the text. */
  lemma PairLine(k: string, t: string)
    requires KeyOk(k) && TextOk(t)
    ensures var line := Upper(k) + " " + t;
      && Strip(line) == line && TextOk(line) && !Skipped(line) && !IsLabelLine(line)
      && Directive(line) == (k, ParseValue(k, t))
  {
    KeyWord(k);
    var line := Upper(k) + " " + t;
    assert line[|line| - 1] == t[|t| - 1];
    NotComment(line);
    StripTrimmed(line);
    assert TextOk(line) by {
      forall i | 0 <= i < |line| ensures !IsLineBoundary(line[i]) {
        if i > |Upper(k)| { assert line[i] == t[i - |Upper(k)| - 1]; }
      }
    }
    assert !IsLabelLine(line) by {
      NotLabelLine(k, " " + t);
      assert Upper(k) + (" " + t) == line;
    }
    assert Directive(line) == (k, ParseValue(k, t)) by {
      SplitOnceWsPair(Upper(k), t);
      StripTrimmed(t);
    }
  }

  /** The text a directive line carries after its key. */
  function Carried(k: string, v: Setting): string
    requires !v.NoValue?
  {
    if k == "fdtoverlays" && v.Words? then Join(v.ws, " ") else ValueText(v)
  }

  /** The carried text is a trimmed line whose stored form is the value itself. */
  lemma CarriedBack(k: string, v: Setting)
    requires !v.NoValue? && LabelOk(k, v)
    ensures TextOk(Carried(k, v)) && ParseValue(k, Carried(k, v)) == v
  {
    if v.Words? {
      JoinWords(v.ws);
      SplitWsJoin(v.ws);
    }
  }

  /** The directive as written, before any indentation. */
  function DirectiveText(k: string, v: Setting): string
  {
    if v.NoValue? then Upper(k) else Upper(k) + " " + Carried(k, v)
  }

  /** A written directive is a kept, trimmed, one-line text that reads back as itself. */
  lemma DirectiveBack(k: string, v: Setting)
    requires LabelOk(k, v)
    ensures var line := DirectiveText(k, v);
      && Strip(line) == line && TextOk(line) && !Skipped(line) && !IsLabelLine(line)
      && Directive(line) == (k, v)
  {
    if v.NoValue? {
      WordLine(k);
    } else {
      CarriedBack(k, v);
      PairLine(k, Carried(k, v));
    }
  }

  /** Reading a directive's line is storing the directive. */
  lemma DirectiveStep(st: State, raw: string, k: string, v: Setting)
    requires Consistent(st) && LabelOk(k, v) && Strip(raw) == DirectiveText(k, v)
    ensures Step(st, raw) == Store(st, k, v)
  {
    DirectiveBack(k, v);
  }

  /** A written global directive, read with no label open, is assigned in `global`. */
  lemma GlobalLineStep(st: State, k: string, v: Setting)
    requires Consistent(st) && GlobalOk(k, v)
    ensures Step(st, GlobalLine(k, v)) == Store(st, k, v)
  {
    assert GlobalLine(k, v) == DirectiveText(k, v);
    DirectiveBack(k, v);
    DirectiveStep(st, GlobalLine(k, v), k, v);
  }

  /** A written global directive is a line the serializer may write. */
  lemma GlobalLineOk(k: string, v: Setting)
    requires GlobalOk(k, v)
    ensures LineOk(GlobalLine(k, v))
  {
    assert GlobalLine(k, v) == DirectiveText(k, v);
    DirectiveBack(k, v);
  }

  /** A written label directive, read inside that label, is assigned there. */
  lemma LabelLineStep(st: State, k: string, v: Setting)
    requires Consistent(st) && LabelOk(k, v)
    ensures Step(st, LabelLine(k, v)) == Store(st, k, v)
  {
    var inner := DirectiveText(k, v);
    var line := LabelLine(k, v);
    assert line == "    " + inner;
    DirectiveBack(k, v);
    assert Strip(line) == inner by {
      LStripIndent(inner);
    }
    DirectiveStep(st, line, k, v);
  }

  /** A written label directive is a line the serializer may write. */
  lemma LabelLineOk(k: string, v: Setting)
    requires LabelOk(k, v)
    ensures LineOk(LabelLine(k, v))
  {
    var inner := DirectiveText(k, v);
    assert LabelLine(k, v) == "    " + inner;
    DirectiveBack(k, v);
    IndentNoBreak();
    NoBreakConcat("    ", inner, IsLineBoundary);
  }

  /** `LABEL name` opens the label with no directives. */
  lemma HeaderStep(st: State, name: string)
    requires Consistent(st) && TextOk(name)
    ensures Step(st, "LABEL " + name) == State(st.config.(labels := Set(st.config.labels, name, [])), Some(name))
  {
    var line := "LABEL " + name;
    assert line[|line| - 1] == name[|name| - 1];
    StripTrimmed(line);
    StripTrimmed(name);
    assert Lower(line)[..6] == "label ";
    assert line[6..] == name;
  }

  /** `LABEL name` is a line the serializer may write. */
  lemma HeaderOk(name: string)
    requires TextOk(name)
    ensures LineOk("LABEL " + name)
  {
    var line := "LABEL " + name;
    assert line[|line| - 1] == name[|name| - 1];
    assert NoBreak(line, IsLineBoundary) by {
      forall i | 0 <= i < |line| ensures !IsLineBoundary(line[i]) {
        if i >= 6 { assert line[i] == name[i - 6]; }
      }
    }
  }

  /** A line the serializer writes: no line boundary inside, no whitespace at its end. */
  predicate LineOk(l: string)
  {
    NoBreak(l, IsLineBoundary) && (l == [] || !IsSpace(l[|l| - 1]))
  }

  /** Reading `a + b` is reading `a`, then `b`. */
  lemma {:induction false} RunAppend(st: State, a: seq<string>, b: seq<string>)
    requires Consistent(st)
    ensures Run(st, a + b) == Run(Run(st, a), b)
    decreases |b|
  {
    if b == [] {
      assert a + b == a;
    } else {
      var b' := b[..|b| - 1];
      assert (a + b)[..|a + b| - 1] == a + b';
      assert (a + b)[|a + b| - 1] == b[|b| - 1];
      RunAppend(st, a, b');
    }
  }

  /** Trailing empty lines change nothing. */
  lemma {:induction false} RunTrimBlank(st: State, ls: seq<string>)
    requires Consistent(st)
    ensures Run(st, TrimBlank(ls)) == Run(st, ls)
    decreases |ls|
  {
    if ls != [] && ls[|ls| - 1] == "" {
      RunTrimBlank(st, ls[..|ls| - 1]);
    }
  }

  /** No two of `ds`'s keys are equal, so its last key is not among the others. */
  lemma LastKeyNew<V>(ds: seq<(string, V)>)
    requires DistinctKeys(ds) && ds != []
    ensures !HasKey(ds[..|ds| - 1], ds[|ds| - 1].0) && DistinctKeys(ds[..|ds| - 1])
  {
    var ini := ds[..|ds| - 1];
    forall p | 0 <= p < |ini| ensures ini[p].0 != ds[|ds| - 1].0 {
      assert ds[p].0 != ds[|ds| - 1].0;
    }
  }

  /** The global lines read back as the global directives, with no label open. */
  lemma {:induction false} RunGlobal(ds: Directives)
    requires GlobalsOk(ds)
    ensures Run(Start, GlobalLines(ds)) == State(Config(ds, []), None)
    decreases |ds|
  {
    if ds != [] {
      var ini := ds[..|ds| - 1];
      var k := ds[|ds| - 1].0;
      var v := ds[|ds| - 1].1;
      var st := State(Config(ini, []), None);
      calc {
        Run(Start, GlobalLines(ds));
        { assert GlobalLines(ds)[..|ds| - 1] == GlobalLines(ini); }
        Step(Run(Start, GlobalLines(ini)), GlobalLine(k, v));
        { LastKeyNew(ds); RunGlobal(ini); }
        Step(st, GlobalLine(k, v));
        { GlobalLineStep(st, k, v); }
        Store(st, k, v);
        { LastKeyNew(ds); assert ini + [(k, v)] == ds; }
        State(Config(ds, []), None);
      }
    }
  }

  /** Every global line is a line the serializer may write. */
  lemma {:induction false} GlobalLinesOk(ds: Directives)
    requires forall i :: 0 <= i < |ds| ==> GlobalOk(ds[i].0, ds[i].1)
    ensures forall i :: 0 <= i < |ds| ==> LineOk(GlobalLines(ds)[i])
    decreases |ds|
  {
    if ds != [] {
      var ini := ds[..|ds| - 1];
      var last := GlobalLine(ds[|ds| - 1].0, ds[|ds| - 1].1);
      var ls := GlobalLines(ds);
      assert ls == GlobalLines(ini) + [last];
      GlobalLinesOk(ini);
      GlobalLineOk(ds[|ds| - 1].0, ds[|ds| - 1].1);
      forall i | 0 <= i < |ds| ensures LineOk(ls[i]) {
        if i < |ini| {
          assert ls[i] == GlobalLines(ini)[i];
        }
      }
    }
  }

  /** Inside the label just opened, its lines read back as its directives. */
  lemma {:induction false} RunLabelLines(g: Directives, pre: seq<(string, Directives)>, name: string, ds: Directives)
    requires name != "" && !HasKey(pre, name) && LabelDirsOk(ds)
    ensures Consistent(State(Config(g, pre + [(name, [])]), Some(name)))
    ensures Run(State(Config(g, pre + [(name, [])]), Some(name)), LabelLines(ds)) == State(Config(g, pre + [(name, ds)]), Some(name))
    decreases |ds|
  {
    assert (pre + [(name, [])])[|pre|].0 == name;
    if ds != [] {
      var ini := ds[..|ds| - 1];
      var k := ds[|ds| - 1].0;
      var v := ds[|ds| - 1].1;
      var st := State(Config(g, pre + [(name, [])]), Some(name));
      var mid := State(Config(g, pre + [(name, ini)]), Some(name));
      assert HasKey(pre + [(name, ini)], name) && Get(pre + [(name, ini)], name) == ini by {
        assert (pre + [(name, ini)])[|pre|].0 == name;
        IndexOfAt(pre + [(name, ini)], name, |pre|);
      }
      calc {
        Run(st, LabelLines(ds));
        { assert LabelLines(ds)[..|ds| - 1] == LabelLines(ini); }
        Step(Run(st, LabelLines(ini)), LabelLine(k, v));
        { LastKeyNew(ds); RunLabelLines(g, pre, name, ini); }
        Step(mid, LabelLine(k, v));
        { LabelLineStep(mid, k, v); }
        Store(mid, k, v);
        { LastKeyNew(ds); assert ini + [(k, v)] == ds; SetLast(pre, name, ini, ds); }
        State(Config(g, pre + [(name, ds)]), Some(name));
      }
    }
  }

  /** A label's block, read after the labels before it, adds that label and leaves it open. */
  lemma RunLabelBlock(g: Directives, pre: seq<(string, Directives)>, cur: Option<string>, name: string, ds: Directives)
    requires Consistent(State(Config(g, pre), cur))
    requires TextOk(name) && !HasKey(pre, name) && LabelDirsOk(ds)
    ensures Run(State(Config(g, pre), cur), LabelBlock(name, ds)) == State(Config(g, pre + [(name, ds)]), Some(name))
  {
    var st := State(Config(g, pre), cur);
    var hdr := ["LABEL " + name];
    var opening := State(Config(g, pre + [(name, [])]), Some(name));
    var done := State(Config(g, pre + [(name, ds)]), Some(name));
    RunLabelLines(g, pre, name, ds);
    assert Run(st, hdr) == opening by {
      assert hdr[..0] == [];
      HeaderStep(st, name);
    }
    calc {
      Run(st, LabelBlock(name, ds));
      { RunAppend(st, hdr + LabelLines(ds), [""]); }
      Run(Run(st, hdr + LabelLines(ds)), [""]);
      { RunAppend(st, hdr, LabelLines(ds)); }
      Run(Run(opening, LabelLines(ds)), [""]);
      Run(done, [""]);
      { assert [""][..0] == []; }
      done;
    }
  }

  /** What the last label needs from the labels before it. */
  lemma LabelsOkSnoc(g: Directives, ls: seq<(string, Directives)>)
    requires LabelsOk(ls) && ls != []
    ensures var ini := ls[..|ls| - 1];
      && LabelsOk(ini) && !HasKey(ini, ls[|ls| - 1].0)
      && TextOk(ls[|ls| - 1].0) && LabelDirsOk(ls[|ls| - 1].1)
      && Consistent(AfterLabels(g, ini))
  {
    var ini := ls[..|ls| - 1];
    LastKeyNew(ls);
    assert LabelsOk(ini);
    if ini != [] {
      assert TextOk(ls[|ini| - 1].0);
      assert ini[|ini| - 1].0 == ls[|ini| - 1].0;
    }
  }

  /** The state after the blocks of `ls`: its labels, the last one open. */
  function AfterLabels(g: Directives, ls: seq<(string, Directives)>): State
  {
    State(Config(g, ls), if ls == [] then None else Some(ls[|ls| - 1].0))
  }

  /** One more label block, read after the blocks before it. */
  lemma RunLabelBlocksSnoc(g: Directives, ls: seq<(string, Directives)>)
    requires ls != [] && Consistent(AfterLabels(g, ls[..|ls| - 1]))
    requires TextOk(ls[|ls| - 1].0) && !HasKey(ls[..|ls| - 1], ls[|ls| - 1].0) && LabelDirsOk(ls[|ls| - 1].1)
    requires Run(State(Config(g, []), None), LabelBlocks(ls[..|ls| - 1])) == AfterLabels(g, ls[..|ls| - 1])
    ensures Run(State(Config(g, []), None), LabelBlocks(ls)) == AfterLabels(g, ls)
  {
    var ini := ls[..|ls| - 1];
    var name := ls[|ls| - 1].0;
    var ds := ls[|ls| - 1].1;
    ButLast(ls);
    calc {
      Run(State(Config(g, []), None), LabelBlocks(ls));
      { RunLabelBlocksSplit(g, ls); }
      Run(AfterLabels(g, ini), LabelBlock(name, ds));
      { RunLabelBlockAfter(g, ini, name, ds); }
      State(Config(g, ini + [(name, ds)]), Some(name));
      AfterLabels(g, ls);
    }
  }

  /** `RunLabelBlock` from the state the labels before it leave. */
  lemma RunLabelBlockAfter(g: Directives, ini: seq<(string, Directives)>, name: string, ds: Directives)
    requires Consistent(AfterLabels(g, ini))
    requires TextOk(name) && !HasKey(ini, name) && LabelDirsOk(ds)
    ensures Run(AfterLabels(g, ini), LabelBlock(name, ds)) == State(Config(g, ini + [(name, ds)]), Some(name))
  {
    RunLabelBlock(g, ini, AfterLabels(g, ini).current, name, ds);
  }

  /** The blocks of `ls` are read as those of all labels but the last, then the last one's. */
  lemma RunLabelBlocksSplit(g: Directives, ls: seq<(string, Directives)>)
    requires ls != []
    requires Run(State(Config(g, []), None), LabelBlocks(ls[..|ls| - 1])) == AfterLabels(g, ls[..|ls| - 1])
    requires Consistent(AfterLabels(g, ls[..|ls| - 1]))
    ensures Run(State(Config(g, []), None), LabelBlocks(ls))
         == Run(AfterLabels(g, ls[..|ls| - 1]), LabelBlock(ls[|ls| - 1].0, ls[|ls| - 1].1))
  {
    var st := State(Config(g, []), None);
    var ini := ls[..|ls| - 1];
    RunAppend(st, LabelBlocks(ini), LabelBlock(ls[|ls| - 1].0, ls[|ls| - 1].1));
  }

  /** The label blocks read back as the labels, the last one left open. */
  lemma {:induction false} RunLabelBlocks(g: Directives, ls: seq<(string, Directives)>)
    requires LabelsOk(ls)
    ensures Run(State(Config(g, []), None), LabelBlocks(ls)) == AfterLabels(g, ls)
    decreases |ls|
  {
    if ls != [] {
      LabelsOkSnoc(g, ls);
      RunLabelBlocks(g, ls[..|ls| - 1]);
      RunLabelBlocksSnoc(g, ls);
    }
  }

  /** Every line of a label's block is a line the serializer may write. */
  lemma {:induction false} LabelLinesOk(ds: Directives)
    requires forall i :: 0 <= i < |ds| ==> LabelOk(ds[i].0, ds[i].1)
    ensures forall i :: 0 <= i < |ds| ==> LineOk(LabelLines(ds)[i])
    decreases |ds|
  {
    if ds != [] {
      var ini := ds[..|ds| - 1];
      var ls := LabelLines(ds);
      assert ls == LabelLines(ini) + [LabelLine(ds[|ds| - 1].0, ds[|ds| - 1].1)];
      LabelLinesOk(ini);
      LabelLineOk(ds[|ds| - 1].0, ds[|ds| - 1].1);
      forall i | 0 <= i < |ds| ensures LineOk(ls[i]) {
        if i < |ini| {
          assert ls[i] == LabelLines(ini)[i];
        }
      }
    }
  }

  /** Every line of the label blocks is a line the serializer may write. */
  lemma {:induction false} LabelBlocksOk(ls: seq<(string, Directives)>)
    requires forall i :: 0 <= i < |ls| ==> TextOk(ls[i].0) && LabelDirsOk(ls[i].1)
    ensures forall i :: 0 <= i < |LabelBlocks(ls)| ==> LineOk(LabelBlocks(ls)[i])
    decreases |ls|
  {
    if ls != [] {
      var ini := ls[..|ls| - 1];
      var name := ls[|ls| - 1].0;
      var ds := ls[|ls| - 1].1;
      var a := LabelBlocks(ini);
      var b := LabelBlock(name, ds);
      LabelBlocksOk(ini);
      LabelLinesOk(ds);
      HeaderOk(name);
      assert LabelBlocks(ls) == a + b;
      forall i | 0 <= i < |a + b| ensures LineOk((a + b)[i]) {
        if i < |a| {
          assert (a + b)[i] == a[i];
        } else if i == |a| {
          assert (a + b)[i] == "LABEL " + name;
        } else if i < |a| + 1 + |ds| {
          assert (a + b)[i] == LabelLines(ds)[i - |a| - 1];
        } else {
          assert (a + b)[i] == "";
        }
      }
    }
  }

  /** Every line of a well-formed configuration's serialization is a line the serializer may write. */
  lemma SerializeLinesOk(c: Config)
    requires WellFormed(c)
    ensures forall i :: 0 <= i < |SerializeLines(c)| ==> LineOk(SerializeLines(c)[i])
  {
    var g := GlobalLines(c.global);
    var sep: seq<string> := if g != [] then [""] else [];
    var lb := LabelBlocks(c.labels);
    var all := SerializeLines(c);
    assert all == g + sep + lb;
    GlobalLinesOk(c.global);
    LabelBlocksOk(c.labels);
    forall i | 0 <= i < |all| ensures LineOk(all[i]) {
      if i < |g| {
        assert all[i] == g[i];
      } else if i < |g| + |sep| {
        assert all[i] == "";
      } else {
        assert all[i] == lb[i - |g| - |sep|];
      }
    }
  }

  /** `splitlines()` of the serialized text gives back the written lines up to the last non-empty one. */
  lemma SerializedLines(c: Config)
    requires WellFormed(c)
    ensures SplitLines(Serialize(c)) == TrimBlank(SerializeLines(c))
  {
    var all := SerializeLines(c);
    var kept := TrimBlank(all);
    SerializeLinesOk(c);
    RStripJoin(all);
    forall i | 0 <= i < |kept| ensures NoBreak(kept[i], IsLineBoundary) {
      assert kept[i] == all[i];
    }
    LinesOfJoin(kept, IsLineBoundary);
  }

  /** Reading the written lines of a well-formed configuration rebuilds it. */
  lemma RunSerialized(c: Config)
    requires WellFormed(c)
    ensures Run(Start, SerializeLines(c)).config == c
  {
    var g := GlobalLines(c.global);
    var sep: seq<string> := if g != [] then [""] else [];
    var lb := LabelBlocks(c.labels);
    var afterGlobal := State(Config(c.global, []), None);
    assert SerializeLines(c) == g + sep + lb;
    assert Run(Start, g + sep) == afterGlobal by {
      RunAppend(Start, g, sep);
      RunGlobal(c.global);
      if sep != [] { assert sep[..0] == []; }
    }
    RunAppend(Start, g + sep, lb);
    RunLabelBlocks(c.global, c.labels);
  }

  /**
   * Serializing a well-formed configuration and parsing the text gives the
   * configuration back.
   */
  lemma RoundTrip(c: Config)
    requires WellFormed(c)
    ensures Parse(Serialize(c)) == c
  {
    SerializedLines(c);
    RunTrimBlank(Start, SerializeLines(c));
    RunSerialized(c);
  }

  /** A text of one non-empty line is read as that line alone. */
  lemma OneLineRead(line: string)
    requires line != [] && NoBreak(line, IsLineBoundary)
    ensures Parse(line) == Step(Start, line).config
  {
    assert SplitLines(line) == [line] by {
      LinesOfJoinCons(line, [], IsLineBoundary);
      assert [line] + [] == [line];
    }
    assert [line][..0] == [];
    assert Run(Start, [line]) == Step(Run(Start, []), line);
  }

  /** A one-line text with a global directive reads back as that directive alone. */
  lemma GlobalTextRead(k: string, t: string)
    requires KeyOk(k) && TextOk(t)
    ensures Parse(Upper(k) + " " + t) == Config([(k, ParseValue(k, t))], [])
  {
    PairLine(k, t);
    OneLineRead(Upper(k) + " " + t);
  }

  /** `fdtoverlays` is a key the serializer writes as `FDTOVERLAYS`. */
  lemma OverlaysKey()
    ensures KeyOk("fdtoverlays") && Upper("fdtoverlays") == "FDTOVERLAYS"
  {
    var k := "fdtoverlays";
    forall i | 0 <= i < |k| ensures LowerChar(k[i]) == k[i] && !IsSpace(k[i]) {
    }
    assert Lower(k) == k;
  }

  /** `str` of a one-word list: the word in quotes and brackets, itself one word. */
  lemma OneWordListText(w: string)
    requires IsWord(w)
    ensures ListText([w]) == "['" + w + "']"
    ensures IsWord(ListText([w])) && TextOk(ListText([w]))
  {
    var t := "['" + w + "']";
    assert seq(1, i requires 0 <= i < 1 => "'" + [w][i] + "'") == ["'" + w + "'"];
    assert ListText([w]) == t;
    assert NoSpace(t) by {
      forall i | 0 <= i < |t| ensures !IsSpace(t[i]) {
        if 2 <= i < 2 + |w| { assert t[i] == w[i - 2]; }
      }
    }
    NoSpaceNoBreak(t);
  }

  /** The global line `FDTOVERLAYS w` reads as the list `[w]`. */
  lemma GlobalWordRead(w: string)
    requires IsWord(w)
    ensures Parse("FDTOVERLAYS " + w) == Config([("fdtoverlays", Words([w]))], [])
  {
    var k := "fdtoverlays";
    OverlaysKey();
    NoSpaceNoBreak(w);
    calc {
      Parse("FDTOVERLAYS " + w);
      { assert Upper(k) + " " + w == "FDTOVERLAYS " + w; }
      Parse(Upper(k) + " " + w);
      { GlobalTextRead(k, w); }
      Config([(k, ParseValue(k, w))], []);
      { SplitWsWord(w, []); assert w + [] == w; assert SplitWs([]) == []; assert SplitWs(w) == [w]; }
      Config([(k, Words([w]))], []);
    }
  }

  /** The one-word list `[w]`, held in `global`, is written as `FDTOVERLAYS ['w']`. */
  lemma GlobalListWritten(w: string)
    requires IsWord(w)
    ensures Serialize(Config([("fdtoverlays", Words([w]))], [])) == "FDTOVERLAYS " + ("['" + w + "']")
  {
    var c := Config([("fdtoverlays", Words([w]))], []);
    OverlaysKey();
    OneWordListText(w);
    var line := "FDTOVERLAYS " + ("['" + w + "']");
    assert GlobalLine("fdtoverlays", Words([w])) == line;
    assert SerializeLines(c) == [line, ""];
    assert Join([line, ""], "\n") == line + "\n" + "";
    RStripNewline(line);
    StripTrimmed(line);
  }

  /**
   * A global `fdtoverlays` list is written as `str` of the Python list, which
   * reads back as another list: the global line `FDTOVERLAYS w` is read as
   * `[w]`, written as `FDTOVERLAYS ['w']` and read again as `["['w']"]`.
   */
  lemma GlobalListBreaks(w: string)
    requires IsWord(w)
    ensures var c := Config([("fdtoverlays", Words([w]))], []);
      var t := "['" + w + "']";
      && Parse("FDTOVERLAYS " + w) == c
      && Serialize(c) == "FDTOVERLAYS " + t
      && Parse(Serialize(c)) == Config([("fdtoverlays", Words([t]))], [])
      && Parse(Serialize(c)) != c
  {
    var c := Config([("fdtoverlays", Words([w]))], []);
    var t := "['" + w + "']";
    GlobalWordRead(w);
    GlobalListWritten(w);
    calc {
      Parse(Serialize(c));
      Parse("FDTOVERLAYS " + t);
      { OneWordListText(w); GlobalWordRead(t); }
      Config([("fdtoverlays", Words([t]))], []);
    }
    assert [t][0] != [w][0] by {
      assert |t| != |w|;
    }
  }

  // What the parser does with each line

  /** A line that is not a `label` line leaves `labels`, and the label being filled, alone when none is open. */
  lemma {:induction false} GlobalUntilLabel(st: State, lines: seq<string>)
    requires Consistent(st) && st.current == None
    requires forall i :: 0 <= i < |lines| ==> !IsLabelLine(Strip(lines[i]))
    ensures Run(st, lines).current == None
    ensures Run(st, lines).config.labels == st.config.labels
    decreases |lines|
  {
    if lines != [] {
      GlobalUntilLabel(st, lines[..|lines| - 1]);
    }
  }

  /** While a label is open and no other `label` line comes, `global` and the set of label names stay as they are. */
  lemma {:induction false} InsideLabel(st: State, lines: seq<string>)
    requires Consistent(st) && st.current.Some?
    requires forall i :: 0 <= i < |lines| ==> !IsLabelLine(Strip(lines[i]))
    ensures Run(st, lines).current == st.current
    ensures Run(st, lines).config.global == st.config.global
    ensures Keys(Run(st, lines).config.labels) == Keys(st.config.labels)
    decreases |lines|
  {
    if lines != [] {
      InsideLabel(st, lines[..|lines| - 1]);
      StepInsideLabel(Run(st, lines[..|lines| - 1]), lines[|lines| - 1]);
    }
  }

  lemma StepInsideLabel(st: State, raw: string)
    requires Consistent(st) && st.current.Some? && !IsLabelLine(Strip(raw))
    ensures Step(st, raw).current == st.current
    ensures Step(st, raw).config.global == st.config.global
    ensures Keys(Step(st, raw).config.labels) == Keys(st.config.labels)
  {
    if !Skipped(Strip(raw)) {
      var d := StepDirective(st, raw);
      StoreIntoLabel(st, d.0, d.1);
    }
  }

  /** A line that is neither skipped nor a `label` line is stored as the directive it spells. */
  lemma StepDirective(st: State, raw: string) returns (d: (string, Setting))
    requires Consistent(st) && !Skipped(Strip(raw)) && !IsLabelLine(Strip(raw))
    ensures d == Directive(Strip(raw)) && Step(st, raw) == Store(st, d.0, d.1)
  {
    d := Directive(Strip(raw));
  }

  /** A `label` line opens the label it names with no directives, keeping the other labels and `global`. */
  lemma StepLabel(st: State, raw: string, name: string)
    requires Consistent(st)
    requires !Skipped(Strip(raw)) && IsLabelLine(Strip(raw))
    requires |Strip(raw)| >= 6 && name == Strip(Strip(raw)[6..])
    ensures Step(st, raw).current == Some(name)
    ensures Step(st, raw).config.global == st.config.global
    ensures HasKey(Step(st, raw).config.labels, name) && Get(Step(st, raw).config.labels, name) == []
    ensures forall n :: n != name && HasKey(st.config.labels, n) ==>
      HasKey(Step(st, raw).config.labels, n) && Get(Step(st, raw).config.labels, n) == Get(st.config.labels, n)
  {
    assert Step(st, raw) == State(st.config.(labels := Set(st.config.labels, name, [])), Some(name));
    SetOthers(st.config.labels, name, []);
  }

  /** A directive goes into the open label, replacing or appending its key there; `global` and the label names are untouched. */
  lemma StoreIntoLabel(st: State, k: string, v: Setting)
    requires Consistent(st) && st.current.Some?
    ensures Store(st, k, v).current == st.current && Store(st, k, v).config.global == st.config.global
    ensures Keys(Store(st, k, v).config.labels) == Keys(st.config.labels)
    ensures HasKey(Store(st, k, v).config.labels, st.current.value)
    ensures var ds := Get(Store(st, k, v).config.labels, st.current.value);
      HasKey(ds, k) && Get(ds, k) == v
    ensures var ds0 := Get(st.config.labels, st.current.value);
      var ds := Get(Store(st, k, v).config.labels, st.current.value);
      forall j :: j != k && HasKey(ds0, j) ==> HasKey(ds, j) && Get(ds, j) == Get(ds0, j)
  {
    var labels := st.config.labels;
    var name := st.current.value;
    SetKeys(labels, name, Set(Get(labels, name), k, v));
    SetOthers(Get(labels, name), k, v);
  }

  /** With no label open, a directive goes into `global`, replacing or appending its key, and `labels` is untouched. */
  lemma StoreIntoGlobal(st: State, k: string, v: Setting)
    requires Consistent(st) && st.current == None
    ensures Store(st, k, v).current == None && Store(st, k, v).config.labels == st.config.labels
    ensures HasKey(Store(st, k, v).config.global, k) && Get(Store(st, k, v).config.global, k) == v
    ensures forall j :: j != k && HasKey(st.config.global, j) ==>
      HasKey(Store(st, k, v).config.global, j) && Get(Store(st, k, v).config.global, j) == Get(st.config.global, j)
  {
    SetOthers(st.config.global, k, v);
  }

  // Keys as the parser stores them

  /** A stored key is one lower-case word, and only `fdtoverlays` with a value holds a word list. */
  predicate StoredOk(k: string, v: Setting)
  {
    IsWord(k) && Lower(k) == k && (v.Words? <==> k == "fdtoverlays" && !v.NoValue?)
  }

  predicate AllStoredOk(ds: Directives)
  {
    forall i :: 0 <= i < |ds| ==> StoredOk(ds[i].0, ds[i].1)
  }

  predicate ConfigStoredOk(c: Config)
  {
    AllStoredOk(c.global) && forall j :: 0 <= j < |c.labels| ==> AllStoredOk(c.labels[j].1)
  }

  lemma SetStoredOk(ds: Directives, k: string, v: Setting)
    requires AllStoredOk(ds) && StoredOk(k, v)
    ensures AllStoredOk(Set(ds, k, v))
  {
  }

  lemma SetLabelStoredOk(ls: seq<(string, Directives)>, name: string, ds: Directives)
    requires forall j :: 0 <= j < |ls| ==> AllStoredOk(ls[j].1)
    requires AllStoredOk(ds)
    ensures var r := Set(ls, name, ds); forall j :: 0 <= j < |r| ==> AllStoredOk(r[j].1)
  {
  }

  /** Every line keeps the stored keys lower-case words. */
  lemma StepStoredOk(st: State, raw: string)
    requires Consistent(st) && ConfigStoredOk(st.config)
    ensures ConfigStoredOk(Step(st, raw).config)
  {
    var line := Strip(raw);
    if Skipped(line) {
    } else if IsLabelLine(line) {
      LabelNameNonEmpty(line);
      SetLabelStoredOk(st.config.labels, Strip(line[6..]), []);
    } else {
      var d := Directive(line);
      if st.current.Some? && st.current.value != "" {
        var labels := st.config.labels;
        var name := st.current.value;
        var ds := Get(labels, name);
        assert AllStoredOk(ds) by {
          assert ds == labels[IndexOf(labels, name)].1;
        }
        SetStoredOk(ds, d.0, d.1);
        SetLabelStoredOk(labels, name, Set(ds, d.0, d.1));
      } else {
        SetStoredOk(st.config.global, d.0, d.1);
      }
    }
  }

  lemma {:induction false} RunStoredOk(st: State, lines: seq<string>)
    requires Consistent(st) && ConfigStoredOk(st.config)
    ensures ConfigStoredOk(Run(st, lines).config)
    decreases |lines|
  {
    if lines != [] {
      RunStoredOk(st, lines[..|lines| - 1]);
      StepStoredOk(Run(st, lines[..|lines| - 1]), lines[|lines| - 1]);
    }
  }

  /** Every key `parse_extlinux_conf` returns is a lower-case word, and lists appear exactly under `fdtoverlays` with a value. */
  lemma ParsedKeys(source: string)
    ensures ConfigStoredOk(Parse(source))
  {
    RunStoredOk(Start, SplitLines(source));
  }
}
