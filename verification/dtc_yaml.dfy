/**
 * `parse_dtc_yaml`: the line-by-line reader of the YAML text `dtc` prints
 * for a device tree. It keeps three parallel stacks — the open mappings,
 * the indentation of the key line that opened each, and the last scalar
 * key set in each — and returns the root mapping passed through
 * `_flatten`.
 *
 * Python's nested dictionaries are shared by reference: a mapping opened
 * by `key:` is stored in its parent at once and filled in later. The model
 * keeps each open mapping's entries on the stack together with the key
 * under which its parent holds it; `Root` stores every open mapping back
 * into its parent, which is what the parent's reference shows.
 */
module DtcYaml {
  import opened Wrappers
  import opened Text
  import opened Assoc
  import opened Tree
  import opened Scalar

  type Entries = seq<(string, Value)>

  /** `stack`, `indents` and `last_keys`, plus the key each open mapping has in the mapping below it. */
  datatype Parser = Parser(stack: seq<Entries>, indents: seq<int>, lastKeys: seq<Option<string>>, keys: seq<string>)

  /** The stacks have one entry per open mapping, and the root's indentation is 0. */
  predicate Valid(p: Parser)
  {
    |p.stack| >= 1 && |p.indents| == |p.stack| && |p.lastKeys| == |p.stack| && |p.keys| == |p.stack| &&
    p.indents[0] == 0
  }

  /** Indentation never decreases up the stack. */
  predicate NonDecreasing(indents: seq<int>)
  {
    forall i, j :: 0 <= i <= j < |indents| ==> indents[i] <= indents[j]
  }

  /** `root = {}; stack = [root]; indents = [0]; last_keys = [None]`. */
  const Start: Parser := Parser([[]], [0], [None], [""])

  function TopIndent(p: Parser): int
    requires Valid(p)
  {
    p.indents[|p.indents| - 1]
  }

  /** Closing the innermost mapping: it is stored under its key in the mapping below, and the three stacks shrink by one. */
  function Pop(p: Parser): (r: Parser)
    requires Valid(p) && |p.stack| >= 2
    ensures Valid(r) && |r.stack| == |p.stack| - 1
    ensures r.indents == p.indents[..|r.stack|] && r.lastKeys == p.lastKeys[..|r.stack|] && r.keys == p.keys[..|r.stack|]
  {
    var n := |p.stack|;
    Parser(p.stack[..n - 2] + [Set(p.stack[n - 2], p.keys[n - 1], Dict(p.stack[n - 1]))],
           p.indents[..n - 1], p.lastKeys[..n - 1], p.keys[..n - 1])
  }

  /** The root mapping as the references in it show it: every open mapping stored in its parent. */
  function Root(p: Parser): Entries
    requires Valid(p)
    decreases |p.stack|
  {
    if |p.stack| == 1 then p.stack[0] else Root(Pop(p))
  }

  /** The dedent loop: pop while the line is indented less than the innermost mapping's key line; the root is never popped. */
  function PopTo(p: Parser, indent: nat): (r: Parser)
    requires Valid(p)
    ensures Valid(r) && TopIndent(r) <= indent && |r.stack| <= |p.stack|
    decreases |p.stack|
  {
    if indent < TopIndent(p) then PopTo(Pop(p), indent) else p
  }

  /** Popping loses nothing: the root as the references show it is the same before and after. */
  lemma {:induction false} PopToKeepsRoot(p: Parser, indent: nat)
    requires Valid(p)
    ensures Root(PopTo(p, indent)) == Root(p)
    decreases |p.stack|
  {
    if indent < TopIndent(p) {
      PopToKeepsRoot(Pop(p), indent);
    }
  }

  /** Every mapping the dedent closes was opened at a deeper indentation than the line. */
  lemma {:induction false} PopToClosesDeeper(p: Parser, indent: nat)
    requires Valid(p)
    ensures forall i :: |PopTo(p, indent).stack| <= i < |p.stack| ==> indent < p.indents[i]
    decreases |p.stack|
  {
    if indent < TopIndent(p) {
      var q := Pop(p);
      PopToClosesDeeper(q, indent);
      forall i | |PopTo(q, indent).stack| <= i < |p.stack| ensures indent < p.indents[i] {
        if i < |q.stack| { assert p.indents[i] == q.indents[i]; }
      }
    }
  }

  /** The indentations of the mappings left open are the bottom of the old stack. */
  lemma {:induction false} PopToPrefix(p: Parser, indent: nat)
    requires Valid(p)
    ensures PopTo(p, indent).indents == p.indents[..|PopTo(p, indent).stack|]
    decreases |p.stack|
  {
    if indent < TopIndent(p) {
      var q := Pop(p);
      PopToPrefix(q, indent);
      var n := |PopTo(q, indent).stack|;
      assert q.indents[..n] == p.indents[..n];
    }
  }

  /** `line.rstrip().rstrip(";").lstrip()`. */
  function Content(line: string): (s: string)
    ensures |s| <= |line|
  {
    LStrip(RStripSet(RStrip(line), {';'}))
  }

  /** Blank lines, document markers and comments are skipped. */
  predicate Skipped(s: string)
  {
    s == [] || s == "---" || s == "..." || StartsWith(s, "#")
  }

  predicate IsColon(c: char)
  {
    c == ':'
  }

  /** `s.split(":", 1)` for a text that contains a colon. */
  function SplitColon(s: string): (r: (string, string))
    requires ':' in s
    ensures s == r.0 + ":" + r.1 && ':' !in r.0
  {
    var i := FirstWhere(s, IsColon);
    assert i < |s| by {
      var j :| 0 <= j < |s| && s[j] == ':';
      assert IsColon(s[j]);
    }
    assert s == s[..i] + ":" + s[i + 1..];
    (s[..i], s[i + 1..])
  }

  /** `key.strip().strip('"')`. */
  function CleanKey(k: string): string
  {
    StripSet(Strip(k), {'"'})
  }

  /** The list a value stands for when list items are appended under its key: a list is itself, any other value is wrapped. */
  function AsItems(v: Value): seq<Value>
  {
    if v.List? then v.items else [v]
  }

  /**
   * `container.setdefault(key, []).append(v)`: the list under `key`, or a
   * new empty one, gains `v` at its end; a present value that is not a list
   * has no `append`, which raises.
   */
  function SetDefaultAppend(m: Entries, k: string, v: Value): (r: Option<Entries>)
    ensures r.None? <==> HasKey(m, k) && !Get(m, k).List?
    ensures r.Some? ==> r.value == Set(m, k, List(GetOr(m, k, List([])).items + [v]))
  {
    if !HasKey(m, k) then
      assert [] + [v] == [v];
      Some(Set(m, k, List([v])))
    else if Get(m, k).List? then Some(Set(m, k, List(Get(m, k).items + [v])))
    else None
  }

  /** The plain list item: `setdefault(lk, [])`, a non-list value wrapped into a one-element list, then `append(v)`. */
  function AppendItem(m: Entries, k: string, v: Value): (r: Entries)
    ensures HasKey(r, k) && Get(r, k) == List((if HasKey(m, k) then AsItems(Get(m, k)) else []) + [v])
    ensures forall j :: j != k && HasKey(m, j) ==> HasKey(r, j) && Get(r, j) == Get(m, j)
  {
    var items := if HasKey(m, k) then AsItems(Get(m, k)) else [];
    SetOthers(m, k, List(items + [v]));
    Set(m, k, List(items + [v]))
  }

  /** The same stacks with the innermost mapping's entries replaced. */
  function WithTop(p: Parser, top: Entries): (r: Parser)
    requires Valid(p)
    ensures Valid(r) && |r.stack| == |p.stack| && r.stack[|r.stack| - 1] == top
    ensures r.stack[..|r.stack| - 1] == p.stack[..|p.stack| - 1]
  {
    p.(stack := p.stack[..|p.stack| - 1] + [top])
  }

  /** A `- ` line with its entry: a `key: value` pair appends to the list under `key`; a plain item appends under the last scalar key, if any. */
  function ListLine(q: Parser, entry: string): (r: Option<Parser>)
    requires Valid(q)
    ensures r.Some? ==> Valid(r.value) && |r.value.stack| == |q.stack| && r.value.indents == q.indents
  {
    var top := q.stack[|q.stack| - 1];
    if ':' in entry && !StartsWith(entry, "\"") then
      var (k, v) := SplitColon(entry);
      match SetDefaultAppend(top, CleanKey(k), ParseScalar(Strip(v)))
      case None => None
      case Some(top') => Some(WithTop(q, top'))
    else
      match q.lastKeys[|q.lastKeys| - 1]
      case None => Some(q)
      case Some(lk) => Some(WithTop(q, AppendItem(top, lk, ParseScalar(entry))))
  }

  /** `key:` with nothing after it: an empty mapping is stored under the key and pushed, with the line's indentation and no last key. */
  function Push(q: Parser, key: string, indent: nat): (r: Parser)
    requires Valid(q) && TopIndent(q) <= indent
    ensures Valid(r) && |r.stack| == |q.stack| + 1
    ensures r.indents == q.indents + [indent] && r.keys == q.keys + [key]
    ensures r.stack[|q.stack|] == [] && r.lastKeys == q.lastKeys + [None]
    ensures r.stack[..|q.stack| - 1] == q.stack[..|q.stack| - 1]
    ensures var parent := r.stack[|q.stack| - 1]; HasKey(parent, key) && Get(parent, key) == Dict([])
    ensures var parent, before := r.stack[|q.stack| - 1], q.stack[|q.stack| - 1];
      forall j :: j != key && HasKey(before, j) ==> HasKey(parent, j) && Get(parent, j) == Get(before, j)
  {
    var n := |q.stack|;
    var r := Parser(q.stack[..n - 1] + [Set(q.stack[n - 1], key, Dict([]))] + [[]],
             q.indents + [indent], q.lastKeys + [None], q.keys + [key]);
    assert forall i :: 0 <= i < n ==> r.indents[i] == q.indents[i];
    SetOthers(q.stack[n - 1], key, Dict([]));
    r
  }

  /** `container[key] = value; last_keys[-1] = key`. */
  function StoreScalar(q: Parser, key: string, written: string, v: Value): (r: Parser)
    requires Valid(q)
    ensures Valid(r) && |r.stack| == |q.stack| && r.indents == q.indents && r.keys == q.keys
    ensures r.lastKeys[|r.lastKeys| - 1] == Some(written)
    ensures r.lastKeys[..|q.stack| - 1] == q.lastKeys[..|q.stack| - 1]
    ensures r.stack[..|q.stack| - 1] == q.stack[..|q.stack| - 1]
    ensures var top := r.stack[|q.stack| - 1]; HasKey(top, key) && Get(top, key) == v
    ensures var top, before := r.stack[|q.stack| - 1], q.stack[|q.stack| - 1];
      forall j :: j != key && HasKey(before, j) ==> HasKey(top, j) && Get(top, j) == Get(before, j)
  {
    var n := |q.stack|;
    SetOthers(q.stack[n - 1], key, v);
    Parser(q.stack[..n - 1] + [Set(q.stack[n - 1], key, v)], q.indents, q.lastKeys[..n - 1] + [Some(written)], q.keys)
  }

  /** A `key:` line opens a new mapping stored under the unquoted key; a `key: value` line stores the parsed value and remembers the key as written. */
  function KeyLine(q: Parser, indent: nat, s: string): (r: Parser)
    requires Valid(q) && TopIndent(q) <= indent && ':' in s
    ensures Valid(r)
    ensures |r.stack| >= |q.stack| && r.stack[..|q.stack| - 1] == q.stack[..|q.stack| - 1]
    ensures r.indents == q.indents || r.indents == q.indents + [indent]
  {
    var (k, rest) := SplitColon(s);
    var key := CleanKey(k);
    if Strip(rest) == [] then Push(q, NoBrackets(key), indent)
    else StoreScalar(q, NoBrackets(key), key, ParseScalar(Strip(rest)))
  }

  /** A line that is not skipped, after the dedent: a list line, a key line, or (without a colon) nothing more. */
  function Handle(q: Parser, indent: nat, s: string): (r: Option<Parser>)
    requires Valid(q) && TopIndent(q) <= indent
    ensures r.Some? ==> Valid(r.value)
    ensures r.Some? ==> r.value.indents == q.indents || r.value.indents == q.indents + [indent]
  {
    if StartsWith(s, "- ") then ListLine(q, Strip(s[2..]))
    else if ':' in s then Some(KeyLine(q, indent, s))
    else Some(q)
  }

  /** One line: skipped, or popped back to its indentation and then handled. */
  function Step(p: Parser, line: string): (r: Option<Parser>)
    requires Valid(p)
    ensures r.Some? ==> Valid(r.value)
    ensures Skipped(Content(line)) ==> r == Some(p)
    ensures NonDecreasing(p.indents) && r.Some? ==> NonDecreasing(r.value.indents)
  {
    var s := Content(line);
    if Skipped(s) then Some(p)
    else
      var indent := |line| - |s|;
      HandleOrdered(p, indent, s);
      Handle(PopTo(p, indent), indent, s)
  }

  /**
   * A key line indented exactly like the key line that opened the innermost
   * mapping does not close it (the dedent test is a strict `<`): the key is
   * stored inside that mapping, and every mapping below it is untouched.
   */
  lemma SameIndentKeyNests(p: Parser, line: string)
    requires Valid(p) && |p.stack| >= 2
    requires !Skipped(Content(line)) && !StartsWith(Content(line), "- ") && ':' in Content(line)
    requires |line| - |Content(line)| == TopIndent(p)
    ensures Step(p, line).Some?
    ensures |Step(p, line).value.stack| >= |p.stack|
    ensures Step(p, line).value.stack[..|p.stack| - 1] == p.stack[..|p.stack| - 1]
  {
    var s := Content(line);
    HandleSameIndent(p, |line| - |s|, s);
  }

  /** After the dedent loop, a key line at the innermost mapping's own indentation is stored inside it. */
  lemma HandleSameIndent(p: Parser, indent: nat, s: string)
    requires Valid(p) && |p.stack| >= 2 && indent == TopIndent(p)
    requires !StartsWith(s, "- ") && ':' in s
    ensures Handle(PopTo(p, indent), indent, s).Some?
    ensures |Handle(PopTo(p, indent), indent, s).value.stack| >= |p.stack|
    ensures Handle(PopTo(p, indent), indent, s).value.stack[..|p.stack| - 1] == p.stack[..|p.stack| - 1]
  {
    PopToStays(p, indent);
  }

  lemma PopToStays(p: Parser, indent: nat)
    requires Valid(p) && TopIndent(p) <= indent
    ensures PopTo(p, indent) == p
  {
  }

  /** The stacks after the given lines, or `None` once a line has raised. */
  function Run(lines: seq<string>): (r: Option<Parser>)
    ensures r.Some? ==> Valid(r.value)
    decreases |lines|
  {
    if lines == [] then Some(Start)
    else
      match Run(lines[..|lines| - 1])
      case None => None
      case Some(p) => Step(p, lines[|lines| - 1])
  }

  /** What `parse_dtc_yaml(data)` returns: the flattened root mapping, or `None` where it raises. */
  function ParseDtcYamlSpec(data: string): Option<Value>
  {
    match Run(SplitLines(data))
    case None => None
    case Some(p) => Some(Flatten(Dict(Root(p))))
  }

  /** Once a line has raised, no later line is read. */
  lemma {:induction false} RunFailed(lines: seq<string>, i: nat)
    requires i <= |lines| && Run(lines[..i]) == None
    ensures Run(lines) == None
    decreases |lines| - i
  {
    if i < |lines| {
      assert lines[..i + 1][..i] == lines[..i];
      RunFailed(lines, i + 1);
    } else {
      assert lines[..i] == lines;
    }
  }

  /** Reading one more line is one more `Step`. */
  lemma RunSnoc(lines: seq<string>, i: nat)
    requires i < |lines|
    ensures Run(lines[..i + 1]) == match Run(lines[..i]) case None => None case Some(p) => Step(p, lines[i])
  {
    assert lines[..i + 1][..i] == lines[..i];
  }

  /** The dedent loop: `stack.pop(); indents.pop(); last_keys.pop()` while the line is indented less than the innermost key line. */
  method Dedent(p0: Parser, indent: nat) returns (p: Parser)
    requires Valid(p0)
    ensures p == PopTo(p0, indent)
  {
    p := p0;
    while indent < TopIndent(p)
      invariant Valid(p) && PopTo(p, indent) == PopTo(p0, indent)
      decreases |p.stack|
    {
      p := Pop(p);
    }
  }

  /** The body of the line loop: skip, pop back up while dedenting, then handle a list line or a key line. */
  method ReadLine(p0: Parser, line: string) returns (r: Option<Parser>)
    requires Valid(p0)
    ensures r == Step(p0, line)
  {
    var stripped := Content(line);
    if Skipped(stripped) {
      return Some(p0);
    }
    var indent := |line| - |stripped|;
    var p := Dedent(p0, indent);
    r := Handle(p, indent, stripped);
  }

  /** Closing the deeper mappings and handling the line keeps the indentations non-decreasing. */
  lemma HandleOrdered(p: Parser, indent: nat, s: string)
    requires Valid(p)
    ensures NonDecreasing(p.indents) && Handle(PopTo(p, indent), indent, s).Some? ==>
      NonDecreasing(Handle(PopTo(p, indent), indent, s).value.indents)
  {
    if NonDecreasing(p.indents) {
      var q := PopTo(p, indent);
      PopToPrefix(p, indent);
      NonDecreasingPrefix(p.indents, |q.stack|);
      NonDecreasingSnoc(q.indents, indent);
    }
  }


  lemma NonDecreasingPrefix(s: seq<int>, n: nat)
    requires NonDecreasing(s) && n <= |s|
    ensures NonDecreasing(s[..n])
  {
    forall i, j | 0 <= i <= j < n ensures s[..n][i] <= s[..n][j] {
      assert s[..n][i] == s[i] && s[..n][j] == s[j];
    }
  }

  lemma NonDecreasingSnoc(s: seq<int>, x: int)
    requires NonDecreasing(s) && s != [] && s[|s| - 1] <= x
    ensures NonDecreasing(s + [x])
  {
    var t := s + [x];
    forall i, j | 0 <= i <= j < |t| ensures t[i] <= t[j] {
      if j == |s| && i < |s| {
        assert s[i] <= s[|s| - 1];
      }
    }
  }

  /** Whatever lines are read, the indentations stay non-decreasing up the stack. */
  lemma {:induction false} RunOrdered(lines: seq<string>)
    ensures Run(lines).Some? ==> NonDecreasing(Run(lines).value.indents)
    decreases |lines|
  {
    if lines != [] {
      var ini := lines[..|lines| - 1];
      RunOrdered(ini);
    }
  }

  /** `parse_dtc_yaml(data)`: every line read in turn, then the root mapping flattened. */
  method ParseDtcYaml(data: string) returns (tree: Option<Value>)
    ensures tree == ParseDtcYamlSpec(data)
    ensures tree.Some? ==> tree.value.Dict? && IsFlat(tree.value)
  {
    var lines := SplitLines(data);
    var p := Start;
    var i := 0;
    while i < |lines|
      invariant 0 <= i <= |lines|
      invariant Run(lines[..i]) == Some(p)
    {
      RunSnoc(lines, i);
      var next := ReadLine(p, lines[i]);
      if next.None? {
        // `append` on a value that is not a list raised
        RunFailed(lines, i + 1);
        return None;
      }
      p := next.value;
      i := i + 1;
    }
    assert lines[..|lines|] == lines;
    FlattenIsFlat(Dict(Root(p)));
    tree := Some(Flatten(Dict(Root(p))));
  }
}
