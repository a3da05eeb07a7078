/**
 * Telling which shipped device-tree blob the running system booted from.
 *
 * `diff_dts` compares two decompiled sources line by line; `detect_live`
 * walks the candidate blobs, returns at once on one whose source hashes to
 * the live tree's hash, and otherwise keeps the candidate with the fewest
 * extra live lines (the first one on ties); `identify_base_dtb` accepts
 * exact matches only. Decompiling, hashing and reading the live tree are
 * inputs here: each candidate carries the source `dtc` produced for it (or
 * none when that failed), and the hash is a function parameter. The blob
 * directory is `None` when the search at import time found none; both
 * functions then fail with an `AttributeError` nothing catches.
 */
module Match {
  import opened Wrappers
  import opened Text

  /** A `.dtb` file: its path relative to the blob directory and, when it could be decompiled, its source. */
  datatype Candidate = Candidate(path: string, dts: Option<string>)

  /** What `detect_live` returns: a blob with the lines the live tree has beyond it, or an error message. */
  datatype Detection = Found(path: string, diff: set<string>) | NotFound(reason: string)

  /** What `identify_base_dtb` returns: the blob that matches exactly, or an error message. */
  datatype Identification = Identified(path: string) | Unidentified(reason: string)

  /** The distinct lines of a text, as `set(s.splitlines())`. */
  function LineSet(s: string): (ls: set<string>)
    ensures forall l :: l in ls <==> l in SplitLines(s)
  {
    set l | l in SplitLines(s)
  }

  /** `diff_dts(base, live)`: the lines of `live` that `base` lacks; the list Python builds from this set has no defined order. */
  function DiffDts(base: string, live: string): (d: set<string>)
    ensures d <= LineSet(live) && d !! LineSet(base)
    ensures forall l :: l in SplitLines(live) && l !in SplitLines(base) ==> l in d
  {
    LineSet(live) - LineSet(base)
  }

  /** The diff is empty exactly when every live line also occurs in the base. */
  lemma DiffEmpty(base: string, live: string)
    ensures DiffDts(base, live) == {} <==> forall l :: l in SplitLines(live) ==> l in SplitLines(base)
  {
    if DiffDts(base, live) == {} {
      forall l | l in SplitLines(live) ensures l in SplitLines(base) {
        assert l !in DiffDts(base, live);
      }
    }
  }

  /** A tree compared with itself adds nothing. */
  lemma DiffSelf(s: string)
    ensures DiffDts(s, s) == {}
  {
    DiffEmpty(s, s);
  }

  /** The diff holds no more lines than the live text has, duplicates counted once. */
  lemma DiffSize(base: string, live: string)
    ensures |DiffDts(base, live)| <= |SplitLines(live)|
  {
    SetOfLinesSize(SplitLines(live));
    assert DiffDts(base, live) <= set l | l in SplitLines(live);
  }

  /** A sequence has at least as many elements as the set of them. */
  lemma {:induction false} SetOfLinesSize(ls: seq<string>)
    ensures |set l | l in ls| <= |ls|
    decreases |ls|
  {
    if ls != [] {
      var rest := ls[1..];
      SetOfLinesSize(rest);
      assert (set l | l in ls) == (set l | l in rest) + {ls[0]};
    }
  }

  // ----- detect_live -----

  /** `dt_process_candidate` did not return `None`. */
  predicate Usable(c: Candidate)
  {
    c.dts.Some?
  }

  /** The candidate's source hashes to the live hash. */
  predicate IsExact<H(==)>(hash: string -> H, liveHash: H, c: Candidate)
  {
    c.dts.Some? && hash(c.dts.value) == liveHash
  }

  /** `len(diff_dts(candidate, live))`. */
  function Size(live: string, c: Candidate): nat
    requires Usable(c)
  {
    |DiffDts(c.dts.value, live)|
  }

  /** The closest candidate so far (`best_match`, `best_dts`, `min_diff`). */
  datatype Best = Best(path: string, dts: string, size: nat)

  /** The state of the loop in `detect_live`: returned early on an exact match, or still looking. */
  datatype Scan = Exact(path: string) | Closest(best: Option<Best>)

  /** One candidate: an exact match ends the search; otherwise a strictly smaller diff replaces the best so far. */
  function Consider<H(==)>(hash: string -> H, liveHash: H, live: string, s: Scan, c: Candidate): (r: Scan)
    ensures s.Exact? ==> r == s
    ensures s.Closest? && IsExact(hash, liveHash, c) ==> r == Exact(c.path)
    ensures s.Closest? && !IsExact(hash, liveHash, c) ==> r.Closest?
  {
    match s
    case Exact(_) => s
    case Closest(best) =>
      match c.dts
      case None => s
      case Some(dts) =>
        if hash(dts) == liveHash then Exact(c.path)
        else
          var n := |DiffDts(dts, live)|;
          if best.None? || n < best.value.size then Closest(Some(Best(c.path, dts, n))) else s
  }

  /** The loop over the candidates in the order they come in. */
  function ScanAll<H(==)>(hash: string -> H, liveHash: H, live: string, cands: seq<Candidate>): Scan
    decreases |cands|
  {
    if cands == [] then Closest(None)
    else Consider(hash, liveHash, live, ScanAll(hash, liveHash, live, cands[..|cands| - 1]), cands[|cands| - 1])
  }

  /** `detect_live` with the live source (or `None` when it could not be read) and the candidates as inputs. */
  function DetectLive<H(==)>(hash: string -> H, live: Option<string>, cands: seq<Candidate>): Detection
  {
    match live
    case None => NotFound("Could not read live FDT")
    case Some(text) =>
      match ScanAll(hash, hash(text), text, cands)
      case Exact(p) => Found(p, {})
      case Closest(best) =>
        if best.Some? && best.value.dts != "" then Found(best.value.path, DiffDts(best.value.dts, text))
        else NotFound("No match found")
  }

  /**
   * `detect_live` as called: the live tree is read first, then the blob
   * directory (`DTB_PATH`) is searched; `None` is the uncaught
   * `AttributeError` of `None.rglob` when no directory was found.
   */
  function DetectLiveIn<H(==)>(hash: string -> H, live: Option<string>, dir: Option<seq<Candidate>>): (r: Option<Detection>)
    ensures r.None? <==> live.Some? && dir.None?
    ensures live.None? ==> r == Some(NotFound("Could not read live FDT"))
    ensures dir.Some? ==> r == Some(DetectLive(hash, live, dir.value))
  {
    if live.None? then Some(NotFound("Could not read live FDT"))
    else
      match dir
      case None => None
      case Some(cands) => Some(DetectLive(hash, live, cands))
  }

  /** `detect_live`, with its loop. */
  method DetectLiveLoop<H(==)>(hash: string -> H, live: Option<string>, dir: Option<seq<Candidate>>) returns (r: Option<Detection>)
    ensures r == DetectLiveIn(hash, live, dir)
  {
    if live.None? {
      return Some(NotFound("Could not read live FDT"));
    }
    if dir.None? {
      return None;
    }
    var d := SelectLoop(hash, live.value, dir.value);
    return Some(d);
  }

  /** The loop of `detect_live` over the candidates, once the live text is read. */
  method SelectLoop<H(==)>(hash: string -> H, text: string, cands: seq<Candidate>) returns (r: Detection)
    ensures r == DetectLive(hash, Some(text), cands)
  {
    var liveHash := hash(text);
    var best: Option<Best> := None;
    for i := 0 to |cands|
      invariant ScanAll(hash, liveHash, text, cands[..i]) == Closest(best)
    {
      assert cands[..i + 1][..i] == cands[..i];
      var c := cands[i];
      if c.dts.Some? {
        var dts := c.dts.value;
        if hash(dts) == liveHash {
          ExactSticks(hash, liveHash, text, cands, i + 1);
          return Found(c.path, {});
        }
        var n := |DiffDts(dts, text)|;
        if best.None? || n < best.value.size {
          best := Some(Best(c.path, dts, n));
        }
      }
    }
    assert cands[..|cands|] == cands;
    if best.Some? && best.value.dts != "" {
      return Found(best.value.path, DiffDts(best.value.dts, text));
    }
    return NotFound("No match found");
  }

  /** Once an exact match is found, later candidates are not looked at. */
  lemma {:induction false} ExactSticks<H>(hash: string -> H, liveHash: H, live: string, cands: seq<Candidate>, k: nat)
    requires k <= |cands| && ScanAll(hash, liveHash, live, cands[..k]).Exact?
    ensures ScanAll(hash, liveHash, live, cands) == ScanAll(hash, liveHash, live, cands[..k])
    decreases |cands|
  {
    if k < |cands| {
      var ini := cands[..|cands| - 1];
      assert ini[..k] == cands[..k];
      ExactSticks(hash, liveHash, live, ini, k);
    } else {
      assert cands[..k] == cands;
    }
  }

  /** No candidate before `i` is an exact match. */
  predicate NoExactBefore<H(==)>(hash: string -> H, liveHash: H, cands: seq<Candidate>, i: nat)
    requires i <= |cands|
  {
    forall j :: 0 <= j < i ==> !IsExact(hash, liveHash, cands[j])
  }

  /**
   * Candidate `i` is the one the strict `<` keeps: its diff is no larger
   * than any usable candidate's, and every usable candidate before it has
   * a strictly larger diff.
   */
  ghost predicate IsFirstMin(live: string, cands: seq<Candidate>, i: nat)
  {
    i < |cands| && Usable(cands[i]) &&
    (forall j :: 0 <= j < |cands| && Usable(cands[j]) ==> Size(live, cands[i]) <= Size(live, cands[j])) &&
    (forall j :: 0 <= j < i && Usable(cands[j]) ==> Size(live, cands[j]) > Size(live, cands[i]))
  }

  /** `best` is what the loop keeps for `cands`: nothing when no candidate is usable, else the first minimum. */
  ghost predicate BestOf(live: string, cands: seq<Candidate>, best: Option<Best>)
  {
    match best
    case None => forall j :: 0 <= j < |cands| ==> !Usable(cands[j])
    case Some(b) =>
      exists i: nat :: IsFirstMin(live, cands, i) && cands[i].path == b.path && cands[i].dts == Some(b.dts) &&
        b.size == Size(live, cands[i])
  }

  /** Without an exact match the loop ends with the first candidate of smallest diff, or with none if none was usable. */
  lemma {:induction false} ScanClosest<H>(hash: string -> H, liveHash: H, live: string, cands: seq<Candidate>)
    requires NoExactBefore(hash, liveHash, cands, |cands|)
    ensures ScanAll(hash, liveHash, live, cands).Closest?
    ensures BestOf(live, cands, ScanAll(hash, liveHash, live, cands).best)
    decreases |cands|
  {
    if cands != [] {
      var n := |cands| - 1;
      var ini := cands[..n];
      assert NoExactBefore(hash, liveHash, ini, n);
      ScanClosest(hash, liveHash, live, ini);
      ButLast(cands);
      ConsiderClosest(hash, liveHash, live, ini, cands[n], ScanAll(hash, liveHash, live, ini));
    }
  }

  /** One step of `ScanClosest`: what the loop keeps after one more candidate that is not an exact match. */
  lemma ConsiderClosest<H>(hash: string -> H, liveHash: H, live: string, ini: seq<Candidate>, c: Candidate, s: Scan)
    requires s.Closest? && BestOf(live, ini, s.best) && !IsExact(hash, liveHash, c)
    ensures Consider(hash, liveHash, live, s, c).Closest?
    ensures BestOf(live, ini + [c], Consider(hash, liveHash, live, s, c).best)
  {
    if s.best.None? {
      ConsiderFirst(hash, liveHash, live, ini, c);
    } else {
      ConsiderNext(hash, liveHash, live, ini, c, s.best.value);
    }
  }

  /** `ConsiderClosest` before any usable candidate has been seen. */
  lemma ConsiderFirst<H>(hash: string -> H, liveHash: H, live: string, ini: seq<Candidate>, c: Candidate)
    requires BestOf(live, ini, None) && !IsExact(hash, liveHash, c)
    ensures BestOf(live, ini + [c], Consider(hash, liveHash, live, Closest(None), c).best)
  {
    if Usable(c) {
      KeptFirst(live, ini, c);
    } else {
      var cands := ini + [c];
      assert forall j :: 0 <= j < |ini| ==> cands[j] == ini[j];
    }
  }

  /** `ConsiderClosest` once a closest candidate `b` is kept. */
  lemma ConsiderNext<H>(hash: string -> H, liveHash: H, live: string, ini: seq<Candidate>, c: Candidate, b: Best)
    requires BestOf(live, ini, Some(b)) && !IsExact(hash, liveHash, c)
    ensures BestOf(live, ini + [c], Consider(hash, liveHash, live, Closest(Some(b)), c).best)
  {
    var i: nat :| IsFirstMin(live, ini, i) && ini[i].path == b.path && ini[i].dts == Some(b.dts) &&
      b.size == Size(live, ini[i]);
    var cands := ini + [c];
    var r := Consider(hash, liveHash, live, Closest(Some(b)), c);
    if Usable(c) && Size(live, c) < b.size {
      KeptReplaced(live, ini, c, i);
      assert r.best == Some(Best(c.path, c.dts.value, Size(live, c)));
      assert IsFirstMin(live, cands, |ini|) && cands[|ini|] == c;
    } else {
      KeptStays(live, ini, c, i);
      assert r.best == Some(b);
      assert IsFirstMin(live, cands, i) && cands[i] == ini[i];
    }
  }

  /** The first usable candidate is kept. */
  lemma KeptFirst(live: string, ini: seq<Candidate>, c: Candidate)
    requires BestOf(live, ini, None) && Usable(c)
    ensures IsFirstMin(live, ini + [c], |ini|) && (ini + [c])[|ini|] == c
  {
    var cands := ini + [c];
    assert forall j :: 0 <= j < |ini| ==> cands[j] == ini[j];
  }

  /** A candidate with a strictly smaller diff replaces the kept one. */
  lemma KeptReplaced(live: string, ini: seq<Candidate>, c: Candidate, i: nat)
    requires IsFirstMin(live, ini, i) && Usable(c) && Size(live, c) < Size(live, ini[i])
    ensures IsFirstMin(live, ini + [c], |ini|) && (ini + [c])[|ini|] == c
  {
    var cands := ini + [c];
    assert forall j :: 0 <= j < |ini| ==> cands[j] == ini[j];
  }

  /** A candidate that is unusable, or whose diff is not strictly smaller, leaves the kept one in place. */
  lemma KeptStays(live: string, ini: seq<Candidate>, c: Candidate, i: nat)
    requires IsFirstMin(live, ini, i) && (Usable(c) ==> Size(live, c) >= Size(live, ini[i]))
    ensures IsFirstMin(live, ini + [c], i) && (ini + [c])[i] == ini[i]
  {
    var cands := ini + [c];
    assert forall j :: 0 <= j < |ini| ==> cands[j] == ini[j];
  }

  /** At most one candidate is the first minimum. */
  lemma FirstMinUnique(live: string, cands: seq<Candidate>, i: nat, k: nat)
    requires IsFirstMin(live, cands, i) && IsFirstMin(live, cands, k)
    ensures i == k
  {
  }

  /** The first exact match is returned with an empty diff, whatever comes before or after it. */
  lemma DetectLiveExact<H>(hash: string -> H, text: string, cands: seq<Candidate>, i: nat)
    requires i < |cands| && IsExact(hash, hash(text), cands[i]) && NoExactBefore(hash, hash(text), cands, i)
    ensures DetectLive(hash, Some(text), cands) == Found(cands[i].path, {})
  {
    var liveHash := hash(text);
    var pre := cands[..i];
    assert forall j :: 0 <= j < i ==> pre[j] == cands[j];
    ScanClosest(hash, liveHash, text, pre);
    assert cands[..i + 1][..i] == pre;
    ExactSticks(hash, liveHash, text, cands, i + 1);
  }

  /**
   * Without an exact match, a reported blob is the first candidate of
   * smallest diff and the diff reported is that candidate's.
   */
  lemma DetectLiveClosest<H>(hash: string -> H, text: string, cands: seq<Candidate>)
    requires NoExactBefore(hash, hash(text), cands, |cands|)
    ensures DetectLive(hash, Some(text), cands).Found? ==>
      exists i: nat :: IsFirstMin(text, cands, i) && cands[i].path == DetectLive(hash, Some(text), cands).path &&
        DetectLive(hash, Some(text), cands).diff == DiffDts(cands[i].dts.value, text)
  {
    ScanClosest(hash, hash(text), text, cands);
  }

  /**
   * With the live tree read, "No match found" comes exactly when no
   * candidate matches exactly and the kept candidate, if any, has an empty
   * source (which Python's `if best_dts:` treats as no candidate).
   */
  lemma DetectLiveNotFound<H>(hash: string -> H, text: string, cands: seq<Candidate>)
    ensures DetectLive(hash, Some(text), cands).NotFound? <==>
      NoExactBefore(hash, hash(text), cands, |cands|) &&
      forall i: nat :: IsFirstMin(text, cands, i) ==> cands[i].dts == Some("")
  {
    var liveHash := hash(text);
    if NoExactBefore(hash, liveHash, cands, |cands|) {
      ScanClosest(hash, liveHash, text, cands);
      var best := ScanAll(hash, liveHash, text, cands).best;
      if best.Some? {
        var b := best.value;
        var i: nat :| IsFirstMin(text, cands, i) && cands[i].path == b.path && cands[i].dts == Some(b.dts) &&
          b.size == Size(text, cands[i]);
        forall k: nat | IsFirstMin(text, cands, k) ensures k == i {
          FirstMinUnique(text, cands, i, k);
        }
      }
    } else {
      var i :| 0 <= i < |cands| && IsExact(hash, liveHash, cands[i]);
      var f := FirstExact(hash, liveHash, cands, i);
      DetectLiveExact(hash, text, cands, f);
    }
  }

  /** Without any usable candidate the answer is "No match found". */
  lemma DetectLiveNoCandidate<H>(hash: string -> H, text: string, cands: seq<Candidate>)
    requires forall j :: 0 <= j < |cands| ==> !Usable(cands[j])
    ensures DetectLive(hash, Some(text), cands) == NotFound("No match found")
  {
    DetectLiveNotFound(hash, text, cands);
  }

  /** Some exact match has a first one. */
  lemma {:induction false} FirstExact<H>(hash: string -> H, liveHash: H, cands: seq<Candidate>, i: nat) returns (f: nat)
    requires i < |cands| && IsExact(hash, liveHash, cands[i])
    ensures f <= i && IsExact(hash, liveHash, cands[f]) && NoExactBefore(hash, liveHash, cands, f)
    decreases i
  {
    if NoExactBefore(hash, liveHash, cands, i) {
      f := i;
    } else {
      var j :| 0 <= j < i && IsExact(hash, liveHash, cands[j]);
      f := FirstExact(hash, liveHash, cands, j);
    }
  }

  /** The hash tells texts apart (SHA-256 is treated as collision-free). */
  ghost predicate Injective<H>(hash: string -> H)
  {
    forall a: string, b: string :: hash(a) == hash(b) ==> a == b
  }

  /** With a collision-free hash, the empty diff reported for an exact match is the true diff. */
  lemma ExactMatchDiff<H>(hash: string -> H, text: string, c: Candidate)
    requires Injective(hash) && IsExact(hash, hash(text), c)
    ensures c.dts == Some(text) && DiffDts(c.dts.value, text) == {}
  {
    DiffSelf(text);
  }

  // ----- identify_base_dtb -----

  /** The paths of the exact matches, in order (the `matches` list). */
  function ExactMatches<H(==)>(hash: string -> H, liveHash: H, cands: seq<Candidate>): (ps: seq<string>)
    ensures |ps| <= |cands|
    decreases |cands|
  {
    if cands == [] then []
    else
      var ps := ExactMatches(hash, liveHash, cands[..|cands| - 1]);
      var c := cands[|cands| - 1];
      if IsExact(hash, liveHash, c) then ps + [c.path] else ps
  }

  /** `identify_base_dtb` with the live source and the candidates as inputs. */
  function IdentifyBase<H(==)>(hash: string -> H, live: Option<string>, cands: seq<Candidate>): Identification
  {
    match live
    case None => Unidentified("Failed to read live FDT")
    case Some(text) =>
      var ms := ExactMatches(hash, hash(text), cands);
      if ms != [] then Identified(ms[0]) else Unidentified("No exact match found (overlays likely applied)")
  }

  /**
   * `identify_base_dtb` as called: like `detect_live`, it reads the live tree
   * first and then fails with `AttributeError` (`None`) when no blob
   * directory was found.
   */
  function IdentifyBaseIn<H(==)>(hash: string -> H, live: Option<string>, dir: Option<seq<Candidate>>): (r: Option<Identification>)
    ensures r.None? <==> live.Some? && dir.None?
    ensures live.None? ==> r == Some(Unidentified("Failed to read live FDT"))
    ensures dir.Some? ==> r == Some(IdentifyBase(hash, live, dir.value))
  {
    if live.None? then Some(Unidentified("Failed to read live FDT"))
    else
      match dir
      case None => None
      case Some(cands) => Some(IdentifyBase(hash, live, cands))
  }

  /** `identify_base_dtb`, with its loop. */
  method IdentifyBaseDtb<H(==)>(hash: string -> H, live: Option<string>, dir: Option<seq<Candidate>>) returns (r: Option<Identification>)
    ensures r == IdentifyBaseIn(hash, live, dir)
  {
    if live.None? {
      return Some(Unidentified("Failed to read live FDT"));
    }
    if dir.None? {
      return None;
    }
    var cands := dir.value;
    var liveHash := hash(live.value);
    var matches: seq<string> := [];
    for i := 0 to |cands|
      invariant matches == ExactMatches(hash, liveHash, cands[..i])
    {
      assert cands[..i + 1][..i] == cands[..i];
      var c := cands[i];
      if c.dts.Some? && hash(c.dts.value) == liveHash {
        matches := matches + [c.path];
      }
    }
    assert cands[..|cands|] == cands;
    if matches != [] {
      return Some(Identified(matches[0]));
    }
    return Some(Unidentified("No exact match found (overlays likely applied)"));
  }

  /** The exact matches are empty exactly when no candidate matches, and otherwise start with the first match. */
  lemma {:induction false} ExactMatchesFirst<H>(hash: string -> H, liveHash: H, cands: seq<Candidate>)
    ensures ExactMatches(hash, liveHash, cands) == [] <==> NoExactBefore(hash, liveHash, cands, |cands|)
    ensures forall i :: 0 <= i < |cands| && IsExact(hash, liveHash, cands[i]) && NoExactBefore(hash, liveHash, cands, i) ==>
      ExactMatches(hash, liveHash, cands)[0] == cands[i].path
    decreases |cands|
  {
    if cands != [] {
      var n := |cands| - 1;
      var ini := cands[..n];
      assert forall j :: 0 <= j < n ==> ini[j] == cands[j];
      ExactMatchesFirst(hash, liveHash, ini);
    }
  }

  /**
   * `identify_base_dtb` reports the first exact match, or its error when
   * there is none; where an exact match exists, `detect_live` reports the
   * same blob.
   */
  lemma IdentifyAgrees<H>(hash: string -> H, text: string, cands: seq<Candidate>)
    ensures IdentifyBase(hash, Some(text), cands).Unidentified? <==> NoExactBefore(hash, hash(text), cands, |cands|)
    ensures IdentifyBase(hash, Some(text), cands).Identified? ==>
      DetectLive(hash, Some(text), cands) == Found(IdentifyBase(hash, Some(text), cands).path, {})
  {
    var liveHash := hash(text);
    ExactMatchesFirst(hash, liveHash, cands);
    if !NoExactBefore(hash, liveHash, cands, |cands|) {
      var i :| 0 <= i < |cands| && IsExact(hash, liveHash, cands[i]);
      var f := FirstExact(hash, liveHash, cands, i);
      DetectLiveExact(hash, text, cands, f);
    }
  }
}
