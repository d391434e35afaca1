/**
 * `preprocess_source` (sentryext.py:546-605), the handler of the builder's
 * source-read event: it expands `###name###` variables, drops
 * `sentry:docedition::` lines, and keeps the indented block under a
 * `sentry:edition:: tags` directive only when the build variant is one of
 * the tags, de-indenting it.
 */
module Preprocess {
  import opened Wrappers
  import opened PyStr
  import opened SourceSyntax

  /** `len(l) - len(l.lstrip())` with `l = line.expandtabs()`. */
  function Indent(line: string): nat
  {
    LeadingSpace(ExpandTabs(line))
  }

  /** A line that starts with a run of spaces and tabs is indented by the
      column that run reaches, each tab advancing to the next multiple of 8. */
  lemma IndentOfRun(ws: string, rest: string)
    requires forall i :: 0 <= i < |ws| ==> ws[i] == ' ' || ws[i] == '\t'
    requires rest == [] || !IsSpace(rest[0])
    ensures Indent(ws + rest) == Column(ws, 0)
  {
    ExpandTabsRunIndent(ws, rest, 0);
  }

  /** The directive's own indentation, made of spaces and tabs, is as wide
      as the column it reaches. */
  lemma BlockIndentWidth(indent: string)
    requires forall i :: 0 <= i < |indent| ==> indent[i] == ' ' || indent[i] == '\t'
    ensures |ExpandTabs(indent)| == Column(indent, 0)
  {
    ExpandTabsRunWidth(indent, 0);
  }

  /** `_find_block` takes a line into the block under a directive whose
      indentation is w columns wide when the line is blank
      (`not line.strip()`) or indented strictly deeper. */
  predicate InBlock(line: string, w: nat)
  {
    IsBlank(line) || Indent(line) > w
  }

  /** Where `_find_block` stops: the first line from i on that is neither
      blank nor deeper, or the end of the source. */
  function BlockEnd(lines: seq<string>, i: nat, w: nat): (j: nat)
    requires i <= |lines|
    ensures i <= j <= |lines|
    ensures forall k :: i <= k < j ==> InBlock(lines[k], w)
    ensures j < |lines| ==> !InBlock(lines[j], w)
    decreases |lines| - i
  {
    if i == |lines| || !InBlock(lines[i], w) then i else BlockEnd(lines, i + 1, w)
  }

  /** The stopping rule determines the stop: any j after which every line is
      in the block and at which the block stops is BlockEnd. */
  lemma {:induction false} BlockEndUnique(lines: seq<string>, i: nat, w: nat, j: nat)
    requires i <= j <= |lines|
    requires forall k :: i <= k < j ==> InBlock(lines[k], w)
    requires j < |lines| ==> !InBlock(lines[j], w)
    ensures BlockEnd(lines, i, w) == j
    decreases j - i
  {
    if i < j {
      BlockEndUnique(lines, i + 1, w, j);
    }
  }

  /** `actual_indent`: the least indentation among the non-blank collected
      lines, None when every one is blank; kept as the lines go by. */
  function MinIndent(ls: seq<string>): Option<nat>
  {
    if ls == [] then None else Track(MinIndent(ls[..|ls| - 1]), ls[|ls| - 1])
  }

  /** How one collected line updates `actual_indent`. */
  function Track(actualIndent: Option<nat>, line: string): Option<nat>
  {
    if IsBlank(line) then actualIndent
    else if actualIndent.None? || Indent(line) < actualIndent.value then Some(Indent(line))
    else actualIndent
  }

  /** MinIndent is unset exactly when every collected line is blank. */
  lemma {:induction false} MinIndentNone(ls: seq<string>)
    ensures MinIndent(ls).None? <==> forall k :: 0 <= k < |ls| ==> IsBlank(ls[k])
  {
    if ls != [] {
      var init := ls[..|ls| - 1];
      MinIndentNone(init);
      assert forall k :: 0 <= k < |init| ==> ls[k] == init[k];
    }
  }

  /** No non-blank line is indented less than MinIndent. */
  lemma {:induction false} MinIndentIsLower(ls: seq<string>)
    ensures MinIndent(ls).Some? ==> forall k :: 0 <= k < |ls| && !IsBlank(ls[k]) ==> MinIndent(ls).value <= Indent(ls[k])
  {
    if ls != [] {
      var init := ls[..|ls| - 1];
      MinIndentIsLower(init);
      MinIndentNone(init);
      assert forall k :: 0 <= k < |init| ==> ls[k] == init[k];
    }
  }

  /** MinIndent is the indentation of some non-blank line. */
  lemma {:induction false} MinIndentAttained(ls: seq<string>)
    ensures MinIndent(ls).Some? ==> exists k :: 0 <= k < |ls| && !IsBlank(ls[k]) && Indent(ls[k]) == MinIndent(ls).value
  {
    if ls != [] {
      var init := ls[..|ls| - 1];
      var last := |ls| - 1;
      if MinIndent(ls).Some? && !IsBlank(ls[last]) && Indent(ls[last]) == MinIndent(ls).value {
        assert 0 <= last < |ls| && !IsBlank(ls[last]) && Indent(ls[last]) == MinIndent(ls).value;
      } else if MinIndent(ls).Some? {
        assert MinIndent(ls) == MinIndent(init);
        MinIndentAttained(init);
        var k :| 0 <= k < |init| && !IsBlank(init[k]) && Indent(init[k]) == MinIndent(init).value;
        assert ls[k] == init[k];
      }
    }
  }

  lemma MinIndentSnoc(ls: seq<string>, x: string)
    ensures MinIndent(ls + [x]) == Track(MinIndent(ls), x)
  {
    assert (ls + [x])[..|ls|] == ls;
  }

  /** A collected line as `rv` holds it: blank lines become empty. */
  function Blanked(line: string): string
  {
    if IsBlank(line) then [] else line
  }

  function Collected(ls: seq<string>): seq<string>
  {
    if ls == [] then [] else Collected(ls[..|ls| - 1]) + [Blanked(ls[|ls| - 1])]
  }

  lemma CollectedSnoc(ls: seq<string>, x: string)
    ensures Collected(ls + [x]) == Collected(ls) + [Blanked(x)]
  {
    assert (ls + [x])[..|ls|] == ls;
  }

  lemma {:induction false} CollectedAt(ls: seq<string>)
    ensures |Collected(ls)| == |ls|
    ensures forall k :: 0 <= k < |ls| ==> Collected(ls)[k] == Blanked(ls[k])
  {
    if ls != [] {
      CollectedAt(ls[..|ls| - 1]);
    }
  }

  /** `x[n:]`: slicing past the end gives the empty string. */
  function Drop(s: string, n: nat): string
  {
    if n <= |s| then s[n..] else []
  }

  function DropAll(rv: seq<string>, n: nat): seq<string>
  {
    seq(|rv|, k requires 0 <= k < |rv| => Drop(rv[k], n))
  }

  /** The end of `_find_block`: when anything was collected, add an empty
      line and, if `actual_indent` is set (and not 0), cut that many characters
      from the front of every line. */
  function FinishBlock(rv: seq<string>, actualIndent: Option<nat>): seq<string>
  {
    if rv == [] then []
    else
      var rv' := rv + [[]];
      if actualIndent.Some? && actualIndent.value != 0 then DropAll(rv', actualIndent.value) else rv'
  }

  /** What `_find_block` returns for the lines it collected. */
  function Dedent(ls: seq<string>): seq<string>
  {
    FinishBlock(Collected(ls), MinIndent(ls))
  }

  /** If nothing was collected the block is empty; otherwise it is the
      collected lines, blank ones emptied, each with the least indentation cut
      from its front, and one final empty line. */
  lemma DedentShape(ls: seq<string>)
    ensures ls == [] ==> Dedent(ls) == []
    ensures ls != [] ==> |Dedent(ls)| == |ls| + 1 && Dedent(ls)[|ls|] == []
    ensures forall k :: 0 <= k < |ls| && IsBlank(ls[k]) ==> Dedent(ls)[k] == []
    ensures forall k :: 0 <= k < |ls| && !IsBlank(ls[k]) ==>
              MinIndent(ls).Some? && Dedent(ls)[k] == Drop(ls[k], MinIndent(ls).value)
  {
    CollectedAt(ls);
    MinIndentNone(ls);
    var rv := Collected(ls);
    if ls != [] {
      var rv' := rv + [[]];
      var d := Dedent(ls);
      assert |d| == |rv'|;
      forall k | 0 <= k < |ls|
        ensures d[k] == if IsBlank(ls[k]) then [] else Drop(ls[k], MinIndent(ls).value)
      {
        assert rv'[k] == Blanked(ls[k]);
        if !IsBlank(ls[k]) {
          assert MinIndent(ls).Some?;
        }
      }
      assert d[|ls|] == Drop(rv'[|ls|], if MinIndent(ls).Some? then MinIndent(ls).value else 0);
    }
  }

  /** A block of one line: the line loses as many leading characters as its
      indentation is wide in columns, so a tab counts for up to 8 characters. */
  lemma DedentOneLine(ws: string, rest: string)
    requires forall i :: 0 <= i < |ws| ==> ws[i] == ' ' || ws[i] == '\t'
    requires rest != [] && !IsSpace(rest[0])
    ensures Dedent([ws + rest]) == [Drop(ws + rest, Column(ws, 0)), []]
  {
    var line := ws + rest;
    IndentOfRun(ws, rest);
    LeadingSpaceRun(line);
    assert !IsSpace(line[|ws|]);
    assert !IsBlank(line);
    MinIndentSnoc([], line);
    CollectedSnoc([], line);
    assert [] + [line] == [line];
    FinishBlockSingle(line, Column(ws, 0));
  }

  lemma FinishBlockSingle(line: string, n: nat)
    ensures FinishBlock([line], Some(n)) == [Drop(line, n), []]
  {
    var d := FinishBlock([line], Some(n));
    if n != 0 {
      assert d[0] == Drop(line, n) && d[1] == Drop([], n);
    }
  }

  /** `_find_block` cuts the raw line by the width of its expanded
      indentation: a block line indented by one tab loses its text. */
  lemma TabIndentedLineLost()
    ensures Dedent(["\tfoo"]) == ["", ""]
  {
    assert "\t" + "foo" == "\tfoo";
    assert Column("\t", 0) == 8;
    DedentOneLine("\t", "foo");
  }

  lemma SliceSnoc(lines: seq<string>, start: nat, lineno: nat)
    requires start <= lineno < |lines|
    ensures lines[start..lineno + 1] == lines[start..lineno] + [lines[lineno]]
  {
  }

  /** `_find_block(indent, lineno)`: the block under a directive indented by
      `indent`, and the cursor where scanning stopped. */
  method FindBlock(lines: seq<string>, indent: string, start: nat) returns (block: seq<string>, next: nat)
    requires start <= |lines|
    ensures next == BlockEnd(lines, start, |ExpandTabs(indent)|)
    ensures block == Dedent(lines[start..next])
  {
    var blockIndent := |ExpandTabs(indent)|;
    var rv: seq<string> := [];
    var actualIndent: Option<nat> := None;
    var lineno := start;
    ghost var taken: seq<string> := [];
    while lineno < |lines|
      invariant start <= lineno <= |lines|
      invariant BlockEnd(lines, start, blockIndent) == BlockEnd(lines, lineno, blockIndent)
      invariant taken == lines[start..lineno]
      invariant rv == Collected(taken)
      invariant actualIndent == MinIndent(taken)
    {
      var line := lines[lineno];
      ghost var rv0, actualIndent0 := rv, actualIndent;
      if IsBlank(line) {
        rv := rv + [[]];
      } else {
        var indentWidth := LeadingSpace(ExpandTabs(line));
        if indentWidth > blockIndent {
          if actualIndent.None? || indentWidth < actualIndent.value {
            actualIndent := Some(indentWidth);
          }
          rv := rv + [line];
        } else {
          break;
        }
      }
      assert rv == rv0 + [Blanked(line)] && actualIndent == Track(actualIndent0, line);
      CollectedSnoc(taken, line);
      MinIndentSnoc(taken, line);
      SliceSnoc(lines, start, lineno);
      taken := taken + [line];
      lineno := lineno + 1;
    }
    next := lineno;
    block := FinishBlock(rv, actualIndent);
  }

  /** One step of the main loop, as what it consumed and what it decided. */
  datatype Segment =
    | Text(start: nat, text: string)
    | DocEdition(start: nat)
    | Edition(start: nat, tags: set<string>, stop: nat, block: seq<string>)

  function SegEnd(seg: Segment): nat
  {
    if seg.Edition? then seg.stop else seg.start + 1
  }

  function Prepend(seg: Segment, rest: Result<seq<Segment>, PreprocessError>): Result<seq<Segment>, PreprocessError>
  {
    match rest
    case Err(e) => Err(e)
    case Ok(segs) => Ok([seg] + segs)
  }

  /** One pass of the main loop at line i: expand the line, then classify
      it; an edition directive takes its block with it. */
  function ScanStep(lines: seq<string>, cfg: Option<Config>, i: nat): (r: Result<Segment, PreprocessError>)
    requires i < |lines|
    ensures r.Ok? ==> r.value.start == i && i < SegEnd(r.value) <= |lines|
  {
    match ExpandLine(lines[i], cfg)
    case Err(e) => Err(e)
    case Ok(line) =>
      match EditionMatch(line)
      case None => Ok(if DocEditionMatch(line) then DocEdition(i) else Text(i, line))
      case Some((indent, tags)) =>
        var j := BlockEnd(lines, i + 1, |ExpandTabs(indent)|);
        Ok(Edition(i, CommaSet(tags), j, Dedent(lines[i + 1..j])))
  }

  /** The main loop's path through the source from line i. */
  function Scan(lines: seq<string>, cfg: Option<Config>, i: nat): Result<seq<Segment>, PreprocessError>
    requires i <= |lines|
    decreases |lines| - i
  {
    if i == |lines| then Ok([])
    else match ScanStep(lines, cfg, i)
      case Err(e) => Err(e)
      case Ok(seg) => Prepend(seg, Scan(lines, cfg, SegEnd(seg)))
  }

  /** What a step contributes to the output: a directive's block only when
      the variant is among its tags (an unset variant is in no tag set). */
  function EmitSegment(seg: Segment, variant: Option<string>): seq<string>
  {
    match seg
    case Text(_, text) => [text]
    case DocEdition(_) => []
    case Edition(_, tags, _, block) => if variant.Some? && variant.value in tags then block else []
  }

  function Emit(segs: seq<Segment>, variant: Option<string>): seq<string>
  {
    if segs == [] then [] else EmitSegment(segs[0], variant) + Emit(segs[1..], variant)
  }

  function PreprocessFrom(lines: seq<string>, cfg: Option<Config>, variant: Option<string>, i: nat): Result<seq<string>, PreprocessError>
    requires i <= |lines|
  {
    match Scan(lines, cfg, i)
    case Err(e) => Err(e)
    case Ok(segs) => Ok(Emit(segs, variant))
  }

  /** The lines `preprocess_source` leaves, before they are joined. */
  function Preprocess(lines: seq<string>, cfg: Option<Config>, variant: Option<string>): Result<seq<string>, PreprocessError>
  {
    PreprocessFrom(lines, cfg, variant, 0)
  }

  function Glue(done: seq<string>, rest: Result<seq<string>, PreprocessError>): Result<seq<string>, PreprocessError>
  {
    match rest
    case Err(e) => Err(e)
    case Ok(out) => Ok(done + out)
  }

  lemma GlueGlue(a: seq<string>, b: seq<string>, r: Result<seq<string>, PreprocessError>)
    ensures Glue(a, Glue(b, r)) == Glue(a + b, r)
  {
    if r.Ok? {
      assert a + (b + r.value) == (a + b) + r.value;
    }
  }

  lemma GlueEmpty(r: Result<seq<string>, PreprocessError>)
    ensures Glue([], r) == r
  {
    if r.Ok? {
      assert [] + r.value == r.value;
    }
  }

  /** Each step's output comes before the output of the rest. */
  lemma PreprocessFromStep(lines: seq<string>, cfg: Option<Config>, variant: Option<string>, i: nat)
    requires i < |lines|
    ensures ScanStep(lines, cfg, i).Err? ==> PreprocessFrom(lines, cfg, variant, i) == Err(ScanStep(lines, cfg, i).error)
    ensures ScanStep(lines, cfg, i).Ok? ==>
              var seg := ScanStep(lines, cfg, i).value;
              PreprocessFrom(lines, cfg, variant, i) ==
                Glue(EmitSegment(seg, variant), PreprocessFrom(lines, cfg, variant, SegEnd(seg)))
  {
    if ScanStep(lines, cfg, i).Ok? {
      var seg := ScanStep(lines, cfg, i).value;
      match Scan(lines, cfg, SegEnd(seg))
      case Err(_) =>
      case Ok(segs) =>
        assert ([seg] + segs)[1..] == segs;
    }
  }

  /** A line that is not a directive is kept (a `sentry:docedition::` line is
      dropped) and the scan goes on with the next line. */
  lemma PreprocessFromPlain(lines: seq<string>, cfg: Option<Config>, variant: Option<string>, i: nat, line: string)
    requires i < |lines| && ExpandLine(lines[i], cfg) == Ok(line) && EditionMatch(line).None?
    ensures PreprocessFrom(lines, cfg, variant, i) ==
            Glue(if DocEditionMatch(line) then [] else [line], PreprocessFrom(lines, cfg, variant, i + 1))
  {
    var seg := if DocEditionMatch(line) then DocEdition(i) else Text(i, line);
    assert ScanStep(lines, cfg, i) == Ok(seg);
    assert SegEnd(seg) == i + 1;
    PreprocessFromStep(lines, cfg, variant, i);
  }

  /** An edition directive contributes its de-indented block exactly when the
      build variant is one of its tags, and the scan resumes where the block
      ends. */
  lemma PreprocessFromEdition(lines: seq<string>, cfg: Option<Config>, variant: Option<string>, i: nat,
                              line: string, indent: string, tags: string)
    requires i < |lines| && ExpandLine(lines[i], cfg) == Ok(line) && EditionMatch(line) == Some((indent, tags))
    ensures var j := BlockEnd(lines, i + 1, |ExpandTabs(indent)|);
            PreprocessFrom(lines, cfg, variant, i) ==
            Glue(if variant.Some? && variant.value in CommaSet(tags) then Dedent(lines[i + 1..j]) else [],
                 PreprocessFrom(lines, cfg, variant, j))
  {
    var j := BlockEnd(lines, i + 1, |ExpandTabs(indent)|);
    var seg := Edition(i, CommaSet(tags), j, Dedent(lines[i + 1..j]));
    assert ScanStep(lines, cfg, i) == Ok(seg);
    PreprocessFromStep(lines, cfg, variant, i);
  }

  /** What the loop decides about one step is what the source says about the
      line it starts at. */
  ghost predicate SegmentFits(lines: seq<string>, cfg: Option<Config>, seg: Segment)
  {
    seg.start < |lines| &&
    match seg
    case Text(i, text) =>
      ExpandLine(lines[i], cfg) == Ok(text) && EditionMatch(text).None? && !DocEditionMatch(text)
    case DocEdition(i) =>
      ExpandLine(lines[i], cfg).Ok? && EditionMatch(ExpandLine(lines[i], cfg).value).None? &&
      DocEditionMatch(ExpandLine(lines[i], cfg).value)
    case Edition(i, tags, stop, block) =>
      ExpandLine(lines[i], cfg).Ok? && EditionMatch(ExpandLine(lines[i], cfg).value).Some? &&
      var m := EditionMatch(ExpandLine(lines[i], cfg).value).value;
      tags == CommaSet(m.1) && i < stop <= |lines| &&
      stop == BlockEnd(lines, i + 1, |ExpandTabs(m.0)|) && block == Dedent(lines[i + 1..stop])
  }

  /** The steps cover lines i.. end without gap or overlap, each one fitting
      the line it starts at. */
  ghost predicate Tiles(lines: seq<string>, cfg: Option<Config>, i: nat, segs: seq<Segment>)
    decreases |segs|
  {
    if segs == [] then i == |lines|
    else segs[0].start == i && SegmentFits(lines, cfg, segs[0]) && SegEnd(segs[0]) <= |lines| &&
         Tiles(lines, cfg, SegEnd(segs[0]), segs[1..])
  }

  lemma StepFits(lines: seq<string>, cfg: Option<Config>, i: nat)
    requires i < |lines|
    ensures ScanStep(lines, cfg, i).Ok? ==> SegmentFits(lines, cfg, ScanStep(lines, cfg, i).value)
  {
  }

  /** A successful scan is a tiling of the source into steps, each one what
      the source makes of the line it starts at. */
  lemma {:induction false} ScanTiles(lines: seq<string>, cfg: Option<Config>, i: nat)
    requires i <= |lines|
    ensures Scan(lines, cfg, i).Ok? ==> Tiles(lines, cfg, i, Scan(lines, cfg, i).value)
    decreases |lines| - i
  {
    if i < |lines| && Scan(lines, cfg, i).Ok? {
      var seg := ScanStep(lines, cfg, i).value;
      StepFits(lines, cfg, i);
      ScanTiles(lines, cfg, SegEnd(seg));
      var rest := Scan(lines, cfg, SegEnd(seg)).value;
      assert Scan(lines, cfg, i).value == [seg] + rest;
      assert ([seg] + rest)[1..] == rest;
    }
  }

  /** With a configuration present every line expands, so the scan never fails. */
  lemma {:induction false} ScanWithConfig(lines: seq<string>, c: Config, i: nat)
    requires i <= |lines|
    ensures Scan(lines, Some(c), i).Ok?
    decreases |lines| - i
  {
    if i < |lines| {
      ScanWithConfig(lines, c, SegEnd(ScanStep(lines, Some(c), i).value));
    }
  }

  /** Only a missing configuration makes `preprocess_source` fail. */
  lemma PreprocessWithConfig(lines: seq<string>, c: Config, variant: Option<string>)
    ensures Preprocess(lines, Some(c), variant).Ok?
  {
    ScanWithConfig(lines, c, 0);
  }

  /** A missing configuration is harmless when no line holds a reference: the
      result is the one an empty variables table gives. */
  lemma {:induction false} ScanWithoutRefs(lines: seq<string>, i: nat)
    requires i <= |lines|
    requires forall k :: 0 <= k < |lines| ==> RefNames(lines[k], 0) == []
    ensures Scan(lines, None, i) == Scan(lines, Some(Config(None)), i)
    decreases |lines| - i
  {
    if i < |lines| {
      ExpandWithoutRefs(lines[i], None);
      assert ScanStep(lines, None, i) == ScanStep(lines, Some(Config(None)), i);
      ScanWithoutRefs(lines, SegEnd(ScanStep(lines, None, i).value));
    }
  }

  lemma PreprocessWithoutRefs(lines: seq<string>, variant: Option<string>)
    requires forall k :: 0 <= k < |lines| ==> RefNames(lines[k], 0) == []
    ensures Preprocess(lines, None, variant) == Preprocess(lines, Some(Config(None)), variant)
    ensures Preprocess(lines, None, variant).Ok?
  {
    ScanWithoutRefs(lines, 0);
    ScanWithConfig(lines, Config(None), 0);
  }

  /** Every line with its variables expanded, `_expand_vars` line by line. */
  function ExpandAll(ls: seq<string>, vars: Option<map<string, string>>): (r: seq<string>)
    ensures |r| == |ls| && forall k :: 0 <= k < |ls| ==> r[k] == ExpandVars(ls[k], vars)
  {
    if ls == [] then [] else [ExpandVars(ls[0], vars)] + ExpandAll(ls[1..], vars)
  }

  /** A source without directives comes out line for line, each line with
      its variables expanded. */
  lemma {:induction false} PreprocessFromPlainText(lines: seq<string>, c: Config, variant: Option<string>, i: nat)
    requires i <= |lines|
    requires forall k :: i <= k < |lines| ==>
               EditionMatch(ExpandVars(lines[k], c.vars)).None? && !DocEditionMatch(ExpandVars(lines[k], c.vars))
    ensures PreprocessFrom(lines, Some(c), variant, i) == Ok(ExpandAll(lines[i..], c.vars))
    decreases |lines| - i
  {
    if i < |lines| {
      var line := ExpandVars(lines[i], c.vars);
      PreprocessFromPlain(lines, Some(c), variant, i, line);
      PreprocessFromPlainText(lines, c, variant, i + 1);
      assert lines[i..][1..] == lines[i + 1..];
      assert ExpandAll(lines[i..], c.vars) == [line] + ExpandAll(lines[i + 1..], c.vars);
    } else {
      assert Scan(lines, Some(c), i) == Ok([]);
    }
  }

  lemma PreprocessPlainText(lines: seq<string>, c: Config, variant: Option<string>)
    requires forall k :: 0 <= k < |lines| ==>
               EditionMatch(ExpandVars(lines[k], c.vars)).None? && !DocEditionMatch(ExpandVars(lines[k], c.vars))
    ensures Preprocess(lines, Some(c), variant) == Ok(ExpandAll(lines, c.vars))
  {
    PreprocessFromPlainText(lines, c, variant, 0);
    assert lines[0..] == lines;
  }

  /** One pass of the main loop's body at `lineno`: the lines it appends to
      the result and where the loop goes on, or the expansion failure. */
  method ProcessLine(lines: seq<string>, cfg: Option<Config>, variant: Option<string>, lineno: nat)
    returns (step: Result<(seq<string>, nat), PreprocessError>)
    requires lineno < |lines|
    ensures step.Err? ==> PreprocessFrom(lines, cfg, variant, lineno) == Err(step.error)
    ensures step.Ok? ==>
              lineno < step.value.1 <= |lines| &&
              PreprocessFrom(lines, cfg, variant, lineno) ==
                Glue(step.value.0, PreprocessFrom(lines, cfg, variant, step.value.1))
  {
    var expanded := ExpandLine(lines[lineno], cfg);
    if expanded.Err? {
      PreprocessFromStep(lines, cfg, variant, lineno);
      return Err(expanded.error);
    }
    var line := expanded.value;
    var m := EditionMatch(line);
    if m.None? {
      PreprocessFromPlain(lines, cfg, variant, lineno, line);
      var out := if DocEditionMatch(line) then [] else [line];
      return Ok((out, lineno + 1));
    }
    var indent, tags := m.value.0, m.value.1;
    var tagSet := CommaSet(tags);
    var shouldInclude := variant.Some? && variant.value in tagSet;
    var blockLines, next := FindBlock(lines, indent, lineno + 1);
    PreprocessFromEdition(lines, cfg, variant, lineno, line, indent, tags);
    var out := if shouldInclude then blockLines else [];
    return Ok((out, next));
  }

  /** The main `while lineno < end` loop over the source lines. */
  method PreprocessLines(lines: seq<string>, cfg: Option<Config>, variant: Option<string>)
    returns (r: Result<seq<string>, PreprocessError>)
    ensures r == Preprocess(lines, cfg, variant)
  {
    var result: seq<string> := [];
    var lineno := 0;
    GlueEmpty(PreprocessFrom(lines, cfg, variant, lineno));
    var end := |lines|;
    while lineno < end
      invariant 0 <= lineno <= end
      invariant Preprocess(lines, cfg, variant) == Glue(result, PreprocessFrom(lines, cfg, variant, lineno))
      decreases end - lineno
    {
      var step := ProcessLine(lines, cfg, variant, lineno);
      if step.Err? {
        return Err(step.error);
      }
      GlueGlue(result, step.value.0, PreprocessFrom(lines, cfg, variant, step.value.1));
      result := result + step.value.0;
      lineno := step.value.1;
    }
    assert PreprocessFrom(lines, cfg, variant, lineno) == Ok([]);
    assert result + [] == result;
    r := Ok(result);
  }

  /** `preprocess_source` on the one-element list it is handed: split into
      lines, filter, and write the lines back joined by "\n". When the
      expansion fails the list is left as it was. */
  method PreprocessSource(source: array<string>, cfg: Option<Config>, variant: Option<string>)
    returns (failure: Option<PreprocessError>)
    requires source.Length == 1
    modifies source
    ensures match Preprocess(SplitLines(old(source[0])), cfg, variant)
            case Ok(out) => failure.None? && source[0] == Join(out, "\n")
            case Err(e) => failure == Some(e) && source[0] == old(source[0])
  {
    var sourceLines := SplitLines(source[0]);
    var r := PreprocessLines(sourceLines, cfg, variant);
    match r
    case Ok(out) =>
      source[0] := Join(out, "\n");
      failure := None;
    case Err(e) =>
      failure := Some(e);
  }
}
