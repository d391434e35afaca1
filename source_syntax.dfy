/**
 * The line-level syntax `preprocess_source` recognises (sentryext.py:32-35,
 * 576-580): the `sentry:edition::` and `sentry:docedition::` directive
 * patterns, matched with `re.match`, and `###name###` variable references,
 * replaced with `re.sub`.
 */
module SourceSyntax {
  import opened Wrappers
  import opened PyStr

  /** The per-directory configuration file's content, as far as it is read
      here: its optional `vars` table. */
  datatype Config = Config(vars: Option<map<string, string>>)

  /** Reading a missing configuration (`cfg` is None) raises AttributeError. */
  datatype PreprocessError = MissingConfig

  const EditionKeyword: string := "sentry:edition::"
  const DocEditionKeyword: string := "sentry:docedition::"

  /** Length of the run of `\s` characters starting at i. */
  function ReSpaceRun(s: string, i: nat): (n: nat)
    requires i <= |s|
    ensures i + n <= |s|
    ensures forall q :: i <= q < i + n ==> IsReSpace(s[q])
    ensures i + n < |s| ==> !IsReSpace(s[i + n])
    decreases |s| - i
  {
    if i == |s| || !IsReSpace(s[i]) then 0 else 1 + ReSpaceRun(s, i + 1)
  }

  /** `\s*(.*?)$` tried at t: the greedy `\s*` takes the whole run of
      whitespace, `.` never crosses a newline, and `$` holds at the end or
      just before a final newline. The result is the captured group. */
  function TailGroup(s: string, t: nat): Option<string>
    requires t <= |s|
  {
    var u := t + ReSpaceRun(s, t);
    if u + 1 >= |s| || '\n' !in s[u..|s| - 1] then
      Some(s[u..if u < |s| && s[|s| - 1] == '\n' then |s| - 1 else |s|])
    else None
  }

  /** `..\s+<keyword>\s*(.*?)$` tried at k: `..` is any two characters other
      than a newline, not two literal dots. */
  function DirectiveAt(s: string, k: nat, keyword: string): Option<string>
    requires k <= |s|
  {
    if k + 2 > |s| || s[k] == '\n' || s[k + 1] == '\n' then None
    else
      var r := ReSpaceRun(s, k + 2);
      var kw := k + 2 + r;
      if r == 0 || kw + |keyword| > |s| || s[kw..kw + |keyword|] != keyword then None
      else TailGroup(s, kw + |keyword|)
  }

  /** `_edition_re.match` with the greedy `(\s*)` giving back one character at
      a time, starting from k. */
  function EditionFrom(s: string, k: nat): Option<(string, string)>
    requires k <= |s|
    decreases k
  {
    match DirectiveAt(s, k, EditionKeyword)
    case Some(tags) => Some((s[..k], tags))
    case None => if k == 0 then None else EditionFrom(s, k - 1)
  }

  /** `_edition_re.match(line)`: the indentation group and the tags group of
      `^(\s*)..\s+sentry:edition::\s*(.*?)$`. */
  function EditionMatch(s: string): Option<(string, string)>
  {
    EditionFrom(s, ReSpaceRun(s, 0))
  }

  /** The first j characters of s are all `\s`. */
  ghost predicate SpacePrefix(s: string, j: int)
  {
    0 <= j <= |s| && forall q :: 0 <= q < j ==> IsReSpace(s[q])
  }

  /** The directive pattern matches at no position in (lo, hi]. */
  ghost predicate NoEditionIn(s: string, lo: int, hi: int)
  {
    forall j :: lo < j <= hi ==> DirectiveAt'(s, j)
  }

  /** DirectiveAt at an unchecked position: fails outside the string. */
  ghost predicate DirectiveAt'(s: string, j: int)
  {
    0 <= j <= |s| ==> DirectiveAt(s, j, EditionKeyword).None?
  }

  lemma {:induction false} EditionFromIsLongest(s: string, k: nat)
    requires k <= |s|
    ensures var m := EditionFrom(s, k);
            (m.Some? ==> |m.value.0| <= k && m.value.0 == s[..|m.value.0|] &&
                         DirectiveAt(s, |m.value.0|, EditionKeyword) == Some(m.value.1) &&
                         NoEditionIn(s, |m.value.0|, k)) &&
            (m.None? ==> NoEditionIn(s, -1, k))
    decreases k
  {
    var here := DirectiveAt(s, k, EditionKeyword);
    if here.Some? {
      assert EditionFrom(s, k) == Some((s[..k], here.value));
      assert |s[..k]| == k && s[..k] == s[..|s[..k]|];
      assert NoEditionIn(s, k, k);
    } else if k == 0 {
      assert EditionFrom(s, k).None?;
      assert DirectiveAt'(s, 0);
    } else {
      assert EditionFrom(s, k) == EditionFrom(s, k - 1);
      EditionFromIsLongest(s, k - 1);
      var m := EditionFrom(s, k);
      var lo := if m.Some? then |m.value.0| else -1;
      NoEditionExtend(s, lo, k);
    }
  }

  lemma NoEditionExtend(s: string, lo: int, k: nat)
    requires NoEditionIn(s, lo, k - 1) && DirectiveAt'(s, k)
    ensures NoEditionIn(s, lo, k)
  {
  }

  /** The pattern matches exactly when the directive follows some whitespace
      prefix, and the captured indentation is the LONGEST such prefix (the
      greedy `(\s*)` gives back characters only as far as it must). */
  lemma EditionMatchIsLongest(s: string)
    ensures var m := EditionMatch(s);
            (m.Some? ==> |m.value.0| <= |s| && m.value.0 == s[..|m.value.0|] &&
                         SpacePrefix(s, |m.value.0|) &&
                         DirectiveAt(s, |m.value.0|, EditionKeyword) == Some(m.value.1) &&
                         forall j :: |m.value.0| < j && SpacePrefix(s, j) ==>
                           DirectiveAt(s, j, EditionKeyword).None?) &&
            (m.None? ==> forall j :: SpacePrefix(s, j) ==> DirectiveAt(s, j, EditionKeyword).None?)
  {
    var run := ReSpaceRun(s, 0);
    var m := EditionMatch(s);
    EditionFromIsLongest(s, run);
    var lo := if m.Some? then |m.value.0| else -1;
    assert NoEditionIn(s, lo, run);
    forall j | lo < j && SpacePrefix(s, j)
      ensures DirectiveAt(s, j, EditionKeyword).None?
    {
      assert j <= run;
      assert DirectiveAt'(s, j);
    }
    if m.Some? {
      assert SpacePrefix(s, |m.value.0|);
    }
  }

  /** `_docedition_re.match(line)` succeeds: the directive at column 0 only. */
  predicate DocEditionMatch(s: string)
  {
    DirectiveAt(s, 0, DocEditionKeyword).Some?
  }

  /** `\s*(.*?)$` on a tail of text without newlines always matches; the
      group is the tail itself when it does not start with whitespace. */
  lemma TailGroupOfLine(s: string, t: nat)
    requires t <= |s| && '\n' !in s[t..]
    ensures TailGroup(s, t).Some?
    ensures t == |s| || !IsReSpace(s[t]) ==> TailGroup(s, t) == Some(s[t..])
  {
    var u := t + ReSpaceRun(s, t);
    forall q | u <= q < |s| ensures s[q] != '\n' {
      assert s[q] == s[t..][q - t];
    }
    if t < |s| {
      assert s[|s| - 1] == s[t..][|s| - 1 - t];
      if !IsReSpace(s[t]) {
        assert ReSpaceRun(s, t) == 0;
        assert s[t..|s|] == s[t..];
      }
    }
  }

  /** `..\s+<keyword>\s*(.*?)$` matches at k when s reads `.. <keyword> <text>`
      from k on. */
  lemma DirectiveAtLayout(s: string, k: nat, keyword: string, text: string)
    requires keyword != [] && !IsReSpace(keyword[0])
    requires k + 4 + |keyword| <= |s|
    requires s[k] == '.' && s[k + 1] == '.' && s[k + 2] == ' '
    requires s[k + 3..k + 3 + |keyword|] == keyword
    requires s[k + 3 + |keyword|] == ' '
    requires s[k + 4 + |keyword|..] == text && '\n' !in text
    ensures DirectiveAt(s, k, keyword).Some?
    ensures text == [] || !IsReSpace(text[0]) ==> DirectiveAt(s, k, keyword) == Some(text)
  {
    assert s[k + 3] == keyword[0];
    assert ReSpaceRun(s, k + 2) == 1;
    var t := k + 3 + |keyword|;
    assert DirectiveAt(s, k, keyword) == TailGroup(s, t);
    assert s[t..] == [s[t]] + text;
    TailGroupOfLine(s, t);
    if text == [] || !IsReSpace(text[0]) {
      if text != [] {
        assert s[t + 1] == text[0];
      }
      TailGroupOfLine(s, t + 1);
      TailGroupSkip(s, t);
    }
  }

  /** One `\s` before the group is skipped by `\s*`. */
  lemma TailGroupSkip(s: string, t: nat)
    requires t < |s| && IsReSpace(s[t])
    ensures TailGroup(s, t) == TailGroup(s, t + 1)
  {
    assert ReSpaceRun(s, t) == 1 + ReSpaceRun(s, t + 1);
  }

  /** The usual spelling of a directive line, `.. <keyword> <text>`. */
  function Spelled(keyword: string, text: string): string
  {
    ".. " + keyword + " " + text
  }

  /** `..\s+<keyword>\s*(.*?)$` matches its usual spelling. */
  lemma DirectiveAtSpelled(pre: string, keyword: string, text: string)
    requires keyword != [] && !IsReSpace(keyword[0])
    requires '\n' !in text
    ensures var s := pre + Spelled(keyword, text);
            DirectiveAt(s, |pre|, keyword).Some? &&
            (text == [] || !IsReSpace(text[0]) ==> DirectiveAt(s, |pre|, keyword) == Some(text))
  {
    var r := Spelled(keyword, text);
    var s := pre + r;
    var k, n := |pre|, |keyword|;
    SpelledLayout(keyword, text);
    ShiftSlice(pre, r, 0, 3);
    ShiftSlice(pre, r, 3, 3 + n);
    ShiftSlice(pre, r, 3 + n, 4 + n);
    ShiftSlice(pre, r, 4 + n, |r|);
    assert s[k] == s[k..k + 3][0] && s[k + 1] == s[k..k + 3][1] && s[k + 2] == s[k..k + 3][2];
    assert s[k + 3 + n] == s[k + 3 + n..k + 4 + n][0];
    assert s[k + 4 + n..] == s[k + 4 + n..|s|];
    DirectiveAtLayout(s, k, keyword, text);
  }

  lemma SpelledLayout(keyword: string, text: string)
    ensures var r := Spelled(keyword, text);
            var n := |keyword|;
            |r| == 4 + n + |text| && r[0..3] == ".. " && r[3..3 + n] == keyword &&
            r[3 + n..4 + n] == " " && r[4 + n..] == text
  {
  }

  lemma ShiftSlice(pre: string, r: string, i: nat, j: nat)
    requires i <= j <= |r|
    ensures (pre + r)[|pre| + i..|pre| + j] == r[i..j]
  {
  }

  /** A directive right after the whole leading whitespace run is the match. */
  lemma EditionMatchAtRun(s: string, k: nat)
    requires k < |s| && SpacePrefix(s, k) && !IsReSpace(s[k])
    requires DirectiveAt(s, k, EditionKeyword).Some?
    ensures EditionMatch(s) == Some((s[..k], DirectiveAt(s, k, EditionKeyword).value))
  {
    ReSpaceRunFrom(s, 0, k);
  }

  /** The usual spelling `<indent>.. sentry:edition:: <tags>` parses back
      into its indentation and its tags. */
  lemma EditionLineParses(indent: string, tags: string)
    requires forall q :: 0 <= q < |indent| ==> indent[q] == ' ' || indent[q] == '\t'
    requires '\n' !in tags
    requires tags == [] || !IsReSpace(tags[0])
    ensures EditionMatch(indent + Spelled(EditionKeyword, tags)) == Some((indent, tags))
  {
    var rest := Spelled(EditionKeyword, tags);
    var s := indent + rest;
    var k := |indent|;
    DirectiveAtSpelled(indent, EditionKeyword, tags);
    PrefixOfConcat(indent, rest);
    assert s[k] == rest[0] == '.';
    EditionMatchAtRun(s, k);
  }

  lemma PrefixOfConcat(a: string, b: string)
    ensures (a + b)[..|a|] == a
    ensures forall q :: 0 <= q < |a| ==> (a + b)[q] == a[q]
  {
  }

  lemma ReSpaceRunFrom(s: string, i: nat, e: nat)
    requires i <= e < |s|
    requires forall q :: i <= q < e ==> IsReSpace(s[q])
    requires !IsReSpace(s[e])
    ensures ReSpaceRun(s, i) == e - i
    decreases e - i
  {
    if i < e {
      ReSpaceRunFrom(s, i + 1, e);
    }
  }

  /** The usual spelling `.. sentry:docedition:: <text>` is recognised. */
  lemma DocEditionLineParses(text: string)
    requires '\n' !in text
    ensures DocEditionMatch(Spelled(DocEditionKeyword, text))
  {
    DirectiveAtSpelled([], DocEditionKeyword, text);
    assert [] + Spelled(DocEditionKeyword, text) == Spelled(DocEditionKeyword, text);
  }

  /** Characters of the class `[a-zA-Z0-9_]`. */
  predicate IsWordChar(c: char)
  {
    ('a' <= c <= 'z') || ('A' <= c <= 'Z') || ('0' <= c <= '9') || c == '_'
  }

  function WordRun(s: string, i: nat): (n: nat)
    requires i <= |s|
    ensures i + n <= |s|
    ensures forall q :: i <= q < i + n ==> IsWordChar(s[q])
    ensures i + n < |s| ==> !IsWordChar(s[i + n])
    decreases |s| - i
  {
    if i == |s| || !IsWordChar(s[i]) then 0 else 1 + WordRun(s, i + 1)
  }

  /** `###([a-zA-Z0-9_]+)###` tried at i: the name and the end of the match.
      The name run is greedy, and since `#` is not a name character it never
      needs to give anything back. */
  function RefAt(s: string, i: nat): (m: Option<(string, nat)>)
    requires i <= |s|
    ensures m.Some? ==> i + 6 + |m.value.0| == m.value.1 <= |s| && |m.value.0| >= 1 &&
                        s[i..m.value.1] == "###" + m.value.0 + "###" &&
                        forall q :: 0 <= q < |m.value.0| ==> IsWordChar(m.value.0[q])
    ensures i + 3 <= |s| && s[i..i + 3] == "###" ==>
              var w := WordRun(s, i + 3);
              (w >= 1 && i + 6 + w <= |s| && s[i + 3 + w..i + 6 + w] == "###" ==> m.Some?)
  {
    if i + 3 <= |s| && s[i..i + 3] == "###" then
      var w := WordRun(s, i + 3);
      var e := i + 3 + w;
      if w >= 1 && e + 3 <= |s| && s[e..e + 3] == "###" then
        assert s[i..e + 3] == s[i..i + 3] + s[i + 3..e] + s[e..e + 3];
        Some((s[i + 3..e], e + 3))
      else None
    else None
  }

  lemma {:induction false} WordRunFrom(s: string, i: nat, e: nat)
    requires i <= e < |s|
    requires forall q :: i <= q < e ==> IsWordChar(s[q])
    requires !IsWordChar(s[e])
    ensures WordRun(s, i) == e - i
    decreases e - i
  {
    if i < e {
      WordRunFrom(s, i + 1, e);
    }
  }

  /** A `###name###` written at i is found there, with exactly that name: the
      name run stops at the closing `#`. */
  lemma RefAtFinds(s: string, i: nat, name: string)
    requires name != [] && forall q :: 0 <= q < |name| ==> IsWordChar(name[q])
    requires i + 6 + |name| <= |s| && s[i..i + 6 + |name|] == "###" + name + "###"
    ensures RefAt(s, i) == Some((name, i + 6 + |name|))
  {
    var e := i + 3 + |name|;
    RefSlices(s, i, name);
    forall q | i + 3 <= q < e ensures IsWordChar(s[q]) {
      assert s[q] == s[i + 3..e][q - i - 3];
    }
    assert s[e] == s[e..e + 3][0];
    WordRunFrom(s, i + 3, e);
  }

  /** The three pieces of a spelled reference. */
  lemma RefSlices(s: string, i: nat, name: string)
    requires i + 6 + |name| <= |s| && s[i..i + 6 + |name|] == "###" + name + "###"
    ensures s[i..i + 3] == "###" && s[i + 3..i + 3 + |name|] == name
    ensures s[i + 3 + |name|..i + 6 + |name|] == "###"
  {
    var n := |name|;
    RefLayout(name);
    SubSlice(s, i, i + 6 + n, 0, 3);
    SubSlice(s, i, i + 6 + n, 3, 3 + n);
    SubSlice(s, i, i + 6 + n, 3 + n, 6 + n);
  }

  lemma RefLayout(name: string)
    ensures var r := "###" + name + "###";
            r[..3] == "###" && r[3..3 + |name|] == name && r[3 + |name|..6 + |name|] == "###"
  {
  }

  lemma SubSlice(s: string, i: nat, j: nat, a: nat, b: nat)
    requires i <= j <= |s| && a <= b <= j - i
    ensures s[i..j][a..b] == s[i + a..i + b]
  {
    forall k | 0 <= k < b - a ensures s[i..j][a..b][k] == s[i + a..i + b][k] {
      assert s[i..j][a..b][k] == s[i..j][a + k] == s[i + a + k];
    }
  }

  /** The names of the references `re.sub` replaces, in order, scanning from i. */
  function RefNames(s: string, i: nat): seq<string>
    requires i <= |s|
    decreases |s| - i
  {
    if i == |s| then []
    else match RefAt(s, i)
      case Some((name, e)) => [name] + RefNames(s, e)
      case None => RefNames(s, i + 1)
  }

  /** `(cfg.get('vars') or {}).get(key) or u''`: an unknown name, or a name
      whose value is empty, gives the empty string. */
  function Lookup(vars: Option<map<string, string>>, key: string): string
  {
    if vars.Some? && key in vars.value then vars.value[key] else ""
  }

  function ExpandFrom(s: string, i: nat, vars: Option<map<string, string>>): string
    requires i <= |s|
    decreases |s| - i
  {
    if i == |s| then []
    else match RefAt(s, i)
      case Some((name, e)) => Lookup(vars, name) + ExpandFrom(s, e, vars)
      case None => [s[i]] + ExpandFrom(s, i + 1, vars)
  }

  /** `re.sub` replaces a reference at i by the value of its name, and goes on
      after it. */
  lemma ExpandRef(s: string, i: nat, name: string, vars: Option<map<string, string>>)
    requires name != [] && forall q :: 0 <= q < |name| ==> IsWordChar(name[q])
    requires i + 6 + |name| <= |s| && s[i..i + 6 + |name|] == "###" + name + "###"
    ensures ExpandFrom(s, i, vars) == Lookup(vars, name) + ExpandFrom(s, i + 6 + |name|, vars)
  {
    RefAtFinds(s, i, name);
  }

  /** A character that cannot start a reference is copied. */
  lemma ExpandPlain(s: string, i: nat, vars: Option<map<string, string>>)
    requires i < |s| && s[i] != '#'
    ensures ExpandFrom(s, i, vars) == [s[i]] + ExpandFrom(s, i + 1, vars)
  {
    if i + 3 <= |s| {
      assert s[i..i + 3][0] != '#';
    }
    assert RefAt(s, i).None?;
  }

  /** A reference alone expands to the value of its name, and to the empty
      string when the table is missing or lacks the name. */
  lemma ExpandSingle(name: string, vars: Option<map<string, string>>)
    requires name != [] && forall q :: 0 <= q < |name| ==> IsWordChar(name[q])
    ensures vars.Some? && name in vars.value ==> ExpandVars("###" + name + "###", vars) == vars.value[name]
    ensures vars.None? || name !in vars.value ==> ExpandVars("###" + name + "###", vars) == ""
  {
    var s := "###" + name + "###";
    assert s[0..0 + 6 + |name|] == s;
    ExpandRef(s, 0, name, vars);
    assert ExpandFrom(s, |s|, vars) == [];
    assert Lookup(vars, name) + [] == Lookup(vars, name);
  }

  /** Text without a `#` holds no reference and is left unchanged. */
  lemma {:induction false} ExpandWithoutHash(s: string, i: nat, vars: Option<map<string, string>>)
    requires i <= |s| && forall q :: i <= q < |s| ==> s[q] != '#'
    ensures ExpandFrom(s, i, vars) == s[i..]
    decreases |s| - i
  {
    if i < |s| {
      ExpandPlain(s, i, vars);
      ExpandWithoutHash(s, i + 1, vars);
      assert s[i..] == [s[i]] + s[i + 1..];
    }
  }

  /** `_expand_vars(line)` with a configuration present. */
  function ExpandVars(s: string, vars: Option<map<string, string>>): string
  {
    ExpandFrom(s, 0, vars)
  }

  /** `_expand_vars(line)`: without a configuration the replacement callback
      fails on the first reference, and a line without references is left as
      it is. */
  function ExpandLine(s: string, cfg: Option<Config>): (r: Result<string, PreprocessError>)
    ensures r.Err? <==> cfg.None? && RefNames(s, 0) != []
  {
    match cfg
    case None => if RefNames(s, 0) == [] then Ok(s) else Err(MissingConfig)
    case Some(c) => Ok(ExpandVars(s, c.vars))
  }

  lemma SliceSplit(s: string, i: nat, j: nat)
    requires i <= j <= |s|
    ensures s[i..] == s[i..j] + s[j..]
    ensures j == i + 1 ==> s[i..j] == [s[i]]
  {
  }

  /** Replacing each reference by its own text leaves the line unchanged. */
  lemma {:induction false} ExpandFromSelf(s: string, i: nat, vars: Option<map<string, string>>)
    requires i <= |s|
    requires forall n :: n in RefNames(s, i) ==> Lookup(vars, n) == "###" + n + "###"
    ensures ExpandFrom(s, i, vars) == s[i..]
    decreases |s| - i
  {
    if i < |s| {
      match RefAt(s, i)
      case Some((name, e)) =>
        assert RefNames(s, i) == [name] + RefNames(s, e);
        assert name in RefNames(s, i);
        ExpandFromSelf(s, e, vars);
        SliceSplit(s, i, e);
      case None =>
        assert RefNames(s, i) == RefNames(s, i + 1);
        ExpandFromSelf(s, i + 1, vars);
        SliceSplit(s, i, i + 1);
    }
  }

  /** A line without references expands to itself, whatever the table. */
  lemma ExpandWithoutRefs(s: string, vars: Option<map<string, string>>)
    requires RefNames(s, 0) == []
    ensures ExpandVars(s, vars) == s
  {
    ExpandFromSelf(s, 0, vars);
  }

  /** Only the values of the referenced names matter. */
  lemma {:induction false} ExpandFromLocal(s: string, i: nat, v1: Option<map<string, string>>, v2: Option<map<string, string>>)
    requires i <= |s|
    requires forall n :: n in RefNames(s, i) ==> Lookup(v1, n) == Lookup(v2, n)
    ensures ExpandFrom(s, i, v1) == ExpandFrom(s, i, v2)
    decreases |s| - i
  {
    if i < |s| {
      match RefAt(s, i)
      case Some((name, e)) => ExpandFromLocal(s, e, v1, v2);
      case None => ExpandFromLocal(s, i + 1, v1, v2);
    }
  }
}
