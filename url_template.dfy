/**
 * Splitting an API URL template such as `/projects/{org}/{proj}/` into its
 * literal text and its `{variable}` parts (sentryext.py, `iter_url_parts`,
 * scanning with the pattern `\{(.*?)\}`).
 */
module UrlTemplate {
  import opened Wrappers

  datatype Part = Literal(text: string) | Variable(name: string)

  /** The text a part stands for: a variable is written back inside braces. */
  function RenderPart(p: Part): string
  {
    match p
    case Literal(text) => text
    case Variable(name) => "{" + name + "}"
  }

  function Render(parts: seq<Part>): string
  {
    if parts == [] then [] else RenderPart(parts[0]) + Render(parts[1..])
  }

  /** The pattern `\{(.*?)\}` matches path[st..en]: an opening brace, then
      characters other than a newline (`.`) up to the FIRST closing brace
      (the group is non-greedy). */
  ghost predicate MatchAt(path: string, st: int, en: int)
  {
    0 <= st && st + 2 <= en <= |path| &&
    path[st] == '{' && path[en - 1] == '}' &&
    forall q :: st < q < en - 1 ==> path[q] != '}' && path[q] != '\n'
  }

  /** No match of the pattern starts in [from, upto). */
  ghost predicate NoMatchIn(path: string, from: int, upto: int)
  {
    forall st, en :: from <= st < upto && MatchAt(path, st, en) ==> false
  }

  /** The end of the non-greedy `.*?\}` begun at j: one past the first '}',
      provided no newline comes before it. */
  function CloseFrom(path: string, j: nat): (en: Option<nat>)
    requires j <= |path|
    ensures en.Some? ==> j < en.value <= |path| && path[en.value - 1] == '}' &&
                         forall q :: j <= q < en.value - 1 ==> path[q] != '}' && path[q] != '\n'
    ensures en.None? ==> forall e :: j <= e < |path| && path[e] == '}' ==> '\n' in path[j..e]
    decreases |path| - j
  {
    if j == |path| || path[j] == '\n' then None
    else if path[j] == '}' then Some(j + 1)
    else CloseFrom(path, j + 1)
  }

  lemma NoMatchWithoutClose(path: string, st: nat)
    requires st < |path|
    requires path[st] != '{' || CloseFrom(path, st + 1).None?
    ensures forall en :: !MatchAt(path, st, en)
  {
    forall en | MatchAt(path, st, en) ensures false { }
  }

  /** The leftmost match at or after `from`, as `finditer` finds it. */
  function FindVar(path: string, from: nat): (m: Option<(nat, nat)>)
    requires from <= |path|
    ensures m.Some? ==> from <= m.value.0 && MatchAt(path, m.value.0, m.value.1) &&
                        NoMatchIn(path, from, m.value.0)
    ensures m.None? ==> NoMatchIn(path, from, |path|)
    decreases |path| - from
  {
    if from == |path| then None
    else
      var close := if path[from] == '{' then CloseFrom(path, from + 1) else None;
      if close.Some? then Some((from, close.value))
      else
        NoMatchWithoutClose(path, from);
        FindVar(path, from + 1)
  }

  /** The parts `iter_url_parts` yields from position `last` on. */
  function PartsFrom(path: string, last: nat): seq<Part>
    requires last <= |path|
    decreases |path| - last
  {
    match FindVar(path, last)
    case None => if last < |path| then [Literal(path[last..])] else []
    case Some((st, en)) =>
      (if st > last then [Literal(path[last..st])] else []) +
      [Variable(path[st + 1..en - 1])] + PartsFrom(path, en)
  }

  function UrlParts(path: string): seq<Part>
  {
    PartsFrom(path, 0)
  }

  /** The generator, as a loop over the matches that keeps the end of the last
      one in `last`. */
  method IterUrlParts(path: string) returns (parts: seq<Part>)
    ensures parts == UrlParts(path)
  {
    parts := [];
    var last := 0;
    var m := FindVar(path, last);
    while m.Some?
      invariant last <= |path| && m == FindVar(path, last)
      invariant parts + PartsFrom(path, last) == UrlParts(path)
      decreases |path| - last
    {
      var st, en := m.value.0, m.value.1;
      PartsFromMatch(path, last);
      ScanAdvance(path, parts, last);
      parts := parts + Step(path, last, st, en);
      last := en;
      m := FindVar(path, last);
    }
    ScanFinish(path, parts, last);
    if last < |path| {
      parts := parts + [Literal(path[last..])];
    }
  }

  lemma {:induction false} RenderAppend(a: seq<Part>, b: seq<Part>)
    ensures Render(a + b) == Render(a) + Render(b)
    decreases |a|
  {
    if a == [] {
      assert a + b == b;
    } else {
      var ab := a + b;
      assert ab[0] == a[0] && ab[1..] == a[1..] + b;
      RenderAppend(a[1..], b);
      var x, y, z := RenderPart(a[0]), Render(a[1..]), Render(b);
      assert Render(ab) == x + (y + z);
      assert x + (y + z) == (x + y) + z;
    }
  }

  /** The parts the scan yields for one match, before the rest of the scan. */
  function Step(path: string, last: nat, st: nat, en: nat): seq<Part>
    requires last <= st < en <= |path| && st + 1 <= en - 1
  {
    (if st > last then [Literal(path[last..st])] else []) + [Variable(path[st + 1..en - 1])]
  }

  /** One match of the scan: what it yields, then the scan from its end. */
  lemma PartsFromMatch(path: string, last: nat)
    requires last <= |path| && FindVar(path, last).Some?
    ensures var m := FindVar(path, last).value;
            last <= m.0 && MatchAt(path, m.0, m.1) &&
            PartsFrom(path, last) == Step(path, last, m.0, m.1) + PartsFrom(path, m.1)
  {
  }

  /** The loop invariant of IterUrlParts survives one match. */
  lemma ScanAdvance(path: string, parts: seq<Part>, last: nat)
    requires last <= |path| && FindVar(path, last).Some?
    requires parts + PartsFrom(path, last) == UrlParts(path)
    ensures var m := FindVar(path, last).value;
            (parts + Step(path, last, m.0, m.1)) + PartsFrom(path, m.1) == UrlParts(path)
  {
    PartsFromMatch(path, last);
  }

  /** After the last match, the rest of the template is one literal, if any. */
  lemma ScanFinish(path: string, parts: seq<Part>, last: nat)
    requires last <= |path| && FindVar(path, last).None?
    requires parts + PartsFrom(path, last) == UrlParts(path)
    ensures last < |path| ==> parts + [Literal(path[last..])] == UrlParts(path)
    ensures last == |path| ==> parts == UrlParts(path)
  {
    if last == |path| {
      assert parts + [] == parts;
    }
  }

  lemma RenderSingle(p: Part)
    ensures Render([p]) == RenderPart(p)
  {
    assert [p][1..] == [];
    assert RenderPart(p) + [] == RenderPart(p);
  }

  lemma RenderVariable(path: string, st: nat, en: nat)
    requires st + 2 <= en <= |path| && path[st] == '{' && path[en - 1] == '}'
    ensures Render([Variable(path[st + 1..en - 1])]) == path[st..en]
  {
    var name := path[st + 1..en - 1];
    RenderSingle(Variable(name));
    var s := path[st..en];
    var r := "{" + name + "}";
    assert |r| == |s|;
    forall i | 0 <= i < |s|
      ensures s[i] == r[i]
    {
      if 0 < i < |s| - 1 {
        assert r[i] == name[i - 1];
      }
    }
  }

  lemma RenderStep(path: string, last: nat, st: nat, en: nat)
    requires last <= st && MatchAt(path, st, en)
    ensures Render(Step(path, last, st, en)) == path[last..en]
  {
    var v := [Variable(path[st + 1..en - 1])];
    RenderVariable(path, st, en);
    if st > last {
      var lit := [Literal(path[last..st])];
      RenderAppend(lit, v);
      RenderSingle(Literal(path[last..st]));
      SliceJoin3(path, last, st, en);
    } else {
      assert [] + v == v;
    }
  }

  lemma SliceJoin3(s: string, i: nat, j: nat, k: nat)
    requires i <= j <= k <= |s|
    ensures s[i..k] == s[i..j] + s[j..k]
  {
  }

  lemma SliceJoin(s: string, i: nat, j: nat)
    requires i <= j <= |s|
    ensures s[i..] == s[i..j] + s[j..]
  {
  }

  /** Joining what the scan yields from `last`, with each variable put back in
      braces, gives the rest of the template unchanged. */
  lemma {:induction false} RenderPartsFrom(path: string, last: nat)
    requires last <= |path|
    ensures Render(PartsFrom(path, last)) == path[last..]
    decreases |path| - last
  {
    match FindVar(path, last)
    case None =>
      if last < |path| {
        RenderSingle(Literal(path[last..]));
      }
    case Some((st, en)) =>
      PartsFromMatch(path, last);
      RenderPartsFrom(path, en);
      var rest := PartsFrom(path, en);
      RenderAppend(Step(path, last, st, en), rest);
      RenderStep(path, last, st, en);
      SliceJoin(path, last, en);
  }

  /** Round trip: the parts of a template render back to the template. */
  lemma RenderUrlParts(path: string)
    ensures Render(UrlParts(path)) == path
  {
    RenderPartsFrom(path, 0);
  }

  /** The shape of what the scan yields: no empty literal, never two literals
      in a row, and variable names without a closing brace or a newline. */
  ghost predicate WellFormed(parts: seq<Part>)
  {
    (forall k :: 0 <= k < |parts| && parts[k].Literal? ==> parts[k].text != []) &&
    (forall k :: 0 < k < |parts| && parts[k].Literal? ==> !parts[k - 1].Literal?) &&
    (forall k :: 0 <= k < |parts| && parts[k].Variable? ==>
       '}' !in parts[k].name && '\n' !in parts[k].name)
  }

  lemma {:induction false} PartsFromWellFormed(path: string, last: nat)
    requires last <= |path|
    ensures WellFormed(PartsFrom(path, last))
    decreases |path| - last
  {
    match FindVar(path, last)
    case None =>
    case Some((st, en)) =>
      PartsFromMatch(path, last);
      PartsFromWellFormed(path, en);
      StepWellFormed(path, last, st, en);
      WellFormedAppend(Step(path, last, st, en), PartsFrom(path, en));
  }

  lemma StepWellFormed(path: string, last: nat, st: nat, en: nat)
    requires last <= st && MatchAt(path, st, en)
    ensures WellFormed(Step(path, last, st, en))
  {
    var name := path[st + 1..en - 1];
    assert '}' !in name && '\n' !in name by {
      forall q | 0 <= q < |name| ensures name[q] == path[st + 1 + q] { }
    }
  }

  lemma WellFormedAppend(a: seq<Part>, b: seq<Part>)
    requires WellFormed(a) && WellFormed(b)
    requires a != [] ==> a[|a| - 1].Variable?
    ensures WellFormed(a + b)
  {
    var ab := a + b;
    forall k | 0 < k < |ab| && ab[k].Literal?
      ensures !ab[k - 1].Literal?
    {
      if k > |a| {
        assert ab[k] == b[k - |a|] && ab[k - 1] == b[k - 1 - |a|];
      } else if k < |a| {
        assert ab[k] == a[k] && ab[k - 1] == a[k - 1];
      }
    }
  }

  lemma UrlPartsWellFormed(path: string)
    ensures WellFormed(UrlParts(path))
  {
    PartsFromWellFormed(path, 0);
  }

  lemma ShiftMatch(path: string, last: nat, upto: nat, st: int, en: int)
    requires last <= upto <= |path|
    requires MatchAt(path[last..upto], st, en)
    ensures MatchAt(path, last + st, last + en)
  {
    var sub := path[last..upto];
    forall q | last + st < q < last + en - 1
      ensures path[q] != '}' && path[q] != '\n'
    {
      assert path[q] == sub[q - last];
    }
  }

  /** A literal part holds no `{...}` of its own: scanning it alone yields
      it back as one literal. */
  lemma LiteralRescans(path: string, last: nat, upto: nat)
    requires last < upto <= |path|
    requires NoMatchIn(path, last, upto)
    ensures UrlParts(path[last..upto]) == [Literal(path[last..upto])]
  {
    var sub := path[last..upto];
    forall st, en | 0 <= st < |sub| && MatchAt(sub, st, en) ensures false {
      ShiftMatch(path, last, upto, st, en);
    }
    assert FindVar(sub, 0).None?;
    assert sub[0..] == sub;
  }

  /** A variable part put back in braces scans as that one variable. */
  lemma VariableRescans(name: string)
    requires '}' !in name && '\n' !in name
    ensures UrlParts("{" + name + "}") == [Variable(name)]
  {
    var s := "{" + name + "}";
    assert MatchAt(s, 0, |s|) by {
      forall q | 0 < q < |s| - 1 ensures s[q] != '}' && s[q] != '\n' {
        assert s[q] == name[q - 1];
      }
    }
    var m := FindVar(s, 0);
    assert m.Some?;
    assert m.value.0 == 0;
    var en := m.value.1;
    assert FindVar(s, |s|).None?;
    assert PartsFrom(s, |s|) == [];
    assert s[1..|s| - 1] == name;
  }

  /** Every part the scan yields scans back as itself on its own. */
  lemma {:induction false} PartsFromRescan(path: string, last: nat, k: nat)
    requires last <= |path|
    requires k < |PartsFrom(path, last)|
    ensures UrlParts(RenderPart(PartsFrom(path, last)[k])) == [PartsFrom(path, last)[k]]
    decreases |path| - last
  {
    var parts := PartsFrom(path, last);
    var p := parts[k];
    match FindVar(path, last)
    case None =>
      assert k == 0 && p == Literal(path[last..]);
      LiteralRescans(path, last, |path|);
      assert path[last..|path|] == path[last..];
    case Some((st, en)) =>
      PartsFromMatch(path, last);
      var step := Step(path, last, st, en);
      var rest := PartsFrom(path, en);
      if k < |step| {
        assert p == step[k];
        if k < |step| - 1 {
          assert p == Literal(path[last..st]);
          LiteralRescans(path, last, st);
        } else {
          var name := path[st + 1..en - 1];
          assert p == Variable(name);
          StepWellFormed(path, last, st, en);
          VariableRescans(name);
        }
      } else {
        assert p == rest[k - |step|];
        PartsFromRescan(path, en, k - |step|);
      }
  }

  lemma UrlPartsRescan(path: string, k: nat)
    requires k < |UrlParts(path)|
    ensures UrlParts(RenderPart(UrlParts(path)[k])) == [UrlParts(path)[k]]
  {
    PartsFromRescan(path, 0, k);
  }
}
