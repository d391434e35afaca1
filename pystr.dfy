/**
 * The Python 2 unicode-string builtins the extension relies on, written out:
 * `isspace`/`strip`/`lstrip`, `split` on one separator, `join`, `expandtabs`,
 * `replace` of one character, `splitlines`, and the ASCII class `\s` of the
 * `re` module (no UNICODE flag).
 */
module PyStr {

  /** `unicode.isspace` of Python 2.7 (bidirectional class WS, B, S or category Zs). */
  predicate IsSpace(c: char)
  {
    var n := c as int;
    (0x09 <= n <= 0x0D) || (0x1C <= n <= 0x20) || n == 0x85 || n == 0xA0 ||
    n == 0x1680 || n == 0x180E || (0x2000 <= n <= 0x200A) ||
    n == 0x2028 || n == 0x2029 || n == 0x202F || n == 0x205F || n == 0x3000
  }

  /** The regular-expression class `\s` without re.UNICODE: [ \t\n\r\f\v]. */
  predicate IsReSpace(c: char)
  {
    c == ' ' || c == '\t' || c == '\n' || c == '\r' || c as int == 0x0C || c as int == 0x0B
  }

  /** `unicode.splitlines` line boundaries. */
  predicate IsLineBreak(c: char)
  {
    var n := c as int;
    (0x0A <= n <= 0x0D) || (0x1C <= n <= 0x1E) || n == 0x85 || n == 0x2028 || n == 0x2029
  }

  /** `not s.strip()`: s holds whitespace only. */
  predicate IsBlank(s: string)
  {
    LeadingSpace(s) == |s|
  }

  /** Length of the run of `IsSpace` characters at the front of s. */
  function LeadingSpace(s: string): (n: nat)
    ensures n <= |s|
  {
    if s == [] || !IsSpace(s[0]) then 0 else 1 + LeadingSpace(s[1..])
  }

  /** LeadingSpace is the length of the longest all-space prefix. */
  lemma {:induction false} LeadingSpaceRun(s: string)
    ensures forall i :: 0 <= i < LeadingSpace(s) ==> IsSpace(s[i])
    ensures LeadingSpace(s) < |s| ==> !IsSpace(s[LeadingSpace(s)])
  {
    if s != [] && IsSpace(s[0]) {
      LeadingSpaceRun(s[1..]);
    }
  }

  lemma {:induction false} AllSpaceBlank(s: string)
    requires forall i :: 0 <= i < |s| ==> IsSpace(s[i])
    ensures IsBlank(s)
  {
    if s != [] {
      AllSpaceBlank(s[1..]);
    }
  }

  /** Length of the run of `IsSpace` characters at the end of s. */
  function TrailingSpace(s: string): (n: nat)
    ensures n <= |s|
    ensures forall i :: |s| - n <= i < |s| ==> IsSpace(s[i])
    ensures n < |s| ==> !IsSpace(s[|s| - n - 1])
  {
    if s == [] || !IsSpace(s[|s| - 1]) then 0 else 1 + TrailingSpace(s[..|s| - 1])
  }

  /** `s.strip()`: the text between the leading and the trailing whitespace. */
  function Strip(s: string): (r: string)
    ensures |r| <= |s|
    ensures r == [] <==> IsBlank(s)
    ensures r != [] ==> !IsSpace(r[0]) && !IsSpace(r[|r| - 1])
    ensures LeadingSpace(s) + |r| <= |s| && r == s[LeadingSpace(s)..LeadingSpace(s) + |r|]
    ensures IsBlank(s[LeadingSpace(s) + |r|..])
  {
    var lead := LeadingSpace(s);
    LeadingSpaceRun(s);
    if lead == |s| then []
    else
      var rest := s[lead..];
      var r := rest[..|rest| - TrailingSpace(rest)];
      AllSpaceBlank(s[lead + |r|..]);
      r
  }

  /** `s.split(sep)` for a one-character separator: always at least one piece. */
  function Split(s: string, sep: char): (pieces: seq<string>)
    ensures |pieces| >= 1
    ensures forall k :: 0 <= k < |pieces| ==> sep !in pieces[k]
  {
    if sep !in s then [s]
    else
      var i := IndexOf(s, sep);
      [s[..i]] + Split(s[i + 1..], sep)
  }

  /** Index of the first occurrence of c in s. */
  function IndexOf(s: string, c: char): (i: nat)
    requires c in s
    ensures i < |s| && s[i] == c && c !in s[..i]
  {
    if s[0] == c then 0 else 1 + IndexOf(s[1..], c)
  }

  /** Index of the last occurrence of c in s. */
  function LastIndexOf(s: string, c: char): (i: nat)
    requires c in s
    ensures i < |s| && s[i] == c && c !in s[i + 1..]
  {
    if s[|s| - 1] == c then |s| - 1 else LastIndexOf(s[..|s| - 1], c)
  }

  /** `sep.join(pieces)`. */
  function Join(pieces: seq<string>, sep: string): string
  {
    if pieces == [] then []
    else if |pieces| == 1 then pieces[0]
    else pieces[0] + sep + Join(pieces[1..], sep)
  }

  lemma JoinCons(head: string, rest: seq<string>, sep: string)
    requires rest != []
    ensures Join([head] + rest, sep) == head + sep + Join(rest, sep)
  {
    assert ([head] + rest)[1..] == rest;
  }

  lemma JoinSingle(x: string, sep: string)
    ensures Join([x] + [], sep) == x
  {
    assert [x] + [] == [x];
  }

  lemma SliceAround(s: string, i: nat)
    requires i < |s|
    ensures s == s[..i] + [s[i]] + s[i + 1..]
  {
  }

  lemma SliceAroundLast(s: string, i: nat)
    requires i + 1 < |s|
    ensures s == s[..i] + [s[i]] + s[i + 1..]
    ensures s[..|s| - 1] == s[..i] + [s[i]] + s[i + 1..][..|s| - i - 2]
  {
  }

  /** Splitting on a character and joining with it again gives the text back. */
  lemma {:induction false} SplitJoin(s: string, sep: char)
    ensures Join(Split(s, sep), [sep]) == s
    decreases |s|
  {
    if sep in s {
      var i := IndexOf(s, sep);
      SplitJoin(s[i + 1..], sep);
      JoinCons(s[..i], Split(s[i + 1..], sep), [sep]);
      SliceAround(s, i);
    }
  }

  /** Joining pieces that do not hold the separator and splitting again
      gives the pieces back. */
  lemma {:induction false} JoinSplit(pieces: seq<string>, sep: char)
    requires |pieces| >= 1
    requires forall k :: 0 <= k < |pieces| ==> sep !in pieces[k]
    ensures Split(Join(pieces, [sep]), sep) == pieces
    decreases |pieces|
  {
    if |pieces| > 1 {
      var head, rest := pieces[0], pieces[1..];
      var s := Join(pieces, [sep]);
      JoinCons(head, rest, [sep]);
      assert pieces == [head] + rest;
      assert s[|head|] == sep;
      var i := IndexOf(s, sep);
      assert s[..i] == head;
      assert s[i + 1..] == Join(rest, [sep]);
      JoinSplit(rest, sep);
    }
  }

  /** Text that neither starts nor ends with whitespace strips to itself. */
  lemma StripClean(s: string)
    requires s != [] && !IsSpace(s[0]) && !IsSpace(s[|s| - 1])
    ensures Strip(s) == s
  {
    var r := Strip(s);
    assert LeadingSpace(s) == 0;
    LeadingSpaceRun(s[|r|..]);
  }

  /** `set(x.strip() for x in s.split(',') if x.strip())`: the non-empty,
      stripped items of a comma-separated list. */
  function CommaSet(s: string): set<string>
  {
    set p | p in Split(s, ',') && Strip(p) != [] :: Strip(p)
  }

  /** A comma-separated list of clean, non-empty items reads back as the set
      of those items. */
  lemma CommaSetOfJoin(items: seq<string>)
    requires |items| >= 1
    requires forall k :: 0 <= k < |items| ==>
               items[k] != [] && ',' !in items[k] && !IsSpace(items[k][0]) && !IsSpace(items[k][|items[k]| - 1])
    ensures CommaSet(Join(items, ",")) == set k | 0 <= k < |items| :: items[k]
  {
    var s := Join(items, ",");
    assert "," == [','];
    JoinSplit(items, ',');
    assert Split(s, ',') == items;
    var got := CommaSet(s);
    var want := set k | 0 <= k < |items| :: items[k];
    forall x | x in got ensures x in want {
      var p :| p in items && Strip(p) != [] && x == Strip(p);
      var k :| 0 <= k < |items| && items[k] == p;
      StripClean(items[k]);
    }
    forall x | x in want ensures x in got {
      var k :| 0 <= k < |items| && items[k] == x;
      StripClean(items[k]);
      assert items[k] in Split(s, ',');
    }
  }

  /** The spaces a tab expands to at column col (tab size 8). */
  function TabWidth(col: nat): (w: nat)
    ensures 1 <= w <= 8 && (col + w) % 8 == 0
  {
    8 - col % 8
  }

  function Spaces(n: nat): (r: string)
    ensures |r| == n && forall i :: 0 <= i < n ==> r[i] == ' '
  {
    if n == 0 then [] else [' '] + Spaces(n - 1)
  }

  /** `s.expandtabs()` starting at column col: a tab becomes spaces up to the
      next multiple of 8, and a newline or carriage return resets the column. */
  function ExpandTabsFrom(s: string, col: nat): (r: string)
    ensures '\t' !in r
    ensures |r| >= |s|
    decreases |s|
  {
    if s == [] then []
    else if s[0] == '\t' then
      var w := TabWidth(col);
      Spaces(w) + ExpandTabsFrom(s[1..], col + w)
    else if s[0] == '\n' || s[0] == '\r' then [s[0]] + ExpandTabsFrom(s[1..], 0)
    else [s[0]] + ExpandTabsFrom(s[1..], col + 1)
  }

  function ExpandTabs(s: string): string
  {
    ExpandTabsFrom(s, 0)
  }

  /** The column a run of spaces and tabs that starts at column col ends at:
      a space advances one column, a tab to the next multiple of 8. */
  function Column(ws: string, col: nat): (c: nat)
    ensures c >= col
    decreases |ws|
  {
    if ws == [] then col
    else Column(ws[1..], if ws[0] == '\t' then col + TabWidth(col) else col + 1)
  }

  /** The leading whitespace of an expanded run of spaces and tabs, followed
      by text that does not start with whitespace, reaches the column the run
      ends at. */
  lemma {:induction false} ExpandTabsRunIndent(ws: string, rest: string, col: nat)
    requires forall i :: 0 <= i < |ws| ==> ws[i] == ' ' || ws[i] == '\t'
    requires rest == [] || !IsSpace(rest[0])
    ensures LeadingSpace(ExpandTabsFrom(ws + rest, col)) == Column(ws, col) - col
    decreases |ws|
  {
    if ws == [] {
      assert ws + rest == rest;
    } else {
      var next := if ws[0] == '\t' then col + TabWidth(col) else col + 1;
      ExpandTabsRunIndent(ws[1..], rest, next);
      assert (ws + rest)[1..] == ws[1..] + rest;
      ExpandTabsBlank(ws + rest, col);
      LeadingSpacePad(next - col, ExpandTabsFrom(ws[1..] + rest, next));
    }
  }

  /** An expanded run of spaces and tabs is as wide as the column it ends at. */
  lemma {:induction false} ExpandTabsRunWidth(ws: string, col: nat)
    requires forall i :: 0 <= i < |ws| ==> ws[i] == ' ' || ws[i] == '\t'
    ensures |ExpandTabsFrom(ws, col)| == Column(ws, col) - col
    decreases |ws|
  {
    if ws != [] {
      var next := if ws[0] == '\t' then col + TabWidth(col) else col + 1;
      ExpandTabsRunWidth(ws[1..], next);
      ExpandTabsBlank(ws, col);
    }
  }

  lemma {:induction false} LeadingSpacePad(k: nat, e: string)
    ensures LeadingSpace(Spaces(k) + e) == k + LeadingSpace(e)
    decreases k
  {
    if k == 0 {
      assert Spaces(k) + e == e;
    } else {
      assert (Spaces(k) + e)[1..] == Spaces(k - 1) + e;
      LeadingSpacePad(k - 1, e);
    }
  }

  /** Text without tabs expands to itself. */
  lemma {:induction false} ExpandTabsWithoutTabs(s: string, col: nat)
    requires '\t' !in s
    ensures ExpandTabsFrom(s, col) == s
    decreases |s|
  {
    if s != [] {
      assert s[0] != '\t' && '\t' !in s[1..];
      var next := if s[0] == '\n' || s[0] == '\r' then 0 else col + 1;
      ExpandTabsWithoutTabs(s[1..], next);
      assert s == [s[0]] + s[1..];
    }
  }

  /** One space or tab at the front: the spaces it expands to, then the rest. */
  lemma ExpandTabsBlank(s: string, col: nat)
    requires s != [] && (s[0] == ' ' || s[0] == '\t')
    ensures var next := if s[0] == '\t' then col + TabWidth(col) else col + 1;
            ExpandTabsFrom(s, col) == Spaces(next - col) + ExpandTabsFrom(s[1..], next)
  {
    if s[0] == ' ' {
      assert Spaces(1) == [' '];
    }
  }

  /** `s.replace(a, b)` for single characters. */
  function ReplaceChar(s: string, a: char, b: char): (r: string)
    ensures |r| == |s|
    ensures forall i :: 0 <= i < |s| ==> r[i] == if s[i] == a then b else s[i]
  {
    if s == [] then [] else [if s[0] == a then b else s[0]] + ReplaceChar(s[1..], a, b)
  }

  /** Index of the first line boundary in s, or |s|. */
  function BreakIndex(s: string): (i: nat)
    ensures i <= |s| && (i < |s| ==> IsLineBreak(s[i]))
    ensures forall k :: 0 <= k < i ==> !IsLineBreak(s[k])
  {
    if s == [] || IsLineBreak(s[0]) then 0 else 1 + BreakIndex(s[1..])
  }

  /** `unicode.splitlines()`: "\r\n" is one boundary, and no empty line follows
      a final boundary. */
  function SplitLines(s: string): seq<string>
    decreases |s|
  {
    if s == [] then []
    else
      var i := BreakIndex(s);
      if i == |s| then [s]
      else [s[..i]] + SplitLines(s[i + BreakWidth(s, i)..])
  }

  /** The length of the boundary at i: "\r\n" counts as one boundary. */
  function BreakWidth(s: string, i: nat): (w: nat)
    requires i < |s|
    ensures w == 1 || w == 2
    ensures i + w <= |s|
  {
    if s[i] == '\r' && i + 1 < |s| && s[i + 1] == '\n' then 2 else 1
  }

  lemma SplitLinesAtNewline(s: string)
    requires s != [] && BreakIndex(s) < |s| && s[BreakIndex(s)] == '\n'
    ensures var i := BreakIndex(s); SplitLines(s) == [s[..i]] + SplitLines(s[i + 1..])
  {
    var i := BreakIndex(s);
    assert BreakWidth(s, i) == 1;
    assert SplitLines(s) == [s[..i]] + SplitLines(s[i + BreakWidth(s, i)..]);
  }

  /** No line holds a line boundary. */
  predicate NoBreakIn(lines: seq<string>)
  {
    forall k, i :: 0 <= k < |lines| && 0 <= i < |lines[k]| ==> !IsLineBreak(lines[k][i])
  }

  lemma {:induction false} SplitLinesNoBreak(s: string)
    ensures NoBreakIn(SplitLines(s))
    decreases |s|
  {
    if s != [] {
      var i := BreakIndex(s);
      if i < |s| {
        var tail := s[i + BreakWidth(s, i)..];
        SplitLinesNoBreak(tail);
        var lines := SplitLines(s);
        var rest := SplitLines(tail);
        assert lines == [s[..i]] + rest;
        forall k, j | 0 <= k < |lines| && 0 <= j < |lines[k]| ensures !IsLineBreak(lines[k][j]) {
          if k > 0 {
            assert lines[k] == rest[k - 1];
          } else {
            assert lines[0] == s[..i];
            assert lines[0][j] == s[j];
          }
        }
      }
    }
  }

  /** For text whose only line boundaries are "\n", joining the lines with "\n"
      gives the text back, less one final "\n". */
  lemma {:induction false} SplitLinesJoin(s: string)
    requires forall i :: 0 <= i < |s| && IsLineBreak(s[i]) ==> s[i] == '\n'
    ensures Join(SplitLines(s), "\n") == if s != [] && s[|s| - 1] == '\n' then s[..|s| - 1] else s
    decreases |s|
  {
    if s != [] {
      var i := BreakIndex(s);
      if i < |s| {
        var tail := s[i + 1..];
        SplitLinesAtNewline(s);
        forall j | 0 <= j < |tail| && IsLineBreak(tail[j]) ensures tail[j] == '\n' {
          assert tail[j] == s[i + 1 + j];
        }
        SplitLinesJoin(tail);
        if tail != [] {
          JoinCons(s[..i], SplitLines(tail), "\n");
          SliceAroundLast(s, i);
          assert tail[|tail| - 1] == s[|s| - 1];
        } else {
          assert SplitLines(tail) == [];
          JoinSingle(s[..i], "\n");
        }
      }
    }
  }
}
