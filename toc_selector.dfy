/**
 * Which table-of-contents entries a selector picks (sentryext.py:254-269,
 * `extract_toc`): the `matches` rule between a document reference and a
 * selector, and the test on an entry's container classes.
 */
module TocSelector {
  import opened PyStr

  /** `ref.rsplit('/', 1)[0]`: the text before the last slash, or the whole
      reference when it has none. */
  function Parent(ref: string): (r: string)
    ensures '/' in ref ==> |r| < |ref| && ref[|r|] == '/' && ref[..|r|] == r && '/' !in ref[|r| + 1..]
    ensures '/' !in ref ==> r == ref
  {
    if '/' in ref then ref[..LastIndexOf(ref, '/')] else ref
  }

  predicate IsWildcard(selector: string)
  {
    |selector| >= 2 && selector[|selector| - 2..] == "/*"
  }

  /** `matches(ref, selector)`: a selector ending in slash-star picks the documents
      directly under its directory; any other selector picks exactly itself. */
  predicate Matches(ref: string, selector: string)
  {
    if IsWildcard(selector) then Parent(ref) == selector[..|selector| - 2]
    else ref == selector
  }

  /** A plain selector matches only the reference spelled the same. */
  lemma MatchesPlain(ref: string, selector: string)
    requires !IsWildcard(selector)
    ensures Matches(ref, selector) <==> ref == selector
  {
  }

  /** The selector `dir` + slash-star matches a reference exactly when the reference is `dir/name`
      with no further slash in `name`, or, when it holds no slash at all, is
      `dir` itself. */
  lemma MatchesWildcard(ref: string, dir: string)
    ensures Matches(ref, dir + "/*") <==>
              ('/' !in ref && ref == dir) ||
              (|ref| > |dir| && ref[..|dir|] == dir && ref[|dir|] == '/' && '/' !in ref[|dir| + 1..])
  {
    var sel := dir + "/*";
    assert IsWildcard(sel) && sel[..|sel| - 2] == dir;
    if |ref| > |dir| && ref[..|dir|] == dir && ref[|dir|] == '/' && '/' !in ref[|dir| + 1..] {
      assert '/' in ref;
    }
  }

  /** Every document directly under `dir` is picked by its slash-star selector. */
  lemma ChildMatches(dir: string, name: string)
    requires '/' !in name
    ensures Matches(dir + "/" + name, dir + "/*")
  {
    var ref := dir + "/" + name;
    MatchesWildcard(ref, dir);
    assert ref[..|dir|] == dir && ref[|dir|] == '/' && ref[|dir| + 1..] == name;
  }

  /** `cls[:4] == 'ref-' and any(matches(cls[4:], s) for s in selectors)`. */
  predicate ClassSelected(cls: string, selectors: seq<string>)
  {
    |cls| >= 4 && cls[..4] == "ref-" && AnyMatch(cls[4..], selectors)
  }

  function AnyMatch(ref: string, selectors: seq<string>): bool
  {
    selectors != [] && (Matches(ref, selectors[0]) || AnyMatch(ref, selectors[1..]))
  }

  /** The outer `any` over the container's classes. */
  function ContainerSelected(classes: seq<string>, selectors: seq<string>): bool
  {
    classes != [] && (ClassSelected(classes[0], selectors) || ContainerSelected(classes[1..], selectors))
  }

  lemma {:induction false} AnyMatchExists(ref: string, selectors: seq<string>)
    ensures AnyMatch(ref, selectors) <==> exists k :: 0 <= k < |selectors| && Matches(ref, selectors[k])
    decreases |selectors|
  {
    if selectors != [] {
      AnyMatchExists(ref, selectors[1..]);
      if (exists k :: 0 <= k < |selectors| && Matches(ref, selectors[k])) {
        var k :| 0 <= k < |selectors| && Matches(ref, selectors[k]);
        if k > 0 {
          assert selectors[1..][k - 1] == selectors[k];
        }
      }
      if (exists k :: 0 <= k < |selectors[1..]| && Matches(ref, selectors[1..][k])) {
        var k :| 0 <= k < |selectors[1..]| && Matches(ref, selectors[1..][k]);
        assert selectors[k + 1] == selectors[1..][k];
      }
    }
  }

  /** An entry is kept exactly when one of its container's classes is
      `ref-` followed by a reference some selector matches. */
  lemma {:induction false} ContainerSelectedExists(classes: seq<string>, selectors: seq<string>)
    ensures ContainerSelected(classes, selectors) <==>
            exists c, s :: 0 <= c < |classes| && 0 <= s < |selectors| &&
                           |classes[c]| >= 4 && classes[c][..4] == "ref-" && Matches(classes[c][4..], selectors[s])
    decreases |classes|
  {
    if classes != [] {
      ContainerSelectedExists(classes[1..], selectors);
      var cls := classes[0];
      if |cls| >= 4 {
        AnyMatchExists(cls[4..], selectors);
      }
      if (exists c, s :: 0 <= c < |classes| && 0 <= s < |selectors| &&
                         |classes[c]| >= 4 && classes[c][..4] == "ref-" && Matches(classes[c][4..], selectors[s])) {
        var c, s :| 0 <= c < |classes| && 0 <= s < |selectors| &&
                    |classes[c]| >= 4 && classes[c][..4] == "ref-" && Matches(classes[c][4..], selectors[s]);
        if c > 0 {
          assert classes[1..][c - 1] == classes[c];
        }
      }
      if (exists c, s :: 0 <= c < |classes[1..]| && 0 <= s < |selectors| &&
                         |classes[1..][c]| >= 4 && classes[1..][c][..4] == "ref-" && Matches(classes[1..][c][4..], selectors[s])) {
        var c, s :| 0 <= c < |classes[1..]| && 0 <= s < |selectors| &&
                    |classes[1..][c]| >= 4 && classes[1..][c][..4] == "ref-" && Matches(classes[1..][c][4..], selectors[s]);
        assert classes[c + 1] == classes[1..][c];
      }
    }
  }
}
