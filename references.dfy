/**
 * Reference bookkeeping (sentryext.py:606-661): the build environment keeps
 * `sentry_referenced_docs`, a map from a document name to the set of
 * documents whose toctree lists it. Reading a doctree adds edges, removing a
 * document purges it, parallel builds merge their maps, and a document is
 * "referenced" when following these backlinks reaches `index`.
 */
module References {
  import opened Wrappers

  type RefMap = map<string, set<string>>

  /** `references.get(name) or ()`: a missing key has no backlinks. */
  function Get(refs: RefMap, name: string): set<string>
  {
    if name in refs then refs[name] else {}
  }

  /** `rd.setdefault(ref, set()).add(docname)`. */
  function AddRef(rd: RefMap, ref: string, docname: string): (r: RefMap)
    ensures r.Keys == rd.Keys + {ref}
    ensures r[ref] == Get(rd, ref) + {docname}
    ensures forall k :: k in rd && k != ref ==> r[k] == rd[k]
  {
    rd[ref := Get(rd, ref) + {docname}]
  }

  /** The map after the toctree entries `refs` of `docname` were recorded, in
      order. */
  function Tracked(rd: RefMap, docname: string, refs: seq<string>): RefMap
  {
    if refs == [] then rd
    else AddRef(Tracked(rd, docname, refs[..|refs| - 1]), refs[|refs| - 1], docname)
  }

  /** Tracking adds `docname` to the set of every entry (creating the set when
      the key is new), keeps every set's previous members, and leaves keys
      that no entry names as they were. */
  lemma {:induction false} TrackedClosedForm(rd: RefMap, docname: string, refs: seq<string>)
    ensures forall k :: k in Tracked(rd, docname, refs) <==> k in rd || k in refs
    ensures forall k :: k in Tracked(rd, docname, refs) ==>
              Tracked(rd, docname, refs)[k] == Get(rd, k) + (if k in refs then {docname} else {})
  {
    if refs != [] {
      var init := refs[..|refs| - 1];
      var last := refs[|refs| - 1];
      TrackedClosedForm(rd, docname, init);
      assert refs == init + [last];
      var cur := Tracked(rd, docname, refs);
      forall k | k in cur
        ensures cur[k] == Get(rd, k) + (if k in refs then {docname} else {})
      {
        if k != last {
          assert k in refs <==> k in init;
        }
      }
    }
  }

  /** `purge_info`: `docname` leaves every set and the keys whose set is then
      empty are dropped (so are keys whose set was already empty). */
  function Purged(rd: RefMap, docname: string): RefMap
  {
    map k | k in rd && rd[k] - {docname} != {} :: rd[k] - {docname}
  }

  /** After a purge `docname` backs no document, no set is empty, and every
      set that neither held `docname` nor was empty is untouched. */
  lemma PurgedSpec(rd: RefMap, docname: string)
    ensures forall k :: k in Purged(rd, docname) ==> docname !in Purged(rd, docname)[k]
    ensures forall k :: k in Purged(rd, docname) ==> Purged(rd, docname)[k] != {}
    ensures forall k :: k in rd && docname !in rd[k] && rd[k] != {} ==>
              k in Purged(rd, docname) && Purged(rd, docname)[k] == rd[k]
    ensures forall k :: k in Purged(rd, docname) ==> k in rd && Purged(rd, docname)[k] <= rd[k]
  {
    forall k | k in rd && docname !in rd[k] && rd[k] != {}
      ensures k in Purged(rd, docname) && Purged(rd, docname)[k] == rd[k]
    {
      assert rd[k] - {docname} == rd[k];
    }
  }

  /** Purging a document twice is purging it once. */
  lemma PurgedIdempotent(rd: RefMap, docname: string)
    ensures Purged(Purged(rd, docname), docname) == Purged(rd, docname)
  {
    var p := Purged(rd, docname);
    forall k | k in p ensures p[k] - {docname} == p[k] { }
  }

  /** No map ever holds an empty set. */
  ghost predicate NoEmpty(rd: RefMap)
  {
    forall k :: k in rd ==> rd[k] != {}
  }

  lemma TrackedNoEmpty(rd: RefMap, docname: string, refs: seq<string>)
    requires NoEmpty(rd)
    ensures NoEmpty(Tracked(rd, docname, refs))
  {
    TrackedClosedForm(rd, docname, refs);
  }

  lemma MergedNoEmpty(rd: RefMap, other: RefMap)
    requires NoEmpty(rd) && NoEmpty(other)
    ensures NoEmpty(rd + other)
  {
  }

  /** `env.sentry_referenced_docs`; None when the attribute is not set. */
  class BuildEnv {
    var referencedDocs: Option<RefMap>

    /** A fresh environment has no reference map yet. */
    constructor ()
      ensures referencedDocs == None
    {
      referencedDocs := None;
    }

    /** `builder_inited`: create the map unless one survived from an earlier
        build. */
    method BuilderInited()
      modifies this
      ensures referencedDocs == if old(referencedDocs).Some? then old(referencedDocs) else Some(map[])
    {
      if referencedDocs.None? {
        referencedDocs := Some(map[]);
      }
    }

    /** The reference-map part of `track_references_and_orphan_doc`: record
        `docname` as a backlink of every toctree entry of its doctree
        (`refs`, the entries of all its toctrees in document order). The
        handler reads the attribute without checking it, so the map must
        exist. */
    method TrackReferences(docname: string, refs: seq<string>)
      requires referencedDocs.Some?
      modifies this
      ensures referencedDocs == Some(Tracked(old(referencedDocs).value, docname, refs))
    {
      var i := 0;
      while i < |refs|
        invariant 0 <= i <= |refs|
        invariant referencedDocs == Some(Tracked(old(referencedDocs).value, docname, refs[..i]))
      {
        assert refs[..i + 1][..i] == refs[..i];
        var rd := referencedDocs.value;
        referencedDocs := Some(rd[refs[i] := Get(rd, refs[i]) + {docname}]);
        i := i + 1;
      }
      assert refs[..|refs|] == refs;
    }

    /** `merge_info`: a plain dict update, so for a name both maps hold the
        other environment's set replaces this one's. */
    method MergeInfo(other: BuildEnv)
      modifies this
      ensures old(other.referencedDocs).None? ==> referencedDocs == old(referencedDocs)
      ensures old(other.referencedDocs).Some? ==>
                referencedDocs == Some(old(if referencedDocs.Some? then referencedDocs.value else map[]) +
                                       old(other.referencedDocs).value)
    {
      var theirs := other.referencedDocs;
      if theirs.None? {
        return;
      }
      if referencedDocs.None? {
        referencedDocs := Some(map[]);
      }
      referencedDocs := Some(referencedDocs.value + theirs.value);
    }

    /** `purge_info`: discard `docname` from every set, noting the keys whose
        set becomes empty, then pop those keys. */
    method PurgeInfo(docname: string)
      modifies this
      ensures old(referencedDocs).None? ==> referencedDocs == None
      ensures old(referencedDocs).Some? ==> referencedDocs == Some(Purged(old(referencedDocs).value, docname))
    {
      if referencedDocs.None? {
        return;
      }
      ghost var rd0 := referencedDocs.value;
      var toDelete: seq<string> := [];
      var items := referencedDocs.value.Keys;
      DiscardedNone(rd0, docname);
      while items != {}
        invariant items <= rd0.Keys
        invariant referencedDocs == Some(Discarded(rd0, docname, items))
        invariant forall k :: k in toDelete <==> k in rd0 && k !in items && rd0[k] - {docname} == {}
        decreases items
      {
        var key :| key in items;
        DiscardStep(rd0, docname, items, key);
        var docs := referencedDocs.value[key] - {docname};
        referencedDocs := Some(referencedDocs.value[key := docs]);
        if docs == {} {
          toDelete := toDelete + [key];
        }
        items := items - {key};
      }
      DroppedNone(rd0, docname);
      var i := 0;
      while i < |toDelete|
        invariant 0 <= i <= |toDelete|
        invariant referencedDocs == Some(Dropped(rd0, docname, toDelete[..i]))
      {
        DropStep(rd0, docname, toDelete, i);
        referencedDocs := Some(referencedDocs.value - {toDelete[i]});
        i := i + 1;
      }
      assert toDelete[..|toDelete|] == toDelete;
      DroppedPurged(rd0, docname, toDelete);
    }
  }

  /** The map during the first pass of `purge_info`: the sets of the keys
      still in `items` are untouched, the others have lost `docname`. */
  ghost function Discarded(rd: RefMap, docname: string, items: set<string>): RefMap
  {
    map k | k in rd :: if k in items then rd[k] else rd[k] - {docname}
  }

  lemma DiscardedNone(rd: RefMap, docname: string)
    ensures Discarded(rd, docname, rd.Keys) == rd
  {
  }

  lemma DiscardStep(rd: RefMap, docname: string, items: set<string>, key: string)
    requires key in items && items <= rd.Keys
    ensures var d := Discarded(rd, docname, items);
            Discarded(rd, docname, items - {key}) == d[key := d[key] - {docname}]
  {
  }

  /** The map during the second pass: the keys in `dels` are popped. */
  ghost function Dropped(rd: RefMap, docname: string, dels: seq<string>): RefMap
  {
    map k | k in rd && k !in dels :: rd[k] - {docname}
  }

  lemma DroppedNone(rd: RefMap, docname: string)
    ensures Dropped(rd, docname, []) == Discarded(rd, docname, {})
  {
  }

  lemma DropStep(rd: RefMap, docname: string, dels: seq<string>, i: nat)
    requires i < |dels|
    ensures Dropped(rd, docname, dels[..i + 1]) == Dropped(rd, docname, dels[..i]) - {dels[i]}
  {
    assert dels[..i + 1] == dels[..i] + [dels[i]];
  }

  lemma DroppedPurged(rd: RefMap, docname: string, dels: seq<string>)
    requires forall k :: k in dels <==> k in rd && rd[k] - {docname} == {}
    ensures Dropped(rd, docname, dels) == Purged(rd, docname)
  {
    var a, b := Dropped(rd, docname, dels), Purged(rd, docname);
    assert a.Keys == b.Keys;
    assert forall k :: k in a ==> a[k] == b[k];
  }

  /** A backlink path: each name is followed by one of the documents that
      reference it. */
  ghost predicate Path(refs: RefMap, p: seq<string>)
  {
    forall i :: 0 <= i < |p| - 1 ==> p[i + 1] in Get(refs, p[i])
  }

  /** p leads from `from` to `to` in one or more steps. */
  ghost predicate Witness(refs: RefMap, from: string, to: string, p: seq<string>)
  {
    |p| >= 2 && p[0] == from && p[|p| - 1] == to && Path(refs, p)
  }

  /** `to` is reached from `from` by following backlinks one or more times. */
  ghost predicate Reachable(refs: RefMap, from: string, to: string)
  {
    exists p :: Witness(refs, from, to, p)
  }

  /** Every name the search can meet: the start, the keys, and the members
      of every set. It is finite, which bounds the search. */
  lemma Universe(refs: RefMap, start: string) returns (u: set<string>)
    ensures start in u
    ensures forall name :: Get(refs, name) <= u
  {
    u := {start} + refs.Keys + set k, x | k in refs && x in refs[k] :: x;
    forall name, x | x in Get(refs, name) ensures x in u {
      assert name in refs && x in refs[name];
    }
  }

  /** A set the backlinks never leave. */
  ghost predicate Closed(refs: RefMap, s: set<string>)
  {
    forall x :: x in s ==> Get(refs, x) <= s
  }

  /** A path that starts in a closed set stays in it. */
  lemma {:induction false} ClosedPath(refs: RefMap, s: set<string>, p: seq<string>)
    requires Closed(refs, s) && Path(refs, p) && |p| >= 1 && p[0] in s
    ensures p[|p| - 1] in s
    decreases |p|
  {
    if |p| > 1 {
      var q := p[..|p| - 1];
      assert Path(refs, q) by {
        forall i | 0 <= i < |q| - 1 ensures q[i + 1] in Get(refs, q[i]) {
          assert q[i] == p[i] && q[i + 1] == p[i + 1];
        }
      }
      ClosedPath(refs, s, q);
      assert p[|p| - 1] in Get(refs, p[|p| - 2]);
    }
  }

  /** Nothing outside a closed set that holds the start is reachable. */
  lemma ClosedUnreachable(refs: RefMap, s: set<string>, from: string, to: string)
    requires Closed(refs, s) && from in s && to !in s
    ensures !Reachable(refs, from, to)
  {
    if Reachable(refs, from, to) {
      var p :| Witness(refs, from, to, p);
      ClosedPath(refs, s, p);
    }
  }

  lemma ExtendWitness(refs: RefMap, from: string, p: seq<string>, x: string)
    requires |p| >= 1 && p[0] == from && Path(refs, p) && x in Get(refs, p[|p| - 1])
    ensures Witness(refs, from, x, p + [x])
  {
    var q := p + [x];
    forall i | 0 <= i < |q| - 1 ensures q[i + 1] in Get(refs, q[i]) {
      if i < |p| - 1 {
        assert q[i] == p[i] && q[i + 1] == p[i + 1];
      }
    }
  }

  /** Every pending name carries a path that reaches it. */
  ghost predicate Witnessed(refs: RefMap, from: string, pending: set<string>, paths: map<string, seq<string>>)
  {
    forall x :: x in pending ==> x in paths && Witness(refs, from, x, paths[x])
  }

  /** Moving `next` out of the pending set and its unseen backlinks in keeps
      every pending name witnessed. */
  lemma WitnessStep(refs: RefMap, from: string, pending: set<string>, paths: map<string, seq<string>>,
                    next: string, added: set<string>)
    requires Witnessed(refs, from, pending, paths) && next in pending
    requires added <= Get(refs, next)
    ensures Witnessed(refs, from, pending - {next} + added,
                      paths + map x | x in added :: paths[next] + [x])
  {
    forall x | x in added ensures Witness(refs, from, x, paths[next] + [x]) {
      ExtendWitness(refs, from, paths[next], x);
    }
  }

  /** Every backlink of a seen name is seen or pending. */
  ghost predicate Frontier(refs: RefMap, seen: set<string>, pending: set<string>)
  {
    forall x :: x in seen ==> Get(refs, x) <= seen + pending
  }

  lemma FrontierStep(refs: RefMap, seen: set<string>, pending: set<string>, next: string, added: set<string>)
    requires Frontier(refs, seen, pending) && next in pending
    requires added == Get(refs, next) - (seen + {next})
    ensures Frontier(refs, seen + {next}, pending - {next} + added)
  {
    var seen', pending' := seen + {next}, pending - {next} + added;
    forall x | x in seen' ensures Get(refs, x) <= seen' + pending' {
      forall y | y in Get(refs, x) ensures y in seen' + pending' {
        if x != next {
          assert y in seen + pending;
        }
      }
    }
  }

  lemma FrontierClosed(refs: RefMap, seen: set<string>)
    requires Frontier(refs, seen, {})
    ensures Closed(refs, seen)
  {
    assert seen + {} == seen;
  }

  /** What the search has left to do: names not yet seen, counted twice,
      plus pending names that were already seen (only the start can be). */
  ghost function Work(u: set<string>, seen: set<string>, pending: set<string>): nat
  {
    2 * |u - seen| + |pending * seen|
  }

  /** Each round of the search either sees a new name or drops the start
      from the pending names, and never lets a seen name back in. */
  lemma SearchShrinks(u: set<string>, seen: set<string>, pending: set<string>, next: string, added: set<string>)
    requires seen <= u && next in pending && next in u
    requires added * (seen + {next}) == {}
    ensures Work(u, seen + {next}, pending - {next} + added) < Work(u, seen, pending)
  {
    var seen', pending' := seen + {next}, pending - {next} + added;
    assert pending' * seen' == (pending * seen) - {next};
    if next in seen {
      assert seen' == seen;
      assert next in pending * seen;
      assert |(pending * seen) - {next}| == |pending * seen| - 1;
    } else {
      assert pending' * seen' == pending * seen;
      assert next in u - seen;
      assert u - seen' == (u - seen) - {next};
      assert |(u - seen) - {next}| == |u - seen| - 1;
    }
  }

  /** `is_referenced`: a worklist search from `docname` along the backlinks
      that answers as soon as `index` is among the pending names. */
  method IsReferenced(docname: string, references: RefMap) returns (r: bool)
    ensures r <==> docname == "index" || Reachable(references, docname, "index")
  {
    if docname == "index" {
      return true;
    }
    ghost var u := Universe(references, docname);
    var seen := {docname};
    var toProcess := Get(references, docname);
    ghost var paths: map<string, seq<string>> := map x | x in toProcess :: [docname, x];
    assert Witnessed(references, docname, toProcess, paths) by {
      forall x | x in toProcess ensures Witness(references, docname, x, [docname, x]) { }
    }
    while toProcess != {}
      invariant docname in seen && seen <= u && toProcess <= u
      invariant "index" !in seen
      invariant Witnessed(references, docname, toProcess, paths)
      invariant Frontier(references, seen, toProcess)
      decreases Work(u, seen, toProcess)
    {
      if "index" in toProcess {
        assert Witness(references, docname, "index", paths["index"]);
        return true;
      }
      var next :| next in toProcess;
      var added := Get(references, next) - (seen + {next});
      WitnessStep(references, docname, toProcess, paths, next, added);
      SearchShrinks(u, seen, toProcess, next, added);
      FrontierStep(references, seen, toProcess, next, added);
      paths := paths + map x | x in added :: paths[next] + [x];
      toProcess := toProcess - {next};
      seen := seen + {next};
      toProcess := toProcess + added;
    }
    FrontierClosed(references, seen);
    ClosedUnreachable(references, seen, docname, "index");
    return false;
  }

  /** Every entry of the `index` toctree counts as referenced once the index
      page has been read. */
  lemma IndexEntriesReferenced(rd: RefMap, refs: seq<string>, e: string)
    requires e in refs
    ensures Reachable(Tracked(rd, "index", refs), e, "index")
  {
    TrackedClosedForm(rd, "index", refs);
    var p := [e, "index"];
    assert Witness(Tracked(rd, "index", refs), e, "index", p);
  }
}
