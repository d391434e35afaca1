/**
 * The platform index the builder writes (sentryext.py:783-803,
 * `__process_platform_index`): every platform uid is filed under a base
 * platform and a local name, a dotted uid `base.rest` under `base` and
 * `rest`, an undotted uid under itself and `_self`.
 */
module PlatformIndex {
  import opened Wrappers
  import opened PyStr

  /** What the index reads of a processed platform. */
  datatype Platform = Platform(name: string, kind: string, docLink: Option<string>)

  /** One leaf of the index. */
  datatype Entry = Entry(details: string, name: string, kind: string, docLink: Option<string>)

  type Tree = map<string, map<string, Entry>>

  const SelfName: string := "_self"

  /** `uid.replace('.', '/') + '.json'`. */
  function Details(uid: string): (d: string)
    ensures |d| == |uid| + 5 && d[|uid|..] == ".json"
    ensures forall i :: 0 <= i < |uid| ==> d[i] == if uid[i] == '.' then '/' else uid[i]
  {
    ReplaceChar(uid, '.', '/') + ".json"
  }

  function EntryOf(uid: string, p: Platform): Entry
  {
    Entry(Details(uid), p.name, p.kind, p.docLink)
  }

  /** Where a uid is filed: `uid.split('.', 1)` for a dotted uid, which is
      dropped (None) when its base is not a platform itself; `(uid, '_self')`
      otherwise. */
  function Place(platforms: set<string>, uid: string): (r: Option<(string, string)>)
    ensures r.Some? ==> r.value.0 in platforms || uid !in platforms
    ensures '.' in uid && r.Some? ==> r.value.0 in platforms
    ensures r.Some? ==> '.' !in r.value.0
    ensures '.' !in uid ==> r == Some((uid, SelfName))
    ensures '.' in uid && r.Some? ==> uid == r.value.0 + "." + r.value.1
  {
    if '.' in uid then
      var i := IndexOf(uid, '.');
      assert uid == uid[..i] + "." + uid[i + 1..];
      if uid[..i] in platforms then Some((uid[..i], uid[i + 1..])) else None
    else Some((uid, SelfName))
  }

  /** `tree.setdefault(base, {})[local_name] = entry`. */
  function File(tree: Tree, base: string, local: string, e: Entry): Tree
  {
    tree[base := (if base in tree then tree[base] else map[])[local := e]]
  }

  /** The index after the uids of `order` were filed, in that order. */
  function Index(platforms: map<string, Platform>, order: seq<string>): Tree
    requires forall k :: 0 <= k < |order| ==> order[k] in platforms
  {
    if order == [] then map[]
    else
      var tree := Index(platforms, order[..|order| - 1]);
      var uid := order[|order| - 1];
      match Place(platforms.Keys, uid)
      case None => tree
      case Some((base, local)) => File(tree, base, local, EntryOf(uid, platforms[uid]))
  }

  /** The `Missing platform` messages: for each dotted uid whose base is not a
      platform, the base and the uid, in order. */
  function Missing(platforms: set<string>, order: seq<string>): seq<(string, string)>
  {
    if order == [] then []
    else
      var uid := order[|order| - 1];
      Missing(platforms, order[..|order| - 1]) +
      (if Place(platforms, uid).None? then [(uid[..IndexOf(uid, '.')], uid)] else [])
  }

  /** Filing one more uid. */
  lemma IndexStep(platforms: map<string, Platform>, order: seq<string>, k: nat)
    requires k < |order| && forall j :: 0 <= j < |order| ==> order[j] in platforms
    ensures var pl := Place(platforms.Keys, order[k]);
            Index(platforms, order[..k + 1]) ==
            if pl.None? then Index(platforms, order[..k])
            else File(Index(platforms, order[..k]), pl.value.0, pl.value.1, EntryOf(order[k], platforms[order[k]]))
    ensures Missing(platforms.Keys, order[..k + 1]) ==
            Missing(platforms.Keys, order[..k]) +
            (if Place(platforms.Keys, order[k]).None? then [(order[k][..IndexOf(order[k], '.')], order[k])] else [])
  {
    assert order[..k + 1][..k] == order[..k];
  }

  /** `__process_platform_index(platforms)`, iterating the platforms in the
      order `order` (the dict's own iteration order, which the index depends
      on only through collisions, see PlaceCollision). */
  method ProcessPlatformIndex(platforms: map<string, Platform>, order: seq<string>)
    returns (tree: Tree, missing: seq<(string, string)>)
    requires forall k :: 0 <= k < |order| ==> order[k] in platforms
    requires forall u :: u in platforms ==> u in order
    requires forall i, j :: 0 <= i < j < |order| ==> order[i] != order[j]
    ensures tree == Index(platforms, order)
    ensures missing == Missing(platforms.Keys, order)
  {
    tree := map[];
    missing := [];
    var k := 0;
    while k < |order|
      invariant 0 <= k <= |order|
      invariant tree == Index(platforms, order[..k])
      invariant missing == Missing(platforms.Keys, order[..k])
    {
      var uid := order[k];
      IndexStep(platforms, order, k);
      var platformData := platforms[uid];
      var base, localName;
      if '.' in uid {
        var i := IndexOf(uid, '.');
        base, localName := uid[..i], uid[i + 1..];
        if base !in platforms {
          assert Place(platforms.Keys, uid).None?;
          missing := missing + [(base, uid)];
          k := k + 1;
          continue;
        }
      } else {
        base, localName := uid, SelfName;
      }
      assert Place(platforms.Keys, uid) == Some((base, localName));
      var node := if base in tree then tree[base] else map[];
      tree := tree[base := node[localName := EntryOf(uid, platformData)]];
      k := k + 1;
    }
    assert order[..|order|] == order;
  }

  /** Two different uids share a place only as `b` and `b._self`. */
  lemma PlaceCollision(platforms: set<string>, u1: string, u2: string)
    requires u1 != u2 && Place(platforms, u1).Some? && Place(platforms, u1) == Place(platforms, u2)
    ensures ('.' !in u1 && u2 == u1 + "." + SelfName) || ('.' !in u2 && u1 == u2 + "." + SelfName)
  {
    if '.' in u1 && '.' in u2 {
      assert false;
    } else if '.' in u2 {
      var j := IndexOf(u2, '.');
      assert u2 == u2[..j] + "." + u2[j + 1..];
    } else if '.' in u1 {
      var i := IndexOf(u1, '.');
      assert u1 == u1[..i] + "." + u1[i + 1..];
    }
  }

  /** A uid is dropped exactly when it is dotted and the text before its first
      dot is not a platform. */
  lemma PlaceDropped(platforms: set<string>, base: string, rest: string)
    requires '.' !in base
    ensures Place(platforms, base + "." + rest) ==
            if base in platforms then Some((base, rest)) else None
  {
    var uid := base + "." + rest;
    assert uid[|base|] == '.';
    var i := IndexOf(uid, '.');
    assert uid[..i] == base && uid[i + 1..] == rest;
  }

  /** The position of the last uid of `order` filed at (base, local), if any. */
  function LastAt(platforms: set<string>, order: seq<string>, base: string, local: string): (r: Option<nat>)
    ensures r.Some? ==> r.value < |order| && Place(platforms, order[r.value]) == Some((base, local)) &&
                        forall j :: r.value < j < |order| ==> Place(platforms, order[j]) != Some((base, local))
    ensures r.None? ==> forall j :: 0 <= j < |order| ==> Place(platforms, order[j]) != Some((base, local))
    decreases |order|
  {
    if order == [] then None
    else if Place(platforms, order[|order| - 1]) == Some((base, local)) then Some(|order| - 1)
    else
      var r := LastAt(platforms, order[..|order| - 1], base, local);
      assert forall j :: 0 <= j < |order| - 1 ==> order[..|order| - 1][j] == order[j];
      r
  }

  /** The index holds a place exactly when some uid is filed there, and it
      holds the entry of the last such uid in the iteration order. */
  lemma {:induction false} IndexSpec(platforms: map<string, Platform>, order: seq<string>, base: string, local: string)
    requires forall k :: 0 <= k < |order| ==> order[k] in platforms
    ensures var tree := Index(platforms, order);
            var last := LastAt(platforms.Keys, order, base, local);
            ((base in tree && local in tree[base]) <==> last.Some?) &&
            (last.Some? ==> tree[base][local] == EntryOf(order[last.value], platforms[order[last.value]]))
    decreases |order|
  {
    if order != [] {
      var n := |order| - 1;
      var init := order[..n];
      IndexSpec(platforms, init, base, local);
      var prev := Index(platforms, init);
      var uid := order[n];
      var pl := Place(platforms.Keys, uid);
      if pl.Some? {
        FileAt(prev, pl.value.0, pl.value.1, EntryOf(uid, platforms[uid]), base, local);
      }
      var last := LastAt(platforms.Keys, init, base, local);
      if pl != Some((base, local)) && last.Some? {
        assert init[last.value] == order[last.value];
      }
    }
  }

  /** Filing at one place leaves every other place as it was. */
  lemma FileAt(tree: Tree, base: string, local: string, e: Entry, b: string, l: string)
    ensures var t := File(tree, base, local, e);
            (b in t && l in t[b]) <==> (b, l) == (base, local) || (b in tree && l in tree[b])
    ensures var t := File(tree, base, local, e);
            (b, l) == (base, local) ==> t[b][l] == e
    ensures var t := File(tree, base, local, e);
            (b, l) != (base, local) && b in tree && l in tree[b] ==> t[b][l] == tree[b][l]
  {
  }

  /** Every base in the index is a platform. */
  lemma {:induction false} IndexBases(platforms: map<string, Platform>, order: seq<string>)
    requires forall k :: 0 <= k < |order| ==> order[k] in platforms
    ensures forall b :: b in Index(platforms, order) ==> b in platforms
    decreases |order|
  {
    if order != [] {
      IndexBases(platforms, order[..|order| - 1]);
    }
  }

  /** Without a `b`/`b._self` pair among the platforms, the order does not
      matter: every filed uid's own entry is in the index at its place. */
  lemma IndexEntry(platforms: map<string, Platform>, order: seq<string>, uid: string)
    requires forall k :: 0 <= k < |order| ==> order[k] in platforms
    requires uid in order && Place(platforms.Keys, uid).Some?
    requires forall u :: u in platforms && u != uid ==> Place(platforms.Keys, u) != Place(platforms.Keys, uid)
    ensures var pl := Place(platforms.Keys, uid).value;
            pl.0 in Index(platforms, order) && pl.1 in Index(platforms, order)[pl.0] &&
            Index(platforms, order)[pl.0][pl.1] == EntryOf(uid, platforms[uid])
  {
    var pl := Place(platforms.Keys, uid).value;
    var i :| 0 <= i < |order| && order[i] == uid;
    IndexSpec(platforms, order, pl.0, pl.1);
    var last := LastAt(platforms.Keys, order, pl.0, pl.1);
    assert last.Some?;
    assert order[last.value] in platforms;
  }
}
