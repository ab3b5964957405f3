// The JSON editor as it works on objects in memory: a cursor walks down, parents are remembered, and
// objects are changed in place.

module JsonEditing {
  import opened Options
  import opened AgentConfig
  import opened JsonOwnership
  import opened JsonHeap

  // ---------- the edits seen from the root ----------

  lemma {:induction false} SetResolved(root: Fields, p: seq<string>, q: seq<string>, value: Json)
    requires Resolve(root, p).Found? && q != []
    ensures SetPath(root, p + q, value) == match SetPath(Resolve(root, p).fields, q, value)
      case Err(e) => Err(e)
      case Ok(f) => Ok(Replace(root, p, f))
    decreases |p|
  {
    if p == [] {
      assert p + q == q;
    } else {
      assert (p + q)[1..] == p[1..] + q;
      SetResolved(root[p[0]].fields, p[1..], q, value);
    }
  }

  lemma {:induction false} ReplaceAgain(root: Fields, p: seq<string>, f: Fields, g: Fields)
    requires Resolve(root, p).Found?
    ensures Resolve(Replace(root, p, f), p) == Found(f)
    ensures Replace(Replace(root, p, f), p, g) == Replace(root, p, g)
    decreases |p|
  {
    if p != [] {
      ReplaceAgain(root[p[0]].fields, p[1..], f, g);
    }
  }

  lemma {:induction false} ReplaceSame(root: Fields, p: seq<string>)
    requires Resolve(root, p).Found?
    ensures Replace(root, p, Resolve(root, p).fields) == root
    decreases |p|
  {
    if p != [] {
      ReplaceSame(root[p[0]].fields, p[1..]);
      assert root[p[0] := root[p[0]]] == root;
    }
  }

  /** An empty object made on the way changes nothing of the result. */
  lemma StubKeepsSet(root: Fields, p: seq<string>, q: seq<string>, value: Json)
    requires Resolve(root, p).Found? && |q| > 1 && q[0] !in Resolve(root, p).fields
    ensures SetPath(Replace(root, p, Resolve(root, p).fields[q[0] := Object(map[])]), p + q, value) == SetPath(root, p + q, value)
  {
    var f := Resolve(root, p).fields;
    var stub := f[q[0] := Object(map[])];
    ReplaceAgain(root, p, stub, map[]);
    SetResolved(root, p, q, value);
    SetResolved(Replace(root, p, stub), p, q, value);
    var sub := SetPath(map[], q[1..], value);
    if sub.Ok? {
      assert stub[q[0] := Object(sub.fields)] == f[q[0] := Object(sub.fields)];
      ReplaceAgain(root, p, stub, f[q[0] := Object(sub.fields)]);
    }
  }

  lemma LeafBlocksSet(root: Fields, p: seq<string>, q: seq<string>, value: Json)
    requires Resolve(root, p).Found? && |q| > 1 && q[0] in Resolve(root, p).fields && !Resolve(root, p).fields[q[0]].Object?
    ensures SetPath(root, p + q, value).Err?
  {
    SetResolved(root, p, q, value);
  }

  // ---------- reading and copying ----------

  /** Deep equality and serialisation read a tree by value. */
  method ToJson(n: Node, ghost h: Heap, ghost rank: map<Node, nat>) returns (fields: Fields)
    requires Closed(h, rank) && n in h && Mirrors(h)
    ensures fields == View(h, rank, n)
    decreases rank[n]
  {
    fields := map[];
    var keys := n.fields.Keys;
    SlotsOfView(h, rank, n);
    while keys != {}
      invariant keys <= h[n].Keys && fields.Keys == h[n].Keys - keys
      invariant forall k | k in fields :: fields[k] == View(h, rank, n)[k]
      decreases |keys|
    {
      var key :| key in keys;
      keys := keys - {key};
      assert SlotOk(h, rank, n, h[n][key]);
      match n.fields[key] {
        case Leaf(json) =>
          fields := fields[key := json];
        case Nested(child) =>
          var sub := ToJson(child, h, rank);
          fields := fields[key := Object(sub)];
      }
    }
  }

  /** `cursor[key] = structuredClone(value)`: the copy shares nothing with what was there. */
  method PutClone(cursor: Node, key: string, value: Json, ghost h0: Heap, ghost rank0: map<Node, nat>, ghost root: Node)
    returns (ghost h: Heap, ghost rank: map<Node, nat>)
    requires Tree(h0, rank0, root) && cursor in h0 && Mirrors(h0)
    modifies cursor
    ensures h0.Keys <= h.Keys && fresh(h.Keys - h0.Keys) && Tree(h, rank, root) && Mirrors(h) && OnlyAt(h0, h, cursor)
    ensures View(h, rank, cursor) == View(h0, rank0, cursor)[key := value]
    decreases value, 1
  {
    hide View, Closed, OneParent, OnlyAt, Tree;
    if value.Object? {
      var top, sub, subrank := Clone(value);
      TreeIsClosed(h0, rank0, root);
      TreeIsClosed(sub, subrank, top);
      AttachedView(h0, rank0, root, cursor, key, sub, subrank, top);
      h, rank := Attached(h0, cursor, key, sub, top), AttachedRank(h0, rank0, sub, subrank, top);
      cursor.fields := cursor.fields[key := Nested(top)];
    } else {
      WithLeafTree(h0, rank0, root, cursor, key, value);
      WithLeafView(h0, rank0, root, cursor, key, value);
      h, rank := WithLeaf(h0, cursor, key, value), rank0;
      cursor.fields := cursor.fields[key := Leaf(value)];
    }
  }

  /** A private copy of a JSON object. */
  method Clone(value: Json) returns (top: Node, ghost h: Heap, ghost rank: map<Node, nat>)
    requires value.Object?
    ensures fresh(h.Keys) && Mirrors(h) && Tree(h, rank, top) && View(h, rank, top) == value.fields
    decreases value, 0
  {
    hide View, Closed, OneParent, OnlyAt, Tree;
    top := new Node();
    h, rank := Single(top), map[top := 0];
    SingleTree(top);
    var keys := value.fields.Keys;
    assert value.fields - keys == map[];
    while keys != {}
      invariant keys <= value.fields.Keys
      invariant top in h && fresh(h.Keys) && Mirrors(h) && Tree(h, rank, top) && View(h, rank, top) == value.fields - keys
      decreases |keys|
    {
      var key :| key in keys;
      OneKeyLess(value.fields, keys, key);
      h, rank := PutClone(top, key, value.fields[key], h, rank, top);
      keys := keys - {key};
    }
    assert value.fields - {} == value.fields;
  }

  lemma OneKeyLess(f: Fields, keys: set<string>, key: string)
    requires keys <= f.Keys && key in keys
    ensures f - (keys - {key}) == (f - keys)[key := f[key]]
  {
  }

  // ---------- setting the owned key ----------

  /** `cursor[segment] = {}` */
  method PutStub(cursor: Node, segment: string, ghost h0: Heap, ghost rank0: map<Node, nat>, ghost root: Node)
    returns (ghost h: Heap, ghost rank: map<Node, nat>)
    requires Tree(h0, rank0, root) && cursor in h0 && Mirrors(h0)
    modifies cursor
    ensures h0.Keys <= h.Keys && fresh(h.Keys - h0.Keys) && Tree(h, rank, root) && Mirrors(h) && OnlyAt(h0, h, cursor)
    ensures segment in cursor.fields && cursor.fields[segment].Nested?
    ensures View(h, rank, cursor) == View(h0, rank0, cursor)[segment := Object(map[])]
  {
    hide View, Closed, OneParent, OnlyAt, Tree;
    var child := new Node();
    SingleTree(child);
    TreeIsClosed(h0, rank0, root);
    AttachedView(h0, rank0, root, cursor, segment, Single(child), map[child := 0], child);
    h, rank := Attached(h0, cursor, segment, Single(child), child), AttachedRank(h0, rank0, Single(child), map[child := 0], child);
    cursor.fields := cursor.fields[segment := Nested(child)];
  }

  method SetJsonPath(root: Node, path: seq<string>, value: Json, ghost h0: Heap, ghost rank0: map<Node, nat>)
    returns (ok: bool, ghost h: Heap, ghost rank: map<Node, nat>)
    requires path != [] && Tree(h0, rank0, root) && Mirrors(h0)
    modifies h0.Keys
    ensures h0.Keys <= h.Keys && fresh(h.Keys - h0.Keys) && Tree(h, rank, root) && Mirrors(h)
    ensures var r := SetPath(View(h0, rank0, root), path, value); ok == r.Ok? && (ok ==> View(h, rank, root) == r.fields)
  {
    hide View, Closed, OneParent, OnlyAt, SetPath, Tree, IsPath, Follow, Replace, Resolve;
    WalkBegins(h0, rank0, root, path);
    h, rank := h0, rank0;
    var cursor := root;
    ghost var goal := SetPath(View(h0, rank0, root), path, value);
    for i := 0 to |path| - 1
      invariant h0.Keys <= h.Keys && fresh(h.Keys - h0.Keys) && Tree(h, rank, root) && Mirrors(h)
      invariant IsPath(h, root, path[..i]) && Follow(h, root, path[..i]) == cursor
      invariant SetPath(View(h, rank, root), path, value) == goal
    {
      var segment := path[i];
      SlotsOfTree(h, rank, root, path[..i]);
      if segment !in cursor.fields {
        ghost var h', rank' := h, rank;
        h, rank := PutStub(cursor, segment, h, rank, root);
        SeenFromRoot(h', rank', h, rank, root, path[..i]);
        StubStep(View(h', rank', root), path, i, value);
      } else if cursor.fields[segment].Leaf? {
        LeafStep(h, rank, root, path, i, value);
        return false, h, rank;
      }
      Descend(h, rank, root, path, i);
      cursor := cursor.fields[segment].node;
    }
    var last := |path| - 1;
    var key := path[last];
    SlotsOfTree(h, rank, root, path[..last]);
    SetLast(h, rank, root, path, value);
    if key in cursor.fields {
      var same := SameValue(cursor, key, value, h, rank);
      if !same {
        return false, h, rank;
      }
    }
    ghost var h', rank' := h, rank;
    h, rank := PutClone(cursor, key, value, h, rank, root);
    SeenFromRoot(h', rank', h, rank, root, path[..last]);
    ok := true;
  }

  /** Deep equality of what a key holds and a value. */
  method SameValue(n: Node, key: string, value: Json, ghost h: Heap, ghost rank: map<Node, nat>) returns (same: bool)
    requires Closed(h, rank) && n in h && Mirrors(h) && key in h[n]
    ensures same == (View(h, rank, n)[key] == value)
  {
    assert SlotOk(h, rank, n, h[n][key]);
    match n.fields[key] {
      case Leaf(json) => same := json == value;
      case Nested(child) =>
        var fields := ToJson(child, h, rank);
        same := Object(fields) == value;
    }
  }

  lemma SlotsOfTree(h: Heap, rank: map<Node, nat>, root: Node, p: seq<string>)
    requires Tree(h, rank, root) && IsPath(h, root, p)
    ensures var n := Follow(h, root, p); Closed(h, rank) && View(h, rank, n).Keys == h[n].Keys
  {
    SlotsOfView(h, rank, Follow(h, root, p));
  }

  lemma SplitPath(path: seq<string>, i: nat)
    requires i < |path|
    ensures path[..i] + path[i..] == path && path[i..][0] == path[i] && path[i..] == [path[i]] + path[i + 1..]
    ensures path[..i + 1] == path[..i] + [path[i]]
  {
  }

  lemma StubStep(root: Fields, path: seq<string>, i: nat, value: Json)
    requires i < |path| - 1 && Resolve(root, path[..i]).Found? && path[i] !in Resolve(root, path[..i]).fields
    ensures var stub := Resolve(root, path[..i]).fields[path[i] := Object(map[])];
      SetPath(Replace(root, path[..i], stub), path, value) == SetPath(root, path, value)
  {
    hide SetPath, Replace, Resolve;
    SplitPath(path, i);
    StubKeepsSet(root, path[..i], path[i..], value);
  }

  lemma LeafStep(h: Heap, rank: map<Node, nat>, root: Node, path: seq<string>, i: nat, value: Json)
    requires Tree(h, rank, root) && i < |path| - 1 && IsPath(h, root, path[..i])
    requires var cursor := Follow(h, root, path[..i]); path[i] in h[cursor] && h[cursor][path[i]].Leaf?
    ensures SetPath(View(h, rank, root), path, value).Err?
  {
    var cursor := Follow(h, root, path[..i]);
    assert SlotOk(h, rank, cursor, h[cursor][path[i]]);
    SlotsOfView(h, rank, cursor);
    ViewResolve(h, rank, root, path[..i]);
    hide SetPath, View, Resolve;
    SplitPath(path, i);
    LeafBlocksSet(View(h, rank, root), path[..i], path[i..], value);
  }

  lemma Descend(h: Heap, rank: map<Node, nat>, root: Node, path: seq<string>, i: nat)
    requires Tree(h, rank, root) && i < |path| && IsPath(h, root, path[..i])
    requires var cursor := Follow(h, root, path[..i]); path[i] in h[cursor] && h[cursor][path[i]].Nested?
    ensures var cursor := Follow(h, root, path[..i]);
      IsPath(h, root, path[..i + 1]) && Follow(h, root, path[..i + 1]) == h[cursor][path[i]].node
  {
    hide OneParent;
    SplitPath(path, i);
    ChildRank(h, rank, Follow(h, root, path[..i]), path[i]);
    PathSnoc(h, root, path[..i], path[i]);
  }

  lemma SetLast(h: Heap, rank: map<Node, nat>, root: Node, path: seq<string>, value: Json)
    requires path != [] && Tree(h, rank, root) && IsPath(h, root, path[..|path| - 1])
    ensures var p, key := path[..|path| - 1], path[|path| - 1];
      var f := View(h, rank, Follow(h, root, p));
      SetPath(View(h, rank, root), path, value) ==
        if key in f && f[key] != value then Err(OwnershipConflict) else Ok(Replace(View(h, rank, root), p, f[key := value]))
  {
    var p, key := path[..|path| - 1], path[|path| - 1];
    ViewResolve(h, rank, root, p);
    SetResolved(View(h, rank, root), p, [key], value);
    assert p + [key] == path;
  }

  // ---------- deleting the owned key ----------

  /** The view after a deletion at the end of a path: emptied parents go, up to the first that is not. */
  function PruneUp(root: Fields, p: seq<string>, f: Fields): Fields
    decreases |p|
  {
    if p == [] then f
    else
      var child := if p[0] in root && root[p[0]].Object? then root[p[0]].fields else map[];
      Prune(root, p[0], PruneUp(child, p[1..], f))
  }

  lemma {:induction false} DeleteResolved(root: Fields, p: seq<string>, q: seq<string>, value: Json)
    requires Resolve(root, p).Found? && q != []
    ensures DeletePath(root, p + q, value) == match DeletePath(Resolve(root, p).fields, q, value)
      case Deleted(f) => Deleted(PruneUp(root, p, f))
      case other => other
    decreases |p|
  {
    if p == [] {
      assert p + q == q;
    } else {
      assert (p + q)[1..] == p[1..] + q;
      DeleteResolved(root[p[0]].fields, p[1..], q, value);
    }
  }

  lemma {:induction false} StripResolved(root: Fields, p: seq<string>, q: seq<string>)
    requires Resolve(root, p).Found? && q != []
    ensures Strip(root, p + q) == match Strip(Resolve(root, p).fields, q)
      case Some(f) => Some(PruneUp(root, p, f))
      case None => None
    decreases |p|
  {
    if p == [] {
      assert p + q == q;
    } else {
      assert (p + q)[1..] == p[1..] + q;
      StripResolved(root[p[0]].fields, p[1..], q);
    }
  }

  /** Pruning in two parts. */
  lemma {:induction false} PruneUpAppend(root: Fields, p: seq<string>, key: string, f: Fields)
    requires Resolve(root, p).Found? && key in Resolve(root, p).fields && Resolve(root, p).fields[key].Object?
    ensures PruneUp(root, p + [key], f) == PruneUp(root, p, Prune(Resolve(root, p).fields, key, f))
    decreases |p|
  {
    var q := p + [key];
    if p == [] {
      assert q[1..] == [];
    } else {
      assert q[1..] == p[1..] + [key];
      PruneUpAppend(root[p[0]].fields, p[1..], key, f);
    }
  }

  lemma {:induction false} ReplaceAppend(root: Fields, p: seq<string>, key: string, f: Fields)
    requires Resolve(root, p).Found? && key in Resolve(root, p).fields && Resolve(root, p).fields[key].Object?
    ensures Replace(root, p + [key], f) == Replace(root, p, Resolve(root, p).fields[key := Object(f)])
    decreases |p|
  {
    var q := p + [key];
    if p == [] {
      assert q[1..] == [];
    } else {
      assert q[1..] == p[1..] + [key];
      ReplaceAppend(root[p[0]].fields, p[1..], key, f);
    }
  }

  /** Where nothing became empty, pruning is replacing. */
  lemma {:induction false} PruneUpNonEmpty(root: Fields, p: seq<string>, f: Fields)
    requires f != map[] || p == []
    ensures PruneUp(root, p, f) == Replace(root, p, f)
    ensures p != [] ==> Replace(root, p, f) != map[]
    decreases |p|
  {
    if p != [] {
      var child := if p[0] in root && root[p[0]].Object? then root[p[0]].fields else map[];
      PruneUpNonEmpty(child, p[1..], f);
      assert p[0] in Replace(root, p, f);
    }
  }

  /** The parents that a walk along a path remembers. */
  ghost predicate AreParents(h: Heap, root: Node, p: seq<string>, parents: seq<(Node, string)>) {
    && |parents| == |p|
    && forall j | 0 <= j < |p| ::
         parents[j].1 == p[j] && IsPath(h, root, p[..j]) && Follow(h, root, p[..j]) == parents[j].0
         && p[j] in h[parents[j].0] && h[parents[j].0][p[j]].Nested?
  }

  lemma ParentsAfterEdit(h: Heap, rank: map<Node, nat>, h': Heap, root: Node, p: seq<string>, parents: seq<(Node, string)>)
    requires Closed(h, rank) && AreParents(h, root, p, parents) && IsPath(h, root, p) && OnlyAt(h, h', Follow(h, root, p))
    ensures AreParents(h', root, p, parents)
  {
    forall j | 0 <= j < |p|
      ensures IsPath(h', root, p[..j]) && Follow(h', root, p[..j]) == parents[j].0 && h'[parents[j].0] == h[parents[j].0]
    {
      PrefixKept(h, rank, h', root, p, j);
    }
  }

  /** Nodes before the end of a path are not the edited one. */
  lemma {:induction false} PrefixKept(h: Heap, rank: map<Node, nat>, h': Heap, n: Node, p: seq<string>, j: nat)
    requires Closed(h, rank) && IsPath(h, n, p) && OnlyAt(h, h', Follow(h, n, p)) && j < |p|
    requires IsPath(h, n, p[..j])
    ensures IsPath(h', n, p[..j]) && Follow(h', n, p[..j]) == Follow(h, n, p[..j])
    ensures h'[Follow(h, n, p[..j])] == h[Follow(h, n, p[..j])]
    decreases |p|
  {
    hide OnlyAt, Closed;
    PathStep(h, rank, h', n, p);
    if j > 0 {
      assert p[..j][1..] == p[1..][..j - 1];
      PrefixKept(h, rank, h', h[n][p[0]].node, p[1..], j - 1);
    }
  }

  /** `delete cursor[key]` */
  method DeleteKey(cursor: Node, key: string, ghost h0: Heap, ghost rank: map<Node, nat>, ghost root: Node) returns (ghost h: Heap)
    requires Tree(h0, rank, root) && cursor in h0 && Mirrors(h0)
    modifies cursor
    ensures h == Detached(h0, cursor, key) && h.Keys == h0.Keys && Tree(h, rank, root) && Mirrors(h) && OnlyAt(h0, h, cursor)
    ensures View(h, rank, cursor) == View(h0, rank, cursor) - {key}
  {
    hide View, Closed, OneParent, OnlyAt;
    DetachedTree(h0, rank, root, cursor, key);
    DetachedView(h0, rank, root, cursor, key);
    h := Detached(h0, cursor, key);
    cursor.fields := cursor.fields - {key};
  }

  lemma ParentsPrefix(h: Heap, root: Node, p: seq<string>, parents: seq<(Node, string)>, i: nat)
    requires AreParents(h, root, p, parents) && i <= |p|
    ensures AreParents(h, root, p[..i], parents[..i])
  {
    forall j | 0 <= j < i ensures p[..i][..j] == p[..j] && p[..i][j] == p[j] && parents[..i][j] == parents[j] {
    }
  }

  /** The last remembered parent holds the end of the path. */
  lemma LastParent(h: Heap, rank: map<Node, nat>, root: Node, p: seq<string>, parents: seq<(Node, string)>)
    requires Tree(h, rank, root) && AreParents(h, root, p, parents) && p != [] && IsPath(h, root, p)
    ensures var (parent, segment) := parents[|p| - 1]; var q := p[..|p| - 1];
      && p == q + [segment] && IsPath(h, root, q) && Follow(h, root, q) == parent && AreParents(h, root, q, parents[..|p| - 1])
      && segment in h[parent] && h[parent][segment].Nested? && h[parent][segment].node in h
      && Follow(h, root, p) == h[parent][segment].node
  {
    var last := |p| - 1;
    var parent, segment := parents[last].0, p[last];
    assert p == p[..last] + [segment];
    ChildRank(h, rank, parent, segment);
    PathSnoc(h, root, p[..last], segment);
    ParentsPrefix(h, root, p, parents, last);
  }

  lemma {:induction false} ResolveSnoc(root: Fields, p: seq<string>, key: string)
    requires Resolve(root, p + [key]).Found?
    ensures Resolve(root, p).Found? && key in Resolve(root, p).fields && Resolve(root, p).fields[key].Object?
    decreases |p|
  {
    var q := p + [key];
    if p == [] {
      assert q == [key];
    } else {
      assert q[1..] == p[1..] + [key] && q[0] == p[0];
      ResolveSnoc(root[p[0]].fields, p[1..], key);
    }
  }

  /** One turn of the pruning loop, seen from the root: the child at the end of the path stands for x. */
  lemma PruneTurn(h: Heap, rank: map<Node, nat>, root: Node, before: Fields, q: seq<string>, key: string, x: Fields)
    requires Tree(h, rank, root) && IsPath(h, root, q) && IsPath(h, root, q + [key])
    requires Resolve(before, q + [key]).Found? && View(h, rank, root) == Replace(before, q + [key], x)
    ensures Resolve(before, q).Found? && key in Resolve(before, q).fields
    ensures var g := Resolve(before, q).fields;
      && View(h, rank, root) == Replace(before, q, g[key := Object(x)])
      && View(h, rank, Follow(h, root, q)) == g[key := Object(x)]
      && View(h, rank, Follow(h, root, q + [key])) == x
      && PruneUp(before, q + [key], x) == PruneUp(before, q, Prune(g, key, x))
  {
    hide View, Closed, OneParent, Replace, PruneUp, Resolve, Prune, Follow, IsPath;
    ResolveSnoc(before, q, key);
    var g := Resolve(before, q).fields;
    ReplaceAppend(before, q, key, x);
    PruneUpAppend(before, q, key, x);
    ViewResolve(h, rank, root, q);
    ReplaceAgain(before, q, g[key := Object(x)], x);
    ViewResolve(h, rank, root, q + [key]);
    ReplaceAgain(before, q + [key], x, x);
  }

  /** The pruning loop between two turns: the end of the path p stands for x. */
  ghost predicate Pruning(h: Heap, rank: map<Node, nat>, root: Node, p: seq<string>, parents: seq<(Node, string)>,
                          before: Fields, x: Fields)
  {
    && Tree(h, rank, root) && IsPath(h, root, p) && AreParents(h, root, p, parents)
    && Resolve(before, p).Found? && View(h, rank, root) == Replace(before, p, x)
  }

  lemma PruningChild(h: Heap, rank: map<Node, nat>, root: Node, p: seq<string>, parents: seq<(Node, string)>,
                     before: Fields, x: Fields)
    requires Pruning(h, rank, root, p, parents, before, x) && p != []
    ensures |parents| == |p|
    ensures var (parent, segment) := parents[|p| - 1];
      parent in h && segment in h[parent] && h[parent][segment].Nested? && h[parent][segment].node in h
      && (h[h[parent][segment].node] == map[] <==> x == map[])
  {
    PruningParts(h, rank, root, p, parents, before, x);
    hide View, Closed, OneParent, PruneUp, Replace, Resolve, AreParents, IsPath, Follow;
    var q := p[..|p| - 1];
    LastParent(h, rank, root, p, parents);
    var segment := parents[|p| - 1].1;
    PruneTurn(h, rank, root, before, q, segment, x);
    EmptyObject(h, rank, root, Follow(h, root, p));
  }

  /** Deleting the emptied child leaves the loop one parent higher. */
  lemma PrunedTurn(h: Heap, rank: map<Node, nat>, root: Node, p: seq<string>, parents: seq<(Node, string)>,
                   before: Fields, parent: Node, segment: string) returns (x: Fields)
    requires Pruning(h, rank, root, p, parents, before, map[]) && p != [] && |parents| == |p|
    requires (parent, segment) == parents[|p| - 1] && parent in h
    ensures Pruning(Detached(h, parent, segment), rank, root, p[..|p| - 1], parents[..|p| - 1], before, x)
    ensures PruneUp(before, p, map[]) == PruneUp(before, p[..|p| - 1], x)
  {
    hide View, Closed, OneParent, PruneUp, Replace, Resolve, AreParents, IsPath, Follow, Prune, OnlyAt, Detached;
    var q, h' := p[..|p| - 1], Detached(h, parent, segment);
    LastParent(h, rank, root, p, parents);
    PruneTurn(h, rank, root, before, q, segment, map[]);
    var g := Resolve(before, q).fields;
    PruneChoice(g, segment, map[]);
    DetachedTree(h, rank, root, parent, segment);
    DetachedView(h, rank, root, parent, segment);
    SeenFromRoot(h, rank, h', rank, root, q);
    ParentsAfterEdit(h, rank, h', root, q, parents[..|p| - 1]);
    x := g - {segment};
    assert g[segment := Object(map[])] - {segment} == x;
    ReplaceAgain(before, q, g[segment := Object(map[])], x);
  }

  /** One turn: deletes the child of the last parent if it is empty, and says whether it did. */
  method PruneLast(root: Node, parent: Node, segment: string, ghost p: seq<string>, ghost parents: seq<(Node, string)>,
                   ghost before: Fields, ghost x: Fields, ghost h0: Heap, ghost rank: map<Node, nat>)
    returns (pruned: bool, ghost h: Heap, ghost x': Fields)
    requires Mirrors(h0) && Pruning(h0, rank, root, p, parents, before, x)
    requires p != [] && |parents| == |p| && (parent, segment) == parents[|p| - 1] && parent in h0
    modifies parent
    ensures pruned <==> x == map[]
    ensures h.Keys == h0.Keys && Mirrors(h)
    ensures pruned ==> PruneUp(before, p, x) == PruneUp(before, p[..|p| - 1], x')
    ensures pruned ==> Pruning(h, rank, root, p[..|p| - 1], parents[..|p| - 1], before, x')
    ensures !pruned ==> h == h0 && x' == x
  {
    hide Pruning, Tree, PruneUp, OnlyAt, View, Closed, OneParent, Replace, Detached;
    PruningChild(h0, rank, root, p, parents, before, x);
    PruningParts(h0, rank, root, p, parents, before, x);
    h, x' := h0, x;
    pruned := parent.fields[segment].node.fields == map[];
    if pruned {
      h := DeleteKey(parent, segment, h0, rank, root);
      x' := PrunedTurn(h0, rank, root, p, parents, before, parent, segment);
    }
  }

  /** Parents that became empty are deleted from the bottom up; the first that did not stops the loop.
      `before` is what the root stood for before the key was deleted and `f` what was left beside it. */
  method PruneParents(root: Node, parents: seq<(Node, string)>, ghost p: seq<string>, ghost before: Fields, ghost f: Fields,
                      ghost h0: Heap, ghost rank: map<Node, nat>) returns (ghost h: Heap)
    requires Mirrors(h0) && Pruning(h0, rank, root, p, parents, before, f)
    modifies h0.Keys
    ensures h.Keys == h0.Keys && Tree(h, rank, root) && Mirrors(h) && View(h, rank, root) == PruneUp(before, p, f)
  {
    hide Pruning, Tree, PruneUp, View, Replace;
    PruningParts(h0, rank, root, p, parents, before, f);
    h := h0;
    var i, emptied := |parents|, true;
    ghost var x := f;
    assert p[..i] == p && parents[..i] == parents;
    while i > 0 && emptied
      invariant i <= |p| == |parents| && h.Keys == h0.Keys && Mirrors(h)
      invariant Pruning(h, rank, root, p[..i], parents[..i], before, x)
      invariant PruneUp(before, p, f) == PruneUp(before, p[..i], x)
      invariant !emptied ==> x != map[]
      decreases i, emptied
    {
      PruningChild(h, rank, root, p[..i], parents[..i], before, x);
      assert p[..i][..i - 1] == p[..i - 1] && parents[..i][..i - 1] == parents[..i - 1];
      emptied, h, x := PruneLast(root, parents[i - 1].0, parents[i - 1].1, p[..i], parents[..i], before, x, h, rank);
      if emptied {
        i := i - 1;
      }
    }
    PruneUpNonEmpty(before, p[..i], x);
    PruningParts(h, rank, root, p[..i], parents[..i], before, x);
  }

  lemma PruningParts(h: Heap, rank: map<Node, nat>, root: Node, p: seq<string>, parents: seq<(Node, string)>,
                     before: Fields, x: Fields)
    requires Pruning(h, rank, root, p, parents, before, x)
    ensures |parents| == |p| && Tree(h, rank, root) && View(h, rank, root) == Replace(before, p, x)
  {
    hide Tree, View;
  }

  lemma PruneChoice(g: Fields, key: string, x: Fields)
    ensures Prune(g, key, x) == if x == map[] then g - {key} else g[key := Object(x)]
  {
  }

  lemma EmptyObject(h: Heap, rank: map<Node, nat>, root: Node, n: Node)
    requires Tree(h, rank, root) && n in h
    ensures h[n] == map[] <==> View(h, rank, n) == map[]
  {
    hide Closed;
    SlotsOfView(h, rank, n);
    if View(h, rank, n) == map[] {
      assert h[n].Keys == {};
    }
  }

  lemma ParentsSnoc(h: Heap, root: Node, p: seq<string>, parents: seq<(Node, string)>, key: string)
    requires AreParents(h, root, p, parents) && IsPath(h, root, p)
    requires key in h[Follow(h, root, p)] && h[Follow(h, root, p)][key].Nested?
    ensures AreParents(h, root, p + [key], parents + [(Follow(h, root, p), key)])
  {
    var q, all := p + [key], parents + [(Follow(h, root, p), key)];
    forall j | 0 <= j < |q|
      ensures all[j].1 == q[j] && IsPath(h, root, q[..j]) && Follow(h, root, q[..j]) == all[j].0
      ensures q[j] in h[all[j].0] && h[all[j].0][q[j]].Nested?
    {
      assert q[..j] == p[..j];
      assert p[..|p|] == p;
    }
  }

  /** One step of the walk down, with its parent remembered. */
  lemma Remember(h: Heap, rank: map<Node, nat>, root: Node, path: seq<string>, i: nat, parents: seq<(Node, string)>)
    requires Tree(h, rank, root) && i < |path| && IsPath(h, root, path[..i]) && AreParents(h, root, path[..i], parents)
    requires var cursor := Follow(h, root, path[..i]); path[i] in h[cursor] && h[cursor][path[i]].Nested?
    ensures AreParents(h, root, path[..i + 1], parents + [(Follow(h, root, path[..i]), path[i])])
  {
    hide AreParents, Tree, IsPath, Follow;
    SplitPath(path, i);
    ParentsSnoc(h, root, path[..i], parents, path[i]);
  }

  /** `delete cursor[key]` and the pruning after it. */
  method RemoveKey(root: Node, cursor: Node, key: string, parents: seq<(Node, string)>, ghost p: seq<string>,
                   ghost h0: Heap, ghost rank: map<Node, nat>) returns (ghost h: Heap)
    requires Tree(h0, rank, root) && Mirrors(h0) && IsPath(h0, root, p) && AreParents(h0, root, p, parents)
    requires Follow(h0, root, p) == cursor
    modifies h0.Keys
    ensures h.Keys == h0.Keys && Tree(h, rank, root) && Mirrors(h)
    ensures View(h, rank, root) == PruneUp(View(h0, rank, root), p, View(h0, rank, cursor) - {key})
  {
    hide View, Closed, OneParent, OnlyAt, Replace, PruneUp, AreParents, IsPath, Follow, Resolve, Detached;
    h := DeleteKey(cursor, key, h0, rank, root);
    SeenFromRoot(h0, rank, h, rank, root, p);
    ParentsAfterEdit(h0, rank, h, root, p, parents);
    ghost var before, f := View(h0, rank, root), View(h0, rank, cursor) - {key};
    h := PruneParents(root, parents, p, before, f, h, rank);
  }

  method DeleteJsonPath(root: Node, path: seq<string>, value: Json, ghost h0: Heap, ghost rank: map<Node, nat>)
    returns (ok: bool, ghost h: Heap)
    requires path != [] && Tree(h0, rank, root) && Mirrors(h0)
    modifies h0.Keys
    ensures h.Keys == h0.Keys && Tree(h, rank, root) && Mirrors(h)
    ensures match DeletePath(View(h0, rank, root), path, value)
      case Deleted(f) => ok && View(h, rank, root) == f
      case Untouched => ok && h == h0
      case Refused => !ok && h == h0
  {
    hide View, Closed, OneParent, PruneUp, AreParents, IsPath, Follow, DeletePath;
    h := h0;
    var cursor, parents := root, [];
    WalkBegins(h0, rank, root, path);
    for i := 0 to |path| - 1
      invariant Mirrors(h0) && IsPath(h0, root, path[..i]) && Follow(h0, root, path[..i]) == cursor
      invariant AreParents(h0, root, path[..i], parents)
    {
      var segment := path[i];
      DeleteAt(h0, rank, root, path, i, value);
      if segment !in cursor.fields {
        return true, h0;
      }
      if cursor.fields[segment].Leaf? {
        return false, h0;
      }
      Remember(h0, rank, root, path, i, parents);
      Descend(h0, rank, root, path, i);
      parents := parents + [(cursor, segment)];
      cursor := cursor.fields[segment].node;
    }
    var last := |path| - 1;
    var key := path[last];
    DeleteAt(h0, rank, root, path, last, value);
    if key !in cursor.fields {
      return true, h0;
    }
    var same := SameValue(cursor, key, value, h0, rank);
    if !same {
      return false, h0;
    }
    h := RemoveKey(root, cursor, key, parents, path[..last], h0, rank);
    ok := true;
  }

  lemma WalkBegins(h: Heap, rank: map<Node, nat>, root: Node, path: seq<string>)
    requires Tree(h, rank, root)
    ensures IsPath(h, root, path[..0]) && Follow(h, root, path[..0]) == root && AreParents(h, root, path[..0], [])
  {
  }

  /** What the deletion comes to once the walk has reached a node. */
  lemma DeleteAt(h: Heap, rank: map<Node, nat>, root: Node, path: seq<string>, i: nat, value: Json)
    requires Tree(h, rank, root) && i < |path| && IsPath(h, root, path[..i])
    ensures var cursor := Follow(h, root, path[..i]); var r := DeletePath(View(h, rank, root), path, value);
      && (path[i] !in h[cursor] ==> r == Untouched)
      && (path[i] in h[cursor] && h[cursor][path[i]].Leaf? && i < |path| - 1 ==> r == Refused)
      && (path[i] in h[cursor] && i == |path| - 1 ==>
            && path[i] in View(h, rank, cursor)
            && r == if View(h, rank, cursor)[path[i]] != value then Refused
                    else Deleted(PruneUp(View(h, rank, root), path[..i], View(h, rank, cursor) - {path[i]})))
  {
    var cursor := Follow(h, root, path[..i]);
    var f := View(h, rank, cursor);
    if path[i] in h[cursor] {
      assert SlotOk(h, rank, cursor, h[cursor][path[i]]);
    }
    hide View, Closed, OneParent, PruneUp, AreParents, IsPath, Follow, Resolve;
    TreeIsClosed(h, rank, root);
    SlotsOfView(h, rank, cursor);
    ViewResolve(h, rank, root, path[..i]);
    SplitPath(path, i);
    DeleteResolved(View(h, rank, root), path[..i], path[i..], value);
    assert i == |path| - 1 ==> path[i..] == [path[i]];
  }

  /** The self-check's deletion: it asks nothing about the value. */
  method DeleteJsonPathUnchecked(root: Node, path: seq<string>, ghost h0: Heap, ghost rank: map<Node, nat>) returns (ghost h: Heap)
    requires path != [] && Tree(h0, rank, root) && Mirrors(h0)
    modifies h0.Keys
    ensures h.Keys == h0.Keys && Tree(h, rank, root) && Mirrors(h)
    ensures View(h, rank, root) == Stripped(View(h0, rank, root), path)
  {
    hide View, Closed, OneParent, PruneUp, AreParents, IsPath, Follow, Stripped;
    h := h0;
    var cursor, parents := root, [];
    WalkBegins(h0, rank, root, path);
    for i := 0 to |path| - 1
      invariant Mirrors(h0) && IsPath(h0, root, path[..i]) && Follow(h0, root, path[..i]) == cursor
      invariant AreParents(h0, root, path[..i], parents)
    {
      var segment := path[i];
      StripAt(h0, rank, root, path, i);
      if segment !in cursor.fields || cursor.fields[segment].Leaf? {
        return h0;
      }
      Remember(h0, rank, root, path, i, parents);
      Descend(h0, rank, root, path, i);
      parents := parents + [(cursor, segment)];
      cursor := cursor.fields[segment].node;
    }
    var last := |path| - 1;
    StripAt(h0, rank, root, path, last);
    h := RemoveKey(root, cursor, path[last], parents, path[..last], h0, rank);
  }

  lemma StripAt(h: Heap, rank: map<Node, nat>, root: Node, path: seq<string>, i: nat)
    requires Tree(h, rank, root) && i < |path| && IsPath(h, root, path[..i])
    ensures var cursor := Follow(h, root, path[..i]); var r := Stripped(View(h, rank, root), path);
      && (i < |path| - 1 && (path[i] !in h[cursor] || h[cursor][path[i]].Leaf?) ==> r == View(h, rank, root))
      && (i == |path| - 1 ==> r == PruneUp(View(h, rank, root), path[..i], View(h, rank, cursor) - {path[i]}))
  {
    var cursor := Follow(h, root, path[..i]);
    if path[i] in h[cursor] {
      assert SlotOk(h, rank, cursor, h[cursor][path[i]]);
    }
    hide View, Closed, OneParent, PruneUp, AreParents, IsPath, Follow, Resolve;
    TreeIsClosed(h, rank, root);
    SlotsOfView(h, rank, cursor);
    ViewResolve(h, rank, root, path[..i]);
    SplitPath(path, i);
    StripResolved(View(h, rank, root), path[..i], path[i..]);
    assert i == |path| - 1 ==> path[i..] == [path[i]];
  }

  // ---------- the editor ----------

  /** A copy without the owned key. */
  method StrippedCopy(n: Node, path: seq<string>, ghost h0: Heap, ghost rank0: map<Node, nat>) returns (fields: Fields)
    requires path != [] && Tree(h0, rank0, n) && Mirrors(h0)
    ensures fields == Stripped(View(h0, rank0, n), path)
  {
    hide View, Closed, OneParent, Stripped, Tree;
    TreeIsClosed(h0, rank0, n);
    fields := ToJson(n, h0, rank0);
    var clean, h, rank := Clone(Object(fields));
    h := DeleteJsonPathUnchecked(clean, path, h, rank);
    TreeIsClosed(h, rank, clean);
    fields := ToJson(clean, h, rank);
  }

  /** The self-check: without the owned key the two trees are equal. It works on copies. */
  method OnlyOwnedJsonChanged(before: Node, after: Node, path: seq<string>, ghost hb: Heap, ghost rb: map<Node, nat>,
                              ghost ha: Heap, ghost ra: map<Node, nat>) returns (same: bool)
    requires path != [] && Tree(hb, rb, before) && Mirrors(hb) && Tree(ha, ra, after) && Mirrors(ha)
    ensures same == OnlyOwnedChanged(View(hb, rb, before), View(ha, ra, after), path)
  {
    hide View, Closed, OneParent, Stripped, Tree;
    var cleanBefore := StrippedCopy(before, path, hb, rb);
    var cleanAfter := StrippedCopy(after, path, ha, ra);
    same := cleanBefore == cleanAfter;
  }

  method EditInPlace(next: Node, path: seq<string>, value: Json, action: Action, ghost h0: Heap, ghost rank0: map<Node, nat>)
    returns (ok: bool, ghost h: Heap, ghost rank: map<Node, nat>)
    requires path != [] && Tree(h0, rank0, next) && Mirrors(h0)
    modifies h0.Keys
    ensures h0.Keys <= h.Keys && fresh(h.Keys - h0.Keys) && Tree(h, rank, next) && Mirrors(h)
    ensures var r := Edited(View(h0, rank0, next), path, value, action);
      if ok then r == Ok(View(h, rank, next)) else r == Err(OwnershipConflict)
  {
    hide View, Closed, OneParent, Tree, SetPath, DeletePath;
    if action.Install? {
      ok, h, rank := SetJsonPath(next, path, value, h0, rank0);
    } else {
      ok, h := DeleteJsonPath(next, path, value, h0, rank0);
      rank := rank0;
    }
  }

  /** The JSON branch of the editor does in memory what `MutateJson` says of the parsed values. */
  method MutateConfig(original: Fields, path: seq<string>, value: Json, action: Action) returns (r: Result)
    ensures r == MutateJson(original, path, value, action)
  {
    hide View, Closed, OneParent, Tree, Edited, OnlyOwnedChanged;
    if path == [] {
      return Err(MalformedConfig);
    }
    var before, hb, rb := Clone(Object(original));
    var next, h, rank := Clone(Object(original));
    var ok;
    ok, h, rank := EditInPlace(next, path, value, action, h, rank);
    if !ok {
      return Err(OwnershipConflict);
    }
    var same := OnlyOwnedJsonChanged(before, next, path, hb, rb, h, rank);
    if !same {
      return Err(NativeTransportMutation);
    }
    var fields := ToJson(next, h, rank);
    return Ok(fields);
  }
}
