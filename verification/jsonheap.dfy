// JSON objects as they lie in memory: nodes that refer to each other, and the tree they stand for.

module JsonHeap {
  import opened JsonOwnership

  /** A JSON object that is edited in place. */
  class Node {
    var fields: map<string, Slot>

    constructor ()
      ensures fields == map[]
    {
      fields := map[];
    }
  }

  /** What a key holds: a value that is not an object, or another node. */
  datatype Slot = Leaf(json: Json) | Nested(node: Node)

  /** The fields of some nodes at one moment. */
  type Heap = map<Node, map<string, Slot>>

  ghost predicate Mirrors(h: Heap)
    reads h.Keys
  {
    forall n | n in h :: n.fields == h[n]
  }

  /** Children are in the heap, and a rank falls from parent to child. */
  ghost predicate Closed(h: Heap, rank: map<Node, nat>) {
    && h.Keys <= rank.Keys
    && forall n, k | n in h && k in h[n] :: SlotOk(h, rank, n, h[n][k])
  }

  ghost predicate SlotOk(h: Heap, rank: map<Node, nat>, parent: Node, slot: Slot)
    requires h.Keys <= rank.Keys && parent in h
  {
    match slot
    case Leaf(json) => !json.Object?
    case Nested(child) => child in h && rank[child] < rank[parent]
  }

  /** The root is nobody's child and no node is a child twice. */
  ghost predicate OneParent(h: Heap, root: Node) {
    && (forall n, k | n in h && k in h[n] :: h[n][k] != Nested(root))
    && (forall n, m, k, l | n in h && m in h && k in h[n] && l in h[m] && h[n][k].Nested? && h[n][k] == h[m][l] ::
          n == m && k == l)
  }

  ghost predicate Tree(h: Heap, rank: map<Node, nat>, root: Node): (t: bool)
    ensures t ==> root in h && Closed(h, rank) && h.Keys <= rank.Keys
  {
    root in h && Closed(h, rank) && OneParent(h, root)
  }

  /** The JSON that a node stands for. */
  ghost function View(h: Heap, rank: map<Node, nat>, n: Node): Fields
    requires Closed(h, rank) && n in h
    decreases rank[n]
  {
    map k | k in h[n] :: SlotView(h, rank, n, k)
  }

  ghost function SlotView(h: Heap, rank: map<Node, nat>, n: Node, k: string): Json
    requires Closed(h, rank) && n in h && k in h[n]
    decreases rank[n], 0
  {
    assert SlotOk(h, rank, n, h[n][k]);
    match h[n][k]
    case Leaf(json) => json
    case Nested(child) => Object(View(h, rank, child))
  }

  // ---------- paths ----------

  ghost predicate IsPath(h: Heap, n: Node, p: seq<string>)
    decreases |p|
  {
    n in h && (p == [] || (p[0] in h[n] && h[n][p[0]].Nested? && IsPath(h, h[n][p[0]].node, p[1..])))
  }

  /** The node that a path leads to. */
  ghost function Follow(h: Heap, n: Node, p: seq<string>): (m: Node)
    requires IsPath(h, n, p)
    ensures m in h
    decreases |p|
  {
    if p == [] then n else Follow(h, h[n][p[0]].node, p[1..])
  }

  /** The nodes that a path passes, both ends included. */
  ghost function Passed(h: Heap, n: Node, p: seq<string>): set<Node>
    requires IsPath(h, n, p)
    decreases |p|
  {
    {n} + if p == [] then {} else Passed(h, h[n][p[0]].node, p[1..])
  }

  lemma ChildRank(h: Heap, rank: map<Node, nat>, n: Node, k: string)
    requires Closed(h, rank) && n in h && k in h[n] && h[n][k].Nested?
    ensures h[n][k].node in h && rank[h[n][k].node] < rank[n]
  {
    assert SlotOk(h, rank, n, h[n][k]);
  }

  lemma ParentIsUnique(h: Heap, root: Node, n: Node, k: string, m: Node, l: string)
    requires OneParent(h, root) && n in h && m in h && k in h[n] && l in h[m] && h[n][k].Nested? && h[n][k] == h[m][l]
    ensures n == m && k == l
  {
  }

  lemma {:induction false} PassedRank(h: Heap, rank: map<Node, nat>, n: Node, p: seq<string>, x: Node)
    requires Closed(h, rank) && IsPath(h, n, p) && x in Passed(h, n, p)
    ensures x in h && rank[x] <= rank[n] && (x != n ==> rank[x] < rank[n])
    decreases |p|
  {
    hide Closed;
    if p != [] && x != n {
      ChildRank(h, rank, n, p[0]);
      PassedRank(h, rank, h[n][p[0]].node, p[1..], x);
    }
  }

  /** A passed node other than the first is the child of a passed node. */
  lemma {:induction false} PassedParent(h: Heap, n: Node, p: seq<string>, x: Node) returns (m: Node, k: string)
    requires IsPath(h, n, p) && x in Passed(h, n, p) && x != n
    ensures m in Passed(h, n, p) && m in h && k in h[m] && h[m][k] == Nested(x)
    decreases |p|
  {
    var c := h[n][p[0]].node;
    if x == c {
      m, k := n, p[0];
    } else {
      m, k := PassedParent(h, c, p[1..], x);
    }
  }

  lemma {:induction false} FollowIsPassed(h: Heap, n: Node, p: seq<string>)
    requires IsPath(h, n, p)
    ensures Follow(h, n, p) in Passed(h, n, p)
    decreases |p|
  {
    if p != [] {
      FollowIsPassed(h, h[n][p[0]].node, p[1..]);
    }
  }

  // ---------- what an edit of one node changes ----------

  /** Everything below the bound that is outside a set stays outside it, and is the same in both heaps. */
  ghost predicate Sheltered(h: Heap, rank: map<Node, nat>, h': Heap, bound: nat, set': set<Node>)
    requires h.Keys <= rank.Keys
  {
    forall m | m in h && rank[m] < bound && m !in set' ::
      && m in h' && h'[m] == h[m]
      && forall k | k in h[m] && h[m][k].Nested? :: h[m][k].node !in set'
  }

  lemma {:induction false} ViewUnchanged(h: Heap, rank: map<Node, nat>, h': Heap, rank': map<Node, nat>,
                                         bound: nat, set': set<Node>, n: Node)
    requires Closed(h, rank) && Closed(h', rank') && Sheltered(h, rank, h', bound, set')
    requires n in h && rank[n] < bound && n !in set'
    ensures n in h' && View(h', rank', n) == View(h, rank, n)
    decreases rank[n]
  {
    assert n in h' && h'[n] == h[n];
    forall k | k in h[n] ensures SlotView(h', rank', n, k) == SlotView(h, rank, n, k) {
      SlotUnchanged(h, rank, h', rank', bound, set', n, k);
    }
  }

  lemma SlotUnchanged(h: Heap, rank: map<Node, nat>, h': Heap, rank': map<Node, nat>,
                      bound: nat, set': set<Node>, n: Node, k: string)
    requires Closed(h, rank) && Closed(h', rank') && Sheltered(h, rank, h', bound, set')
    requires n in h && rank[n] <= bound && n in h' && k in h[n] && k in h'[n] && h'[n][k] == h[n][k]
    requires h[n][k].Nested? ==> h[n][k].node !in set'
    ensures SlotView(h', rank', n, k) == SlotView(h, rank, n, k)
    decreases rank[n], 0
  {
    if h[n][k].Nested? {
      ChildRank(h, rank, n, k);
      ViewUnchanged(h, rank, h', rank', bound, set', h[n][k].node);
    }
  }

  /** Only one node may differ, and nodes may be added. */
  ghost predicate OnlyAt(h: Heap, h': Heap, cursor: Node) {
    forall m | m in h :: m in h' && (m != cursor ==> h'[m] == h[m])
  }

  /** A slot that the edited node keeps has the same content. */
  lemma KeptSlot(h: Heap, rank: map<Node, nat>, h': Heap, rank': map<Node, nat>, cursor: Node, k: string)
    requires Closed(h, rank) && Closed(h', rank') && OnlyAt(h, h', cursor)
    requires cursor in h && cursor in h' && k in h[cursor] && k in h'[cursor] && h'[cursor][k] == h[cursor][k]
    ensures SlotView(h', rank', cursor, k) == SlotView(h, rank, cursor, k)
  {
    forall m, j | m in h && rank[m] < rank[cursor] && j in h[m] && h[m][j].Nested? ensures h[m][j].node != cursor {
      ChildRank(h, rank, m, j);
    }
    if h[cursor][k].Nested? {
      ChildRank(h, rank, cursor, k);
    }
    SlotUnchanged(h, rank, h', rank', rank[cursor], {cursor}, cursor, k);
  }

  /** The view of the root after an edit at the end of a path: only that place is replaced. */
  function Replace(root: Fields, p: seq<string>, sub: Fields): Fields
    decreases |p|
  {
    if p == [] then sub
    else
      var child := if p[0] in root && root[p[0]].Object? then root[p[0]].fields else map[];
      root[p[0] := Object(Replace(child, p[1..], sub))]
  }

  lemma {:induction false} ViewReplaced(h: Heap, rank: map<Node, nat>, h': Heap, rank': map<Node, nat>, root: Node,
                                        n: Node, p: seq<string>)
    requires Closed(h, rank) && Closed(h', rank') && OneParent(h, root) && IsPath(h, n, p)
    requires OnlyAt(h, h', Follow(h, n, p))
    ensures n in h' && View(h', rank', n) == Replace(View(h, rank, n), p, View(h', rank', Follow(h, n, p)))
    decreases |p|
  {
    if p != [] {
      hide Closed, OneParent, IsPath, Passed, OnlyAt, View, SlotView;
      PathStep(h, rank, h', n, p);
      var c := h[n][p[0]].node;
      ViewReplaced(h, rank, h', rank', root, c, p[1..]);
      OtherSlots(h, rank, h', rank', root, n, p);
      OneSlotReplaced(h, rank, h', rank', n, p[0]);
    }
  }

  lemma PathStep(h: Heap, rank: map<Node, nat>, h': Heap, n: Node, p: seq<string>)
    requires Closed(h, rank) && IsPath(h, n, p) && p != [] && OnlyAt(h, h', Follow(h, n, p))
    ensures n in h' && h'[n] == h[n] && p[0] in h[n] && h[n][p[0]].Nested? && IsPath(h, h[n][p[0]].node, p[1..])
    ensures h[n][p[0]].node in h && Follow(h, h[n][p[0]].node, p[1..]) == Follow(h, n, p)
  {
    var c := h[n][p[0]].node;
    ChildRank(h, rank, n, p[0]);
    FollowIsPassed(h, c, p[1..]);
    PassedRank(h, rank, c, p[1..], Follow(h, c, p[1..]));
  }

  lemma OtherSlots(h: Heap, rank: map<Node, nat>, h': Heap, rank': map<Node, nat>, root: Node, n: Node, p: seq<string>)
    requires Closed(h, rank) && Closed(h', rank') && OneParent(h, root) && IsPath(h, n, p) && p != []
    requires OnlyAt(h, h', Follow(h, n, p)) && n in h' && h'[n] == h[n]
    ensures forall k | k in h[n] && k != p[0] :: SlotView(h', rank', n, k) == SlotView(h, rank, n, k)
  {
    var bound := rank[n];
    hide Closed, OneParent, OnlyAt, View, SlotView, Sheltered;
    OffPathSheltered(h, rank, h', root, n, p);
    forall k | k in h[n] && k != p[0] ensures SlotView(h', rank', n, k) == SlotView(h, rank, n, k) {
      if h[n][k].Nested? {
        OffPathSlot(h, rank, root, n, p, k);
      }
      SlotUnchanged(h, rank, h', rank', bound, Passed(h, h[n][p[0]].node, p[1..]), n, k);
    }
  }

  lemma OneSlotReplaced(h: Heap, rank: map<Node, nat>, h': Heap, rank': map<Node, nat>, n: Node, key: string)
    requires Closed(h, rank) && Closed(h', rank') && n in h && n in h' && h'[n] == h[n] && key in h[n] && h[n][key].Nested?
    requires h[n][key].node in h && h[n][key].node in h'
    requires forall k | k in h[n] && k != key :: SlotView(h', rank', n, k) == SlotView(h, rank, n, k)
    ensures View(h', rank', n) == View(h, rank, n)[key := Object(View(h', rank', h[n][key].node))]
    ensures key in View(h, rank, n) && View(h, rank, n)[key] == Object(View(h, rank, h[n][key].node))
  {
    hide Closed, SlotView;
    NestedSlot(h', rank', n, key);
    NestedSlot(h, rank, n, key);
    SlotsOfView(h, rank, n);
    SlotsOfView(h', rank', n);
    hide View;
  }

  lemma NestedSlot(h: Heap, rank: map<Node, nat>, n: Node, k: string)
    requires Closed(h, rank) && n in h && k in h[n] && h[n][k].Nested?
    ensures h[n][k].node in h && SlotView(h, rank, n, k) == Object(View(h, rank, h[n][k].node))
  {
    hide View;
    ChildRank(h, rank, n, k);
  }

  lemma SlotsOfView(h: Heap, rank: map<Node, nat>, n: Node)
    requires Closed(h, rank) && n in h
    ensures View(h, rank, n).Keys == h[n].Keys
    ensures forall k | k in h[n] :: View(h, rank, n)[k] == SlotView(h, rank, n, k)
  {
    hide Closed, SlotView;
  }

  lemma OffPathSheltered(h: Heap, rank: map<Node, nat>, h': Heap, root: Node, n: Node, p: seq<string>)
    requires Closed(h, rank) && OneParent(h, root) && IsPath(h, n, p) && p != []
    requires OnlyAt(h, h', Follow(h, n, p))
    ensures Sheltered(h, rank, h', rank[n], Passed(h, h[n][p[0]].node, p[1..]))
  {
    var c, rest := h[n][p[0]].node, p[1..];
    var passed := Passed(h, c, rest);
    FollowIsPassed(h, c, rest);
    forall m, k | m in h && rank[m] < rank[n] && m !in passed && k in h[m] && h[m][k].Nested?
      ensures h[m][k].node !in passed
    {
      if h[m][k].node in passed {
        FromOutside(h, rank, root, n, p, m, k);
      }
    }
  }

  lemma OffPathSlot(h: Heap, rank: map<Node, nat>, root: Node, n: Node, p: seq<string>, k: string)
    requires Closed(h, rank) && OneParent(h, root) && IsPath(h, n, p) && p != [] && k in h[n] && k != p[0] && h[n][k].Nested?
    ensures h[n][k].node !in Passed(h, h[n][p[0]].node, p[1..])
  {
    if h[n][k].node in Passed(h, h[n][p[0]].node, p[1..]) {
      FromOutside(h, rank, root, n, p, n, k);
      ChildRank(h, rank, n, p[0]);
      if n in Passed(h, h[n][p[0]].node, p[1..]) {
        PassedRank(h, rank, h[n][p[0]].node, p[1..], n);
      }
    }
  }

  /** The path is entered from its first node by its first key, or from within. */
  lemma FromOutside(h: Heap, rank: map<Node, nat>, root: Node, n: Node, p: seq<string>, m: Node, k: string)
    requires Closed(h, rank) && OneParent(h, root) && IsPath(h, n, p) && p != []
    requires m in h && k in h[m] && h[m][k].Nested? && h[m][k].node in Passed(h, h[n][p[0]].node, p[1..])
    ensures (m == n && k == p[0]) || m in Passed(h, h[n][p[0]].node, p[1..])
  {
    var c, rest, x := h[n][p[0]].node, p[1..], h[m][k].node;
    if x == c {
      ParentIsUnique(h, root, n, p[0], m, k);
    } else {
      var m', k' := PassedParent(h, c, rest, x);
      ParentIsUnique(h, root, m', k', m, k);
    }
  }

  // ---------- paths under an edit ----------

  lemma {:induction false} PathKept(h: Heap, rank: map<Node, nat>, h': Heap, n: Node, p: seq<string>)
    requires Closed(h, rank) && IsPath(h, n, p) && OnlyAt(h, h', Follow(h, n, p))
    ensures IsPath(h', n, p) && Follow(h', n, p) == Follow(h, n, p)
    decreases |p|
  {
    if p != [] {
      PathStep(h, rank, h', n, p);
      PathKept(h, rank, h', h[n][p[0]].node, p[1..]);
    }
  }

  lemma {:induction false} PathSnoc(h: Heap, n: Node, p: seq<string>, key: string)
    requires IsPath(h, n, p)
    requires key in h[Follow(h, n, p)] && h[Follow(h, n, p)][key].Nested? && h[Follow(h, n, p)][key].node in h
    ensures IsPath(h, n, p + [key]) && Follow(h, n, p + [key]) == h[Follow(h, n, p)][key].node
    decreases |p|
  {
    var q := p + [key];
    if p == [] {
      assert q[1..] == [];
    } else {
      assert q[1..] == p[1..] + [key];
      PathSnoc(h, h[n][p[0]].node, p[1..], key);
    }
  }

  /** Following keys through the fields of nested objects. */
  function Resolve(root: Fields, p: seq<string>): Resolved
    decreases |p|
  {
    if p == [] then Found(root)
    else if p[0] in root && root[p[0]].Object? then Resolve(root[p[0]].fields, p[1..])
    else Nowhere
  }

  datatype Resolved = Found(fields: Fields) | Nowhere

  lemma {:induction false} ViewResolve(h: Heap, rank: map<Node, nat>, n: Node, p: seq<string>)
    requires Closed(h, rank) && IsPath(h, n, p)
    ensures Resolve(View(h, rank, n), p) == Found(View(h, rank, Follow(h, n, p)))
    decreases |p|
  {
    if p != [] {
      hide Closed, View, SlotView;
      NestedSlot(h, rank, n, p[0]);
      SlotsOfView(h, rank, n);
      ViewResolve(h, rank, h[n][p[0]].node, p[1..]);
    }
  }

  // ---------- the three edits of a node ----------

  ghost function Detached(h: Heap, cursor: Node, key: string): Heap
    requires cursor in h
  {
    h[cursor := h[cursor] - {key}]
  }

  ghost function WithLeaf(h: Heap, cursor: Node, key: string, json: Json): Heap
    requires cursor in h
  {
    h[cursor := h[cursor][key := Leaf(json)]]
  }

  ghost function Attached(h: Heap, cursor: Node, key: string, sub: Heap, top: Node): Heap
    requires cursor in h
  {
    (h + sub)[cursor := h[cursor][key := Nested(top)]]
  }

  /** The old nodes move up by the height of the new ones. */
  ghost function AttachedRank(h: Heap, rank: map<Node, nat>, sub: Heap, subrank: map<Node, nat>, top: Node): map<Node, nat>
    requires h.Keys <= rank.Keys && sub.Keys <= subrank.Keys && top in subrank
  {
    map n | n in h.Keys + sub.Keys :: if n in sub then subrank[n] else rank[n] + subrank[top] + 1
  }

  lemma DetachedTree(h: Heap, rank: map<Node, nat>, root: Node, cursor: Node, key: string)
    requires Tree(h, rank, root) && cursor in h
    ensures Tree(Detached(h, cursor, key), rank, root) && OnlyAt(h, Detached(h, cursor, key), cursor)
  {
    var h' := Detached(h, cursor, key);
    forall n, k | n in h' && k in h'[n] ensures SlotOk(h', rank, n, h'[n][k]) && k in h[n] && h'[n][k] == h[n][k] {
      assert SlotOk(h, rank, n, h[n][k]);
    }
  }

  lemma DetachedView(h: Heap, rank: map<Node, nat>, root: Node, cursor: Node, key: string)
    requires Tree(h, rank, root) && cursor in h
    ensures Tree(Detached(h, cursor, key), rank, root)
    ensures View(Detached(h, cursor, key), rank, cursor) == View(h, rank, cursor) - {key}
  {
    hide Tree, Closed, View, SlotView, OnlyAt;
    var h' := Detached(h, cursor, key);
    DetachedTree(h, rank, root, cursor, key);
    TreeIsClosed(h, rank, root);
    TreeIsClosed(h', rank, root);
    OtherKeys(h, rank, h', rank, cursor, key);
    SlotsOfView(h', rank, cursor);
  }

  lemma TreeIsClosed(h: Heap, rank: map<Node, nat>, root: Node)
    requires Tree(h, rank, root)
    ensures Closed(h, rank) && OneParent(h, root) && root in h && h.Keys <= rank.Keys
  {
    hide OneParent;
  }

  lemma WithLeafTree(h: Heap, rank: map<Node, nat>, root: Node, cursor: Node, key: string, json: Json)
    requires Tree(h, rank, root) && cursor in h && !json.Object?
    ensures Tree(WithLeaf(h, cursor, key, json), rank, root) && OnlyAt(h, WithLeaf(h, cursor, key, json), cursor)
  {
    var h' := WithLeaf(h, cursor, key, json);
    forall n, k | n in h' && k in h'[n]
      ensures SlotOk(h', rank, n, h'[n][k]) && (h'[n][k].Nested? ==> k in h[n] && h'[n][k] == h[n][k])
    {
      if k in h[n] {
        assert SlotOk(h, rank, n, h[n][k]);
      }
    }
  }

  lemma WithLeafView(h: Heap, rank: map<Node, nat>, root: Node, cursor: Node, key: string, json: Json)
    requires Tree(h, rank, root) && cursor in h && !json.Object?
    ensures Tree(WithLeaf(h, cursor, key, json), rank, root)
    ensures View(WithLeaf(h, cursor, key, json), rank, cursor) == View(h, rank, cursor)[key := json]
  {
    hide Tree, Closed, View, OnlyAt;
    var h' := WithLeaf(h, cursor, key, json);
    WithLeafTree(h, rank, root, cursor, key, json);
    TreeIsClosed(h, rank, root);
    TreeIsClosed(h', rank, root);
    OtherKeys(h, rank, h', rank, cursor, key);
    SlotsOfView(h', rank, cursor);
    PutField(View(h, rank, cursor), View(h', rank, cursor), key, json);
  }

  /** A nested slot after attaching: an old one, one of the attached tree, or the new one. */
  lemma AttachedSlot(h: Heap, rank: map<Node, nat>, root: Node, cursor: Node, key: string,
                     sub: Heap, subrank: map<Node, nat>, top: Node, n: Node, k: string)
    requires Tree(h, rank, root) && Tree(sub, subrank, top) && h.Keys !! sub.Keys && cursor in h
    requires var h' := Attached(h, cursor, key, sub, top); n in h' && k in h'[n] && h'[n][k].Nested?
    ensures var slot := Attached(h, cursor, key, sub, top)[n][k];
      || (n == cursor && k == key && slot.node == top)
      || (n in h && k in h[n] && h[n][k] == slot && slot.node in h && rank[slot.node] < rank[n])
      || (n in sub && k in sub[n] && sub[n][k] == slot && slot.node in sub && subrank[slot.node] < subrank[n])
  {
    hide OneParent;
    if n in sub {
      ChildRank(sub, subrank, n, k);
    } else if n != cursor || k != key {
      ChildRank(h, rank, n, k);
    }
  }

  lemma AttachedTree(h: Heap, rank: map<Node, nat>, root: Node, cursor: Node, key: string,
                     sub: Heap, subrank: map<Node, nat>, top: Node)
    requires Tree(h, rank, root) && Tree(sub, subrank, top) && h.Keys !! sub.Keys && cursor in h
    ensures Tree(Attached(h, cursor, key, sub, top), AttachedRank(h, rank, sub, subrank, top), root)
  {
    AttachedClosed(h, rank, root, cursor, key, sub, subrank, top);
    AttachedOneParent(h, rank, root, cursor, key, sub, subrank, top);
    hide Closed, OneParent;
  }

  lemma AttachedClosed(h: Heap, rank: map<Node, nat>, root: Node, cursor: Node, key: string,
                       sub: Heap, subrank: map<Node, nat>, top: Node)
    requires Tree(h, rank, root) && Tree(sub, subrank, top) && h.Keys !! sub.Keys && cursor in h
    ensures Closed(Attached(h, cursor, key, sub, top), AttachedRank(h, rank, sub, subrank, top))
  {
    hide OneParent;
    var h', rank' := Attached(h, cursor, key, sub, top), AttachedRank(h, rank, sub, subrank, top);
    forall n, k | n in h' && k in h'[n] ensures SlotOk(h', rank', n, h'[n][k]) {
      if h'[n][k].Nested? {
        AttachedSlot(h, rank, root, cursor, key, sub, subrank, top, n, k);
      } else if n in sub {
        assert SlotOk(sub, subrank, n, sub[n][k]);
      } else {
        assert SlotOk(h, rank, n, h[n][k]);
      }
    }
  }

  lemma AttachedOneParent(h: Heap, rank: map<Node, nat>, root: Node, cursor: Node, key: string,
                          sub: Heap, subrank: map<Node, nat>, top: Node)
    requires Tree(h, rank, root) && Tree(sub, subrank, top) && h.Keys !! sub.Keys && cursor in h
    ensures OneParent(Attached(h, cursor, key, sub, top), root)
  {
    var h' := Attached(h, cursor, key, sub, top);
    hide Closed, Tree, OneParent;
    TreeIsClosed(h, rank, root);
    TreeIsClosed(sub, subrank, top);
    forall n, k | n in h' && k in h'[n] ensures h'[n][k] != Nested(root) {
      if h'[n][k].Nested? {
        AttachedSlot(h, rank, root, cursor, key, sub, subrank, top, n, k);
        if n in h && k in h[n] && h[n][k] == h'[n][k] {
          NotTheRoot(h, root, n, k);
        }
      }
    }
    forall n, m, k, l | n in h' && m in h' && k in h'[n] && l in h'[m] && h'[n][k].Nested? && h'[n][k] == h'[m][l]
      ensures n == m && k == l
    {
      AttachedPair(h, rank, root, cursor, key, sub, subrank, top, n, m, k, l);
    }
    MakeOneParent(h', root);
  }

  lemma NotTheRoot(h: Heap, root: Node, n: Node, k: string)
    requires OneParent(h, root) && n in h && k in h[n]
    ensures h[n][k] != Nested(root)
  {
  }

  lemma MakeOneParent(h: Heap, root: Node)
    requires forall n, k | n in h && k in h[n] :: h[n][k] != Nested(root)
    requires forall n, m, k, l | n in h && m in h && k in h[n] && l in h[m] && h[n][k].Nested? && h[n][k] == h[m][l] ::
      n == m && k == l
    ensures OneParent(h, root)
  {
  }

  lemma AttachedPair(h: Heap, rank: map<Node, nat>, root: Node, cursor: Node, key: string, sub: Heap,
                     subrank: map<Node, nat>, top: Node, n: Node, m: Node, k: string, l: string)
    requires Tree(h, rank, root) && Tree(sub, subrank, top) && h.Keys !! sub.Keys && cursor in h
    requires var h' := Attached(h, cursor, key, sub, top);
      n in h' && m in h' && k in h'[n] && l in h'[m] && h'[n][k].Nested? && h'[n][k] == h'[m][l]
    ensures n == m && k == l
  {
    hide Closed, Tree, OneParent;
    TreeIsClosed(h, rank, root);
    TreeIsClosed(sub, subrank, top);
    AttachedSlot(h, rank, root, cursor, key, sub, subrank, top, n, k);
    AttachedSlot(h, rank, root, cursor, key, sub, subrank, top, m, l);
    var slot := Attached(h, cursor, key, sub, top)[n][k];
    if n in sub && k in sub[n] && sub[n][k] == slot {
      NotTheRoot(sub, top, n, k);
    }
    if m in sub && l in sub[m] && sub[m][l] == slot {
      NotTheRoot(sub, top, m, l);
    }
    if n in sub && k in sub[n] && sub[n][k] == slot && m in sub && l in sub[m] && sub[m][l] == slot {
      ParentIsUnique(sub, top, n, k, m, l);
    } else if n in h && k in h[n] && h[n][k] == slot && m in h && l in h[m] && h[m][l] == slot {
      ParentIsUnique(h, root, n, k, m, l);
    }
  }

  lemma AttachedView(h: Heap, rank: map<Node, nat>, root: Node, cursor: Node, key: string,
                     sub: Heap, subrank: map<Node, nat>, top: Node)
    requires Tree(h, rank, root) && Tree(sub, subrank, top) && h.Keys !! sub.Keys && cursor in h
    ensures var h', rank' := Attached(h, cursor, key, sub, top), AttachedRank(h, rank, sub, subrank, top);
      && Tree(h', rank', root) && OnlyAt(h, h', cursor)
      && View(h', rank', cursor) == View(h, rank, cursor)[key := Object(View(sub, subrank, top))]
  {
    var h', rank' := Attached(h, cursor, key, sub, top), AttachedRank(h, rank, sub, subrank, top);
    AttachedTree(h, rank, root, cursor, key, sub, subrank, top);
    hide Tree, Closed, View, SlotView, OnlyAt, AttachedRank, OneParent;
    TreeIsClosed(h, rank, root);
    TreeIsClosed(h', rank', root);
    AttachedPart(h, rank, root, cursor, key, sub, subrank, top);
    AttachedOnlyAt(h, cursor, key, sub, top);
    OtherKeys(h, rank, h', rank', cursor, key);
    NestedSlot(h', rank', cursor, key);
    SlotsOfView(h', rank', cursor);
    PutField(View(h, rank, cursor), View(h', rank', cursor), key, Object(View(sub, subrank, top)));
  }

  /** An edit of one key leaves the other fields as they were. */
  lemma OtherKeys(h: Heap, rank: map<Node, nat>, h': Heap, rank': map<Node, nat>, cursor: Node, key: string)
    requires Closed(h, rank) && Closed(h', rank') && OnlyAt(h, h', cursor) && cursor in h && cursor in h'
    requires forall k | k != key :: (k in h[cursor] <==> k in h'[cursor]) && (k in h[cursor] ==> h'[cursor][k] == h[cursor][k])
    ensures forall k | k != key :: k in View(h, rank, cursor) <==> k in View(h', rank', cursor)
    ensures forall k | k != key && k in View(h, rank, cursor) :: View(h', rank', cursor)[k] == View(h, rank, cursor)[k]
  {
    hide Closed, View, SlotView, OnlyAt;
    SlotsOfView(h, rank, cursor);
    SlotsOfView(h', rank', cursor);
    forall k | k in h[cursor] && k != key ensures SlotView(h', rank', cursor, k) == SlotView(h, rank, cursor, k) {
      KeptSlot(h, rank, h', rank', cursor, k);
    }
  }

  lemma PutField(before: Fields, after: Fields, key: string, value: Json)
    requires forall k | k != key :: k in before <==> k in after
    requires forall k | k != key && k in before :: after[k] == before[k]
    requires key in after && after[key] == value
    ensures after == before[key := value]
  {
  }

  lemma AttachedOnlyAt(h: Heap, cursor: Node, key: string, sub: Heap, top: Node)
    requires cursor in h && h.Keys !! sub.Keys
    ensures OnlyAt(h, Attached(h, cursor, key, sub, top), cursor)
  {
  }

  /** The attached tree keeps its view. */
  lemma AttachedPart(h: Heap, rank: map<Node, nat>, root: Node, cursor: Node, key: string,
                     sub: Heap, subrank: map<Node, nat>, top: Node)
    requires Tree(h, rank, root) && Tree(sub, subrank, top) && h.Keys !! sub.Keys && cursor in h
    requires Closed(Attached(h, cursor, key, sub, top), AttachedRank(h, rank, sub, subrank, top))
    ensures var h', rank' := Attached(h, cursor, key, sub, top), AttachedRank(h, rank, sub, subrank, top);
      top in h' && View(h', rank', top) == View(sub, subrank, top)
  {
    var h', rank' := Attached(h, cursor, key, sub, top), AttachedRank(h, rank, sub, subrank, top);
    hide OneParent;
    ViewUnchanged(sub, subrank, h', rank', subrank[top] + 1, {}, top);
  }

  // ---------- new objects, and edits seen from the root ----------

  ghost function Single(n: Node): Heap {
    map[n := map[]]
  }

  lemma SingleTree(n: Node)
    ensures Tree(Single(n), map[n := 0], n) && View(Single(n), map[n := 0], n) == map[]
  {
  }

  /** An edit at the end of a path, seen from the root. */
  lemma SeenFromRoot(h: Heap, rank: map<Node, nat>, h': Heap, rank': map<Node, nat>, root: Node, p: seq<string>)
    requires Tree(h, rank, root) && Tree(h', rank', root) && IsPath(h, root, p) && OnlyAt(h, h', Follow(h, root, p))
    ensures IsPath(h', root, p) && Follow(h', root, p) == Follow(h, root, p)
    ensures View(h', rank', root) == Replace(View(h, rank, root), p, View(h', rank', Follow(h, root, p)))
    ensures Resolve(View(h, rank, root), p) == Found(View(h, rank, Follow(h, root, p)))
  {
    hide Closed, OneParent;
    PathKept(h, rank, h', root, p);
    ViewReplaced(h, rank, h', rank', root, root, p);
    ViewResolve(h, rank, root, p);
  }
}
