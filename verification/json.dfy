// The JSON half of the agent-config editor: set and delete one owned key by path, prune the
// parents it leaves empty, and refuse when anything else changed.

module JsonOwnership {
  import opened Options
  import opened AgentConfig

  /** Parsed JSON; object equality ignores key order, as the program's deep equality does. */
  datatype Json =
    | Null
    | Bool(value: bool)
    | Number(repr: string)
    | Text(text: string)
    | Array(items: seq<Json>)
    | Object(fields: Fields)

  type Fields = map<string, Json>

  datatype Result = Ok(fields: Fields) | Err(error: Error)
  datatype Deletion = Deleted(fields: Fields) | Untouched | Refused

  function SetPath(root: Fields, path: seq<string>, value: Json): (r: Result)
    requires path != []
    ensures r.Err? ==> r.error == OwnershipConflict
    decreases |path|
  {
    var key := path[0];
    if |path| == 1 then
      if key in root && root[key] != value then Err(OwnershipConflict) else Ok(root[key := value])
    else if key in root && !root[key].Object? then Err(OwnershipConflict)
    else
      var child := if key in root then root[key].fields else map[];
      match SetPath(child, path[1..], value)
      case Err(e) => Err(e)
      case Ok(child') => Ok(root[key := Object(child')])
  }

  /** A parent that became empty is removed; the first one that did not stops the pruning. */
  function Prune(root: Fields, key: string, child: Fields): Fields {
    if child == map[] then root - {key} else root[key := Object(child)]
  }

  function DeletePath(root: Fields, path: seq<string>, value: Json): Deletion
    requires path != []
    decreases |path|
  {
    var key := path[0];
    if key !in root then Untouched
    else if |path| == 1 then
      if root[key] != value then Refused else Deleted(root - {key})
    else if !root[key].Object? then Refused
    else match DeletePath(root[key].fields, path[1..], value)
      case Deleted(child) => Deleted(Prune(root, key, child))
      case other => other
  }

  /** The self-check's own deletion: no ownership test, and it prunes even when the key was absent;
      `None` when a parent on the way is not an object, and then nothing is changed. */
  function Strip(root: Fields, path: seq<string>): Option<Fields>
    requires path != []
    decreases |path|
  {
    var key := path[0];
    if |path| == 1 then Some(root - {key})
    else if key !in root || !root[key].Object? then None
    else match Strip(root[key].fields, path[1..])
      case None => None
      case Some(child) => Some(Prune(root, key, child))
  }

  function Stripped(root: Fields, path: seq<string>): Fields
    requires path != []
  {
    match Strip(root, path) case None => root case Some(m) => m
  }

  predicate OnlyOwnedChanged(before: Fields, after: Fields, path: seq<string>)
    requires path != []
  {
    Stripped(before, path) == Stripped(after, path)
  }

  /** The edit alone: deleting an absent key is no error. */
  function Edited(original: Fields, path: seq<string>, value: Json, action: Action): Result
    requires path != []
  {
    match action
    case Install => SetPath(original, path, value)
    case Uninstall =>
      match DeletePath(original, path, value)
      case Deleted(m) => Ok(m)
      case Untouched => Ok(original)
      case Refused => Err(OwnershipConflict)
  }

  /** The JSON branch of the editor, from the parsed object to the object that is written back. */
  function MutateJson(original: Fields, path: seq<string>, value: Json, action: Action): Result {
    if path == [] then Err(MalformedConfig)
    else
      var next := Edited(original, path, value, action);
      if next.Err? then next
      else if OnlyOwnedChanged(original, next.fields, path) then next
      else Err(NativeTransportMutation)
  }

  // ---------- reading a path ----------

  function Lookup(root: Fields, path: seq<string>): Option<Json>
    requires path != []
    decreases |path|
  {
    if path[0] !in root then None
    else if |path| == 1 then Some(root[path[0]])
    else if !root[path[0]].Object? then None
    else Lookup(root[path[0]].fields, path[1..])
  }

  /** Neither path lies on or below the other. */
  predicate Apart(p: seq<string>, q: seq<string>) {
    !(p <= q) && !(q <= p)
  }

  lemma ApartTail(p: seq<string>, q: seq<string>)
    requires Apart(p, q) && p != [] && q != [] && p[0] == q[0]
    ensures |p| > 1 && |q| > 1 && Apart(p[1..], q[1..])
  {
    assert p == [p[0]] + p[1..] && q == [q[0]] + q[1..];
  }

  /** Setting the owned key stores the value there and changes nothing off the path. */
  lemma {:induction false} SetFrame(root: Fields, path: seq<string>, value: Json, q: seq<string>)
    requires path != [] && q != [] && SetPath(root, path, value).Ok?
    ensures var after := SetPath(root, path, value).fields;
      && Lookup(after, path) == Some(value)
      && (Apart(path, q) ==> Lookup(after, q) == Lookup(root, q))
    decreases |path|
  {
    if |path| > 1 {
      var child := if path[0] in root then root[path[0]].fields else map[];
      var sub := if |q| > 1 then q[1..] else ["?"];
      SetFrame(child, path[1..], value, sub);
      if Apart(path, q) && path[0] == q[0] {
        ApartTail(path, q);
        if path[0] !in root {
          LookupEmpty(q[1..]);
        }
      }
    } else if Apart(path, q) && path[0] == q[0] {
      ApartTail(path, q);
    }
  }

  lemma LookupEmpty(q: seq<string>)
    requires q != []
    ensures Lookup(map[], q) == None
  {
  }

  /** Deleting the owned key removes it and changes nothing off the path; a parent on the path goes
      only when the path was all it held. */
  lemma {:induction false} DeleteFrame(root: Fields, path: seq<string>, value: Json, q: seq<string>)
    requires path != [] && q != [] && DeletePath(root, path, value).Deleted?
    ensures var after := DeletePath(root, path, value).fields;
      && Lookup(root, path) == Some(value) && Lookup(after, path) == None
      && (Apart(path, q) ==> Lookup(after, q) == Lookup(root, q))
      && (q < path && Lookup(after, q).None? ==>
            Lookup(root, q).Some? && Lookup(root, q).value.Object?
            && Lookup(root, q).value.fields.Keys == {path[|q|]})
    decreases |path|
  {
    if |path| > 1 {
      var child := root[path[0]].fields;
      var child' := DeletePath(child, path[1..], value).fields;
      var sub := if |q| > 1 then q[1..] else ["?"];
      DeleteFrame(child, path[1..], value, sub);
      if Apart(path, q) && path[0] == q[0] {
        ApartTail(path, q);
        LookupEmpty(q[1..]);
      }
      if q < path && |q| > 1 {
        assert q[1..] < path[1..];
        LookupEmpty(q[1..]);
        assert path[1..][|q| - 1] == path[|q|];
      }
      if q < path && |q| == 1 && child' == map[] {
        DeleteLeavesEmpty(child, path[1..], value);
      }
    } else if Apart(path, q) && path[0] == q[0] {
      ApartTail(path, q);
    }
  }

  lemma DeleteLeavesEmpty(root: Fields, path: seq<string>, value: Json)
    requires path != [] && DeletePath(root, path, value) == Deleted(map[])
    ensures root.Keys == {path[0]}
  {
    PruneToEmpty(root, path[0], if |path| == 1 then map[] else DeletePath(root[path[0]].fields, path[1..], value).fields);
  }

  lemma PruneToEmpty(root: Fields, key: string, child: Fields)
    ensures Prune(root, key, child) == map[] ==> child == map[] && root.Keys <= {key}
  {
    if child != map[] {
      assert key in Prune(root, key, child);
    } else {
      assert forall k | k in root && k != key :: k in root - {key};
    }
  }

  // ---------- the self-check ----------

  /** Following the path, some parent other than the root is an empty object although the path goes
      on through at least one more parent. */
  predicate EmptyStub(root: Fields, path: seq<string>)
    decreases |path|
  {
    |path| >= 3 && path[0] in root && root[path[0]].Object? &&
    (root[path[0]].fields == map[] || EmptyStub(root[path[0]].fields, path[1..]))
  }

  lemma {:induction false} SetIntoEmpty(path: seq<string>, value: Json)
    requires path != []
    ensures SetPath(map[], path, value).Ok?
    ensures Strip(SetPath(map[], path, value).fields, path) == Some(map[])
    decreases |path|
  {
    if |path| > 1 {
      SetIntoEmpty(path[1..], value);
    }
  }

  lemma PruneInjective(root: Fields, key: string, x: Fields, y: Fields)
    ensures Prune(root, key, x) == Prune(root, key, y) <==> x == y
  {
    if x != map[] {
      assert Prune(root, key, x)[key] == Object(x);
    }
    if y != map[] {
      assert Prune(root, key, y)[key] == Object(y);
    }
  }

  lemma {:induction false} StripAfterSet(root: Fields, path: seq<string>, value: Json)
    requires path != [] && SetPath(root, path, value).Ok?
    ensures Strip(SetPath(root, path, value).fields, path).Some?
    decreases |path|
  {
    if |path| > 1 {
      StripAfterSet(if path[0] in root then root[path[0]].fields else map[], path[1..], value);
    }
  }

  /** After a successful set of any path the self-check passes if and only if the path does not
      continue below an empty non-root object. */
  lemma {:induction false} GuardAfterSet(root: Fields, path: seq<string>, value: Json)
    requires path != [] && SetPath(root, path, value).Ok?
    ensures OnlyOwnedChanged(root, SetPath(root, path, value).fields, path) <==> !EmptyStub(root, path)
    decreases |path|
  {
    var key, after := path[0], SetPath(root, path, value).fields;
    if |path| == 1 {
      assert root - {key} == after - {key};
    } else if key !in root {
      SetIntoEmpty(path[1..], value);
      assert Strip(after, path) == Some(after - {key});
      assert after - {key} == root;
    } else {
      var child, rest := root[key].fields, path[1..];
      var child' := SetPath(child, rest, value).fields;
      GuardAfterSet(child, rest, value);
      StripAfterSet(child, rest, value);
      var y := Strip(child', rest).value;
      assert Strip(after, path) == Some(Prune(after, key, y));
      assert Prune(after, key, y) == Prune(root, key, y);
      match Strip(child, rest) {
        case Some(x) =>
          PruneInjective(root, key, x, y);
          if |rest| >= 2 { StripSomeNotStub(child, rest); }
        case None =>
          assert root == root[key := Object(child)];
          if y == map[] {
            assert key !in Prune(root, key, y);
          } else {
            assert Prune(root, key, y)[key] == Object(y);
          }
          assert |rest| >= 2;
      }
    }
  }

  lemma StripSomeNotStub(root: Fields, path: seq<string>)
    requires |path| >= 2 && Strip(root, path).Some?
    ensures root != map[]
  {
  }

  lemma {:induction false} StripAfterDelete(root: Fields, path: seq<string>, value: Json)
    requires path != [] && DeletePath(root, path, value).Deleted?
    ensures var after := DeletePath(root, path, value).fields;
      Strip(root, path) == Some(after) && Stripped(after, path) == after
    decreases |path|
  {
    var key := path[0];
    if |path| > 1 {
      StripAfterDelete(root[key].fields, path[1..], value);
    } else {
      assert root - {key} - {key} == root - {key};
    }
  }

  /** For two-segment paths, the only kind the adapters use, a successful set or delete always passes
      the self-check. */
  lemma GuardNeverFires(root: Fields, path: seq<string>, value: Json, action: Action)
    requires |path| == 2
    ensures MutateJson(root, path, value, action) != Err(NativeTransportMutation)
  {
    if action.Install? {
      if SetPath(root, path, value).Ok? {
        assert !EmptyStub(root, path);
        GuardAfterSet(root, path, value);
      }
    } else if DeletePath(root, path, value).Deleted? {
      StripAfterDelete(root, path, value);
    }
  }

  /** A three-segment path below an empty object is refused although nothing unrelated changed. */
  lemma GuardFiresBelowEmptyObject(a: string, b: string, c: string, value: Json)
    ensures MutateJson(map[a := Object(map[])], [a, b, c], value, Install) == Err(NativeTransportMutation)
  {
    var root: Fields := map[a := Object(map[])];
    var rest := [a, b, c][1..];
    assert rest == [b, c] && rest[1..] == [c];
    assert SetPath(map[], [c], value).Ok?;
    assert SetPath(map[], [b, c], value).Ok?;
    assert SetPath(root, [a, b, c], value).Ok?;
    GuardAfterSet(root, [a, b, c], value);
  }

  // ---------- idempotence and round trip ----------

  lemma {:induction false} SetTwice(root: Fields, path: seq<string>, value: Json)
    requires path != [] && SetPath(root, path, value).Ok?
    ensures var after := SetPath(root, path, value).fields; SetPath(after, path, value) == Ok(after)
    decreases |path|
  {
    var key, after := path[0], SetPath(root, path, value).fields;
    if |path| > 1 {
      SetTwice(if key in root then root[key].fields else map[], path[1..], value);
    }
    assert after[key := after[key]] == after;
  }

  /** The original tree without the empty objects that lie on the path. */
  function Tidied(root: Fields, path: seq<string>): Fields
    requires path != []
    decreases |path|
  {
    if |path| == 1 || path[0] !in root || !root[path[0]].Object? then root
    else Prune(root, path[0], Tidied(root[path[0]].fields, path[1..]))
  }

  lemma {:induction false} DeleteAfterSet(root: Fields, path: seq<string>, value: Json)
    requires path != [] && SetPath(root, path, value).Ok? && Lookup(root, path).None?
    ensures DeletePath(SetPath(root, path, value).fields, path, value) == Deleted(Tidied(root, path))
    decreases |path|
  {
    var key, after := path[0], SetPath(root, path, value).fields;
    if |path| == 1 {
      assert after - {key} == root;
    } else {
      var child := if key in root then root[key].fields else map[];
      DeleteAfterSet(child, path[1..], value);
      var tidy := Tidied(child, path[1..]);
      assert Prune(after, key, tidy) == Prune(root, key, tidy);
      if key !in root {
        assert tidy == map[];
        assert root - {key} == root;
      }
    }
  }

  /** Installing into an installed configuration changes nothing. */
  lemma InstallTwice(root: Fields, path: seq<string>, value: Json)
    requires MutateJson(root, path, value, Install).Ok?
    ensures var after := MutateJson(root, path, value, Install).fields;
      MutateJson(after, path, value, Install) == Ok(after)
  {
    SetTwice(root, path, value);
  }

  /** When the owned key was absent, uninstall after install gives the original tree back, without the
      empty objects that lay on the path. */
  lemma UninstallAfterInstall(root: Fields, path: seq<string>, value: Json)
    requires MutateJson(root, path, value, Install).Ok? && Lookup(root, path).None?
    ensures var after := MutateJson(root, path, value, Install).fields;
      MutateJson(after, path, value, Uninstall) == Ok(Tidied(root, path))
  {
    hide SetPath, DeletePath, Strip, Tidied, Lookup;
    var after := SetPath(root, path, value).fields;
    DeleteAfterSet(root, path, value);
    StripAfterDelete(after, path, value);
  }

  /** For the adapters' two segments that is the original tree itself, or without its empty parent. */
  lemma TidiedPair(root: Fields, path: seq<string>)
    requires |path| == 2
    ensures Tidied(root, path) ==
      if path[0] in root && root[path[0]] == Object(map[]) then root - {path[0]} else root
  {
    assert |path[1..]| == 1;
    if path[0] in root {
      assert root[path[0] := root[path[0]]] == root;
    }
  }

  // ---------- when an edit is refused, and when nothing is to be done ----------

  /** Every parent of the owned key that is present is an object. */
  ghost predicate ObjectsOnTheWay(root: Fields, path: seq<string>) {
    forall q | [] < q < path && Lookup(root, q).Some? :: Lookup(root, q).value.Object?
  }

  lemma WayStep(root: Fields, path: seq<string>)
    requires |path| > 1
    ensures ObjectsOnTheWay(root, path) <==>
      path[0] !in root || (root[path[0]].Object? && ObjectsOnTheWay(root[path[0]].fields, path[1..]))
  {
    var key, rest := path[0], path[1..];
    assert [] < [key] < path && Lookup(root, [key]) == if key in root then Some(root[key]) else None;
    if key in root && root[key].Object? {
      var child := root[key].fields;
      forall q | [] < q < rest ensures [] < [key] + q < path && Lookup(root, [key] + q) == Lookup(child, q) {
        assert ([key] + q)[1..] == q;
      }
      forall q | [] < q < path && |q| > 1 ensures [] < q[1..] < rest && Lookup(root, q) == Lookup(child, q[1..]) {
        assert q == [key] + q[1..];
      }
      forall q | [] < q < path && |q| == 1 ensures q == [key] {
      }
    }
    if key !in root {
      forall q | [] < q < path ensures Lookup(root, q).None? {
        assert q[0] == key;
      }
    }
  }

  lemma WayEnd(root: Fields, path: seq<string>)
    requires |path| == 1
    ensures ObjectsOnTheWay(root, path)
  {
  }

  /** Setting succeeds exactly when every present parent is an object and the key is absent or has the value. */
  lemma {:induction false} SetExactly(root: Fields, path: seq<string>, value: Json)
    requires path != []
    ensures SetPath(root, path, value).Ok? <==> ObjectsOnTheWay(root, path) && Lookup(root, path) in {None, Some(value)}
    decreases |path|
  {
    hide ObjectsOnTheWay;
    if |path| > 1 {
      WayStep(root, path);
      if path[0] !in root {
        SetIntoEmpty(path[1..], value);
      } else if root[path[0]].Object? {
        SetExactly(root[path[0]].fields, path[1..], value);
      }
    } else {
      WayEnd(root, path);
    }
  }

  /** Deleting removes the value exactly when it is there, and leaves everything alone exactly when nothing is. */
  lemma {:induction false} DeleteExactly(root: Fields, path: seq<string>, value: Json)
    requires path != []
    ensures DeletePath(root, path, value).Deleted? <==> ObjectsOnTheWay(root, path) && Lookup(root, path) == Some(value)
    ensures DeletePath(root, path, value).Untouched? <==> ObjectsOnTheWay(root, path) && Lookup(root, path) == None
    decreases |path|
  {
    hide ObjectsOnTheWay;
    if |path| > 1 {
      WayStep(root, path);
      if path[0] in root && root[path[0]].Object? {
        DeleteExactly(root[path[0]].fields, path[1..], value);
      }
    } else {
      WayEnd(root, path);
    }
  }

  /** Either action is refused as a conflict exactly when a parent is present that is no object, or the owned key
      holds another value. */
  lemma ConflictExactly(root: Fields, path: seq<string>, value: Json, action: Action)
    requires path != []
    ensures MutateJson(root, path, value, action) == Err(OwnershipConflict) <==>
      !ObjectsOnTheWay(root, path) || Lookup(root, path) !in {None, Some(value)}
  {
    hide ObjectsOnTheWay, OnlyOwnedChanged, SetPath, DeletePath, Lookup;
    SetExactly(root, path, value);
    DeleteExactly(root, path, value);
    ConflictIsTheOnlyError(root, path, value);
  }

  lemma ConflictIsTheOnlyError(root: Fields, path: seq<string>, value: Json)
    requires path != []
    ensures SetPath(root, path, value).Err? ==> SetPath(root, path, value).error == OwnershipConflict
  {
  }

  /** The native-transport error comes exactly when an install that is no conflict goes on below an empty non-root
      object; never from an uninstall. */
  lemma NativeTransportExactly(root: Fields, path: seq<string>, value: Json, action: Action)
    requires path != []
    ensures MutateJson(root, path, value, action) == Err(NativeTransportMutation) <==>
      action.Install? && ObjectsOnTheWay(root, path) && Lookup(root, path) in {None, Some(value)} && EmptyStub(root, path)
  {
    hide ObjectsOnTheWay, SetPath, DeletePath, Lookup, EmptyStub, Strip;
    SetExactly(root, path, value);
    ConflictIsTheOnlyError(root, path, value);
    if SetPath(root, path, value).Ok? {
      GuardAfterSet(root, path, value);
    }
    if DeletePath(root, path, value).Deleted? {
      StripAfterDelete(root, path, value);
    }
  }

  /** Uninstalling what is not there changes nothing, not even an empty parent. */
  lemma UninstallAbsent(root: Fields, path: seq<string>, value: Json)
    requires path != [] && ObjectsOnTheWay(root, path) && Lookup(root, path) == None
    ensures MutateJson(root, path, value, Uninstall) == Ok(root)
  {
    DeleteExactly(root, path, value);
  }

  /** Uninstalling what is there removes it, and leaves no parent on the path empty. */
  lemma UninstallPresent(root: Fields, path: seq<string>, value: Json)
    requires path != [] && Lookup(root, path) == Some(value) && ObjectsOnTheWay(root, path)
    ensures var r := MutateJson(root, path, value, Uninstall);
      && r.Ok? && Lookup(r.fields, path) == None
      && forall q | [] < q < path :: Lookup(r.fields, q) != Some(Object(map[]))
  {
    DeleteExactly(root, path, value);
    StripAfterDelete(root, path, value);
    var after := DeletePath(root, path, value).fields;
    hide DeletePath, Strip, Lookup, ObjectsOnTheWay;
    DeleteFrame(root, path, value, path);
    forall q | [] < q < path ensures Lookup(after, q) != Some(Object(map[])) {
      NoEmptyParent(root, path, value, q);
    }
  }

  lemma {:induction false} NoEmptyParent(root: Fields, path: seq<string>, value: Json, q: seq<string>)
    requires path != [] && DeletePath(root, path, value).Deleted? && [] < q < path
    ensures Lookup(DeletePath(root, path, value).fields, q) != Some(Object(map[]))
    decreases |path|
  {
    var key, child := path[0], root[path[0]].fields;
    assert q[0] == key;
    if |q| > 1 {
      assert q[1..] < path[1..];
      NoEmptyParent(child, path[1..], value, q[1..]);
    }
  }
}
