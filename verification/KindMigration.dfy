/**
 * Declarative content migrations: rename, set_default and remove operations applied one after the other
 * to a JSON object, each addressed by a pointer of field names.
 */
module KindMigration {

  import opened Bytes
  import opened Options

  /** A JSON value; an array is one value here, since pointers do not lead into arrays. */
  datatype Json = Leaf(text: string) | Array(items: seq<Json>) | Object(fields: map<string, Json>)

  /** A parsed pointer: at least one field name. */
  type Pointer = p: seq<string> | |p| > 0 witness [""]

  datatype Operation =
    | Rename(from: Pointer, path: Pointer)
    | SetDefault(path: Pointer, value: Json)
    | Remove(path: Pointer)

  /** The checks on content and on pointers that are made elsewhere. */
  datatype Rules = Rules(validContent: Json -> bool, safe: Pointer -> bool)

  // ---------------------------------------------------------------- pointers

  function Get(root: Json, path: seq<string>): Option<Json> {
    if path == [] then Some(root)
    else if root.Object? && path[0] in root.fields then Get(root.fields[path[0]], path[1..])
    else None
  }

  function Init(path: Pointer): seq<string> {
    path[..|path| - 1]
  }

  function Key(path: Pointer): string {
    path[|path| - 1]
  }

  /** `parentAt`: the object that holds the last field; None where the source ignores or throws. */
  function Parent(root: Json, path: Pointer): (r: Option<Json>)
    ensures r.Some? ==> r.value.Object?
  {
    var parent := Get(root, Init(path));
    if parent.Some? && parent.value.Object? then parent else None
  }

  /** Neither pointer leads through the other. */
  predicate Incomparable(p: seq<string>, q: seq<string>) {
    !(p <= q) && !(q <= p)
  }

  /** `parent[key] = value` at the end of a pointer. */
  function Put(root: Json, path: Pointer, value: Json): Json
    requires Parent(root, path).Some?
    decreases |path|
  {
    ParentStep(root, path);
    if |path| == 1 then Object(root.fields[path[0] := value])
    else Object(root.fields[path[0] := Put(root.fields[path[0]], path[1..], value)])
  }

  /** `delete parent[key]` at the end of a pointer. */
  function Delete(root: Json, path: Pointer): Json
    requires Parent(root, path).Some?
    decreases |path|
  {
    ParentStep(root, path);
    if |path| == 1 then Object(root.fields - {path[0]})
    else Object(root.fields[path[0] := Delete(root.fields[path[0]], path[1..])])
  }

  lemma ParentStep(root: Json, path: Pointer)
    ensures |path| == 1 ==> (Parent(root, path).Some? <==> root.Object?)
    ensures |path| > 1 ==>
              (Parent(root, path).Some?
               <==> root.Object? && path[0] in root.fields && Parent(root.fields[path[0]], path[1..]).Some?)
  {
    if |path| > 1 {
      assert Init(path) != [] && Init(path)[0] == path[0] && Init(path)[1..] == Init(path[1..]);
    }
  }

  lemma {:induction false} GetConcat(root: Json, p: seq<string>, q: seq<string>)
    ensures Get(root, p + q) == match Get(root, p) { case Some(v) => Get(v, q) case None => None }
  {
    if p == [] {
      assert p + q == q;
    } else {
      assert (p + q)[1..] == p[1..] + q;
      if root.Object? && p[0] in root.fields {
        GetConcat(root.fields[p[0]], p[1..], q);
      }
    }
  }

  /** A field exists exactly when its parent object has it. */
  lemma HasField(root: Json, path: Pointer)
    ensures Get(root, path).Some? <==> Parent(root, path).Some? && Key(path) in Parent(root, path).value.fields
  {
    hide Get;
    GetConcat(root, Init(path), [Key(path)]);
    assert Init(path) + [Key(path)] == path;
    if Get(root, Init(path)).Some? {
      GetOne(Get(root, Init(path)).value, Key(path));
    }
  }

  lemma GetOne(value: Json, key: string)
    ensures Get(value, [key]) == if value.Object? && key in value.fields then Some(value.fields[key]) else None
  {
    assert [key][1..] == [];
  }

  lemma PrefixExists(root: Json, p: seq<string>, q: seq<string>)
    ensures p <= q && Get(root, q).Some? ==> Get(root, p).Some?
  {
    if p <= q {
      GetConcat(root, p, q[|p|..]);
      assert p + q[|p|..] == q;
    }
  }

  lemma {:induction false} GetPut(root: Json, path: Pointer, value: Json, q: seq<string>)
    requires Parent(root, path).Some?
    ensures path <= q ==> Get(Put(root, path, value), q) == Get(value, q[|path|..])
    ensures Incomparable(path, q) ==> Get(Put(root, path, value), q) == Get(root, q)
    ensures q <= path && q != path ==> Get(root, q).Some? && Get(root, q).value.Object?
                                       && Get(Put(root, path, value), q).Some?
                                       && Get(Put(root, path, value), q).value.Object?
    decreases |path|
  {
    ParentStep(root, path);
    if q != [] && q[0] == path[0] && |path| > 1 {
      GetPut(root.fields[path[0]], path[1..], value, q[1..]);
      assert path == [path[0]] + path[1..] && q == [q[0]] + q[1..];
      assert path <= q ==> q[|path|..] == q[1..][|path[1..]|..];
    } else if q != [] && q[0] == path[0] {
      assert q == [q[0]] + q[1..];
    }
  }

  lemma {:induction false} GetDelete(root: Json, path: Pointer, q: seq<string>)
    requires Parent(root, path).Some?
    ensures path <= q ==> Get(Delete(root, path), q) == None
    ensures Incomparable(path, q) ==> Get(Delete(root, path), q) == Get(root, q)
    ensures q <= path && q != path ==> Get(root, q).Some? && Get(root, q).value.Object?
                                       && Get(Delete(root, path), q).Some?
                                       && Get(Delete(root, path), q).value.Object?
    decreases |path|
  {
    ParentStep(root, path);
    if q != [] && q[0] == path[0] && |path| > 1 {
      GetDelete(root.fields[path[0]], path[1..], q[1..]);
      assert path == [path[0]] + path[1..] && q == [q[0]] + q[1..];
    }
  }

  // ---------------------------------------------------------------- one operation

  /**
   * One turn of the loop of `applyAtmsKindMigrationV1`. A rename into the renamed value itself ties that
   * value into a cycle and then deletes the only way to it, so that in the tree it is just gone.
   */
  function ApplyOne(rules: Rules, root: Json, op: Operation): Outcome<Json> {
    match op
    case Rename(from, path) =>
      if !rules.safe(from) then Rejected
      else
        var value := Get(root, from);
        HasField(root, from);
        if value.None? then Ok(root)
        else if !rules.safe(path) || Parent(root, path).None? || Get(root, path).Some? then Rejected
        else if from <= path then Ok(Delete(root, from))
        else
          StillThere(root, from, path, value.value);
          Ok(Delete(Put(root, path, value.value), from))
    case SetDefault(path, value) =>
      if !rules.safe(path) || Parent(root, path).None? then Rejected
      else if Get(root, path).Some? then Ok(root)
      else Ok(Put(root, path, value))
    case Remove(path) =>
      if !rules.safe(path) then Rejected
      else if Parent(root, path).None? then Ok(root)
      else Ok(Delete(root, path))
  }

  lemma StillThere(root: Json, from: Pointer, path: Pointer, value: Json)
    requires Get(root, from) == Some(value) && Parent(root, path).Some? && Get(root, path).None? && !(from <= path)
    ensures Incomparable(path, from) && Get(Put(root, path, value), from) == Some(value)
    ensures Parent(Put(root, path, value), from).Some?
  {
    PrefixExists(root, path, from);
    GetPut(root, path, value, from);
    HasField(Put(root, path, value), from);
  }

  function ApplyAll(rules: Rules, root: Json, ops: seq<Operation>): Outcome<Json> {
    if ops == [] then Ok(root)
    else
      var before := ApplyAll(rules, root, ops[..|ops| - 1]);
      if before.Rejected? then Rejected else ApplyOne(rules, before.value, ops[|ops| - 1])
  }

  /** Is there an object that could hold, or holds, the last field of the pointer? */
  ghost predicate Holdable(root: Json, path: Pointer) {
    exists v: Json :: Get(root, path[..|path| - 1]) == Some(v) && v.Object?
  }

  /**
   * An operation is rejected exactly when a pointer it has to follow is not safe, or its target is not free: a
   * rename needs an object for its new name and nothing there yet, a default only the object. A rename of
   * nothing and a remove without an object pass in silence.
   */
  lemma RejectedExactly(rules: Rules, root: Json, op: Operation)
    ensures op.Rename? ==>
              (ApplyOne(rules, root, op).Rejected? <==>
                 || !rules.safe(op.from)
                 || (Get(root, op.from).Some?
                     && (!rules.safe(op.path) || !Holdable(root, op.path) || Get(root, op.path).Some?)))
    ensures op.SetDefault? ==>
              (ApplyOne(rules, root, op).Rejected? <==> !rules.safe(op.path) || !Holdable(root, op.path))
    ensures op.Remove? ==> (ApplyOne(rules, root, op).Rejected? <==> !rules.safe(op.path))
    ensures op.Rename? && rules.safe(op.from) && Get(root, op.from).None? ==> ApplyOne(rules, root, op) == Ok(root)
    ensures op.Remove? && rules.safe(op.path) && !Holdable(root, op.path) ==> ApplyOne(rules, root, op) == Ok(root)
  {
    HoldableIs(root, op.path);
    hide Get, Put, Delete, Holdable, Parent;
  }

  lemma HoldableIs(root: Json, path: Pointer)
    ensures Holdable(root, path) <==> Parent(root, path).Some?
  {
    hide Get;
  }

  // ---------------------------------------------------------------- the loops

  /** `parentAt`, with its cursor. */
  method ParentAt(root: Json, segments: Pointer) returns (parent: Option<Json>)
    ensures parent == Parent(root, segments)
  {
    var current := root;
    var init := segments[..|segments| - 1];
    for i := 0 to |init|
      invariant Get(root, init[..i]) == Some(current)
    {
      GetConcat(root, init[..i], [init[i]]);
      assert init[..i] + [init[i]] == init[..i + 1];
      GetOne(current, init[i]);
      PrefixExists(root, init[..i + 1], init);
      if !current.Object? || init[i] !in current.fields {
        return None;
      }
      current := current.fields[init[i]];
    }
    assert init[..|init|] == init;
    if !current.Object? {
      return None;
    }
    return Some(current);
  }

  /** The body of the loop of `applyAtmsKindMigrationV1`. */
  method ApplyOperation(rules: Rules, next: Json, op: Operation) returns (r: Outcome<Json>)
    ensures r == ApplyOne(rules, next, op)
  {
    hide Get, Put, Delete, Parent, Init;
    match op
    case Rename(from, path) =>
      if !rules.safe(from) { return Rejected; }
      var source := ParentAt(next, from);
      HasField(next, from);
      if source.None? || Key(from) !in source.value.fields { return Ok(next); }
      var value := source.value.fields[Key(from)];
      FieldIs(next, from);
      if !rules.safe(path) { return Rejected; }
      var target := ParentAt(next, path);
      HasField(next, path);
      if target.None? || Key(path) in target.value.fields { return Rejected; }
      if from <= path { return Ok(Delete(next, from)); }
      StillThere(next, from, path, value);
      return Ok(Delete(Put(next, path, value), from));
    case SetDefault(path, value) =>
      if !rules.safe(path) { return Rejected; }
      var parent := ParentAt(next, path);
      HasField(next, path);
      if parent.None? { return Rejected; }
      if Key(path) in parent.value.fields { return Ok(next); }
      return Ok(Put(next, path, value));
    case Remove(path) =>
      if !rules.safe(path) { return Rejected; }
      var parent := ParentAt(next, path);
      if parent.None? { return Ok(next); }
      return Ok(Delete(next, path));
  }

  /** `applyAtmsKindMigrationV1` */
  method Apply(rules: Rules, content: Json, operations: seq<Operation>) returns (r: Outcome<Json>)
    ensures r == if !rules.validContent(content) then Rejected else ApplyAll(rules, content, operations)
  {
    hide ApplyOne;
    if !rules.validContent(content) {
      return Rejected;
    }
    var next := content;
    for i := 0 to |operations|
      invariant ApplyAll(rules, content, operations[..i]) == Ok(next)
    {
      assert operations[..i + 1][..i] == operations[..i];
      RejectedStays(rules, content, operations, i + 1);
      var applied := ApplyOperation(rules, next, operations[i]);
      if applied.Rejected? {
        return Rejected;
      }
      next := applied.value;
    }
    assert operations[..|operations|] == operations;
    return Ok(next);
  }

  lemma FieldIs(root: Json, path: Pointer)
    requires Get(root, path).Some?
    ensures Parent(root, path).Some? && Key(path) in Parent(root, path).value.fields
    ensures Get(root, path) == Some(Parent(root, path).value.fields[Key(path)])
  {
    HasField(root, path);
    GetConcat(root, Init(path), [Key(path)]);
    assert Init(path) + [Key(path)] == path;
    GetOne(Parent(root, path).value, Key(path));
    hide Get;
  }

  lemma {:induction false} RejectedStays(rules: Rules, root: Json, ops: seq<Operation>, k: nat)
    requires k <= |ops|
    ensures ApplyAll(rules, root, ops[..k]).Rejected? ==> ApplyAll(rules, root, ops).Rejected?
  {
    if k < |ops| {
      var n := |ops| - 1;
      assert ops[..n][..k] == ops[..k];
      RejectedStays(rules, root, ops[..n], k);
    } else {
      assert ops[..k] == ops;
    }
  }

  // ---------------------------------------------------------------- what a migration leaves alone

  predicate Touches(op: Operation, q: seq<string>) {
    match op
    case Rename(from, path) => !Incomparable(from, q) || !Incomparable(path, q)
    case SetDefault(path, _) => !Incomparable(path, q)
    case Remove(path) => !Incomparable(path, q)
  }

  lemma OneLeavesAlone(rules: Rules, root: Json, op: Operation, q: seq<string>)
    requires ApplyOne(rules, root, op).Ok? && !Touches(op, q)
    ensures Get(ApplyOne(rules, root, op).value, q) == Get(root, q)
  {
    match op
    case Rename(from, path) =>
      HasField(root, from);
      if Get(root, from).Some? {
        var value := Get(root, from).value;
        if from <= path {
          GetDelete(root, from, q);
        } else if Get(root, path).None? && Parent(root, path).Some? {
          StillThere(root, from, path, value);
          GetPut(root, path, value, q);
          GetDelete(Put(root, path, value), from, q);
        }
      }
      hide Get, Put, Delete;
    case SetDefault(path, value) => if Parent(root, path).Some? { GetPut(root, path, value, q); }
    case Remove(path) => if Parent(root, path).Some? { GetDelete(root, path, q); }
  }

  /** A successful migration leaves the value at every pointer that is incomparable with all of its own. */
  lemma {:induction false} LeavesAlone(rules: Rules, root: Json, ops: seq<Operation>, q: seq<string>)
    requires ApplyAll(rules, root, ops).Ok? && forall op :: op in ops ==> !Touches(op, q)
    ensures Get(ApplyAll(rules, root, ops).value, q) == Get(root, q)
  {
    if ops != [] {
      var n := |ops| - 1;
      LeavesAlone(rules, root, ops[..n], q);
      OneLeavesAlone(rules, ApplyAll(rules, root, ops[..n]).value, ops[n], q);
      hide ApplyOne, Touches, Get;
    }
  }

  // ---------------------------------------------------------------- rename

  /**
   * A rename that is not into the renamed value moves every pointer under `from` to the same place under
   * `path`, and every other pointer keeps its value; only the objects on the way to the two names change.
   */
  lemma RenameMoves(rules: Rules, root: Json, from: Pointer, path: Pointer, q: seq<string>)
    requires Get(root, from).Some? && !(from <= path) && ApplyOne(rules, root, Rename(from, path)).Ok?
    ensures var next := ApplyOne(rules, root, Rename(from, path)).value;
      && Get(next, path + q) == Get(root, from + q)
      && Get(next, from + q) == None && Get(root, path + q) == None
      && (Incomparable(from, q) && Incomparable(path, q) ==> Get(next, q) == Get(root, q))
      && ((q <= from && q != from) || (q <= path && q != path) ==>
            && Get(root, q).Some? && Get(root, q).value.Object?
            && Get(next, q).Some? && Get(next, q).value.Object?)
  {
    var value := Get(root, from).value;
    HasField(root, from);
    StillThere(root, from, path, value);
    var put := Put(root, path, value);
    var next := Delete(put, from);
    GetPut(root, path, value, path + q);
    GetDelete(put, from, path + q);
    GetDelete(put, from, from + q);
    GetConcat(root, from, q);
    assert (path + q)[|path|..] == q;
    PrefixExists(root, path, path + q);
    GetPut(root, path, value, q);
    GetDelete(put, from, q);
    ApartExtended(from, path, q);
    OnTheWay(root, from, path, value, q);
    hide Get, Put, Delete;
  }

  lemma ApartExtended(p: seq<string>, q: seq<string>, r: seq<string>)
    requires Incomparable(p, q)
    ensures Incomparable(p, q + r)
  {
  }

  lemma OnTheWay(root: Json, from: Pointer, path: Pointer, value: Json, q: seq<string>)
    requires Parent(root, path).Some? && Parent(root, from).Some? && Incomparable(from, path)
    requires Parent(Put(root, path, value), from).Some?
    ensures (q <= from && q != from) || (q <= path && q != path) ==>
              && Get(root, q).Some? && Get(root, q).value.Object?
              && Get(Delete(Put(root, path, value), from), q).Some?
              && Get(Delete(Put(root, path, value), from), q).value.Object?
  {
    GetPut(root, path, value, q);
    GetDelete(root, from, q);
    GetDelete(Put(root, path, value), from, q);
    hide Get, Put, Delete;
  }

  /** A successful rename of an existing value keeps it, at its new name, exactly when it is not into itself. */
  lemma RenameKeepsExactly(rules: Rules, root: Json, from: Pointer, path: Pointer)
    requires Get(root, from).Some? && ApplyOne(rules, root, Rename(from, path)).Ok?
    ensures var next := ApplyOne(rules, root, Rename(from, path)).value;
      && (Get(next, path) == Get(root, from) <==> !(from <= path))
      && (from <= path ==>
            Get(next, from) == None && forall q :: Incomparable(from, q) ==> Get(next, q) == Get(root, q))
  {
    HasField(root, from);
    if from <= path {
      GetDelete(root, from, path);
      GetDelete(root, from, from);
      forall q | Incomparable(from, q)
        ensures Get(Delete(root, from), q) == Get(root, q)
      {
        GetDelete(root, from, q);
      }
    } else {
      RenameMoves(rules, root, from, path, []);
      assert path + [] == path && from + [] == from;
    }
    hide Get, Put, Delete;
  }

  // ---------------------------------------------------------------- conservation

  /** The values that are not objects, with their number, wherever they stand. */
  ghost function Leaves(root: Json): multiset<Json>
    decreases root, 1, 0
  {
    if root.Object? then LeavesUnder(root, root.fields.Keys) else multiset{root}
  }

  ghost function LeavesUnder(root: Json, keys: set<string>): multiset<Json>
    requires root.Object? && keys <= root.fields.Keys
    decreases root, 0, |keys|
  {
    if keys == {} then multiset{}
    else
      var key :| key in keys;
      Leaves(root.fields[key]) + LeavesUnder(root, keys - {key})
  }

  /** The order in which the fields are taken does not matter. */
  lemma {:induction false} LeavesSplit(root: Json, keys: set<string>, key: string)
    requires root.Object? && keys <= root.fields.Keys && key in keys
    ensures LeavesUnder(root, keys) == Leaves(root.fields[key]) + LeavesUnder(root, keys - {key})
    decreases |keys|
  {
    hide Leaves;
    var first :| first in keys && LeavesUnder(root, keys) == Leaves(root.fields[first]) + LeavesUnder(root, keys - {first});
    if first != key {
      LeavesSplit(root, keys - {first}, key);
      LeavesSplit(root, keys - {key}, first);
      assert keys - {first} - {key} == keys - {key} - {first};
    }
  }

  lemma {:induction false} LeavesAgree(a: Json, b: Json, keys: set<string>)
    requires a.Object? && b.Object? && keys <= a.fields.Keys && keys <= b.fields.Keys
    requires forall key :: key in keys ==> a.fields[key] == b.fields[key]
    ensures LeavesUnder(a, keys) == LeavesUnder(b, keys)
    decreases |keys|
  {
    if keys != {} {
      var key :| key in keys;
      LeavesSplit(a, keys, key);
      LeavesSplit(b, keys, key);
      LeavesAgree(a, b, keys - {key});
      hide Leaves, LeavesUnder;
    }
  }

  /** One field apart from the others. */
  lemma LeavesOfField(root: Json, key: string)
    requires root.Object? && key in root.fields
    ensures Leaves(root) == Leaves(root.fields[key]) + Leaves(Object(root.fields - {key}))
  {
    var keys, rest := root.fields.Keys, Object(root.fields - {key});
    LeavesSplit(root, keys, key);
    assert rest.fields.Keys == keys - {key};
    LeavesAgree(root, rest, keys - {key});
    assert Leaves(root) == LeavesUnder(root, keys);
    assert Leaves(rest) == LeavesUnder(rest, keys - {key});
    hide Leaves, LeavesUnder;
  }

  /** A field set anew, and what it held. */
  lemma LeavesOfUpdate(root: Json, key: string, value: Json)
    requires root.Object?
    ensures Leaves(Object(root.fields[key := value])) == Leaves(value) + Leaves(Object(root.fields - {key}))
    ensures key !in root.fields ==> Leaves(Object(root.fields - {key})) == Leaves(root)
  {
    var updated := Object(root.fields[key := value]);
    LeavesOfField(updated, key);
    assert updated.fields - {key} == root.fields - {key};
    assert key !in root.fields ==> root.fields - {key} == root.fields;
  }

  lemma {:induction false} LeavesPut(root: Json, path: Pointer, value: Json)
    requires Parent(root, path).Some? && Get(root, path).None?
    ensures Leaves(Put(root, path, value)) == Leaves(root) + Leaves(value)
    decreases |path|
  {
    ParentStep(root, path);
    hide Leaves;
    if |path| == 1 {
      GetOne(root, path[0]);
      assert path == [path[0]];
      LeavesOfUpdate(root, path[0], value);
    } else {
      LeavesPut(root.fields[path[0]], path[1..], value);
      LeavesOfUpdate(root, path[0], Put(root.fields[path[0]], path[1..], value));
      LeavesOfField(root, path[0]);
    }
  }

  lemma {:induction false} LeavesDelete(root: Json, path: Pointer)
    requires Get(root, path).Some? && Parent(root, path).Some?
    ensures Leaves(root) == Leaves(Delete(root, path)) + Leaves(Get(root, path).value)
    decreases |path|
  {
    ParentStep(root, path);
    hide Leaves;
    LeavesOfField(root, path[0]);
    if |path| == 1 {
      GetOne(root, path[0]);
      assert path == [path[0]];
    } else {
      LeavesDelete(root.fields[path[0]], path[1..]);
      LeavesOfUpdate(root, path[0], Delete(root.fields[path[0]], path[1..]));
    }
  }

  /** What an operation adds to the leaves, and what it takes away. */
  ghost function Added(root: Json, op: Operation): multiset<Json> {
    if op.SetDefault? && Get(root, op.path).None? then Leaves(op.value) else multiset{}
  }

  ghost function Taken(root: Json, op: Operation): multiset<Json> {
    match op
    case Rename(from, path) => if from <= path && Get(root, from).Some? then Leaves(Get(root, from).value) else multiset{}
    case SetDefault(_, _) => multiset{}
    case Remove(path) => if Get(root, path).Some? then Leaves(Get(root, path).value) else multiset{}
  }

  lemma DeleteAbsent(root: Json, path: Pointer)
    requires Parent(root, path).Some? && Get(root, path).None?
    ensures Delete(root, path) == root
    decreases |path|
  {
    ParentStep(root, path);
    if |path| == 1 {
      GetOne(root, path[0]);
      assert path == [path[0]];
      assert root.fields - {path[0]} == root.fields;
    } else {
      DeleteAbsent(root.fields[path[0]], path[1..]);
      assert root.fields[path[0] := root.fields[path[0]]] == root.fields;
    }
  }

  /**
   * A successful operation conserves the values that are not objects, with their number: a rename loses
   * none, unless it is into the renamed value itself, a default adds its own, a remove takes what it names.
   */
  lemma LeavesConserved(rules: Rules, root: Json, op: Operation)
    requires ApplyOne(rules, root, op).Ok?
    ensures Leaves(ApplyOne(rules, root, op).value) + Taken(root, op) == Leaves(root) + Added(root, op)
  {
    hide Leaves, Get, Put, Delete, Parent;
    match op
    case Rename(from, path) => RenameConserves(rules, root, from, path);
    case SetDefault(path, value) => if Get(root, path).None? { LeavesPut(root, path, value); }
    case Remove(path) =>
      HasField(root, path);
      if Get(root, path).Some? {
        LeavesDelete(root, path);
      } else if Parent(root, path).Some? {
        DeleteAbsent(root, path);
      }
  }

  lemma RenameConserves(rules: Rules, root: Json, from: Pointer, path: Pointer)
    requires ApplyOne(rules, root, Rename(from, path)).Ok?
    ensures Leaves(ApplyOne(rules, root, Rename(from, path)).value) + Taken(root, Rename(from, path)) == Leaves(root)
  {
    hide Leaves, Get, Put, Delete, Parent;
    HasField(root, from);
    if Get(root, from).Some? {
      var value := Get(root, from).value;
      if from <= path {
        LeavesDelete(root, from);
        assert Taken(root, Rename(from, path)) == Leaves(value);
      } else {
        StillThere(root, from, path, value);
        LeavesPut(root, path, value);
        LeavesDelete(Put(root, path, value), from);
        assert Taken(root, Rename(from, path)) == multiset{};
        Cancels(Leaves(Delete(Put(root, path, value), from)), Leaves(root), Leaves(value));
      }
    } else {
      assert ApplyOne(rules, root, Rename(from, path)).value == root;
      assert Taken(root, Rename(from, path)) == multiset{};
    }
  }

  lemma Cancels(a: multiset<Json>, b: multiset<Json>, c: multiset<Json>)
    requires a + c == b + c
    ensures a == b
  {
    assert a == (a + c) - c && b == (b + c) - c;
  }

  predicate OnlyRenamesApart(ops: seq<Operation>) {
    forall op :: op in ops ==> op.Rename? && !(op.from <= op.path)
  }

  /** A migration of renames, none of them into the renamed value, keeps every such value, as often as it was there. */
  lemma {:induction false} RenamesConserve(rules: Rules, root: Json, ops: seq<Operation>)
    requires OnlyRenamesApart(ops) && ApplyAll(rules, root, ops).Ok?
    ensures Leaves(ApplyAll(rules, root, ops).value) == Leaves(root)
  {
    if ops != [] {
      var n := |ops| - 1;
      assert ops[n] in ops && forall op :: op in ops[..n] ==> op in ops;
      RenamesConserve(rules, root, ops[..n]);
      ConservesNext(rules, ApplyAll(rules, root, ops[..n]).value, ops[n]);
      hide ApplyOne, Get;
    }
    hide Leaves;
  }

  lemma ConservesNext(rules: Rules, root: Json, op: Operation)
    requires op.Rename? && !(op.from <= op.path) && ApplyOne(rules, root, op).Ok?
    ensures Leaves(ApplyOne(rules, root, op).value) == Leaves(root)
  {
    LeavesConserved(rules, root, op);
    hide ApplyOne, Leaves;
    assert Taken(root, op) == multiset{} && Added(root, op) == multiset{};
    Cancels(Leaves(ApplyOne(rules, root, op).value), Leaves(root), multiset{});
  }

  // ---------------------------------------------------------------- set_default and remove

  /** A default is set only where there was nothing, and changes nothing else. */
  lemma SetDefaultOnlyAdds(rules: Rules, root: Json, path: Pointer, value: Json, q: seq<string>)
    requires ApplyOne(rules, root, SetDefault(path, value)).Ok?
    ensures var next := ApplyOne(rules, root, SetDefault(path, value)).value;
      && Get(next, path) == (if Get(root, path).Some? then Get(root, path) else Some(value))
      && (Get(root, q).Some? ==>
            Get(next, q).Some? && (Get(next, q) == Get(root, q) || (q <= path && Get(root, q).value.Object?
                                                                      && Get(next, q).value.Object?)))
  {
    GetPut(root, path, value, path);
    GetPut(root, path, value, q);
    PrefixExists(root, path, q);
    assert path[|path|..] == [];
    hide Put;
  }

  lemma RemoveOnlyRemoves(rules: Rules, root: Json, path: Pointer, q: seq<string>)
    requires ApplyOne(rules, root, Remove(path)).Ok?
    ensures var next := ApplyOne(rules, root, Remove(path)).value;
      && Get(next, path) == None
      && (!(path <= q) ==> (Get(next, q) == Get(root, q)
                            || (q <= path && Get(next, q).Some? && Get(next, q).value.Object?)))
  {
    HasField(root, path);
    if Parent(root, path).Some? {
      GetDelete(root, path, path);
      GetDelete(root, path, q);
    }
    hide Get, Delete;
  }

  predicate OnlyDefaults(ops: seq<Operation>) {
    forall op :: op in ops ==> op.SetDefault?
  }

  /** After a migration of defaults every path it names is there. */
  lemma {:induction false} DefaultsPresent(rules: Rules, root: Json, ops: seq<Operation>, k: nat)
    requires OnlyDefaults(ops) && ApplyAll(rules, root, ops).Ok? && k < |ops|
    ensures Get(ApplyAll(rules, root, ops).value, ops[k].path).Some? && rules.safe(ops[k].path)
  {
    var n := |ops| - 1;
    assert ops[n] in ops && ops[k] in ops;
    var before := ApplyAll(rules, root, ops[..n]).value;
    SetDefaultOnlyAdds(rules, before, ops[n].path, ops[n].value, ops[k].path);
    if k < n {
      assert OnlyDefaults(ops[..n]);
      DefaultsPresent(rules, root, ops[..n], k);
    }
    hide Get;
  }

  lemma {:induction false} DefaultsChangeNothing(rules: Rules, root: Json, ops: seq<Operation>)
    requires OnlyDefaults(ops)
    requires forall op :: op in ops ==> Get(root, op.path).Some? && rules.safe(op.path)
    ensures ApplyAll(rules, root, ops) == Ok(root)
  {
    if ops != [] {
      var n := |ops| - 1;
      DefaultsChangeNothing(rules, root, ops[..n]);
      assert ops[n] in ops;
      HasField(root, ops[n].path);
      hide Get;
    }
  }

  /** A migration of defaults only is idempotent. */
  lemma DefaultsIdempotent(rules: Rules, root: Json, ops: seq<Operation>)
    requires OnlyDefaults(ops) && ApplyAll(rules, root, ops).Ok?
    ensures var next := ApplyAll(rules, root, ops).value; ApplyAll(rules, next, ops) == Ok(next)
  {
    var next := ApplyAll(rules, root, ops).value;
    hide ApplyAll, Get;
    forall op | op in ops
      ensures Get(next, op.path).Some? && rules.safe(op.path)
    {
      var k :| 0 <= k < |ops| && ops[k] == op;
      DefaultsPresent(rules, root, ops, k);
    }
    DefaultsChangeNothing(rules, next, ops);
  }
}
