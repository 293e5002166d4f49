/** The mutually recursive map/container diff and the application of its script
    (crates/vt-mirror/src/diff.rs, mirror.rs). A container is named by the keys that lead to it. */
module MapDiff {
  import opened Prelude
  import opened MirrorState
  import opened NodeShapes
  import Numerals

  type Path = seq<string>

  /** `EditList` stands for all of the changes a list container's own diff emits, and for what they make of it. */
  datatype Kind =
    | Insert(value: Value)
    | InsertContainer(childType: ContainerType, initial: Value)
    | Delete
    | EditList(after: seq<Value>)

  datatype Change = Change(container: Path, key: string, kind: Kind)

  datatype DiffError = MapStateNotObjects | ListStateNotArrays | ListRefused | TextStateNotStrings

  datatype Result = Ok(changes: seq<Change>) | Err(error: DiffError)

  // ----- applying a script

  function ApplyHere(node: Node, schema: Option<Schema>, options: InferOptions, key: string, kind: Kind): Node {
    match node
    case MapNode(c) =>
      if key == "" then node
      else (
        match kind
        case Insert(v) => MapNode(c[key := Leaf(v)])
        case InsertContainer(_, v) =>
          var field := FieldSchema(schema, key);
          var t := TypeFor(field, v, options);
          if t.Some? then MapNode(c[key := Build(t.value, field, v)]) else node
        case Delete => MapNode(c - {key})
        case EditList(_) => node
      )
    case TextNode(_) => if kind.Insert? && kind.value.String? then TextNode(kind.value.s) else node
    case ListNode(_, layout) => if kind.EditList? then ListNode(kind.after, layout) else node
    case _ => node
  }

  /** One change, looked up from a node `depth` keys below the script's root. */
  function Apply(node: Node, schema: Option<Schema>, options: InferOptions, change: Change, depth: nat): Node
    decreases |change.container| - depth
  {
    if depth >= |change.container| then ApplyHere(node, schema, options, change.key, change.kind)
    else
      var k := change.container[depth];
      if node.MapNode? && k in node.children
      then MapNode(node.children[k := Apply(node.children[k], FieldSchema(schema, k), options, change, depth + 1)])
      else node
  }

  /** Every change of the script names a container at or below `path`. */
  ghost predicate Below(path: Path, changes: seq<Change>) {
    forall c | c in changes :: path <= c.container
  }

  function ApplyAll(node: Node, schema: Option<Schema>, options: InferOptions, changes: seq<Change>, depth: nat): Node {
    if changes == [] then node
    else
      var last := |changes| - 1;
      Apply(ApplyAll(node, schema, options, changes[..last], depth), schema, options, changes[last], depth)
  }

  lemma {:induction false} ApplyAllAppends(node: Node, schema: Option<Schema>, options: InferOptions,
                                           first: seq<Change>, second: seq<Change>, depth: nat)
    ensures ApplyAll(node, schema, options, first + second, depth)
         == ApplyAll(ApplyAll(node, schema, options, first, depth), schema, options, second, depth)
  {
    if second == [] {
      assert first + second == first;
    } else {
      var last := |second| - 1;
      assert (first + second)[..|first| + last] == first + second[..last];
      ApplyAllAppends(node, schema, options, first, second[..last], depth);
    }
  }

  lemma {:induction false} ApplyAllKeepsKind(node: Node, schema: Option<Schema>, options: InferOptions, changes: seq<Change>, depth: nat)
    requires node.IsContainer()
    ensures SameKind(node, ApplyAll(node, schema, options, changes, depth))
  {
    if changes != [] {
      ApplyAllKeepsKind(node, schema, options, changes[..|changes| - 1], depth);
    }
  }

  /** A script addressed below one child changes that child alone. */
  lemma {:induction false} ApplyAllBelowChild(children: map<string, Node>, schema: Option<Schema>, options: InferOptions,
                                              changes: seq<Change>, path: Path, k: string)
    requires k in children
    requires Below(path + [k], changes)
    ensures ApplyAll(MapNode(children), schema, options, changes, |path|)
         == MapNode(children[k := ApplyAll(children[k], FieldSchema(schema, k), options, changes, |path| + 1)])
  {
    if changes == [] {
      assert children == children[k := children[k]];
    } else {
      var last := |changes| - 1;
      ApplyAllBelowChild(children, schema, options, changes[..last], path, k);
      assert changes[last] in changes;
      assert path + [k] <= changes[last].container;
    }
  }

  // ----- which field a change is about

  /** `first` rewrites the field through which `second`'s container is reached. */
  predicate Cuts(first: Change, second: Change) {
    first.container + [first.key] <= second.container
  }

  ghost predicate NoCuts(changes: seq<Change>) {
    forall a, b | a in changes && b in changes :: !Cuts(a, b)
  }

  /** The field of the container at `path` that a change is about. */
  function FieldOf(path: Path, c: Change): string
    requires path <= c.container
  {
    if c.container == path then c.key else c.container[|path|]
  }

  ghost predicate IsAbout(path: Path, changes: seq<Change>, key: string) {
    Below(path, changes) && forall c | c in changes :: FieldOf(path, c) == key
  }

  ghost predicate Avoids(path: Path, changes: seq<Change>, key: string) {
    Below(path, changes) && forall c | c in changes :: FieldOf(path, c) != key
  }

  lemma FieldsDoNotCut(path: Path, changes: seq<Change>, part: seq<Change>, key: string)
    requires NoCuts(changes) && NoCuts(part)
    requires Avoids(path, changes, key) && IsAbout(path, part, key)
    ensures NoCuts(changes + part)
  {
    forall a, b | a in changes + part && b in changes + part && path <= a.container && path <= b.container
      ensures Cuts(a, b) ==> FieldOf(path, a) == FieldOf(path, b)
    {
      assert Cuts(a, b) ==> (a.container + [a.key])[|path|] == b.container[|path|];
    }
  }

  // ----- when the script does what it is for

  /** The shape-driven insert used when a field cannot be edited in place. */
  function ChildInsert(v: Value): Kind {
    match v
    case Object(_) => InsertContainer(MapType, v)
    case Array(_) => InsertContainer(ListType, v)
    case _ => Insert(v)
  }

  predicate BothNest(field: Option<Schema>, options: InferOptions, was: Value, v: Value) {
    var t := TypeFor(field, v, options);
    t.Some? && IsValueOf(t.value, v) && IsValueOf(t.value, was)
  }

  function ReadSlot(slot: Option<Node>): Option<Value> {
    if slot.Some? then Some(slot.value.Read()) else None
  }

  /** The value `v` may be stored under a field as the container type its schema or shape asks for. */
  predicate StoresWhole(field: Option<Schema>, options: InferOptions, v: Value) {
    TypeFor(field, v, options).Some? ==> Conforms(TypeFor(field, v, options).value, field, v)
  }

  /** Field `key` of the stored map `node` ends up as `item`. The guards are those of the code: the empty
      key is never written, a falsy old value is always rewritten, a stored container is edited in place,
      and a created container keeps its value only when the value has the declared shape. */
  predicate FieldLands(node: Node, item: Option<Value>, key: string, schema: Option<Schema>, options: InferOptions)
    requires node.MapNode?
    decreases node, 0
  {
    var slot, field := Slot(node.children, key), FieldSchema(schema, key);
    match item
    case None => slot.None? || key != ""
    case Some(v) =>
      var was := ReadSlot(slot);
      if IsFalsy(was) then if key == "" then was == item else StoresWhole(field, options, v)
      else if was == item then true
      else if BothNest(field, options, was.value, v) && slot.value.IsContainer() then Lands(slot.value, v, field, options)
      else key != "" && (v.Object? || v.Array? ==> StoresWhole(field, options, v))
  }

  /** Diffing the container `node` against `goal` produces a script that ends in `goal`. */
  predicate Lands(node: Node, goal: Value, schema: Option<Schema>, options: InferOptions)
    decreases node, 1
  {
    match node
    case MapNode(c) =>
      && goal.Object?
      && (schema.None? || schema.value.MapSchema?)
      && (forall k | k in c.Keys + goal.fields.Keys :: FieldLands(node, ObjectGet(goal, k), k, schema, options))
    case TextNode(_) => goal.String? && (schema.None? || schema.value.TextSchema?)
    case ListNode(_, _) => goal.Array? && IsListSchema(schema) && options.listEnds(node, goal.items, schema) == Some(goal.items)
    case Leaf(_) => false
  }

  predicate IsListSchema(schema: Option<Schema>) {
    schema.None? || schema.value.ListSchema? || schema.value.MovableListSchema?
  }

  // ----- the diff

  predicate IsObjectLike(v: Value) {
    v.Object? || v.Array? || v.Null?
  }

  /** The field itself is written: it is not wanted any more, it counts as absent, or it differs and cannot be edited in
      place. */
  predicate IsRewritten(node: Node, item: Option<Value>, key: string, field: Option<Schema>, options: InferOptions)
    requires node.MapNode?
  {
    match item
    case None => key in node.children
    case Some(v) =>
      key in node.children && !CountsAsAbsent(Some(node.children[key].Read())) ==>
        node.children[key].Read() != v && !IsEditedInPlace(node.children[key], field, options, v)
  }

  /** How it is written then. */
  predicate IsWriteOf(node: Node, item: Option<Value>, key: string, field: Option<Schema>, options: InferOptions, kind: Kind)
    requires node.MapNode?
  {
    match item
    case None => kind == Delete
    case Some(v) =>
      if key in node.children && !CountsAsAbsent(Some(node.children[key].Read())) then
        kind == if v.Object? then InsertContainer(MapType, v) else if v.Array? then InsertContainer(ListType, v) else Insert(v)
      else
        || (kind == Insert(v) && IsTypeOf(field, options, v, None))
        || (kind.InsertContainer? && kind.initial == v && IsTypeOf(field, options, v, Some(kind.childType)))
  }

  ghost predicate Addresses(changes: seq<Change>, path: Path, key: string) {
    exists c | c in changes :: c.container == path && c.key == key
  }

  /** The stored map under the key is edited in place. */
  predicate IsMapEdited(node: Node, item: Option<Value>, key: string, field: Option<Schema>, options: InferOptions)
    requires node.MapNode?
  {
    item.Some? && key in node.children && node.children[key].MapNode? && !IsRewritten(node, item, key, field, options)
    && node.children[key].Read() != item.value
  }

  /** The changes addressed to the field itself are as they should be, and so are those below it where a map is edited in
      place. */
  ghost predicate WritesRight(node: Node, item: Option<Value>, key: string, path: Path, field: Option<Schema>, options: InferOptions, changes: seq<Change>)
    requires node.MapNode?
    decreases node, 0
  {
    && (Addresses(changes, path, key) <==> IsRewritten(node, item, key, field, options))
    && (forall c | c in changes && c.container == path && c.key == key :: IsWriteOf(node, item, key, field, options, c.kind))
    && (IsMapEdited(node, item, key, field, options) ==> WritesAllRight(node.children[key], item.value, path + [key], field, options, changes))
  }

  /** So are those addressed to any field of the map. */
  ghost predicate WritesAllRight(node: Node, goal: Value, path: Path, schema: Option<Schema>, options: InferOptions, changes: seq<Change>)
    requires node.MapNode?
    decreases node, 1
  {
    forall k {:trigger Addresses(changes, path, k)} ::
      if IsAlias(goal, k) then !Addresses(changes, path, k)
      else WritesRight(node, ObjectGet(goal, k), k, path, FieldSchema(schema, k), options, changes)
  }

  method DiffContainer(node: Node, was: Value, goal: Value, path: Path, schema: Option<Schema>, options: InferOptions)
    returns (r: Result)
    requires node.IsContainer() && was == node.Read()
    ensures r.Ok? ==> Below(path, r.changes) && NoCuts(r.changes)
    ensures (r.Ok? && ApplyAll(node, schema, options, r.changes, |path|).Read() == goal) <==> Lands(node, goal, schema, options)
    ensures r.Ok? ==> IsKept(node, goal, schema, options, ApplyAll(node, schema, options, r.changes, |path|))
    ensures r.Ok? && node.MapNode? ==> WritesAllRight(node, goal, path, schema, options, r.changes)
    ensures r.Err? <==> IsRefused(node, goal, schema, options)
    ensures node.MapNode? && (!IsObjectLike(goal) || (schema.Some? && !schema.value.MapSchema?)) ==> r == Err(MapStateNotObjects)
    ensures node.TextNode? && r.Err? ==> r == Err(TextStateNotStrings)
    ensures node.ListNode? && r.Err? ==> r == Err(if goal.Array? && IsListSchema(schema) then ListRefused else ListStateNotArrays)
    ensures r.Ok? && was == goal && !was.Array? ==>
      (r.changes == [] <==> was.Object? ==> forall k | k in was.fields :: !IsFalsy(Some(was.fields[k])))
    decreases node, 1
  {
    match node
    case MapNode(_) =>
      if !IsObjectLike(was) || !IsObjectLike(goal) || !(schema.None? || schema.value.MapSchema?) {
        return Err(MapStateNotObjects);
      }
      r := DiffMap(node, was, goal, path, schema, options);
    case TextNode(_) =>
      if !was.String? || !goal.String? || !(schema.None? || schema.value.TextSchema?) {
        return Err(TextStateNotStrings);
      }
      r := Ok(DiffText(was.s, goal.s, path));
      ApplyAllKeepsKind(node, schema, options, r.changes, |path|);
      assert r.changes == [] || r.changes[..0] == [];
    case ListNode(_, _) =>
      if !goal.Array? || !IsListSchema(schema) {
        return Err(ListStateNotArrays);
      }
      var after := options.listEnds(node, goal.items, schema);
      if after.None? {
        return Err(ListRefused);
      }
      r := Ok([Change(path, "", EditList(after.value))]);
      ApplyAllKeepsKind(node, schema, options, r.changes, |path|);
      assert r.changes[..0] == [];
  }

  function DiffText(was: string, goal: string, path: Path): seq<Change> {
    if was == goal then [] else [Change(path, "", Insert(String(goal)))]
  }

  /** `children'` is `children` with field `key` settled and nothing else touched. */
  ghost predicate Settles(children: map<string, Node>, children': map<string, Node>, key: string, item: Option<Value>, lands: bool) {
    && (forall k | k != key :: Slot(children', k) == Slot(children, k))
    && (ReadSlot(Slot(children', key)) == item <==> lands)
  }

  /** How a field that cannot be edited in place is written. */
  function InsertKind(node: Node, key: string, v: Value, schema: Option<Schema>, options: InferOptions): Kind
    requires node.MapNode?
  {
    var t := TypeFor(FieldSchema(schema, key), v, options);
    if !IsFalsy(ReadSlot(Slot(node.children, key))) then ChildInsert(v)
    else if t.Some? then InsertContainer(t.value, v) else Insert(v)
  }

  lemma InsertSettles(node: Node, key: string, v: Value, schema: Option<Schema>, options: InferOptions, now: map<string, Node>, kind: Kind)
    requires node.MapNode? && Slot(now, key) == Slot(node.children, key) && kind == InsertKind(node, key, v, schema, options)
    requires var was := ReadSlot(Slot(node.children, key));
      IsFalsy(was) || (was.value != v
        && !(BothNest(FieldSchema(schema, key), options, was.value, v) && Slot(node.children, key).value.IsContainer()))
    ensures ApplyHere(MapNode(now), schema, options, key, kind).MapNode?
    ensures Settles(now, ApplyHere(MapNode(now), schema, options, key, kind).children, key, Some(v),
                    FieldLands(node, Some(v), key, schema, options))
  {
    var field := FieldSchema(schema, key);
    var t := TypeFor(field, v, options);
    if t.Some? {
      BuildKeepsConforming(t.value, field, v);
    }
  }

  lemma NestsInPlace(child: Node, field: Option<Schema>, options: InferOptions, v: Value)
    ensures BothNest(field, options, child.Read(), v) && child.IsContainer() <==> IsEditedInPlace(child, field, options, v)
  {
    TypeIs(field, options, v, TypeFor(field, v, options));
    TypeIs(field, options, v, Some(TextType));
    TypeIs(field, options, v, Some(MapType));
    TypeIs(field, options, v, Some(ListType));
    TypeIs(field, options, v, Some(MovableListType));
  }

  /** A field that is written becomes what it should, by the change it should. */
  lemma WrittenField(node: Node, key: string, v: Value, path: Path, schema: Option<Schema>, options: InferOptions, now: map<string, Node>, kind: Kind)
    requires node.MapNode? && Slot(now, key) == Slot(node.children, key) && kind == InsertKind(node, key, v, schema, options)
    requires var was := ReadSlot(Slot(node.children, key));
      IsFalsy(was) || (was.value != v
        && !(BothNest(FieldSchema(schema, key), options, was.value, v) && Slot(node.children, key).value.IsContainer()))
    requires ApplyHere(MapNode(now), schema, options, key, kind).MapNode?
    ensures FieldBecomes(node, Some(v), key, FieldSchema(schema, key), options, Slot(ApplyHere(MapNode(now), schema, options, key, kind).children, key))
    ensures WritesRight(node, Some(v), key, path, FieldSchema(schema, key), options, [Change(path, key, kind)])
  {
    var field := FieldSchema(schema, key);
    var t := TypeFor(field, v, options);
    AbsentIsFalsy(ReadSlot(Slot(node.children, key)));
    TypeIs(field, options, v, t);
    if key in node.children {
      NestsInPlace(node.children[key], field, options, v);
    }
    if t.Some? {
      BuildsType(t.value, field, v);
    }
    var made := Slot(ApplyHere(MapNode(now), schema, options, key, kind).children, key);
    if made.Some? && made.value == (if t.Some? then Build(t.value, field, v) else Leaf(v)) {
      MadeForType(field, options, v, made.value);
    }
    assert [Change(path, key, kind)][0] in [Change(path, key, kind)];
  }

  /** A field whose container is edited in place, and which no change is addressed to. */
  lemma KeptField(node: Node, key: string, v: Value, path: Path, schema: Option<Schema>, options: InferOptions, changes: seq<Change>, after: map<string, Node>)
    requires node.MapNode? && key in node.children && key in after
    requires !IsFalsy(Some(node.children[key].Read())) && node.children[key].Read() != v
    requires BothNest(FieldSchema(schema, key), options, node.children[key].Read(), v) && node.children[key].IsContainer()
    requires IsKept(node.children[key], v, FieldSchema(schema, key), options, after[key]) && Below(path + [key], changes)
    requires node.children[key].MapNode? ==> WritesAllRight(node.children[key], v, path + [key], FieldSchema(schema, key), options, changes)
    ensures FieldBecomes(node, Some(v), key, FieldSchema(schema, key), options, Slot(after, key))
    ensures WritesRight(node, Some(v), key, path, FieldSchema(schema, key), options, changes)
  {
    AbsentIsFalsy(Some(node.children[key].Read()));
    NestsInPlace(node.children[key], FieldSchema(schema, key), options, v);
    assert forall c | c in changes :: path + [key] <= c.container;
  }

  /** A field that is as wanted. */
  lemma EqualField(node: Node, key: string, v: Value, path: Path, schema: Option<Schema>, options: InferOptions)
    requires node.MapNode? && key in node.children && !IsFalsy(Some(v)) && node.children[key].Read() == v
    ensures FieldBecomes(node, Some(v), key, FieldSchema(schema, key), options, Slot(node.children, key))
    ensures WritesRight(node, Some(v), key, path, FieldSchema(schema, key), options, [])
  {
    AbsentIsFalsy(Some(v));
  }

  /** Only a field that is edited in place can be refused. */
  lemma RefusedField(node: Node, key: string, v: Value, field: Option<Schema>, options: InferOptions)
    requires node.MapNode?
    ensures FieldIsRefused(node, Some(v), key, field, options) <==>
      var slot := Slot(node.children, key); var was := ReadSlot(slot);
      !IsFalsy(was) && was.value != v && BothNest(field, options, was.value, v) && slot.value.IsContainer() && IsRefused(slot.value, v, field, options)
  {
    AbsentIsFalsy(ReadSlot(Slot(node.children, key)));
    if key in node.children {
      NestsInPlace(node.children[key], field, options, v);
    }
  }

  /** The changes for one field of the new state. `now` is the state the script has reached so far. */
  method DiffField(node: Node, key: string, v: Value, path: Path, schema: Option<Schema>, options: InferOptions,
                   ghost now: map<string, Node>) returns (r: Result, ghost after: map<string, Node>)
    requires node.MapNode?
    requires Slot(now, key) == Slot(node.children, key)
    ensures r.Ok? ==> IsAbout(path, r.changes, key) && NoCuts(r.changes)
    ensures r.Ok? && ReadSlot(Slot(node.children, key)) == Some(v) ==> (r.changes == [] <==> !IsFalsy(Some(v)))
    ensures r.Ok? ==> ApplyAll(MapNode(now), schema, options, r.changes, |path|) == MapNode(after)
    ensures r.Ok? ==> Settles(now, after, key, Some(v), FieldLands(node, Some(v), key, schema, options))
    ensures r.Ok? ==> FieldBecomes(node, Some(v), key, FieldSchema(schema, key), options, Slot(after, key))
    ensures r.Ok? ==> WritesRight(node, Some(v), key, path, FieldSchema(schema, key), options, r.changes)
    ensures r.Err? ==> !FieldLands(node, Some(v), key, schema, options)
    ensures r.Err? <==> FieldIsRefused(node, Some(v), key, FieldSchema(schema, key), options)
    decreases node, 0, 0
  {
    var slot, field := Slot(node.children, key), FieldSchema(schema, key);
    var was, t := ReadSlot(slot), TypeFor(FieldSchema(schema, key), v, options);
    var kind: Kind;
    RefusedField(node, key, v, field, options);
    if IsFalsy(was) {
      kind := if t.Some? then InsertContainer(t.value, v) else Insert(v);
    } else if was.value == v {
      after := now;
      EqualField(node, key, v, path, schema, options);
      return Ok([]), after;
    } else if BothNest(field, options, was.value, v) && slot.value.IsContainer() {
      r := DiffContainer(slot.value, was.value, v, path + [key], field, options);
      after := now;
      if r.Ok? {
        after := now[key := ApplyAll(now[key], field, options, r.changes, |path| + 1)];
        ApplyAllBelowChild(now, schema, options, r.changes, path, key);
        KeptField(node, key, v, path, schema, options, r.changes, after);
      }
      return;
    } else {
      kind := ChildInsert(v);
    }
    r := Ok([Change(path, key, kind)]);
    after := WritesField(node, key, v, path, schema, options, now, kind);
  }

  lemma WritesField(node: Node, key: string, v: Value, path: Path, schema: Option<Schema>, options: InferOptions, now: map<string, Node>, kind: Kind)
    returns (after: map<string, Node>)
    requires node.MapNode? && Slot(now, key) == Slot(node.children, key) && kind == InsertKind(node, key, v, schema, options)
    requires var was := ReadSlot(Slot(node.children, key));
      IsFalsy(was) || (was.value != v
        && !(BothNest(FieldSchema(schema, key), options, was.value, v) && Slot(node.children, key).value.IsContainer()))
    ensures IsAbout(path, [Change(path, key, kind)], key) && NoCuts([Change(path, key, kind)])
    ensures ApplyAll(MapNode(now), schema, options, [Change(path, key, kind)], |path|) == MapNode(after)
    ensures Settles(now, after, key, Some(v), FieldLands(node, Some(v), key, schema, options))
    ensures FieldBecomes(node, Some(v), key, FieldSchema(schema, key), options, Slot(after, key))
    ensures WritesRight(node, Some(v), key, path, FieldSchema(schema, key), options, [Change(path, key, kind)])
  {
    InsertSettles(node, key, v, schema, options, now, kind);
    after := ApplyHere(MapNode(now), schema, options, key, kind).children;
    assert [Change(path, key, kind)][..0] == [];
    WrittenField(node, key, v, path, schema, options, now, kind);
  }

  /** `now` is `children` without the fields the goal does not have. */
  ghost predicate IsPruned(children: map<string, Node>, goal: Value, now: map<string, Node>) {
    forall k {:trigger Slot(now, k)} ::
      Slot(now, k) == if ObjectGet(goal, k).None? && k != "" then None else Slot(children, k)
  }

  /** Part-way: some of the fields to delete may still be there. */
  ghost predicate IsBeingPruned(children: map<string, Node>, goal: Value, now: map<string, Node>) {
    forall k {:trigger Slot(now, k)} ::
      Slot(now, k) == Slot(children, k) || (Slot(now, k) == None && ObjectGet(goal, k).None? && k != "")
  }

  lemma DeleteOne(children: map<string, Node>, goal: Value, now: map<string, Node>, key: string)
    requires IsBeingPruned(children, goal, now) && ObjectGet(goal, key).None? && key != ""
    ensures IsBeingPruned(children, goal, now - {key}) && Slot(now - {key}, key) == None
    ensures forall k | Slot(now, k) == None :: Slot(now - {key}, k) == None
  {
    forall k
      ensures k != key ==> Slot(now - {key}, k) == Slot(now, k)
    {
    }
  }

  /** One more deletion: the field goes, unless its key is empty. */
  lemma DeleteRuns(node: Node, now: map<string, Node>, changes: seq<Change>, path: Path, key: string, schema: Option<Schema>, options: InferOptions)
    requires ApplyAll(node, schema, options, changes, |path|) == MapNode(now)
    ensures ApplyAll(node, schema, options, changes + [Change(path, key, Delete)], |path|) == MapNode(if key == "" then now else now - {key})
  {
    assert (changes + [Change(path, key, Delete)])[..|changes|] == changes;
  }

  /** The deletions for the first `i` entries: of fields the goal lacks, and of all of them. */
  ghost predicate AreDeletions(node: Node, goal: Value, path: Path, entries: seq<(string, Value)>, i: nat, changes: seq<Change>)
    requires node.MapNode? && i <= |entries|
  {
    && (forall c | c in changes :: c.container == path && c.kind == Delete && c.key in node.children && ObjectGet(goal, c.key).None?)
    && (forall j | 0 <= j < i && ObjectGet(goal, entries[j].0).None? :: Change(path, entries[j].0, Delete) in changes)
  }

  /** The fields of the first `i` entries that are to go are gone. */
  ghost predicate AreGone(goal: Value, entries: seq<(string, Value)>, i: nat, now: map<string, Node>)
    requires i <= |entries|
  {
    forall j | 0 <= j < i && ObjectGet(goal, entries[j].0).None? && entries[j].0 != "" :: Slot(now, entries[j].0) == None
  }

  /** The first `i` entries have been looked at. */
  ghost predicate IsDeleting(node: Node, goal: Value, path: Path, schema: Option<Schema>, options: InferOptions,
                             entries: seq<(string, Value)>, i: nat, changes: seq<Change>, now: map<string, Node>)
    requires node.MapNode? && i <= |entries|
  {
    && ApplyAll(node, schema, options, changes, |path|) == MapNode(now)
    && IsBeingPruned(node.children, goal, now)
    && AreDeletions(node, goal, path, entries, i, changes) && AreGone(goal, entries, i, now)
  }

  lemma DeletionNext(node: Node, goal: Value, path: Path, entries: seq<(string, Value)>, i: nat, changes: seq<Change>, key: string)
    requires node.MapNode? && i < |entries| && AreDeletions(node, goal, path, entries, i, changes)
    requires key == entries[i].0 && key in node.children && ObjectGet(goal, key).None?
    ensures AreDeletions(node, goal, path, entries, i + 1, changes + [Change(path, key, Delete)])
  {
  }

  lemma DeletingNext(node: Node, goal: Value, path: Path, schema: Option<Schema>, options: InferOptions,
                     entries: seq<(string, Value)>, i: nat, changes: seq<Change>, now: map<string, Node>)
    requires node.MapNode? && i < |entries| && IsDeleting(node, goal, path, schema, options, entries, i, changes, now)
    requires entries[i].0 in node.children
    ensures var key := entries[i].0;
      if ObjectGet(goal, key).None?
      then IsDeleting(node, goal, path, schema, options, entries, i + 1, changes + [Change(path, key, Delete)], if key == "" then now else now - {key})
      else IsDeleting(node, goal, path, schema, options, entries, i + 1, changes, now)
  {
    var key := entries[i].0;
    if ObjectGet(goal, key).None? {
      DeleteRuns(node, now, changes, path, key, schema, options);
      DeletionNext(node, goal, path, entries, i, changes, key);
      if key != "" {
        DeleteOne(node.children, goal, now, key);
      }
    }
  }

  /** Once every stored key has been looked at, all that is to go is gone. */
  lemma AllPruned(node: Node, was: Value, goal: Value, entries: seq<(string, Value)>, now: map<string, Node>, path: Path, changes: seq<Change>)
    requires node.MapNode? && was == node.Read() && ListsEntries(was, entries) && IsBeingPruned(node.children, goal, now)
    requires AreDeletions(node, goal, path, entries, |entries|, changes) && AreGone(goal, entries, |entries|, now)
    ensures IsPruned(node.children, goal, now)
    ensures Below(path, changes) && NoCuts(changes) && forall c | c in changes :: ObjectGet(goal, FieldOf(path, c)).None?
    ensures forall k | k in node.children && ObjectGet(goal, k).None? :: Change(path, k, Delete) in changes
  {
    forall k | k in node.children
      ensures exists j :: 0 <= j < |entries| && entries[j].0 == k
    {
      assert k in was.fields;
    }
  }

  /** The deletions for the removed keys. */
  method DeleteMissing(node: Node, was: Value, goal: Value, path: Path, schema: Option<Schema>, options: InferOptions)
    returns (changes: seq<Change>, ghost now: map<string, Node>)
    requires node.MapNode? && was == node.Read()
    ensures Below(path, changes)
    ensures ApplyAll(node, schema, options, changes, |path|) == MapNode(now)
    ensures IsPruned(node.children, goal, now)
    ensures NoCuts(changes) && forall c | c in changes :: ObjectGet(goal, FieldOf(path, c)).None?
    ensures forall c | c in changes :: c.container == path && c.kind == Delete && c.key in node.children
    ensures forall k | k in node.children && ObjectGet(goal, k).None? :: Change(path, k, Delete) in changes
    ensures was == goal ==> changes == []
  {
    changes, now := [], node.children;
    var entries := ObjectEntries(was);
    for i := 0 to |entries|
      invariant IsDeleting(node, goal, path, schema, options, entries, i, changes, now)
      invariant was == goal ==> changes == []
    {
      var key := entries[i].0;
      DeletingNext(node, goal, path, schema, options, entries, i, changes, now);
      if ObjectGet(goal, key).None? {
        changes, now := changes + [Change(path, key, Delete)], if key == "" then now else now - {key};
      }
    }
    AllPruned(node, was, goal, entries, now, path, changes);
  }

  /** A map read back equals the goal exactly when each of its fields does. */
  lemma ReadsBack(node: Node, goal: Value, now: map<string, Node>, schema: Option<Schema>, options: InferOptions)
    requires node.MapNode? && goal.Object? && (schema.None? || schema.value.MapSchema?)
    requires forall k | k in goal.fields ::
      (ReadSlot(Slot(now, k)) == Some(goal.fields[k]) <==> FieldLands(node, Some(goal.fields[k]), k, schema, options))
    requires forall k | k !in goal.fields :: (Slot(now, k) == None <==> Slot(node.children, k) == None || k != "")
    ensures MapNode(now).Read() == goal <==> Lands(node, goal, schema, options)
  {
    var back := MapNode(now).Read().fields;
    assert forall k | k in now :: Some(back[k]) == ReadSlot(Slot(now, k));
    if Lands(node, goal, schema, options) {
      forall k
        ensures k in back <==> k in goal.fields
        ensures k in goal.fields ==> back[k] == goal.fields[k]
      {
        assert k in node.children.Keys + goal.fields.Keys ==> FieldLands(node, ObjectGet(goal, k), k, schema, options);
        assert k in goal.fields ==> ReadSlot(Slot(now, k)) == Some(goal.fields[k]);
        assert k !in goal.fields ==> Slot(now, k) == None;
      }
      assert back == goal.fields;
    }
    if MapNode(now).Read() == goal {
      forall k | k in node.children.Keys + goal.fields.Keys
        ensures FieldLands(node, ObjectGet(goal, k), k, schema, options)
      {
        assert k in goal.fields ==> ReadSlot(Slot(now, k)) == Some(goal.fields[k]);
        assert k !in goal.fields ==> Slot(now, k) == None;
      }
    }
  }

  /** The entry's field reads as the entry's value exactly when the code lands it. */
  ghost predicate IsSettled(node: Node, now: map<string, Node>, entry: (string, Value), schema: Option<Schema>, options: InferOptions)
    requires node.MapNode?
  {
    ReadSlot(Slot(now, entry.0)) == Some(entry.1) <==> FieldLands(node, Some(entry.1), entry.0, schema, options)
  }

  /** The first `i` entries are settled and the other fields are as they were. */
  ghost predicate IsReached(node: Node, pruned: map<string, Node>, now: map<string, Node>, entries: seq<(string, Value)>, i: nat,
                            schema: Option<Schema>, options: InferOptions)
    requires node.MapNode? && i <= |entries|
  {
    && (forall k {:trigger Slot(now, k)} :: (forall j | 0 <= j < i :: entries[j].0 != k) ==> Slot(now, k) == Slot(pruned, k))
    && (forall j | 0 <= j < i :: IsSettled(node, now, entries[j], schema, options))
  }

  lemma ReachNext(node: Node, pruned: map<string, Node>, now: map<string, Node>, entries: seq<(string, Value)>, i: nat,
                  schema: Option<Schema>, options: InferOptions, after: map<string, Node>)
    requires node.MapNode? && i < |entries|
    requires forall j, k | 0 <= j < k < |entries| :: entries[j].0 != entries[k].0
    requires IsReached(node, pruned, now, entries, i, schema, options)
    requires Settles(now, after, entries[i].0, Some(entries[i].1), FieldLands(node, Some(entries[i].1), entries[i].0, schema, options))
    ensures IsReached(node, pruned, after, entries, i + 1, schema, options)
  {
    forall j | 0 <= j < i + 1
      ensures IsSettled(node, after, entries[j], schema, options)
    {
      if j < i {
        assert IsSettled(node, now, entries[j], schema, options);
        assert Slot(after, entries[j].0) == Slot(now, entries[j].0);
      }
    }
    forall k | forall j | 0 <= j < i + 1 :: entries[j].0 != k
      ensures Slot(after, k) == Slot(pruned, k)
    {
      assert entries[i].0 != k;
      assert Slot(now, k) == Slot(pruned, k);
    }
  }

  ghost predicate HaveBecome(node: Node, now: map<string, Node>, entries: seq<(string, Value)>, i: nat, schema: Option<Schema>, options: InferOptions)
    requires node.MapNode? && i <= |entries|
  {
    forall j | 0 <= j < i ::
      FieldBecomes(node, Some(entries[j].1), entries[j].0, FieldSchema(schema, entries[j].0), options, Slot(now, entries[j].0))
  }

  lemma BecomesNext(node: Node, now: map<string, Node>, entries: seq<(string, Value)>, i: nat, schema: Option<Schema>, options: InferOptions,
                    after: map<string, Node>)
    requires node.MapNode? && i < |entries| && HaveBecome(node, now, entries, i, schema, options)
    requires forall j, k | 0 <= j < k < |entries| :: entries[j].0 != entries[k].0
    requires forall k | k != entries[i].0 :: Slot(after, k) == Slot(now, k)
    requires FieldBecomes(node, Some(entries[i].1), entries[i].0, FieldSchema(schema, entries[i].0), options, Slot(after, entries[i].0))
    ensures HaveBecome(node, after, entries, i + 1, schema, options)
  {
    forall j | 0 <= j < i + 1
      ensures FieldBecomes(node, Some(entries[j].1), entries[j].0, FieldSchema(schema, entries[j].0), options, Slot(after, entries[j].0))
    {
      if j < i {
        assert entries[j].0 != entries[i].0;
      }
    }
  }

  /** The first `i` entries have the changes they should, and the other fields of the map the deletions. */
  ghost predicate AreWritten(node: Node, entries: seq<(string, Value)>, i: nat, path: Path, schema: Option<Schema>, options: InferOptions,
                             deletions: seq<Change>, changes: seq<Change>)
    requires node.MapNode? && i <= |entries|
  {
    && (forall j | 0 <= j < i ::
          WritesRight(node, Some(entries[j].1), entries[j].0, path, FieldSchema(schema, entries[j].0), options, changes))
    && (forall c | c in deletions :: c in changes)
    && (forall c | c in changes && c.container == path && (forall j | 0 <= j < i :: entries[j].0 != c.key) :: c in deletions)
  }

  predicate IsAt(path: Path, c: Change, key: string) {
    path <= c.container && FieldOf(path, c) == key
  }

  /** Only the changes about a field matter to it. */
  lemma {:induction false} WritesOnly(node: Node, item: Option<Value>, key: string, path: Path, field: Option<Schema>, options: InferOptions,
                                      a: seq<Change>, b: seq<Change>)
    requires node.MapNode? && WritesRight(node, item, key, path, field, options, a)
    requires forall c | IsAt(path, c, key) :: c in a <==> c in b
    ensures WritesRight(node, item, key, path, field, options, b)
    decreases node, 0
  {
    assert forall c: Change | c.container == path && c.key == key :: IsAt(path, c, key);
    if IsMapEdited(node, item, key, field, options) {
      forall c: Change | path + [key] <= c.container
        ensures c in a <==> c in b
      {
        assert IsAt(path, c, key);
      }
      WritesAllOnly(node.children[key], item.value, path + [key], field, options, a, b);
    }
  }

  lemma {:induction false} WritesAllOnly(node: Node, goal: Value, path: Path, schema: Option<Schema>, options: InferOptions, a: seq<Change>, b: seq<Change>)
    requires node.MapNode? && WritesAllRight(node, goal, path, schema, options, a)
    requires forall c: Change | path <= c.container :: c in a <==> c in b
    ensures WritesAllRight(node, goal, path, schema, options, b)
    decreases node, 1
  {
    forall k
      ensures if IsAlias(goal, k) then !Addresses(b, path, k)
              else WritesRight(node, ObjectGet(goal, k), k, path, FieldSchema(schema, k), options, b)
    {
      assert Addresses(a, path, k) <==> Addresses(b, path, k);
      if !IsAlias(goal, k) {
        WritesOnly(node, ObjectGet(goal, k), k, path, FieldSchema(schema, k), options, a, b);
      }
    }
  }

  lemma WrittenNext(node: Node, entries: seq<(string, Value)>, i: nat, path: Path, schema: Option<Schema>, options: InferOptions,
                    deletions: seq<Change>, changes: seq<Change>, part: seq<Change>)
    requires node.MapNode? && i < |entries| && AreWritten(node, entries, i, path, schema, options, deletions, changes)
    requires forall j, k | 0 <= j < k < |entries| :: entries[j].0 != entries[k].0
    requires Avoids(path, changes, entries[i].0) && IsAbout(path, part, entries[i].0)
    requires WritesRight(node, Some(entries[i].1), entries[i].0, path, FieldSchema(schema, entries[i].0), options, part)
    ensures AreWritten(node, entries, i + 1, path, schema, options, deletions, changes + part)
  {
    forall j | 0 <= j < i + 1
      ensures WritesRight(node, Some(entries[j].1), entries[j].0, path, FieldSchema(schema, entries[j].0), options, changes + part)
    {
      assert j < i ==> entries[j].0 != entries[i].0;
      WritesOnly(node, Some(entries[j].1), entries[j].0, path, FieldSchema(schema, entries[j].0), options, if j < i then changes else part, changes + part);
    }
  }

  ghost predicate EntryIsRefused(node: Node, entry: (string, Value), schema: Option<Schema>, options: InferOptions)
    requires node.MapNode?
  {
    FieldIsRefused(node, Some(entry.1), entry.0, FieldSchema(schema, entry.0), options)
  }

  /** The first `i` entries are dealt with: `changes` reaches `now`, and will not disturb the entries to come. */
  ghost predicate AreDone(node: Node, path: Path, schema: Option<Schema>, options: InferOptions, deletions: seq<Change>, pruned: map<string, Node>,
                          entries: seq<(string, Value)>, i: nat, changes: seq<Change>, now: map<string, Node>)
    requires node.MapNode? && i <= |entries|
  {
    && Below(path, changes) && NoCuts(changes) && (forall j | i <= j < |entries| :: Avoids(path, changes, entries[j].0))
    && ApplyAll(node, schema, options, changes, |path|) == MapNode(now)
    && IsReached(node, pruned, now, entries, i, schema, options)
    && HaveBecome(node, now, entries, i, schema, options)
    && AreWritten(node, entries, i, path, schema, options, deletions, changes)
    && (forall j | 0 <= j < i :: !EntryIsRefused(node, entries[j], schema, options))
  }

  lemma NextIsDone(node: Node, path: Path, schema: Option<Schema>, options: InferOptions, deletions: seq<Change>, pruned: map<string, Node>,
                   entries: seq<(string, Value)>, i: nat, changes: seq<Change>, now: map<string, Node>, part: seq<Change>, after: map<string, Node>)
    requires node.MapNode? && i < |entries| && AreDone(node, path, schema, options, deletions, pruned, entries, i, changes, now)
    requires forall j, k | 0 <= j < k < |entries| :: entries[j].0 != entries[k].0
    requires var (key, v) := entries[i];
      && IsAbout(path, part, key) && NoCuts(part)
      && ApplyAll(MapNode(now), schema, options, part, |path|) == MapNode(after)
      && Settles(now, after, key, Some(v), FieldLands(node, Some(v), key, schema, options))
      && FieldBecomes(node, Some(v), key, FieldSchema(schema, key), options, Slot(after, key))
      && WritesRight(node, Some(v), key, path, FieldSchema(schema, key), options, part)
      && !FieldIsRefused(node, Some(v), key, FieldSchema(schema, key), options)
    ensures AreDone(node, path, schema, options, deletions, pruned, entries, i + 1, changes + part, after)
  {
    var (key, v) := entries[i];
    ApplyAllAppends(node, schema, options, changes, part, |path|);
    FieldsDoNotCut(path, changes, part, key);
    ReachNext(node, pruned, now, entries, i, schema, options, after);
    BecomesNext(node, now, entries, i, schema, options, after);
    WrittenNext(node, entries, i, path, schema, options, deletions, changes, part);
    LaterAvoid(path, entries, i, changes, part);
  }

  lemma LaterAvoid(path: Path, entries: seq<(string, Value)>, i: nat, changes: seq<Change>, part: seq<Change>)
    requires i < |entries| && forall j, k | 0 <= j < k < |entries| :: entries[j].0 != entries[k].0
    requires forall j | i <= j < |entries| :: Avoids(path, changes, entries[j].0)
    requires IsAbout(path, part, entries[i].0)
    ensures forall j | i + 1 <= j < |entries| :: Avoids(path, changes + part, entries[j].0)
  {
  }

  /** The changes for the fields of the goal, in the order of `entries`. */
  method DiffFields(node: Node, goal: Value, path: Path, schema: Option<Schema>, options: InferOptions,
                    deletions: seq<Change>, ghost pruned: map<string, Node>, entries: seq<(string, Value)>)
    returns (r: Result, ghost now: map<string, Node>)
    requires node.MapNode? && IsPruned(node.children, goal, pruned)
    requires Below(path, deletions) && ApplyAll(node, schema, options, deletions, |path|) == MapNode(pruned)
    requires NoCuts(deletions) && forall j | 0 <= j < |entries| :: Avoids(path, deletions, entries[j].0)
    requires forall j, k | 0 <= j < k < |entries| :: entries[j].0 != entries[k].0
    requires forall j | 0 <= j < |entries| :: Slot(pruned, entries[j].0) == Slot(node.children, entries[j].0)
    ensures r.Ok? ==> AreDone(node, path, schema, options, deletions, pruned, entries, |entries|, r.changes, now)
    ensures r.Ok? && deletions == [] && (forall j | 0 <= j < |entries| :: ReadSlot(Slot(node.children, entries[j].0)) == Some(entries[j].1)) ==>
      (r.changes == [] <==> forall j | 0 <= j < |entries| :: !IsFalsy(Some(entries[j].1)))
    ensures r.Err? ==> exists j :: 0 <= j < |entries| && !FieldLands(node, Some(entries[j].1), entries[j].0, schema, options)
    ensures r.Err? <==> exists j :: 0 <= j < |entries| && EntryIsRefused(node, entries[j], schema, options)
    decreases node, 0, 1
  {
    var changes := deletions;
    now := pruned;
    for i := 0 to |entries|
      invariant AreDone(node, path, schema, options, deletions, pruned, entries, i, changes, now)
      invariant deletions == [] && (forall j | 0 <= j < |entries| :: ReadSlot(Slot(node.children, entries[j].0)) == Some(entries[j].1)) ==>
        (changes == [] <==> forall j | 0 <= j < i :: !IsFalsy(Some(entries[j].1)))
    {
      var (key, v) := entries[i];
      assert Slot(now, key) == Slot(pruned, key);
      var part, after := DiffField(node, key, v, path, schema, options, now);
      if part.Err? {
        assert EntryIsRefused(node, entries[i], schema, options);
        return part, now;
      }
      NextIsDone(node, path, schema, options, deletions, pruned, entries, i, changes, now, part.changes, after);
      changes, now := changes + part.changes, after;
    }
    r := Ok(changes);
  }

  lemma EntriesReadBack(node: Node, goal: Value, pruned: map<string, Node>, now: map<string, Node>,
                        entries: seq<(string, Value)>, schema: Option<Schema>, options: InferOptions)
    requires node.MapNode? && goal.Object? && (schema.None? || schema.value.MapSchema?)
    requires ListsEntries(goal, entries) && IsPruned(node.children, goal, pruned)
    requires IsReached(node, pruned, now, entries, |entries|, schema, options)
    ensures MapNode(now).Read() == goal <==> Lands(node, goal, schema, options)
  {
    forall k | k in goal.fields
      ensures ReadSlot(Slot(now, k)) == Some(goal.fields[k]) <==> FieldLands(node, Some(goal.fields[k]), k, schema, options)
    {
      var j :| 0 <= j < |entries| && entries[j].0 == k;
      assert IsSettled(node, now, entries[j], schema, options);
    }
    forall k | k !in goal.fields
      ensures Slot(now, k) == None <==> Slot(node.children, k) == None || k != ""
    {
      assert Slot(now, k) == Slot(pruned, k);
    }
    ReadsBack(node, goal, now, schema, options);
  }

  /** What the entries of the goal find in the stored map before any of them is settled. */
  lemma EntriesAreFresh(node: Node, goal: Value, path: Path, deletions: seq<Change>, pruned: map<string, Node>, entries: seq<(string, Value)>)
    requires node.MapNode? && goal.Object? && ListsEntries(goal, entries) && IsPruned(node.children, goal, pruned)
    requires Below(path, deletions) && forall c | c in deletions :: ObjectGet(goal, FieldOf(path, c)).None?
    ensures forall j | 0 <= j < |entries| :: Avoids(path, deletions, entries[j].0)
    ensures forall j | 0 <= j < |entries| :: Slot(pruned, entries[j].0) == Slot(node.children, entries[j].0)
    ensures goal == node.Read() ==> forall j | 0 <= j < |entries| :: ReadSlot(Slot(node.children, entries[j].0)) == Some(entries[j].1)
  {
    forall j | 0 <= j < |entries|
      ensures Slot(pruned, entries[j].0) == Slot(node.children, entries[j].0)
    {
      assert ObjectGet(goal, entries[j].0).Some?;
    }
  }

  lemma FalsyEntries(goal: Value, entries: seq<(string, Value)>)
    requires goal.Object? && ListsEntries(goal, entries)
    ensures (forall j | 0 <= j < |entries| :: !IsFalsy(Some(entries[j].1))) <==> (forall k | k in goal.fields :: !IsFalsy(Some(goal.fields[k])))
  {
    if forall j | 0 <= j < |entries| :: !IsFalsy(Some(entries[j].1)) {
      forall k | k in goal.fields
        ensures !IsFalsy(Some(goal.fields[k]))
      {
        var j :| 0 <= j < |entries| && entries[j].0 == k;
      }
    }
  }

  lemma ListedKeys(goal: Value, entries: seq<(string, Value)>, k: string)
    requires ListsEntries(goal, entries)
    ensures if ObjectGet(goal, k).Some? && !IsAlias(goal, k) then exists j :: 0 <= j < |entries| && entries[j] == (k, ObjectGet(goal, k).value)
            else forall j | 0 <= j < |entries| :: entries[j].0 != k
  {
    if goal.Array? {
      if ObjectGet(goal, k).Some? && !IsAlias(goal, k) {
        var i := Numerals.ParseIndex(k).value;
        assert entries[i] == (Numerals.Decimal(i), goal.items[i]);
      }
      forall j | 0 <= j < |entries| && entries[j].0 == k
        ensures !IsAlias(goal, k)
      {
        Numerals.DecimalParses(j);
      }
    } else if goal.Object? && k in goal.fields {
      var j :| 0 <= j < |entries| && entries[j].0 == k;
      assert entries[j] == (k, goal.fields[k]);
    }
  }

  lemma MapBecomes(node: Node, goal: Value, pruned: map<string, Node>, now: map<string, Node>, entries: seq<(string, Value)>,
                   schema: Option<Schema>, options: InferOptions)
    requires node.MapNode? && ListsEntries(goal, entries) && IsPruned(node.children, goal, pruned)
    requires IsReached(node, pruned, now, entries, |entries|, schema, options)
    requires HaveBecome(node, now, entries, |entries|, schema, options)
    ensures Becomes(node, goal, schema, options, MapNode(now))
  {
    forall k
      ensures if IsAlias(goal, k) then Slot(now, k) == Slot(node.children, k)
              else FieldBecomes(node, ObjectGet(goal, k), k, FieldSchema(schema, k), options, Slot(now, k))
    {
      ListedKeys(goal, entries, k);
      if ObjectGet(goal, k).None? || IsAlias(goal, k) {
        assert Slot(now, k) == Slot(pruned, k);
      }
    }
  }

  lemma MapIsWritten(node: Node, goal: Value, path: Path, entries: seq<(string, Value)>, schema: Option<Schema>, options: InferOptions,
                     deletions: seq<Change>, changes: seq<Change>)
    requires node.MapNode? && ListsEntries(goal, entries)
    requires AreWritten(node, entries, |entries|, path, schema, options, deletions, changes)
    requires forall c | c in deletions :: c.container == path && c.kind == Delete && c.key in node.children && ObjectGet(goal, c.key).None?
    requires forall k | k in node.children && ObjectGet(goal, k).None? :: Change(path, k, Delete) in deletions
    ensures WritesAllRight(node, goal, path, schema, options, changes)
  {
    forall k
      ensures if IsAlias(goal, k) then !Addresses(changes, path, k)
              else WritesRight(node, ObjectGet(goal, k), k, path, FieldSchema(schema, k), options, changes)
    {
      ListedKeys(goal, entries, k);
      if ObjectGet(goal, k).None? && k in node.children {
        assert Change(path, k, Delete) in changes;
      }
    }
  }

  lemma EntryRefuses(node: Node, goal: Value, entries: seq<(string, Value)>, j: nat, schema: Option<Schema>, options: InferOptions)
    requires node.MapNode? && ListsEntries(goal, entries) && j < |entries|
    ensures !IsAlias(goal, entries[j].0) && ObjectGet(goal, entries[j].0) == Some(entries[j].1)
    ensures EntryIsRefused(node, entries[j], schema, options) <==> KeyIsRefused(node, goal, entries[j].0, schema, options)
  {
    ListedKeys(goal, entries, entries[j].0);
  }

  lemma RefusedKeyIsListed(node: Node, goal: Value, entries: seq<(string, Value)>, k: string, schema: Option<Schema>, options: InferOptions)
    returns (j: nat)
    requires node.MapNode? && ListsEntries(goal, entries) && KeyIsRefused(node, goal, k, schema, options)
    ensures j < |entries| && entries[j].0 == k
  {
    ListedKeys(goal, entries, k);
    j :| 0 <= j < |entries| && entries[j] == (k, ObjectGet(goal, k).value);
  }

  lemma RefusedEntries(node: Node, goal: Value, entries: seq<(string, Value)>, schema: Option<Schema>, options: InferOptions)
    requires node.MapNode? && ListsEntries(goal, entries)
    ensures (exists j :: 0 <= j < |entries| && EntryIsRefused(node, entries[j], schema, options)) <==> HasRefusedKey(node, goal, schema, options)
  {
    if j: nat :| j < |entries| && EntryIsRefused(node, entries[j], schema, options) {
      EntryRefuses(node, goal, entries, j, schema, options);
    }
    if k :| KeyIsRefused(node, goal, k, schema, options) {
      var j := RefusedKeyIsListed(node, goal, entries, k, schema, options);
      EntryRefuses(node, goal, entries, j, schema, options);
    }
  }

  /** What a map's diff amounts to once all of its fields are dealt with. */
  lemma MapIsDone(node: Node, goal: Value, path: Path, schema: Option<Schema>, options: InferOptions, deletions: seq<Change>,
                  pruned: map<string, Node>, entries: seq<(string, Value)>, changes: seq<Change>, now: map<string, Node>)
    requires node.MapNode? && IsObjectLike(goal) && (schema.None? || schema.value.MapSchema?)
    requires ListsEntries(goal, entries) && IsPruned(node.children, goal, pruned)
    requires forall c | c in deletions :: c.container == path && c.kind == Delete && c.key in node.children && ObjectGet(goal, c.key).None?
    requires forall k | k in node.children && ObjectGet(goal, k).None? :: Change(path, k, Delete) in deletions
    requires AreDone(node, path, schema, options, deletions, pruned, entries, |entries|, changes, now)
    ensures IsKept(node, goal, schema, options, ApplyAll(node, schema, options, changes, |path|))
    ensures WritesAllRight(node, goal, path, schema, options, changes)
    ensures ApplyAll(node, schema, options, changes, |path|).Read() == goal <==> Lands(node, goal, schema, options)
  {
    MapBecomes(node, goal, pruned, now, entries, schema, options);
    MapIsWritten(node, goal, path, entries, schema, options, deletions, changes);
    if goal.Object? {
      EntriesReadBack(node, goal, pruned, now, entries, schema, options);
    }
  }

  lemma RefusedDoesNotLand(node: Node, goal: Value, entries: seq<(string, Value)>, schema: Option<Schema>, options: InferOptions)
    requires node.MapNode? && ListsEntries(goal, entries)
    requires exists j :: 0 <= j < |entries| && !FieldLands(node, Some(entries[j].1), entries[j].0, schema, options)
    ensures !Lands(node, goal, schema, options)
  {
    var j :| 0 <= j < |entries| && !FieldLands(node, Some(entries[j].1), entries[j].0, schema, options);
    assert ObjectGet(goal, entries[j].0) == Some(entries[j].1);
    assert goal.Object? ==> entries[j].0 in goal.fields;
  }

  method DiffMap(node: Node, was: Value, goal: Value, path: Path, schema: Option<Schema>, options: InferOptions)
    returns (r: Result)
    requires node.MapNode? && was == node.Read()
    requires IsObjectLike(goal) && (schema.None? || schema.value.MapSchema?)
    ensures r.Ok? ==> Below(path, r.changes) && NoCuts(r.changes)
    ensures (r.Ok? && ApplyAll(node, schema, options, r.changes, |path|).Read() == goal) <==> Lands(node, goal, schema, options)
    ensures r.Ok? ==> IsKept(node, goal, schema, options, ApplyAll(node, schema, options, r.changes, |path|))
    ensures r.Ok? ==> WritesAllRight(node, goal, path, schema, options, r.changes)
    ensures r.Err? <==> IsRefused(node, goal, schema, options)
    ensures r.Ok? && was == goal ==> (r.changes == [] <==> forall k | k in was.fields :: !IsFalsy(Some(was.fields[k])))
    decreases node, 0, 2
  {
    var deletions, pruned := DeleteMissing(node, was, goal, path, schema, options);
    var entries := ObjectEntries(goal);
    ghost var now;
    if goal.Object? {
      EntriesAreFresh(node, goal, path, deletions, pruned, entries);
      FalsyEntries(goal, entries);
    }
    r, now := DiffFields(node, goal, path, schema, options, deletions, pruned, entries);
    RefusedEntries(node, goal, entries, schema, options);
    if r.Ok? {
      MapIsDone(node, goal, path, schema, options, deletions, pruned, entries, r.changes, now);
    } else {
      RefusedDoesNotLand(node, goal, entries, schema, options);
    }
  }

  // ----- where it is not enough

  /** Inputs the diff accepts without an error and does not land: a field with the empty key, a list where the
      map is, a number in a field declared to be text. */
  lemma NotEverythingLands(options: InferOptions)
    ensures !Lands(MapNode(map[]), Object(map["" := Bool(true)]), None, options)
    ensures !Lands(MapNode(map[]), Array([Null]), None, options)
    ensures !Lands(MapNode(map[]), Object(map["title" := Number(1.0)]), Some(MapSchema(map["title" := TextSchema])), options)
  {
    assert "" in map["" := Bool(true)] && ObjectGet(Object(map["" := Bool(true)]), "") == Some(Bool(true));
    var goal, schema := Object(map["title" := Number(1.0)]), Some(MapSchema(map["title" := TextSchema]));
    assert "title" in goal.fields && ObjectGet(goal, "title") == Some(Number(1.0));
    assert !FieldLands(MapNode(map[]), Some(Number(1.0)), "title", schema, options);
    assert !FieldLands(MapNode(map[]), Some(Bool(true)), "", None, options);
  }
}
