/** What becomes of the containers of a stored map when it is brought up to date: which are edited in place, which are
    made anew, and what kind each is (crates/vt-mirror/src/diff.rs:603-691, utils.rs:83-131). */
module NodeShapes {
  import opened Prelude
  import opened MirrorState
  import Numerals

  /** The child stored under a key. */
  function Slot(children: map<string, Node>, key: string): Option<Node> {
    if key in children then Some(children[key]) else None
  }

  predicate HasType(node: Node, t: ContainerType) {
    match node
    case Leaf(_) => false
    case MapNode(_) => t == MapType
    case TextNode(_) => t == TextType
    case ListNode(_, _) => t == ListType || t == MovableListType
  }

  /** Two containers of one kind; a list's items are stored the same way. */
  predicate SameKind(a: Node, b: Node) {
    || (a.MapNode? && b.MapNode?) || (a.TextNode? && b.TextNode?)
    || (a.ListNode? && b.ListNode? && a.layout == b.layout)
  }

  /** The container type a field asks for: the declared one, and where none is declared the one the value's shape
      suggests. */
  predicate IsTypeOf(field: Option<Schema>, options: InferOptions, v: Value, t: Option<ContainerType>) {
    match field
    case Some(TextSchema) => t == Some(TextType)
    case Some(MapSchema(_)) => t == Some(MapType)
    case Some(ListSchema(_)) => t == Some(ListType)
    case Some(MovableListSchema(_)) => t == Some(MovableListType)
    case _ =>
      && (v.Object? ==> t == Some(MapType))
      && (v.Array? ==> t == Some(if options.defaultMovableList then MovableListType else ListType))
      && (v.String? && options.defaultLoroText ==> t == Some(TextType))
      && (!v.Object? && !v.Array? && !(v.String? && options.defaultLoroText) ==> t == None)
  }

  /** Stored as a container of the type asked for, or as the value itself where none is. */
  ghost predicate IsMadeFor(field: Option<Schema>, options: InferOptions, v: Value, n: Node) {
    exists t :: IsTypeOf(field, options, v, t) && if t.Some? then HasType(n, t.value) else n == Leaf(v)
  }

  /** Absent, or one of the values that are false in JavaScript. */
  predicate CountsAsAbsent(v: Option<Value>) {
    v in {None, Some(Null), Some(Bool(false)), Some(Number(0.0)), Some(String(""))}
  }

  /** A stored text is edited in place into a string for which a text is asked, a stored map or list into an object or an
      array for which a map or a list is. */
  predicate IsEditedInPlace(child: Node, field: Option<Schema>, options: InferOptions, v: Value) {
    match child
    case Leaf(_) => false
    case TextNode(_) => v.String? && IsTypeOf(field, options, v, Some(TextType))
    case _ =>
      && (v.Object? || v.Array?)
      && (IsTypeOf(field, options, v, Some(MapType)) || IsTypeOf(field, options, v, Some(ListType))
          || IsTypeOf(field, options, v, Some(MovableListType)))
  }

  /** What field `key` of the stored map is afterwards. */
  ghost predicate FieldBecomes(node: Node, item: Option<Value>, key: string, field: Option<Schema>, options: InferOptions, after: Option<Node>)
    requires node.MapNode?
    decreases node, 0
  {
    var child := Slot(node.children, key);
    match item
    case None => after == if key == "" then child else None
    case Some(v) =>
      if CountsAsAbsent(if child.Some? then Some(child.value.Read()) else None) then
        if key == "" then after == child else after.Some? && IsMadeFor(field, options, v, after.value)
      else if child.value.Read() == v then after == child
      else if IsEditedInPlace(child.value, field, options, v) then after.Some? && IsKept(child.value, v, field, options, after.value)
      else if key == "" then after == child
      else after.Some? && if v.Object? || v.Array? then IsMadeFor(field, options, v, after.value) else after.value == Leaf(v)
  }

  /** A key that finds an item of an array but is not the numeral the item is listed under, as "01" is not. */
  predicate IsAlias(goal: Value, key: string) {
    goal.Array? && ObjectGet(goal, key).Some? && key != Numerals.Decimal(Numerals.ParseIndex(key).value)
  }

  /** Every field of the map, and of the maps in it that are edited in place. A field under an alias stays as it is. */
  ghost predicate Becomes(node: Node, goal: Value, schema: Option<Schema>, options: InferOptions, after: Node)
    requires node.MapNode? && after.MapNode?
    decreases node, 1
  {
    forall k {:trigger Slot(after.children, k)} ::
      if IsAlias(goal, k) then Slot(after.children, k) == Slot(node.children, k)
      else FieldBecomes(node, ObjectGet(goal, k), k, FieldSchema(schema, k), options, Slot(after.children, k))
  }

  /** A container that is edited in place stays a container of its kind. */
  ghost predicate IsKept(node: Node, goal: Value, schema: Option<Schema>, options: InferOptions, after: Node)
    decreases node, 2
  {
    SameKind(node, after) && (node.MapNode? ==> Becomes(node, goal, schema, options, after))
  }

  // ----- when a diff is refused

  /** The field's container is to be edited in place, and its own diff is refused. */
  ghost predicate FieldIsRefused(node: Node, item: Option<Value>, key: string, field: Option<Schema>, options: InferOptions)
    requires node.MapNode?
    decreases node, 0
  {
    item.Some? && key in node.children
    && !CountsAsAbsent(Some(node.children[key].Read())) && node.children[key].Read() != item.value
    && IsEditedInPlace(node.children[key], field, options, item.value) && IsRefused(node.children[key], item.value, field, options)
  }

  ghost predicate KeyIsRefused(node: Node, goal: Value, key: string, schema: Option<Schema>, options: InferOptions)
    requires node.MapNode?
    decreases node, 1
  {
    !IsAlias(goal, key) && FieldIsRefused(node, ObjectGet(goal, key), key, FieldSchema(schema, key), options)
  }

  ghost predicate HasRefusedKey(node: Node, goal: Value, schema: Option<Schema>, options: InferOptions)
    requires node.MapNode?
    decreases node, 2
  {
    exists k :: KeyIsRefused(node, goal, k, schema, options)
  }

  /** The new value has not the container's shape, the schema declares something else, or so it is for a field. A map
      accepts an array and null too. */
  ghost predicate IsRefused(node: Node, goal: Value, schema: Option<Schema>, options: InferOptions)
    decreases node, 3
  {
    match node
    case Leaf(_) => false
    case MapNode(_) =>
      || !(goal.Object? || goal.Array? || goal.Null?) || (schema.Some? && !schema.value.MapSchema?)
      || HasRefusedKey(node, goal, schema, options)
    case TextNode(_) => !goal.String? || (schema.Some? && !schema.value.TextSchema?)
    case ListNode(_, _) =>
      || !goal.Array? || (schema.Some? && !schema.value.ListSchema? && !schema.value.MovableListSchema?)
      || options.listEnds(node, goal.items, schema).None?
  }

  // ----- the same in the model's terms

  lemma TypeIs(field: Option<Schema>, options: InferOptions, v: Value, t: Option<ContainerType>)
    ensures IsTypeOf(field, options, v, t) <==> t == TypeFor(field, v, options)
  {
  }

  lemma AbsentIsFalsy(v: Option<Value>)
    ensures CountsAsAbsent(v) <==> IsFalsy(v)
  {
  }

  lemma MadeForType(field: Option<Schema>, options: InferOptions, v: Value, n: Node)
    requires var t := TypeFor(field, v, options); if t.Some? then HasType(n, t.value) else n == Leaf(v)
    ensures IsMadeFor(field, options, v, n)
  {
    TypeIs(field, options, v, TypeFor(field, v, options));
  }

  lemma BuildsType(t: ContainerType, schema: Option<Schema>, v: Value)
    ensures HasType(Build(t, schema, v), t)
  {
  }

  // ----- what is declared, and what a created map is filled with

  /** A field's schema is the one its map declares under the key, and an item's the one its list declares. */
  lemma DeclaredSchemas(fields: map<string, Schema>, key: string, item: Option<Schema>, other: Option<Schema>)
    ensures FieldSchema(Some(MapSchema(fields)), key) == (if key in fields then Some(fields[key]) else None)
    ensures other.None? || !other.value.MapSchema? ==> FieldSchema(other, key) == None
    ensures ItemSchema(Some(ListSchema(item))) == item && ItemSchema(Some(MovableListSchema(item))) == item
  {
  }

  /** A field of a created map: a container of the declared type where the value has its shape, and else the value. */
  predicate IsFilled(field: Option<Schema>, v: Value, n: Node) {
    match field
    case Some(TextSchema) => n == if v.String? then TextNode(v.s) else Leaf(v)
    case Some(MapSchema(_)) => if v.Object? || v.Array? then n.MapNode? else n == Leaf(v)
    case Some(ListSchema(_)) => if v.Object? || v.Array? then n.ListNode? else n == Leaf(v)
    case Some(MovableListSchema(_)) => if v.Object? || v.Array? then n.ListNode? else n == Leaf(v)
    case _ => n == Leaf(v)
  }

  /** A map created for an object has the object's fields, each filled by what is declared for it, all the way down. */
  lemma CreatedFields(schema: Option<Schema>, v: Value, key: string)
    requires v.Object? && key in v.fields
    ensures var made := Build(MapType, schema, v);
      && made.MapNode? && made.children.Keys == v.fields.Keys
      && IsFilled(FieldSchema(schema, key), v.fields[key], made.children[key])
      && (made.children[key].MapNode? && v.fields[key].Object? ==> made.children[key] == Build(MapType, FieldSchema(schema, key), v.fields[key]))
  {
    var field, value := FieldSchema(schema, key), v.fields[key];
    assert Build(MapType, schema, v).children[key] == BuildSlot(field, value);
    if SchemaType(field).Some? {
      BuildsType(SchemaType(field).value, field, value);
    }
  }
}
