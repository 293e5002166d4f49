/** Values, schemas and the stored containers the mirror diffs against
    (crates/vt-mirror/src/value.rs, schema.rs, utils.rs). */
module MirrorState {
  import opened Prelude
  import opened Numerals

  /** JSON. Numbers compare as numbers, so one real stands for every spelling of it. */
  datatype Value =
    | Null
    | Bool(b: bool)
    | Number(n: real)
    | String(s: string)
    | Array(items: seq<Value>)
    | Object(fields: map<string, Value>)

  datatype ContainerType = MapType | ListType | MovableListType | TextType

  datatype Schema =
    | PlainSchema
    | TextSchema
    | MapSchema(fields: map<string, Schema>)
    | ListSchema(item: Option<Schema>)
    | MovableListSchema(item: Option<Schema>)
  {
    function Type(): Option<ContainerType> {
      match this
      case PlainSchema => None
      case TextSchema => Some(TextType)
      case MapSchema(_) => Some(MapType)
      case ListSchema(_) => Some(ListType)
      case MovableListSchema(_) => Some(MovableListType)
    }
  }

  /** A stored slot. List containers keep the values of their items; `layout` stands for how the items are
      stored, which a deep read does not show. Their own scripts are the business of the list modules. */
  datatype Node =
    | Leaf(value: Value)
    | MapNode(children: map<string, Node>)
    | TextNode(text: string)
    | ListNode(items: seq<Value>, layout: nat)
  {
    predicate IsContainer() {
      !Leaf?
    }

    /** What a deep read of the slot returns. */
    function Read(): Value {
      match this
      case Leaf(v) => v
      case MapNode(c) => Object(map k | k in c :: c[k].Read())
      case TextNode(t) => String(t)
      case ListNode(xs, _) => Array(xs)
    }
  }

  /** How unmarked values are stored, and what a list container's own script ends in: the items it then has, or
      nothing when its diff is refused. */
  datatype InferOptions = InferOptions(
    defaultMovableList: bool, defaultLoroText: bool, listEnds: (Node, seq<Value>, Option<Schema>) -> Option<seq<Value>>)

  function FieldSchema(schema: Option<Schema>, key: string): Option<Schema> {
    if schema.Some? && schema.value.MapSchema? && key in schema.value.fields
    then Some(schema.value.fields[key]) else None
  }

  function ItemSchema(schema: Option<Schema>): Option<Schema> {
    match schema
    case Some(ListSchema(item)) => item
    case Some(MovableListSchema(item)) => item
    case _ => None
  }

  function SchemaType(schema: Option<Schema>): Option<ContainerType> {
    if schema.Some? then schema.value.Type() else None
  }

  function Infer(v: Value, options: InferOptions): Option<ContainerType> {
    match v
    case Object(_) => Some(MapType)
    case Array(_) => Some(if options.defaultMovableList then MovableListType else ListType)
    case String(_) => if options.defaultLoroText then Some(TextType) else None
    case _ => None
  }

  function TypeFor(schema: Option<Schema>, v: Value, options: InferOptions): Option<ContainerType> {
    if SchemaType(schema).Some? then SchemaType(schema) else Infer(v, options)
  }

  /** Arrays pass as maps and objects pass as lists, as in the blueprint. */
  predicate IsValueOf(t: ContainerType, v: Value) {
    match t
    case TextType => v.String?
    case _ => v.Object? || v.Array?
  }

  /** JavaScript falsehood of a possibly absent value. */
  predicate IsFalsy(v: Option<Value>) {
    match v
    case None => true
    case Some(Null) => true
    case Some(Bool(b)) => !b
    case Some(Number(n)) => n == 0.0
    case Some(String(s)) => s == ""
    case _ => false
  }

  // ----- filling a freshly created container

  /** Whether a field or item is created as a container of its own. */
  predicate NestsContainer(schema: Option<Schema>, v: Value) {
    SchemaType(schema).Some? && IsValueOf(SchemaType(schema).value, v)
  }

  /** A container of type `t`, filled from `v` as far as the shapes agree. */
  function Build(t: ContainerType, schema: Option<Schema>, v: Value): (n: Node)
    ensures n.IsContainer()
    decreases v, 1
  {
    match t
    case MapType =>
      if v.Object? then MapNode(map k | k in v.fields :: BuildSlot(FieldSchema(schema, k), v.fields[k]))
      else MapNode(map[])
    case TextType => TextNode(if v.String? then v.s else "")
    case _ =>
      if v.Array? then ListNode(seq(|v.items|, i requires 0 <= i < |v.items| => BuildSlot(ItemSchema(schema), v.items[i]).Read()), 0)
      else ListNode([], 0)
  }

  function BuildSlot(schema: Option<Schema>, v: Value): Node
    decreases v, 2
  {
    if NestsContainer(schema, v) then Build(SchemaType(schema).value, schema, v) else Leaf(v)
  }

  /** The value has the shape its declared container types ask for, all the way down. */
  predicate Conforms(t: ContainerType, schema: Option<Schema>, v: Value)
    decreases v, 1
  {
    match t
    case MapType => v.Object? && forall k | k in v.fields :: SlotConforms(FieldSchema(schema, k), v.fields[k])
    case TextType => v.String?
    case _ => v.Array? && forall i | 0 <= i < |v.items| :: SlotConforms(ItemSchema(schema), v.items[i])
  }

  predicate SlotConforms(schema: Option<Schema>, v: Value)
    decreases v, 2
  {
    NestsContainer(schema, v) ==> Conforms(SchemaType(schema).value, schema, v)
  }

  /** A created container reads back as the value it was filled from exactly when the value conforms. */
  lemma {:induction false} BuildKeepsConforming(t: ContainerType, schema: Option<Schema>, v: Value)
    ensures Build(t, schema, v).Read() == v <==> Conforms(t, schema, v)
    decreases v, 1
  {
    match t
    case MapType =>
      if v.Object? {
        forall k | k in v.fields
          ensures BuildSlot(FieldSchema(schema, k), v.fields[k]).Read() == v.fields[k]
            <==> SlotConforms(FieldSchema(schema, k), v.fields[k])
        {
          BuildSlotKeepsConforming(FieldSchema(schema, k), v.fields[k]);
        }
        var back := Build(t, schema, v).Read().fields;
        assert forall k | k in back :: back[k] == BuildSlot(FieldSchema(schema, k), v.fields[k]).Read();
        assert Conforms(t, schema, v) ==> back == v.fields;
      }
    case TextType =>
    case _ =>
      if v.Array? {
        forall i | 0 <= i < |v.items|
          ensures BuildSlot(ItemSchema(schema), v.items[i]).Read() == v.items[i]
            <==> SlotConforms(ItemSchema(schema), v.items[i])
        {
          BuildSlotKeepsConforming(ItemSchema(schema), v.items[i]);
        }
        var back := Build(t, schema, v).Read().items;
        assert forall i | 0 <= i < |back| :: back[i] == BuildSlot(ItemSchema(schema), v.items[i]).Read();
        assert Conforms(t, schema, v) ==> back == v.items;
      }
  }

  lemma {:induction false} BuildSlotKeepsConforming(schema: Option<Schema>, v: Value)
    ensures BuildSlot(schema, v).Read() == v <==> SlotConforms(schema, v)
    decreases v, 2
  {
    if NestsContainer(schema, v) {
      BuildKeepsConforming(SchemaType(schema).value, schema, v);
    }
  }

  // ----- fields of an object, indices of an array

  function ObjectGet(v: Value, key: string): Option<Value> {
    match v
    case Object(f) => if key in f then Some(f[key]) else None
    case Array(xs) =>
      var i := ParseIndex(key);
      if i.Some? && i.value < |xs| then Some(xs[i.value]) else None
    case _ => None
  }

  /** What a loop over `v` visits: an object's fields in some order, an array's indices in order. */
  ghost predicate ListsEntries(v: Value, entries: seq<(string, Value)>) {
    && (forall i, j | 0 <= i < j < |entries| :: entries[i].0 != entries[j].0)
    && (forall i | 0 <= i < |entries| :: ObjectGet(v, entries[i].0) == Some(entries[i].1))
    && (v.Object? ==> forall k | k in v.fields :: exists i :: 0 <= i < |entries| && entries[i].0 == k)
    && (v.Array? ==> |entries| == |v.items| && forall i | 0 <= i < |v.items| :: entries[i] == (Decimal(i), v.items[i]))
  }

  function IndexEntries(items: seq<Value>): seq<(string, Value)> {
    seq(|items|, i requires 0 <= i < |items| => (Decimal(i), items[i]))
  }

  lemma IndexEntriesAreListed(items: seq<Value>)
    ensures ListsEntries(Array(items), IndexEntries(items))
  {
    forall i | 0 <= i < |items|
      ensures ObjectGet(Array(items), Decimal(i)) == Some(items[i])
    {
      DecimalParses(i);
    }
    forall i, j | 0 <= i < j < |items|
      ensures Decimal(i) != Decimal(j)
    {
      DecimalParses(i);
      DecimalParses(j);
    }
  }

  method ObjectEntries(v: Value) returns (entries: seq<(string, Value)>)
    ensures ListsEntries(v, entries)
  {
    if v.Object? {
      entries := FieldEntries(v.fields);
    } else if v.Array? {
      entries := IndexEntries(v.items);
      IndexEntriesAreListed(v.items);
    } else {
      entries := [];
    }
  }

  method FieldEntries(fields: map<string, Value>) returns (entries: seq<(string, Value)>)
    ensures ListsEntries(Object(fields), entries)
  {
    entries := [];
    var left := fields.Keys;
    while left != {}
      invariant left <= fields.Keys
      invariant forall i | 0 <= i < |entries| ::
        entries[i].0 in fields && entries[i].0 !in left && fields[entries[i].0] == entries[i].1
      invariant forall i, j | 0 <= i < j < |entries| :: entries[i].0 != entries[j].0
      invariant forall k | k in fields && k !in left :: exists i :: 0 <= i < |entries| && entries[i].0 == k
    {
      var k :| k in left;
      left := left - {k};
      ghost var before := entries;
      entries := entries + [(k, fields[k])];
      assert entries[|before|].0 == k;
      assert forall i | 0 <= i < |before| :: entries[i] == before[i];
    }
  }
}
