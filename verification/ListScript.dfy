/** List containers, and the scripts the list diffs emit for them
    (crates/vt-mirror/src/change.rs, mirror.rs:570-637). Each change is applied in order; an index
    outside the list is an error. */
module ListScript {
  import opened Prelude
  import opened MirrorState
  import MapDiff
  import Shapes = NodeShapes

  /** An item of a stored list: a plain value, or a container. Containers that were in the list before
      the script carry an id by which the script can name them. */
  datatype Slot = Plain(value: Value) | Child(cid: Option<nat>, node: Node)
  {
    function Read(): Value {
      match this
      case Plain(v) => v
      case Child(_, n) => n.Read()
    }
  }

  datatype ListChange =
    | DeleteAt(index: nat)
    | InsertAt(index: nat, value: Value, child: Option<ContainerType>)
    | MoveTo(from: nat, to: nat)
    | Nested(cid: nat, change: MapDiff.Change)

  function ReadAll(list: seq<Slot>): (values: seq<Value>)
    ensures |values| == |list|
  {
    seq(|list|, i requires 0 <= i < |list| => list[i].Read())
  }

  /** Stored lists name each of their containers by a different id. */
  ghost predicate IsStored(list: seq<Slot>) {
    && (forall i | 0 <= i < |list| && list[i].Child? :: list[i].cid.Some? && list[i].node.IsContainer())
    && (forall i, j | 0 <= i < j < |list| && list[i].Child? && list[j].Child? :: list[i].cid != list[j].cid)
  }

  function Without(list: seq<Slot>, i: nat): seq<Slot>
    requires i < |list|
  {
    list[..i] + list[i + 1..]
  }

  function With(list: seq<Slot>, i: nat, slot: Slot): seq<Slot>
    requires i <= |list|
  {
    list[..i] + [slot] + list[i..]
  }

  /** An insert is turned into a container creation only under an item schema, and never for movable lists. */
  function ChildType(item: Option<Schema>, v: Value): Option<ContainerType> {
    if item.None? then None
    else
      var t := TypeFor(item, v, InferOptions(false, false, (_, _, _) => None));
      if t == Some(MovableListType) then None else t
  }

  function NewSlot(item: Option<Schema>, options: InferOptions, v: Value, child: Option<ContainerType>): Slot {
    var t := TypeFor(item, v, options);
    if child.Some? && t.Some? then Child(None, Build(t.value, item, v)) else Plain(v)
  }

  /** A new item keeps its value: where it becomes a container, it has the shape that container asks for. */
  predicate IsKeptWhole(item: Option<Schema>, options: InferOptions, v: Value) {
    ChildType(item, v).Some? ==> Conforms(TypeFor(item, v, options).value, item, v)
  }

  /** The container an inserted item should become: what the item schema declares, except that a movable list is never
      created; under a plain schema what the value's shape suggests; and none without a schema. */
  predicate IsRightChild(item: Option<Schema>, v: Value, child: Option<ContainerType>) {
    match item
    case None => child == None
    case Some(TextSchema) => child == Some(TextType)
    case Some(MapSchema(_)) => child == Some(MapType)
    case Some(ListSchema(_)) => child == Some(ListType)
    case Some(MovableListSchema(_)) => child == None
    case Some(PlainSchema) => child == if v.Object? then Some(MapType) else if v.Array? then Some(ListType) else None
  }

  /** Every insert of the script asks for the container its item should become. */
  ghost predicate InsertsRight(item: Option<Schema>, changes: seq<ListChange>) {
    forall c | c in changes && c.InsertAt? :: IsRightChild(item, c.value, c.child)
  }

  lemma InsertsOfBoth(item: Option<Schema>, first: seq<ListChange>, second: seq<ListChange>)
    requires InsertsRight(item, first) && InsertsRight(item, second)
    ensures InsertsRight(item, first + second)
  {
  }

  /** What an inserted item is stored as. */
  predicate IsRightSlot(item: Option<Schema>, v: Value, slot: Slot) {
    match item
    case None => slot == Plain(v)
    case Some(TextSchema) => slot.Child? && slot.cid.None? && slot.node.TextNode?
    case Some(MapSchema(_)) => slot.Child? && slot.cid.None? && slot.node.MapNode?
    case Some(ListSchema(_)) => slot.Child? && slot.cid.None? && slot.node.ListNode?
    case Some(MovableListSchema(_)) => slot == Plain(v)
    case Some(PlainSchema) =>
      if v.Object? then slot.Child? && slot.cid.None? && slot.node.MapNode?
      else if v.Array? then slot.Child? && slot.cid.None? && slot.node.ListNode?
      else slot == Plain(v)
  }

  /** What a stored item is once it is brought to `v`: itself where it reads so already, the same container of the same
      kind where it is one, and else an item inserted anew. */
  ghost predicate ItemBecomes(slot: Slot, v: Value, item: Option<Schema>, options: InferOptions, after: Slot) {
    if slot.Read() == v then after == slot
    else if slot.Child? then after.Child? && after.cid == slot.cid && Shapes.IsKept(slot.node, v, item, options, after.node)
    else IsRightSlot(item, v, after)
  }

  /** The item's container is to be edited in place, and its diff is refused. */
  ghost predicate ItemIsRefused(slot: Slot, v: Value, item: Option<Schema>, options: InferOptions) {
    slot.Read() != v && slot.Child? && Shapes.IsRefused(slot.node, v, item, options)
  }

  lemma ChildIsRight(item: Option<Schema>, v: Value)
    ensures IsRightChild(item, v, ChildType(item, v))
  {
  }

  lemma NewSlotReads(item: Option<Schema>, options: InferOptions, v: Value)
    ensures NewSlot(item, options, v, ChildType(item, v)).Read() == v <==> IsKeptWhole(item, options, v)
    ensures IsRightChild(item, v, ChildType(item, v)) && IsRightSlot(item, v, NewSlot(item, options, v, ChildType(item, v)))
  {
    if ChildType(item, v).Some? {
      BuildKeepsConforming(TypeFor(item, v, options).value, item, v);
    }
  }

  function EditChild(slot: Slot, item: Option<Schema>, options: InferOptions, cid: nat, change: MapDiff.Change): Slot {
    if slot.Child? && slot.cid == Some(cid) then slot.(node := MapDiff.Apply(slot.node, item, options, change, 0)) else slot
  }

  function EditAll(list: seq<Slot>, item: Option<Schema>, options: InferOptions, cid: nat, change: MapDiff.Change): seq<Slot> {
    seq(|list|, i requires 0 <= i < |list| => EditChild(list[i], item, options, cid, change))
  }

  function Run(list: seq<Slot>, item: Option<Schema>, options: InferOptions, c: ListChange): Option<seq<Slot>> {
    match c
    case DeleteAt(i) => if i < |list| then Some(Without(list, i)) else None
    case InsertAt(i, v, child) => if i <= |list| then Some(With(list, i, NewSlot(item, options, v, child))) else None
    case MoveTo(from, to) => if from < |list| && to < |list| then Some(With(Without(list, from), to, list[from])) else None
    case Nested(cid, change) => Some(EditAll(list, item, options, cid, change))
  }

  /** The state a script reaches, or None where one of its changes is out of range. */
  function RunAll(list: seq<Slot>, item: Option<Schema>, options: InferOptions, changes: seq<ListChange>): Option<seq<Slot>> {
    if changes == [] then Some(list)
    else
      var last := |changes| - 1;
      var reached := RunAll(list, item, options, changes[..last]);
      if reached.Some? then Run(reached.value, item, options, changes[last]) else None
  }

  lemma RunOneMore(list: seq<Slot>, item: Option<Schema>, options: InferOptions, changes: seq<ListChange>, c: ListChange)
    ensures RunAll(list, item, options, changes + [c]) ==
      var reached := RunAll(list, item, options, changes);
      if reached.Some? then Run(reached.value, item, options, c) else None
  {
    assert (changes + [c])[..|changes|] == changes;
  }

  lemma RunTwo(list: seq<Slot>, item: Option<Schema>, options: InferOptions, a: ListChange, b: ListChange)
    ensures RunAll(list, item, options, [a, b]) ==
      var reached := Run(list, item, options, a);
      if reached.Some? then Run(reached.value, item, options, b) else None
  {
    assert [a, b] == [a] + [b] && [a] == [] + [a];
    RunOneMore(list, item, options, [a], b);
    RunOneMore(list, item, options, [], a);
  }

  lemma {:induction false} RunAllAppends(list: seq<Slot>, item: Option<Schema>, options: InferOptions,
                                         first: seq<ListChange>, second: seq<ListChange>)
    ensures RunAll(list, item, options, first + second) ==
      var reached := RunAll(list, item, options, first);
      if reached.Some? then RunAll(reached.value, item, options, second) else None
  {
    if second == [] {
      assert first + second == first;
    } else {
      var last := |second| - 1;
      assert first + second == (first + second[..last]) + [second[last]];
      RunOneMore(list, item, options, first + second[..last], second[last]);
      RunAllAppends(list, item, options, first, second[..last]);
    }
  }

  lemma RunFirst(list: seq<Slot>, item: Option<Schema>, options: InferOptions, c: ListChange, rest: seq<ListChange>)
    ensures RunAll(list, item, options, [c] + rest) ==
      var reached := Run(list, item, options, c);
      if reached.Some? then RunAll(reached.value, item, options, rest) else None
  {
    assert [c] == [] + [c];
    RunOneMore(list, item, options, [], c);
    RunAllAppends(list, item, options, [c], rest);
  }

  // ----- edits of one item's own container

  function Nest(cid: nat, changes: seq<MapDiff.Change>): seq<ListChange> {
    seq(|changes|, i requires 0 <= i < |changes| => Nested(cid, changes[i]))
  }

  /** A nested script edits the one item that carries its id. */
  lemma {:induction false} NestedEditsOneItem(list: seq<Slot>, item: Option<Schema>, options: InferOptions,
                                              at: nat, cid: nat, changes: seq<MapDiff.Change>)
    requires at < |list| && list[at].Child? && list[at].cid == Some(cid)
    requires forall i | 0 <= i < |list| && i != at && list[i].Child? :: list[i].cid != Some(cid)
    ensures RunAll(list, item, options, Nest(cid, changes))
         == Some(list[at := list[at].(node := MapDiff.ApplyAll(list[at].node, item, options, changes, 0))])
  {
    if changes == [] {
      assert list[at := list[at].(node := list[at].node)] == list;
    } else {
      var last := |changes| - 1;
      NestedEditsOneItem(list, item, options, at, cid, changes[..last]);
      assert Nest(cid, changes) == Nest(cid, changes[..last]) + [Nested(cid, changes[last])];
      RunOneMore(list, item, options, Nest(cid, changes[..last]), Nested(cid, changes[last]));
      var edited := list[at].(node := MapDiff.ApplyAll(list[at].node, item, options, changes[..last], 0));
      EditsOne(list[at := edited], item, options, at, cid, changes[last]);
      assert list[at := edited][at := edited.(node := MapDiff.Apply(edited.node, item, options, changes[last], 0))]
          == list[at := edited.(node := MapDiff.Apply(edited.node, item, options, changes[last], 0))];
    }
  }

  lemma EditsOne(list: seq<Slot>, item: Option<Schema>, options: InferOptions, at: nat, cid: nat, change: MapDiff.Change)
    requires at < |list| && list[at].Child? && list[at].cid == Some(cid)
    requires forall i | 0 <= i < |list| && i != at && list[i].Child? :: list[i].cid != Some(cid)
    ensures Run(list, item, options, Nested(cid, change))
         == Some(list[at := list[at].(node := MapDiff.Apply(list[at].node, item, options, change, 0))])
  {
    assert EditAll(list, item, options, cid, change) == list[at := EditChild(list[at], item, options, cid, change)];
  }

  /** Positional changes and edits of an item's container may run in either order, so grouping a script
      by container does not change its result. */
  lemma NestedCommutes(list: seq<Slot>, item: Option<Schema>, options: InferOptions, c: ListChange, cid: nat, change: MapDiff.Change)
    requires !c.Nested?
    ensures var there := Run(list, item, options, c);
      Run(EditAll(list, item, options, cid, change), item, options, c)
        == if there.Some? then Some(EditAll(there.value, item, options, cid, change)) else None
  {
    match c
    case DeleteAt(i) =>
      if i < |list| {
        EditWithout(list, item, options, cid, change, i);
      }
    case InsertAt(i, v, child) =>
      if i <= |list| {
        EditWith(list, item, options, cid, change, i, NewSlot(item, options, v, child));
      }
    case MoveTo(from, to) =>
      if from < |list| && to < |list| {
        EditWithout(list, item, options, cid, change, from);
        EditWith(Without(list, from), item, options, cid, change, to, list[from]);
      }
  }

  lemma EditWithout(list: seq<Slot>, item: Option<Schema>, options: InferOptions, cid: nat, change: MapDiff.Change, i: nat)
    requires i < |list|
    ensures Without(EditAll(list, item, options, cid, change), i) == EditAll(Without(list, i), item, options, cid, change)
  {
  }

  lemma EditWith(list: seq<Slot>, item: Option<Schema>, options: InferOptions, cid: nat, change: MapDiff.Change, i: nat, slot: Slot)
    requires i <= |list|
    ensures With(EditAll(list, item, options, cid, change), i, EditChild(slot, item, options, cid, change))
         == EditAll(With(list, i, slot), item, options, cid, change)
  {
  }

  // ----- ids

  type Selector = Value -> Option<string>

  /** An empty id counts as none. */
  function SelectId(selector: Selector, v: Value): Option<string> {
    var id := selector(v);
    if id == Some("") then None else id
  }

  function Ids(selector: Selector, values: seq<Value>): (ids: seq<Option<string>>)
    ensures |ids| == |values|
  {
    seq(|values|, i requires 0 <= i < |values| => SelectId(selector, values[i]))
  }

  ghost predicate AllHaveIds(selector: Selector, values: seq<Value>) {
    forall i | 0 <= i < |values| :: SelectId(selector, values[i]).Some?
  }

  ghost predicate DistinctIds(selector: Selector, values: seq<Value>) {
    AllHaveIds(selector, values) &&
    forall i, j | 0 <= i < j < |values| :: SelectId(selector, values[i]) != SelectId(selector, values[j])
  }

  /** A stored container the keyed scripts edit into this value: it has the value's id and reads as something else. */
  predicate IsNested(slot: Slot, value: Value, selector: Selector) {
    slot.Child? && SelectId(selector, value).Some? && SelectId(selector, slot.Read()) == SelectId(selector, value) && slot.Read() != value
  }

  /** The items' own values survive: a created container takes its value whole, and a kept container's
      nested diff lands (see MapDiff.Lands). */
  ghost predicate ItemsLand(stored: seq<Slot>, goal: seq<Value>, selector: Selector, item: Option<Schema>, options: InferOptions) {
    && (forall v | v in goal :: IsKeptWhole(item, options, v))
    && (forall slot, v | slot in stored && v in goal && IsNested(slot, v, selector) :: MapDiff.Lands(slot.node, v, item, options))
  }
}
