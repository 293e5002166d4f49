/** The mirror applies a script container by container, in the order the containers first appear
    (crates/vt-mirror/src/mirror.rs:466-495). That order is as good as the order of emission. */
module ScriptOrder {
  import opened Prelude
  import opened MirrorState
  import opened MapDiff
  import opened NodeShapes

  predicate Independent(first: Change, second: Change) {
    first.container != second.container && !Cuts(first, second) && !Cuts(second, first)
  }

  lemma {:induction false} IndependentChangesCommute(node: Node, schema: Option<Schema>, options: InferOptions,
                                                     a: Change, b: Change, depth: nat)
    requires depth <= |a.container| && depth <= |b.container| && a.container[..depth] == b.container[..depth]
    requires Independent(a, b)
    ensures Apply(Apply(node, schema, options, a, depth), schema, options, b, depth)
         == Apply(Apply(node, schema, options, b, depth), schema, options, a, depth)
    decreases |a.container| - depth
  {
    if depth == |a.container| {
      LocalAndDeepCommute(node, schema, options, a, b, depth);
    } else if depth == |b.container| {
      LocalAndDeepCommute(node, schema, options, b, a, depth);
    } else if node.MapNode? {
      var j, k := a.container[depth], b.container[depth];
      if j == k {
        assert a.container[..depth + 1] == b.container[..depth + 1];
        if k in node.children {
          IndependentChangesCommute(node.children[k], FieldSchema(schema, k), options, a, b, depth + 1);
        }
      } else if j in node.children && k in node.children {
        var x := Apply(node.children[j], FieldSchema(schema, j), options, a, depth + 1);
        var y := Apply(node.children[k], FieldSchema(schema, k), options, b, depth + 1);
        UpdatesCommute(node.children, j, x, k, y);
      }
    }
  }

  lemma UpdatesCommute(c: map<string, Node>, j: string, x: Node, k: string, y: Node)
    requires j != k
    ensures c[j := x][k := y] == c[k := y][j := x]
  {
  }

  lemma LocalAndDeepCommute(node: Node, schema: Option<Schema>, options: InferOptions, a: Change, b: Change, depth: nat)
    requires depth == |a.container| < |b.container| && a.container == b.container[..depth]
    requires !Cuts(a, b)
    ensures Apply(Apply(node, schema, options, a, depth), schema, options, b, depth)
         == Apply(Apply(node, schema, options, b, depth), schema, options, a, depth)
  {
    var k := b.container[depth];
    assert a.key != k by {
      assert b.container[..depth + 1] == a.container + [k];
    }
    if node.MapNode? && k in node.children {
      var c := node.children;
      var y := Apply(c[k], FieldSchema(schema, k), options, b, depth + 1);
      match a.kind
      case Delete =>
        assert c[k := y] - {a.key} == (c - {a.key})[k := y];
      case EditList(_) =>
      case Insert(v) =>
        UpdatesCommute(c, k, y, a.key, Leaf(v));
      case InsertContainer(_, v) =>
        var field := FieldSchema(schema, a.key);
        if TypeFor(field, v, options).Some? {
          UpdatesCommute(c, k, y, a.key, Build(TypeFor(field, v, options).value, field, v));
        }
    }
  }

  // ----- grouping

  /** The changes addressed to `path`, or those addressed elsewhere, in order. */
  function Bucket(changes: seq<Change>, path: Path, within: bool): seq<Change> {
    if changes == [] then []
    else (if (changes[0].container == path) == within then [changes[0]] else []) + Bucket(changes[1..], path, within)
  }

  lemma {:induction false} BucketMembers(changes: seq<Change>, path: Path, within: bool)
    ensures forall c | c in Bucket(changes, path, within) :: c in changes && (c.container == path) == within
  {
    if changes != [] {
      BucketMembers(changes[1..], path, within);
    }
  }

  lemma {:induction false} BucketsPartition(changes: seq<Change>, path: Path)
    ensures |Bucket(changes, path, true)| + |Bucket(changes, path, false)| == |changes|
  {
    if changes != [] {
      BucketsPartition(changes[1..], path);
    }
  }

  /** The order in which the mirror applies a script. */
  function ByContainer(changes: seq<Change>): seq<Change>
    decreases |changes|
  {
    if changes == [] then []
    else
      var path := changes[0].container;
      BucketsPartition(changes, path);
      Bucket(changes, path, true) + ByContainer(Bucket(changes, path, false))
  }

  /** A change that is independent of everything in `others` may run before or after them. */
  lemma {:induction false} MovesPast(node: Node, schema: Option<Schema>, options: InferOptions, others: seq<Change>, c: Change)
    requires forall o | o in others :: Independent(o, c)
    ensures ApplyAll(node, schema, options, others + [c], 0) == ApplyAll(node, schema, options, [c] + others, 0)
  {
    if others == [] {
      assert others + [c] == [c] + others;
    } else {
      var last := |others| - 1;
      var front, o := others[..last], others[last];
      assert Independent(o, c);
      assert (others + [c])[..|others|] == others;
      assert ([c] + others)[..|others|] == [c] + front;
      assert (front + [c])[..last] == front;
      IndependentChangesCommute(ApplyAll(node, schema, options, front, 0), schema, options, o, c, 0);
      MovesPast(node, schema, options, front, c);
    }
  }

  lemma MovesPastBefore(node: Node, schema: Option<Schema>, options: InferOptions,
                        mine: seq<Change>, c: Change, others: seq<Change>)
    requires forall o | o in mine :: Independent(o, c)
    ensures ApplyAll(node, schema, options, mine + ([c] + others), 0) == ApplyAll(node, schema, options, [c] + (mine + others), 0)
  {
    MovesPast(node, schema, options, mine, c);
    assert mine + ([c] + others) == (mine + [c]) + others;
    assert [c] + (mine + others) == ([c] + mine) + others;
    ApplyAllAppends(node, schema, options, mine + [c], others, 0);
    ApplyAllAppends(node, schema, options, [c] + mine, others, 0);
  }

  function Regrouped(changes: seq<Change>, first: Path): seq<Change> {
    Bucket(changes, first, true) + Bucket(changes, first, false)
  }

  lemma RegroupedHead(changes: seq<Change>, first: Path)
    requires changes != []
    ensures var (c, rest) := (changes[0], changes[1..]);
      Regrouped(changes, first) ==
        if c.container == first then [c] + Regrouped(rest, first)
        else Bucket(rest, first, true) + ([c] + Bucket(rest, first, false))
  {
    BucketHead(changes, first, true);
    BucketHead(changes, first, false);
    if changes[0].container == first {
      AppendAssociates([changes[0]], Bucket(changes[1..], first, true), Bucket(changes[1..], first, false));
    }
  }

  lemma AppendAssociates(a: seq<Change>, b: seq<Change>, c: seq<Change>)
    ensures (a + b) + c == a + (b + c)
  {
  }

  lemma BucketHead(changes: seq<Change>, path: Path, within: bool)
    requires changes != []
    ensures Bucket(changes, path, within) ==
      if (changes[0].container == path) == within then [changes[0]] + Bucket(changes[1..], path, within) else Bucket(changes[1..], path, within)
  {
  }

  lemma HeadIsIndependent(changes: seq<Change>, first: Path)
    requires changes != [] && NoCuts(changes) && changes[0].container != first
    ensures forall o | o in Bucket(changes[1..], first, true) :: Independent(o, changes[0])
  {
    BucketMembers(changes[1..], first, true);
  }

  /** Running one container's changes first changes nothing. */
  lemma {:induction false} BucketMayGoFirst(node: Node, schema: Option<Schema>, options: InferOptions, changes: seq<Change>, first: Path)
    requires NoCuts(changes)
    ensures ApplyAll(node, schema, options, Regrouped(changes, first), 0) == ApplyAll(node, schema, options, changes, 0)
    decreases |changes|
  {
    if changes == [] {
      return;
    }
    var c, rest := changes[0], changes[1..];
    calc {
      ApplyAll(node, schema, options, Regrouped(changes, first), 0);
      { RegroupedHead(changes, first);
        if c.container != first {
          HeadIsIndependent(changes, first);
          MovesPastBefore(node, schema, options, Bucket(rest, first, true), c, Bucket(rest, first, false));
        }
      }
      ApplyAll(node, schema, options, [c] + Regrouped(rest, first), 0);
      { ApplyAllAppends(node, schema, options, [c], Regrouped(rest, first), 0); }
      ApplyAll(ApplyAll(node, schema, options, [c], 0), schema, options, Regrouped(rest, first), 0);
      { assert NoCuts(rest);
        BucketMayGoFirst(ApplyAll(node, schema, options, [c], 0), schema, options, rest, first);
      }
      ApplyAll(ApplyAll(node, schema, options, [c], 0), schema, options, rest, 0);
      { ApplyAllAppends(node, schema, options, [c], rest, 0); }
      ApplyAll(node, schema, options, [c] + rest, 0);
      { assert [c] + rest == changes; }
      ApplyAll(node, schema, options, changes, 0);
    }
  }

  /** Applying a script container by container reaches the state the script was emitted for. */
  lemma {:induction false} ContainerOrderIsHarmless(node: Node, schema: Option<Schema>, options: InferOptions, changes: seq<Change>)
    requires NoCuts(changes)
    ensures ApplyAll(node, schema, options, ByContainer(changes), 0) == ApplyAll(node, schema, options, changes, 0)
    decreases |changes|
  {
    if changes != [] {
      var first := changes[0].container;
      var mine, others := Bucket(changes, first, true), Bucket(changes, first, false);
      BucketsPartition(changes, first);
      BucketMembers(changes, first, false);
      BucketMayGoFirst(node, schema, options, changes, first);
      ApplyAllAppends(node, schema, options, mine, others, 0);
      ContainerOrderIsHarmless(ApplyAll(node, schema, options, mine, 0), schema, options, others);
      ApplyAllAppends(node, schema, options, mine, ByContainer(others), 0);
    }
  }

  /** The whole update of a nested map, as the mirror performs it: diff, then apply by container. */
  method UpdateMap(node: Node, goal: Value, schema: Option<Schema>, options: InferOptions) returns (r: Result, after: Node)
    requires node.MapNode?
    ensures (r.Ok? && after.Read() == goal) <==> Lands(node, goal, schema, options)
    ensures r.Ok? ==> IsKept(node, goal, schema, options, after)
    ensures r.Err? ==> after == node
    ensures r.Err? <==> IsRefused(node, goal, schema, options)
  {
    r := DiffContainer(node, node.Read(), goal, [], schema, options);
    after := node;
    if r.Ok? {
      after := ApplyAll(node, schema, options, ByContainer(r.changes), 0);
      ContainerOrderIsHarmless(node, schema, options, r.changes);
    }
  }
}
