/**
  The value store of pkg/collector/tree.go: a tree of nodes keyed by path
  identifiers. A write walks the decoded path, creating the missing nodes,
  and marks the last node as holding a value (`insert`) or gives it a
  description (`setDescription`). The read walk (`getMetrics`) emits one
  record per node holding a value, in pre-order, children in order of
  their identifiers.

  Nodes are values here: a child map holds nodes, and a write returns the
  new tree. The walk that appends into the shared record buffer is a
  recursive method, proved equal to the specification function `Emit`;
  `Emit` in turn is characterised by `Walk`, which follows one path.
 */
module Tree {
  import opened Seqs
  import opened GoStrings
  import opened Telemetry
  import opened Metric
  import opened Path
  import opened Labels
  import opened MetricSets

  datatype Node = Node(
    id: Identifier,
    isReal: bool,
    value: Option<Value>,
    description: string,
    children: map<Identifier, Node>)

  /** The identifier of the root node: empty name, no labels. */
  const RootId := Identifier("", "")

  /** `newNode`: no value, no description, no children. */
  function NewNode(id: Identifier): Node
  {
    Node(id, false, None, "", map[])
  }

  /** The child under `id`, or a new node when there is none yet. */
  function Child(n: Node, id: Identifier): Node
  {
    if id in n.children then n.children[id] else NewNode(id)
  }

  /** Every child is stored under its own identifier, all the way down. */
  ghost predicate WellKeyed(n: Node)
    decreases n
  {
    forall k :: k in n.children ==> n.children[k].id == k && WellKeyed(n.children[k])
  }

  // ---------------------------------------------------------------------
  // Writes

  /** `node.insert`. */
  function NodeInsert(n: Node, path: seq<Identifier>, v: Option<Value>): (r: Node)
    ensures r.id == n.id && r.description == n.description
    ensures n.children.Keys <= r.children.Keys
    decreases |path|
  {
    if path == [] then n.(isReal := true, value := v)
    else n.(children := n.children[path[0] := NodeInsert(Child(n, path[0]), path[1..], v)])
  }

  /** `node.setDescription`. */
  function NodeSetDescription(n: Node, path: seq<Identifier>, d: string): (r: Node)
    ensures r.id == n.id && r.isReal == n.isReal && r.value == n.value
    ensures n.children.Keys <= r.children.Keys
    decreases |path|
  {
    if path == [] then n.(description := d)
    else n.(children := n.children[path[0] := NodeSetDescription(Child(n, path[0]), path[1..], d)])
  }

  /** The node at `path` below `n`, if there is one. */
  function Lookup(n: Node, path: seq<Identifier>): Option<Node>
    decreases |path|
  {
    if path == [] then Some(n)
    else if path[0] in n.children then Lookup(n.children[path[0]], path[1..])
    else None
  }

  predicate IsPrefix(q: seq<Identifier>, p: seq<Identifier>)
  {
    |q| <= |p| && p[..|q|] == q
  }

  /** What a write may change at one place: whether a value is held, the
      value, the description. A missing node reads as a new one. */
  datatype Attrs = Attrs(isReal: bool, value: Option<Value>, description: string)

  function AttrsAt(n: Node, q: seq<Identifier>): Attrs
  {
    match Lookup(n, q)
    case None => Attrs(false, None, "")
    case Some(m) => Attrs(m.isReal, m.value, m.description)
  }

  /** Nodes whose path is not a prefix of the written path are untouched,
      subtrees included: the ones on other branches and the ones below the
      written node. */
  lemma {:induction false} InsertOffPath(n: Node, p: seq<Identifier>, v: Option<Value>, q: seq<Identifier>)
    requires !IsPrefix(q, p)
    ensures Lookup(NodeInsert(n, p, v), q) == Lookup(n, q)
    decreases |p|
  {
    if p != [] && q[0] == p[0] {
      assert !IsPrefix(q[1..], p[1..]);
      InsertOffPath(Child(n, p[0]), p[1..], v, q[1..]);
      if p[0] !in n.children {
        assert q[1..] != [];
      }
    }
  }

  /** After a write, a node exists at `q` exactly when one did before or
      `q` lies on the written path: only the missing nodes are created. */
  lemma {:induction false} InsertPaths(n: Node, p: seq<Identifier>, v: Option<Value>, q: seq<Identifier>)
    ensures Lookup(NodeInsert(n, p, v), q).Some? <==> Lookup(n, q).Some? || IsPrefix(q, p)
    decreases |p|
  {
    if !IsPrefix(q, p) {
      InsertOffPath(n, p, v, q);
    } else if q != [] {
      assert q[1..] == p[1..][..|q| - 1];
      InsertPaths(Child(n, p[0]), p[1..], v, q[1..]);
    }
  }

  /** The written node holds the new value and keeps its description;
      every other node keeps all three attributes, and the nodes created on
      the way hold nothing. */
  lemma {:induction false} InsertAttrs(n: Node, p: seq<Identifier>, v: Option<Value>, q: seq<Identifier>)
    ensures AttrsAt(NodeInsert(n, p, v), q)
      == if q == p then Attrs(true, v, AttrsAt(n, q).description) else AttrsAt(n, q)
    decreases |p|
  {
    if !IsPrefix(q, p) {
      InsertOffPath(n, p, v, q);
    } else if q != [] {
      var c := Child(n, p[0]);
      assert q[0] == p[0] && q[1..] == p[1..][..|q| - 1];
      InsertAttrs(c, p[1..], v, q[1..]);
      SameHeadEq(q, p);
      AttrsAtCons(NodeInsert(n, p, v), q);
      AttrsAtCons(n, q);
    }
  }

  /** The attributes one step down, a missing child reading as a new
      node. */
  lemma AttrsAtCons(n: Node, q: seq<Identifier>)
    requires q != []
    ensures AttrsAt(n, q) == AttrsAt(Child(n, q[0]), q[1..])
  {
    if q[0] !in n.children {
      NewNodeEmpty(q[0], q[1..]);
    }
  }

  /** A new node holds nothing anywhere below it. */
  lemma NewNodeEmpty(id: Identifier, q: seq<Identifier>)
    ensures AttrsAt(NewNode(id), q) == Attrs(false, None, "")
  {
  }

  /** Writing the same path twice adds no nodes; the later value wins. */
  lemma {:induction false} InsertTwice(n: Node, p: seq<Identifier>, v1: Option<Value>, v2: Option<Value>)
    ensures NodeInsert(NodeInsert(n, p, v1), p, v2) == NodeInsert(n, p, v2)
    decreases |p|
  {
    if p != [] {
      InsertTwice(Child(n, p[0]), p[1..], v1, v2);
      var c := n.children;
      var once := NodeInsert(Child(n, p[0]), p[1..], v1);
      assert c[p[0] := once][p[0] := NodeInsert(once, p[1..], v2)] == c[p[0] := NodeInsert(Child(n, p[0]), p[1..], v2)];
    }
  }

  /** A write keeps every child under its own identifier. */
  lemma {:induction false} InsertWellKeyed(n: Node, p: seq<Identifier>, v: Option<Value>)
    requires WellKeyed(n)
    ensures WellKeyed(NodeInsert(n, p, v))
    decreases |p|
  {
    if p != [] {
      InsertWellKeyed(Child(n, p[0]), p[1..], v);
    }
  }

  lemma {:induction false} SetDescriptionOffPath(n: Node, p: seq<Identifier>, d: string, q: seq<Identifier>)
    requires !IsPrefix(q, p)
    ensures Lookup(NodeSetDescription(n, p, d), q) == Lookup(n, q)
    decreases |p|
  {
    if p != [] && q[0] == p[0] {
      assert !IsPrefix(q[1..], p[1..]);
      SetDescriptionOffPath(Child(n, p[0]), p[1..], d, q[1..]);
      if p[0] !in n.children {
        assert q[1..] != [];
      }
    }
  }

  /** `setDescription` creates the same missing nodes as `insert`. */
  lemma {:induction false} SetDescriptionPaths(n: Node, p: seq<Identifier>, d: string, q: seq<Identifier>)
    ensures Lookup(NodeSetDescription(n, p, d), q).Some? <==> Lookup(n, q).Some? || IsPrefix(q, p)
    decreases |p|
  {
    if !IsPrefix(q, p) {
      SetDescriptionOffPath(n, p, d, q);
    } else if q != [] {
      assert q[1..] == p[1..][..|q| - 1];
      SetDescriptionPaths(Child(n, p[0]), p[1..], d, q[1..]);
    }
  }

  /** `setDescription` changes only the description of the written node:
      it never marks a node as holding a value, nor changes one. */
  lemma {:induction false} SetDescriptionAttrs(n: Node, p: seq<Identifier>, d: string, q: seq<Identifier>)
    ensures AttrsAt(NodeSetDescription(n, p, d), q)
      == if q == p then AttrsAt(n, q).(description := d) else AttrsAt(n, q)
    decreases |p|
  {
    if !IsPrefix(q, p) {
      SetDescriptionOffPath(n, p, d, q);
    } else if q != [] {
      assert q[0] == p[0] && q[1..] == p[1..][..|q| - 1];
      SetDescriptionAttrs(Child(n, p[0]), p[1..], d, q[1..]);
      SameHeadEq(q, p);
      AttrsAtCons(NodeSetDescription(n, p, d), q);
      AttrsAtCons(n, q);
    }
  }

  lemma {:induction false} SetDescriptionWellKeyed(n: Node, p: seq<Identifier>, d: string)
    requires WellKeyed(n)
    ensures WellKeyed(NodeSetDescription(n, p, d))
    decreases |p|
  {
    if p != [] {
      SetDescriptionWellKeyed(Child(n, p[0]), p[1..], d);
    }
  }

  // ---------------------------------------------------------------------
  // Order of the children

  /** The order the walk visits children in: by name, as the source sorts,
      and by label string among equal names, where the source leaves the
      order open. */
  predicate IdLess(a: Identifier, b: Identifier)
  {
    Less(a.name, b.name) || (a.name == b.name && Less(a.labels, b.labels))
  }

  lemma IdLessTotal(a: Identifier, b: Identifier)
    requires a != b
    ensures IdLess(a, b) || IdLess(b, a)
  {
    if a.name != b.name {
      LessTotal(a.name, b.name);
    } else {
      LessTotal(a.labels, b.labels);
    }
  }

  lemma IdLessAsymmetric(a: Identifier, b: Identifier)
    requires IdLess(a, b)
    ensures !IdLess(b, a)
  {
    if Less(a.name, b.name) {
      LessAsymmetric(a.name, b.name);
    } else {
      LessAsymmetric(a.labels, b.labels);
      LessIrreflexive(a.name);
    }
  }

  lemma IdLessTransitive(a: Identifier, b: Identifier, c: Identifier)
    requires IdLess(a, b) && IdLess(b, c)
    ensures IdLess(a, c)
  {
    if Less(a.name, b.name) && Less(b.name, c.name) {
      LessTransitive(a.name, b.name, c.name);
    } else if a.name == b.name && b.name == c.name {
      LessTransitive(a.labels, b.labels, c.labels);
    }
  }

  /** `m` comes before every other element of `s`. */
  ghost predicate IsLeast(m: Identifier, s: set<Identifier>)
  {
    m in s && forall k {:trigger IdLess(m, k)} :: k in s && k != m ==> IdLess(m, k)
  }

  lemma {:induction false} LeastExists(s: set<Identifier>)
    requires s != {}
    ensures exists m :: IsLeast(m, s)
    decreases |s|
  {
    var x :| x in s;
    if s == {x} {
      assert IsLeast(x, s);
    } else {
      LeastExists(s - {x});
      var y :| IsLeast(y, s - {x});
      IdLessTotal(x, y);
      if IdLess(x, y) {
        forall k | k in s && k != x
          ensures IdLess(x, k)
        {
          if k != y {
            IdLessTransitive(x, y, k);
          }
        }
        assert IsLeast(x, s);
      } else {
        assert IsLeast(y, s);
      }
    }
  }

  lemma LeastUnique(m1: Identifier, m2: Identifier, s: set<Identifier>)
    requires IsLeast(m1, s) && IsLeast(m2, s)
    ensures m1 == m2
  {
    if m1 != m2 {
      IdLessAsymmetric(m1, m2);
    }
  }

  ghost function Least(s: set<Identifier>): (m: Identifier)
    requires s != {}
    ensures IsLeast(m, s)
  {
    LeastExists(s);
    var m :| IsLeast(m, s);
    m
  }

  /** The keys of a child map in visiting order: every key once, strictly
      ascending. */
  ghost function SortedKeys(s: set<Identifier>): (keys: seq<Identifier>)
    ensures |keys| == |s|
    ensures forall k :: k in keys <==> k in s
    decreases |s|
  {
    if s == {} then []
    else
      var m := Least(s);
      [m] + SortedKeys(s - {m})
  }

  /** The keys are strictly ascending, hence each appears once. */
  lemma {:induction false} SortedKeysAscending(s: set<Identifier>)
    ensures forall i, j :: 0 <= i < j < |SortedKeys(s)| ==> IdLess(SortedKeys(s)[i], SortedKeys(s)[j])
    decreases |s|
  {
    if s != {} {
      var m := Least(s);
      var rest := SortedKeys(s - {m});
      SortedKeysAscending(s - {m});
      var keys := SortedKeys(s);
      assert keys == [m] + rest;
      forall i, j | 0 <= i < j < |keys|
        ensures IdLess(keys[i], keys[j])
      {
        assert keys[j] == rest[j - 1] && keys[j] in s - {m};
        if i > 0 {
          assert keys[i] == rest[i - 1];
        }
      }
    }
  }

  lemma SortedKeysUnfold(s: set<Identifier>)
    requires s != {}
    ensures SortedKeys(s) == [Least(s)] + SortedKeys(s - {Least(s)})
  {
  }

  /** Children are visited in non-decreasing order of their names. */
  lemma SortedKeysNames(s: set<Identifier>, i: nat, j: nat)
    requires i < j < |SortedKeys(s)|
    ensures !Less(SortedKeys(s)[j].name, SortedKeys(s)[i].name)
  {
    var keys := SortedKeys(s);
    SortedKeysAscending(s);
    if Less(keys[i].name, keys[j].name) {
      LessAsymmetric(keys[i].name, keys[j].name);
    } else {
      LessIrreflexive(keys[i].name);
    }
  }

  /** The least key of a set. */
  method LeastOf(s: set<Identifier>) returns (m: Identifier)
    requires s != {}
    ensures m == Least(s)
  {
    m :| m in s;
    var todo := s - {m};
    while todo != {}
      invariant todo <= s && m in s && m !in todo
      invariant forall k :: k in s - todo && k != m ==> IdLess(m, k)
      decreases |todo|
    {
      var k :| k in todo;
      if IdLess(k, m) {
        forall j | j in s - todo && j != k
          ensures IdLess(k, j)
        {
          if j != m {
            IdLessTransitive(k, m, j);
          }
        }
        m := k;
      } else {
        IdLessTotal(k, m);
      }
      todo := todo - {k};
    }
    assert s - todo == s;
    LeastUnique(m, Least(s), s);
  }

  /** The collection of the child keys and `sort.Slice`: the keys taken
      least first. */
  method SortedKeysOf(s: set<Identifier>) returns (keys: seq<Identifier>)
    ensures keys == SortedKeys(s)
  {
    keys := [];
    var rest := s;
    while rest != {}
      invariant keys + SortedKeys(rest) == SortedKeys(s)
      decreases |rest|
    {
      var m := LeastOf(rest);
      SortedKeysUnfold(rest);
      AppendAssoc(keys, [m], SortedKeys(rest - {m}));
      keys := keys + [m];
      rest := rest - {m};
    }
  }

  // ---------------------------------------------------------------------
  // The read walk

  /** The record name below `path`. */
  function JoinName(path: string, name: string): string
  {
    if path == "" then name else path + "/" + name
  }

  /** The labels carried down: a node with a label string adds its labels
      after its ancestors'. */
  function AddLabels(labels: seq<Label>, raw: string): seq<Label>
  {
    if raw != "" then labels + LabelsOf(raw) else labels
  }

  /** The description labels carried down: a node with a description
      replaces those of its ancestors. */
  function NearestDescription(desc: seq<Label>, description: string): seq<Label>
  {
    if description != "" then LabelsOf(description) else desc
  }

  /** The records of the walk below `n`: its own, then those of each
      child in key order. */
  ghost function Emit(n: Node, path: string, labels: seq<Label>, desc: seq<Label>): seq<Metric>
    decreases n, 1, 0
  {
    var p := JoinName(path, n.id.name);
    var ls := AddLabels(labels, n.id.labels);
    var ds := NearestDescription(desc, n.description);
    (if n.isReal then [Metric(p, ls + ds, n.value)] else [])
      + EmitChildren(n, SortedKeys(n.children.Keys), p, ls, ds)
  }

  ghost function EmitChildren(n: Node, keys: seq<Identifier>, path: string, labels: seq<Label>, desc: seq<Label>): seq<Metric>
    requires forall i :: 0 <= i < |keys| ==> keys[i] in n.children
    decreases n, 0, |keys|
  {
    if keys == [] then []
    else
      EmitChildren(n, keys[..|keys| - 1], path, labels, desc)
        + Emit(n.children[keys[|keys| - 1]], path, labels, desc)
  }

  /** The record for the node at `q` below `n`, built by following that
      one path: the names joined with `/`, the labels of every node on the
      way in order, then the labels of the last description met. */
  function Walk(n: Node, q: seq<Identifier>, path: string, labels: seq<Label>, desc: seq<Label>): Option<Metric>
    decreases |q|
  {
    var p := JoinName(path, n.id.name);
    var ls := AddLabels(labels, n.id.labels);
    var ds := NearestDescription(desc, n.description);
    if q == [] then (if n.isReal then Some(Metric(p, ls + ds, n.value)) else None)
    else if q[0] in n.children then Walk(n.children[q[0]], q[1..], p, ls, ds)
    else None
  }

  /** The records of each child in `keys`, one sequence per child. */
  ghost function ChildRecords(n: Node, keys: seq<Identifier>, path: string, labels: seq<Label>, desc: seq<Label>): (r: seq<seq<Metric>>)
    requires forall j :: 0 <= j < |keys| ==> keys[j] in n.children
    ensures |r| == |keys|
    ensures forall j :: 0 <= j < |keys| ==> r[j] == Emit(n.children[keys[j]], path, labels, desc)
  {
    seq(|keys|, j requires 0 <= j < |keys| => Emit(n.children[keys[j]], path, labels, desc))
  }

  /** The records of the children are their walks' records, concatenated
      in key order. */
  lemma {:induction false} EmitChildrenFlatten(n: Node, keys: seq<Identifier>, path: string, labels: seq<Label>, desc: seq<Label>)
    requires forall j :: 0 <= j < |keys| ==> keys[j] in n.children
    ensures EmitChildren(n, keys, path, labels, desc) == Flatten(ChildRecords(n, keys, path, labels, desc))
    decreases |keys|
  {
    if keys != [] {
      var init := keys[..|keys| - 1];
      var parts := ChildRecords(n, keys, path, labels, desc);
      EmitChildrenFlatten(n, init, path, labels, desc);
      assert ChildRecords(n, init, path, labels, desc) == parts[..|parts| - 1];
      EmitChildrenUnfold(n, keys, path, labels, desc);
    }
  }

  lemma EmitChildrenIncludes(n: Node, keys: seq<Identifier>, i: nat, path: string, labels: seq<Label>, desc: seq<Label>, m: Metric)
    requires forall j :: 0 <= j < |keys| ==> keys[j] in n.children
    requires i < |keys| && m in Emit(n.children[keys[i]], path, labels, desc)
    ensures m in EmitChildren(n, keys, path, labels, desc)
  {
    EmitChildrenFlatten(n, keys, path, labels, desc);
    FlattenIncludes(ChildRecords(n, keys, path, labels, desc), i, m);
  }

  lemma EmitChildrenUnfold(n: Node, keys: seq<Identifier>, path: string, labels: seq<Label>, desc: seq<Label>)
    requires forall j :: 0 <= j < |keys| ==> keys[j] in n.children
    requires keys != []
    ensures EmitChildren(n, keys, path, labels, desc)
      == EmitChildren(n, keys[..|keys| - 1], path, labels, desc) + Emit(n.children[keys[|keys| - 1]], path, labels, desc)
  {
  }

  lemma EmitChildrenMember(n: Node, keys: seq<Identifier>, path: string, labels: seq<Label>, desc: seq<Label>, m: Metric) returns (i: nat)
    requires forall j :: 0 <= j < |keys| ==> keys[j] in n.children
    requires m in EmitChildren(n, keys, path, labels, desc)
    ensures i < |keys| && m in Emit(n.children[keys[i]], path, labels, desc)
  {
    EmitChildrenFlatten(n, keys, path, labels, desc);
    i := FlattenMember(ChildRecords(n, keys, path, labels, desc), m);
  }

  /** Every node holding a value on some path has its record emitted. */
  lemma {:induction false} EmitComplete(n: Node, q: seq<Identifier>, path: string, labels: seq<Label>, desc: seq<Label>)
    requires Walk(n, q, path, labels, desc).Some?
    ensures Walk(n, q, path, labels, desc).value in Emit(n, path, labels, desc)
    decreases |q|
  {
    if q != [] {
      var p := JoinName(path, n.id.name);
      var ls := AddLabels(labels, n.id.labels);
      var ds := NearestDescription(desc, n.description);
      EmitComplete(n.children[q[0]], q[1..], p, ls, ds);
      var keys := SortedKeys(n.children.Keys);
      var i :| 0 <= i < |keys| && keys[i] == q[0];
      EmitChildrenIncludes(n, keys, i, p, ls, ds, Walk(n, q, path, labels, desc).value);
    }
  }

  /** Every emitted record is the record of some node on some path. */
  lemma {:induction false} EmitSound(n: Node, path: string, labels: seq<Label>, desc: seq<Label>, m: Metric) returns (q: seq<Identifier>)
    requires m in Emit(n, path, labels, desc)
    ensures Walk(n, q, path, labels, desc) == Some(m)
    decreases n
  {
    var p := JoinName(path, n.id.name);
    var ls := AddLabels(labels, n.id.labels);
    var ds := NearestDescription(desc, n.description);
    var keys := SortedKeys(n.children.Keys);
    if n.isReal && m == Metric(p, ls + ds, n.value) {
      q := [];
    } else {
      var i := EmitChildrenMember(n, keys, p, ls, ds, m);
      var rest := EmitSound(n.children[keys[i]], p, ls, ds, m);
      q := [keys[i]] + rest;
      assert q[1..] == rest;
    }
  }

  /** The walk emits exactly the records of the nodes holding a value. */
  lemma EmitIff(n: Node, path: string, labels: seq<Label>, desc: seq<Label>, m: Metric)
    ensures m in Emit(n, path, labels, desc) <==> exists q :: Walk(n, q, path, labels, desc) == Some(m)
  {
    if m in Emit(n, path, labels, desc) {
      var q := EmitSound(n, path, labels, desc, m);
    }
    if exists q :: Walk(n, q, path, labels, desc) == Some(m) {
      var q :| Walk(n, q, path, labels, desc) == Some(m);
      EmitComplete(n, q, path, labels, desc);
    }
  }

  /** The names of a path's identifiers. */
  function Names(q: seq<Identifier>): (names: seq<string>)
    ensures |names| == |q| && forall i :: 0 <= i < |q| ==> names[i] == q[i].name
  {
    seq(|q|, i requires 0 <= i < |q| => q[i].name)
  }

  lemma JoinFrontMerge(a: string, b: string, rest: seq<string>, sep: char)
    ensures Join([a + [sep] + b] + rest, sep) == a + [sep] + Join([b] + rest, sep)
  {
    if rest != [] {
      assert ([a + [sep] + b] + rest)[1..] == rest;
      assert ([b] + rest)[1..] == rest;
    }
  }

  /** Below a non-empty name, the record name is that name and the names
      on the path, joined with `/`. */
  lemma {:induction false} WalkName(n: Node, q: seq<Identifier>, path: string, labels: seq<Label>, desc: seq<Label>)
    requires WellKeyed(n) && JoinName(path, n.id.name) != ""
    requires Walk(n, q, path, labels, desc).Some?
    ensures Walk(n, q, path, labels, desc).value.name == Join([JoinName(path, n.id.name)] + Names(q), '/')
    decreases |q|
  {
    var p := JoinName(path, n.id.name);
    if q == [] {
      assert [p] + Names(q) == [p];
    } else {
      var k := q[0];
      var rest := Names(q[1..]);
      var c := n.children[k];
      assert c.id == k;
      WalkName(c, q[1..], p, AddLabels(labels, n.id.labels), NearestDescription(desc, n.description));
      assert JoinName(p, c.id.name) == p + ['/'] + k.name;
      JoinFrontMerge(p, k.name, rest, '/');
      assert Names(q) == [k.name] + rest;
      assert ([p] + Names(q))[1..] == Names(q);
    }
  }

  /** From the root, whose name is empty, the record name is the path's
      names joined with `/` (when the first of them is not empty). */
  lemma RootWalkName(n: Node, q: seq<Identifier>, labels: seq<Label>, desc: seq<Label>)
    requires WellKeyed(n) && n.id.name == "" && q != [] && q[0].name != ""
    requires Walk(n, q, "", labels, desc).Some?
    ensures Walk(n, q, "", labels, desc).value.name == Join(Names(q), '/')
  {
    var c := n.children[q[0]];
    WalkName(c, q[1..], "", AddLabels(labels, n.id.labels), NearestDescription(desc, n.description));
    assert Names(q) == [q[0].name] + Names(q[1..]);
  }

  /** A first identifier with an empty name, as in `//x` or `[a=b]/x`,
      adds nothing to the record name, not even a `/`: the name is the
      remaining names joined with `/`. */
  lemma RootWalkEmptyName(n: Node, q: seq<Identifier>, labels: seq<Label>, desc: seq<Label>)
    requires WellKeyed(n) && n.id.name == "" && |q| >= 2 && q[0].name == "" && q[1].name != ""
    requires Walk(n, q, "", labels, desc).Some?
    ensures Walk(n, q, "", labels, desc).value.name == Join(Names(q[1..]), '/')
  {
    var c := n.children[q[0]];
    assert c.id == q[0];
    RootWalkName(c, q[1..], AddLabels(labels, n.id.labels), NearestDescription(desc, n.description));
  }

  /** The record at a written path holds the written value. */
  lemma {:induction false} WalkInsert(n: Node, p: seq<Identifier>, v: Option<Value>, path: string, labels: seq<Label>, desc: seq<Label>)
    ensures Walk(NodeInsert(n, p, v), p, path, labels, desc).Some?
    ensures Walk(NodeInsert(n, p, v), p, path, labels, desc).value.value == v
    decreases |p|
  {
    if p != [] {
      var c := Child(n, p[0]);
      WalkInsert(c, p[1..], v, JoinName(path, n.id.name), AddLabels(labels, n.id.labels), NearestDescription(desc, n.description));
    }
  }

  /** End to end: after a write at a path below the root, the read walk
      emits a record named by the path and holding the written value. */
  lemma InsertedIsEmitted(root: Node, p: seq<Identifier>, v: Option<Value>)
    requires WellKeyed(root) && root.id.name == "" && p != [] && p[0].name != ""
    ensures exists m :: (m in Emit(NodeInsert(root, p, v), "", [], [])
      && m.name == Join(Names(p), '/') && m.value == v)
  {
    var t := NodeInsert(root, p, v);
    WalkInsert(root, p, v, "", [], []);
    InsertWellKeyed(root, p, v);
    RootWalkName(t, p, [], []);
    EmitComplete(t, p, "", [], []);
    var m := Walk(t, p, "", [], []).value;
    assert m in Emit(t, "", [], []) && m.name == Join(Names(p), '/') && m.value == v;
  }

  /** The label merge of `node.getMetrics`: the labels carried down, then
      those read from the node's label string, copied into a new slice. */
  method NodeLabels(labels: seq<Label>, raw: string) returns (ls: seq<Label>)
    ensures ls == AddLabels(labels, raw)
  {
    ls := labels;
    if raw != "" {
      var newLabels := LabelStringToLabels(raw);
      var merged: seq<Label> := [];
      for i := 0 to |labels|
        invariant merged == labels[..i]
      {
        PrefixSnoc(labels, i);
        merged := merged + [labels[i]];
      }
      assert labels[..|labels|] == labels;
      for i := 0 to |newLabels|
        invariant merged == labels + newLabels[..i]
      {
        PrefixSnoc(newLabels, i);
        merged := merged + [newLabels[i]];
      }
      assert newLabels[..|newLabels|] == newLabels;
      ls := merged;
    }
  }

  /** The description labels of `node.getMetrics`: a node's own
      description replaces the ones carried down. */
  method NodeDescriptionLabels(desc: seq<Label>, description: string) returns (ds: seq<Label>)
    ensures ds == NearestDescription(desc, description)
  {
    ds := desc;
    if description != "" {
      ds := LabelStringToLabels(description);
    }
  }

  /** `node.getMetrics`: appends the records of the walk below `n` to the
      buffer. */
  method NodeGetMetrics(n: Node, path: string, res: MetricSet, labels: seq<Label>, descriptionLabels: seq<Label>)
    modifies res
    ensures res.metrics == old(res.metrics) + Emit(n, path, labels, descriptionLabels)
    decreases n, 2
  {
    var p := JoinName(path, n.id.name);
    var ls := NodeLabels(labels, n.id.labels);
    var ds := NodeDescriptionLabels(descriptionLabels, n.description);
    var keys := SortedKeysOf(n.children.Keys);
    NodeEmit(n, path, labels, descriptionLabels, keys, p, ls, ds, res);
  }

  /** The rest of `node.getMetrics`, once the name, the labels and the
      sorted keys are known: the node's own record, then its children's. */
  method NodeEmit(n: Node, path: string, labels: seq<Label>, desc: seq<Label>, keys: seq<Identifier>,
                  p: string, ls: seq<Label>, ds: seq<Label>, res: MetricSet)
    requires keys == SortedKeys(n.children.Keys)
    requires p == JoinName(path, n.id.name) && ls == AddLabels(labels, n.id.labels)
    requires ds == NearestDescription(desc, n.description)
    modifies res
    ensures res.metrics == old(res.metrics) + Emit(n, path, labels, desc)
    decreases n, 1
  {
    ghost var start := res.metrics;
    if n.isReal {
      res.Append(Metric(p, ls + ds, n.value));
    }
    ghost var before := res.metrics;
    KeysInChildren(n, keys);
    ChildrenGetMetrics(n, keys, p, res, ls, ds);
    EmitFinish(n, path, labels, desc, keys, p, ls, ds, start, before, res.metrics);
  }

  /** The loop of `node.getMetrics` over the children in key order. */
  method ChildrenGetMetrics(n: Node, keys: seq<Identifier>, p: string, res: MetricSet, ls: seq<Label>, ds: seq<Label>)
    requires forall j :: 0 <= j < |keys| ==> keys[j] in n.children
    modifies res
    ensures res.metrics == old(res.metrics) + EmitChildren(n, keys, p, ls, ds)
    decreases n, 0
  {
    ghost var before := res.metrics;
    ghost var parts := ChildRecords(n, keys, p, ls, ds);
    for i := 0 to |keys|
      invariant res.metrics == before + Flatten(parts[..i])
    {
      ghost var pre := res.metrics;
      NodeGetMetrics(n.children[keys[i]], p, res, ls, ds);
      FlattenStep(parts, i, before, pre, res.metrics);
    }
    assert parts[..|keys|] == parts;
    EmitChildrenFlatten(n, keys, p, ls, ds);
  }

  lemma KeysInChildren(n: Node, keys: seq<Identifier>)
    requires keys == SortedKeys(n.children.Keys)
    ensures forall j :: 0 <= j < |keys| ==> keys[j] in n.children
  {
  }

  lemma EmitFinish(n: Node, path: string, labels: seq<Label>, desc: seq<Label>, keys: seq<Identifier>,
                   p: string, ls: seq<Label>, ds: seq<Label>, start: seq<Metric>, before: seq<Metric>, post: seq<Metric>)
    requires keys == SortedKeys(n.children.Keys)
    requires p == JoinName(path, n.id.name) && ls == AddLabels(labels, n.id.labels)
    requires ds == NearestDescription(desc, n.description)
    requires before == start + (if n.isReal then [Metric(p, ls + ds, n.value)] else [])
    requires post == before + EmitChildren(n, keys, p, ls, ds)
    ensures post == start + Emit(n, path, labels, desc)
  {
    EmitUnfold(n, path, labels, desc);
    var own := if n.isReal then [Metric(p, ls + ds, n.value)] else [];
    AppendAssoc(start, own, EmitChildren(n, keys, p, ls, ds));
  }

  lemma EmitUnfold(n: Node, path: string, labels: seq<Label>, desc: seq<Label>)
    ensures Emit(n, path, labels, desc)
      == (if n.isReal then [Metric(JoinName(path, n.id.name), AddLabels(labels, n.id.labels) + NearestDescription(desc, n.description), n.value)] else [])
        + EmitChildren(n, SortedKeys(n.children.Keys), JoinName(path, n.id.name), AddLabels(labels, n.id.labels), NearestDescription(desc, n.description))
  {
  }

  /** The root a write starts from: the existing one, or a new node. */
  function RootOf(root: Option<Node>): Node
  {
    if root.Some? then root.value else NewNode(RootId)
  }

  /** `tree`: the root is created by the first write. */
  class Tree {
    var root: Option<Node>

    /** Every node stored under its own identifier, below an unnamed root. */
    ghost predicate Valid()
      reads this
    {
      root.Some? ==> root.value.id == RootId && WellKeyed(root.value)
    }

    /** `newTree`: no root yet. */
    constructor ()
      ensures root == None && Valid()
    {
      root := None;
    }

    /** `tree.insert`. An input of exactly `/` makes the decoder panic. */
    method Insert(path: string, v: Option<Value>)
      requires path != "/" && Valid()
      modifies this
      ensures root == Some(NodeInsert(RootOf(old(root)), Decode(path), v)) && Valid()
    {
      var ids := PathToIdentifiers(path);
      if root == None {
        root := Some(NewNode(RootId));
      }
      InsertWellKeyed(root.value, ids, v);
      root := Some(NodeInsert(root.value, ids, v));
    }

    /** `tree.setDescription`. */
    method SetDescription(path: string, d: string)
      requires path != "/" && Valid()
      modifies this
      ensures root == Some(NodeSetDescription(RootOf(old(root)), Decode(path), d)) && Valid()
    {
      var ids := PathToIdentifiers(path);
      if root == None {
        root := Some(NewNode(RootId));
      }
      SetDescriptionWellKeyed(root.value, ids, d);
      root := Some(NodeSetDescription(root.value, ids, d));
    }

    /** `tree.getMetrics`: nothing before the first write, otherwise the
      records of the walk from the root. */
    method GetMetrics() returns (ms: seq<Metric>)
      ensures root == None ==> ms == []
      ensures root.Some? ==> ms == Emit(root.value, "", [], [])
    {
      if root == None {
        return [];
      }
      var res := new MetricSet();
      NodeGetMetrics(root.value, "", res, [], []);
      ms := res.Get();
    }
  }
}
