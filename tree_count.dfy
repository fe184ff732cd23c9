/**
  How many records the read walk of pkg/collector/tree.go emits: one per
  node holding a value. Two such nodes may give equal records (sibling
  label strings that read alike), so membership in `Emit` cannot say it;
  here each position of `Emit` is given the path of the node it comes
  from, and the positions and the paths to nodes holding a value are in
  one-to-one correspondence.
 */
module TreeCount {
  import opened Seqs
  import opened Telemetry
  import opened Metric
  import opened Path
  import opened Tree

  /** The paths `qs`, each with `k` in front. */
  function Prefixed(k: Identifier, qs: seq<seq<Identifier>>): (r: seq<seq<Identifier>>)
    ensures |r| == |qs| && forall i :: 0 <= i < |qs| ==> r[i] == [k] + qs[i]
  {
    seq(|qs|, i requires 0 <= i < |qs| => [k] + qs[i])
  }

  /** The path below `n` of each record of its walk, position by position:
      the node's own, then those of each child in key order. */
  ghost function EmitPaths(n: Node): seq<seq<Identifier>>
    decreases n, 1
  {
    (if n.isReal then [[]] else []) + ChildPaths(n, SortedKeys(n.children.Keys))
  }

  ghost function ChildPaths(n: Node, keys: seq<Identifier>): seq<seq<Identifier>>
    requires forall i :: 0 <= i < |keys| ==> keys[i] in n.children
    decreases n, 0, |keys|
  {
    if keys == [] then []
    else
      ChildPaths(n, keys[..|keys| - 1])
        + Prefixed(keys[|keys| - 1], EmitPaths(n.children[keys[|keys| - 1]]))
  }

  /** The walk along the empty path gives the node's own record. */
  lemma WalkOwn(n: Node, path: string, labels: seq<Label>, desc: seq<Label>)
    requires n.isReal
    ensures Walk(n, [], path, labels, desc)
      == Some(Metric(JoinName(path, n.id.name),
                     AddLabels(labels, n.id.labels) + NearestDescription(desc, n.description), n.value))
  {
  }

  /** A walk that goes on through a child. */
  lemma WalkChild(n: Node, q: seq<Identifier>, path: string, labels: seq<Label>, desc: seq<Label>, m: Metric)
    requires ChildStep(n, q, JoinName(path, n.id.name), AddLabels(labels, n.id.labels),
                       NearestDescription(desc, n.description), m)
    ensures Walk(n, q, path, labels, desc) == Some(m)
  {
  }

  /** Record `i` of the walk is the record of path `i`. */
  lemma {:induction false} EmitPathsWalk(n: Node, path: string, labels: seq<Label>, desc: seq<Label>)
    ensures |EmitPaths(n)| == |Emit(n, path, labels, desc)|
    ensures forall i :: 0 <= i < |EmitPaths(n)| ==>
      Walk(n, EmitPaths(n)[i], path, labels, desc) == Some(Emit(n, path, labels, desc)[i])
    decreases n, 1
  {
    var p := JoinName(path, n.id.name);
    var ls := AddLabels(labels, n.id.labels);
    var ds := NearestDescription(desc, n.description);
    var keys := SortedKeys(n.children.Keys);
    ChildPathsWalk(n, keys, p, ls, ds);
    var cp := ChildPaths(n, keys);
    var ec := EmitChildren(n, keys, p, ls, ds);
    var own: seq<seq<Identifier>> := if n.isReal then [[]] else [];
    var ownRecord := if n.isReal then [Metric(p, ls + ds, n.value)] else [];
    assert EmitPaths(n) == own + cp;
    assert Emit(n, path, labels, desc) == ownRecord + ec;
    forall i | 0 <= i < |own|
      ensures Walk(n, own[i], path, labels, desc) == Some(ownRecord[i])
    {
      WalkOwn(n, path, labels, desc);
    }
    forall j | 0 <= j < |cp|
      ensures Walk(n, cp[j], path, labels, desc) == Some(ec[j])
    {
      WalkChild(n, cp[j], path, labels, desc, ec[j]);
    }
    WalkAppend(n, own, cp, ownRecord, ec, path, labels, desc);
  }

  /** Position by position, walks along the paths `qs + rs` give the
      records `ms + es` when they do so on each part. */
  lemma WalkAppend(n: Node, qs: seq<seq<Identifier>>, rs: seq<seq<Identifier>>, ms: seq<Metric>, es: seq<Metric>,
                   path: string, labels: seq<Label>, desc: seq<Label>)
    requires |qs| == |ms| && |rs| == |es|
    requires forall i :: 0 <= i < |qs| ==> Walk(n, qs[i], path, labels, desc) == Some(ms[i])
    requires forall j :: 0 <= j < |rs| ==> Walk(n, rs[j], path, labels, desc) == Some(es[j])
    ensures forall i :: 0 <= i < |qs + rs| ==> Walk(n, (qs + rs)[i], path, labels, desc) == Some((ms + es)[i])
  {
    forall i | 0 <= i < |qs + rs|
      ensures Walk(n, (qs + rs)[i], path, labels, desc) == Some((ms + es)[i])
    {
      AppendIndex(qs, rs, i);
      AppendIndex(ms, es, i);
    }
  }

  lemma {:induction false} ChildPathsWalk(n: Node, keys: seq<Identifier>, p: string, ls: seq<Label>, ds: seq<Label>)
    requires forall i :: 0 <= i < |keys| ==> keys[i] in n.children
    ensures |ChildPaths(n, keys)| == |EmitChildren(n, keys, p, ls, ds)|
    ensures forall i :: 0 <= i < |ChildPaths(n, keys)| ==> ChildStep(n, ChildPaths(n, keys)[i], p, ls, ds, EmitChildren(n, keys, p, ls, ds)[i])
    decreases n, 0, |keys|
  {
    if keys != [] {
      var init := keys[..|keys| - 1];
      var k := keys[|keys| - 1];
      var c := n.children[k];
      ChildPathsWalk(n, init, p, ls, ds);
      EmitPathsWalk(c, p, ls, ds);
      var a := ChildPaths(n, init);
      var b := Prefixed(k, EmitPaths(c));
      var ea := EmitChildren(n, init, p, ls, ds);
      var eb := Emit(c, p, ls, ds);
      assert ChildPaths(n, keys) == a + b;
      EmitChildrenUnfold(n, keys, p, ls, ds);
      PrefixedChildSteps(n, k, EmitPaths(c), p, ls, ds, eb);
      ChildStepAppend(n, a, b, ea, eb, p, ls, ds);
    }
  }

  /** `q` leads through a child of `n` to the node whose record is `m`. */
  ghost predicate ChildStep(n: Node, q: seq<Identifier>, p: string, ls: seq<Label>, ds: seq<Label>, m: Metric)
  {
    q != [] && q[0] in n.children && Walk(n.children[q[0]], q[1..], p, ls, ds) == Some(m)
  }

  /** Paths through the child `k` lead, position by position, to the
      records `ms` when the paths below `k` do. */
  lemma PrefixedChildSteps(n: Node, k: Identifier, qs: seq<seq<Identifier>>, p: string, ls: seq<Label>, ds: seq<Label>, ms: seq<Metric>)
    requires k in n.children && |qs| == |ms|
    requires forall j :: 0 <= j < |qs| ==> Walk(n.children[k], qs[j], p, ls, ds) == Some(ms[j])
    ensures forall j :: 0 <= j < |qs| ==> ChildStep(n, Prefixed(k, qs)[j], p, ls, ds, ms[j])
  {
    forall j | 0 <= j < |qs|
      ensures ChildStep(n, Prefixed(k, qs)[j], p, ls, ds, ms[j])
    {
      ChildStepCons(n, k, qs[j], p, ls, ds, ms[j]);
    }
  }

  /** Position by position, child steps along `qs + rs` reach `ms + es`
      when they do so on each part. */
  lemma ChildStepAppend(n: Node, qs: seq<seq<Identifier>>, rs: seq<seq<Identifier>>, ms: seq<Metric>, es: seq<Metric>,
                        p: string, ls: seq<Label>, ds: seq<Label>)
    requires |qs| == |ms| && |rs| == |es|
    requires forall i :: 0 <= i < |qs| ==> ChildStep(n, qs[i], p, ls, ds, ms[i])
    requires forall j :: 0 <= j < |rs| ==> ChildStep(n, rs[j], p, ls, ds, es[j])
    ensures forall i :: 0 <= i < |qs + rs| ==> ChildStep(n, (qs + rs)[i], p, ls, ds, (ms + es)[i])
  {
    forall i | 0 <= i < |qs + rs|
      ensures ChildStep(n, (qs + rs)[i], p, ls, ds, (ms + es)[i])
    {
      AppendIndex(qs, rs, i);
      AppendIndex(ms, es, i);
    }
  }

  lemma ChildStepCons(n: Node, k: Identifier, r: seq<Identifier>, p: string, ls: seq<Label>, ds: seq<Label>, m: Metric)
    requires k in n.children && Walk(n.children[k], r, p, ls, ds) == Some(m)
    ensures ChildStep(n, [k] + r, p, ls, ds, m)
  {
    ConsParts(k, r);
  }

  /** No path is listed twice. */
  lemma {:induction false} EmitPathsDistinct(n: Node)
    ensures forall i, j :: 0 <= i < j < |EmitPaths(n)| ==> EmitPaths(n)[i] != EmitPaths(n)[j]
    decreases n, 1
  {
    var keys := SortedKeys(n.children.Keys);
    SortedKeysAscending(n.children.Keys);
    forall i, j | 0 <= i < j < |keys|
      ensures keys[i] != keys[j]
    {
      if keys[i] == keys[j] {
        IdLessAsymmetric(keys[i], keys[j]);
      }
    }
    ChildPathsDistinct(n, keys);
  }

  lemma {:induction false} ChildPathsDistinct(n: Node, keys: seq<Identifier>)
    requires forall i :: 0 <= i < |keys| ==> keys[i] in n.children
    requires forall i, j :: 0 <= i < j < |keys| ==> keys[i] != keys[j]
    ensures forall i :: 0 <= i < |ChildPaths(n, keys)| ==>
      ChildPaths(n, keys)[i] != [] && ChildPaths(n, keys)[i][0] in keys
    ensures forall i, j :: 0 <= i < j < |ChildPaths(n, keys)| ==> ChildPaths(n, keys)[i] != ChildPaths(n, keys)[j]
    decreases n, 0, |keys|
  {
    if keys != [] {
      var init := keys[..|keys| - 1];
      var k := keys[|keys| - 1];
      var c := n.children[k];
      assert k !in init by {
        forall i | 0 <= i < |init|
          ensures init[i] != k
        {
          assert init[i] == keys[i] && keys[i] != keys[|keys| - 1];
        }
      }
      ChildPathsDistinct(n, init);
      EmitPathsDistinct(c);
      PrefixedDistinct(k, EmitPaths(c));
      var a := ChildPaths(n, init);
      var b := Prefixed(k, EmitPaths(c));
      assert ChildPaths(n, keys) == a + b;
      DistinctAppend(a, b, init, k);
      FrontLast(keys);
    }
  }

  /** The paths `qs`, each with the same head in front, stay distinct. */
  lemma PrefixedDistinct(k: Identifier, qs: seq<seq<Identifier>>)
    requires forall i, j :: 0 <= i < j < |qs| ==> qs[i] != qs[j]
    ensures forall i :: 0 <= i < |qs| ==> Prefixed(k, qs)[i] != [] && Prefixed(k, qs)[i][0] == k
    ensures forall i, j :: 0 <= i < j < |qs| ==> Prefixed(k, qs)[i] != Prefixed(k, qs)[j]
  {
    var b := Prefixed(k, qs);
    forall i, j | 0 <= i < j < |qs|
      ensures b[i] != b[j]
    {
      ConsParts(k, qs[i]);
      ConsParts(k, qs[j]);
    }
  }

  /** Distinct paths headed in `init`, then distinct paths headed by `k`,
      which is not in `init`, are distinct. */
  lemma DistinctAppend(a: seq<seq<Identifier>>, b: seq<seq<Identifier>>, init: seq<Identifier>, k: Identifier)
    requires k !in init
    requires forall i :: 0 <= i < |a| ==> a[i] != [] && a[i][0] in init
    requires forall i, j :: 0 <= i < j < |a| ==> a[i] != a[j]
    requires forall i :: 0 <= i < |b| ==> b[i] != [] && b[i][0] == k
    requires forall i, j :: 0 <= i < j < |b| ==> b[i] != b[j]
    ensures forall i :: 0 <= i < |a + b| ==> (a + b)[i] != [] && (a + b)[i][0] in init + [k]
    ensures forall i, j :: 0 <= i < j < |a + b| ==> (a + b)[i] != (a + b)[j]
  {
    forall i | 0 <= i < |a + b|
      ensures (a + b)[i] != [] && (a + b)[i][0] in init + [k]
    {
      AppendIndex(a, b, i);
    }
    forall i, j | 0 <= i < j < |a + b|
      ensures (a + b)[i] != (a + b)[j]
    {
      AppendIndex(a, b, i);
      AppendIndex(a, b, j);
    }
  }

  /** Every path to a node holding a value is listed. */
  lemma {:induction false} EmitPathsComplete(n: Node, q: seq<Identifier>, path: string, labels: seq<Label>, desc: seq<Label>)
    returns (t: nat)
    requires Walk(n, q, path, labels, desc).Some?
    ensures t < |EmitPaths(n)| && EmitPaths(n)[t] == q
    decreases |q|
  {
    var keys := SortedKeys(n.children.Keys);
    var own: seq<seq<Identifier>> := if n.isReal then [[]] else [];
    var cp := ChildPaths(n, keys);
    assert EmitPaths(n) == own + cp;
    if q == [] {
      t := 0;
      AppendIndex(own, cp, 0);
    } else {
      var k := q[0];
      var c := n.children[k];
      var p := JoinName(path, n.id.name);
      var ls := AddLabels(labels, n.id.labels);
      var ds := NearestDescription(desc, n.description);
      var t0 := EmitPathsComplete(c, q[1..], p, ls, ds);
      var i :| 0 <= i < |keys| && keys[i] == k;
      var t1 := ChildPathsIncludes(n, keys, i, t0);
      assert cp[t1] == q by {
        HeadTail(q);
      }
      t := |own| + t1;
      AppendIndex(own, cp, t);
    }
  }

  lemma {:induction false} ChildPathsIncludes(n: Node, keys: seq<Identifier>, i: nat, j: nat) returns (t: nat)
    requires forall m :: 0 <= m < |keys| ==> keys[m] in n.children
    requires i < |keys| && j < |EmitPaths(n.children[keys[i]])|
    ensures t < |ChildPaths(n, keys)|
    ensures ChildPaths(n, keys)[t] == [keys[i]] + EmitPaths(n.children[keys[i]])[j]
    decreases |keys|
  {
    var init := keys[..|keys| - 1];
    var k := keys[|keys| - 1];
    var a := ChildPaths(n, init);
    var b := Prefixed(k, EmitPaths(n.children[k]));
    assert ChildPaths(n, keys) == a + b;
    if i == |keys| - 1 {
      t := |a| + j;
    } else {
      assert init[i] == keys[i];
      t := ChildPathsIncludes(n, init, i, j);
    }
    AppendIndex(a, b, t);
  }

  /** One record per node holding a value: the positions of the walk's
      records and the paths to the nodes holding a value correspond one
      to one, record `i` being the record of path `i`. */
  lemma EmitPositions(n: Node, path: string, labels: seq<Label>, desc: seq<Label>) returns (qs: seq<seq<Identifier>>)
    ensures |qs| == |Emit(n, path, labels, desc)|
    ensures forall i :: 0 <= i < |qs| ==> Walk(n, qs[i], path, labels, desc) == Some(Emit(n, path, labels, desc)[i])
    ensures forall i, j :: 0 <= i < j < |qs| ==> qs[i] != qs[j]
    ensures forall q :: Walk(n, q, path, labels, desc).Some? ==> q in qs
  {
    qs := EmitPaths(n);
    EmitPathsWalk(n, path, labels, desc);
    EmitPathsDistinct(n);
    forall q | Walk(n, q, path, labels, desc).Some?
      ensures q in qs
    {
      var t := EmitPathsComplete(n, q, path, labels, desc);
    }
  }
}
