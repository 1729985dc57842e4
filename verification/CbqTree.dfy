/** The class tree of CBQ and the depths kept in it: adding a leaf raises the depths
    of some ancestors, removing one lowers some, and each class's depth stays its
    height in the tree. */
module CbqTree {
  import opened Options

  /** Parent of each class; classes are numbered in order of creation. */
  type Parents = map<nat, Option<nat>>

  ghost predicate TreeOk(parent: Parents) {
    forall c :: c in parent && parent[c].Some? ==> parent[c].value in parent && parent[c].value < c
  }

  predicate ChildOf(parent: Parents, k: nat, c: nat) {
    k in parent && parent[k] == Some(c)
  }

  /** No child is as deep as its parent, and one is deep enough. */
  ghost predicate DepthOk(parent: Parents, depth: map<nat, nat>, c: nat)
    requires c in depth && parent.Keys == depth.Keys
  {
    && (forall k :: ChildOf(parent, k, c) ==> depth[k] < depth[c])
    && (depth[c] > 0 ==> exists k :: ChildOf(parent, k, c) && depth[k] + 1 == depth[c])
  }

  /** Every depth is right, except perhaps that of one class. */
  ghost predicate DepthsBut(parent: Parents, depth: map<nat, nat>, at: Option<nat>) {
    parent.Keys == depth.Keys && forall c :: c in parent && Some(c) != at ==> DepthOk(parent, depth, c)
  }

  ghost predicate Depths(parent: Parents, depth: map<nat, nat>) {
    DepthsBut(parent, depth, None)
  }

  // ----- depth is height

  /** A path downward from c, from child to child. */
  ghost predicate Path(parent: Parents, c: nat, path: seq<nat>)
    decreases |path|
  {
    path == [] || (ChildOf(parent, path[0], c) && Path(parent, path[0], path[1..]))
  }

  lemma {:induction false} PathsShort(parent: Parents, depth: map<nat, nat>, c: nat, path: seq<nat>)
    requires Depths(parent, depth) && c in parent && Path(parent, c, path)
    ensures |path| <= depth[c]
    decreases |path|
  {
    if path != [] {
      assert DepthOk(parent, depth, c);
      PathsShort(parent, depth, path[0], path[1..]);
    }
  }

  lemma {:induction false} LongPath(parent: Parents, depth: map<nat, nat>, c: nat) returns (path: seq<nat>)
    requires Depths(parent, depth) && c in parent
    ensures Path(parent, c, path) && |path| == depth[c]
    decreases depth[c]
  {
    path := [];
    assert DepthOk(parent, depth, c);
    if depth[c] > 0 {
      var k :| ChildOf(parent, k, c) && depth[k] + 1 == depth[c];
      var rest := LongPath(parent, depth, k);
      path := [k] + rest;
      assert path[1..] == rest;
    }
  }

  /** The depth of a class is the length of the longest path down from it. */
  lemma DepthIsHeight(parent: Parents, depth: map<nat, nat>, c: nat)
    requires Depths(parent, depth) && c in parent
    ensures exists path :: Path(parent, c, path) && |path| == depth[c]
    ensures forall path :: Path(parent, c, path) ==> |path| <= depth[c]
  {
    var path := LongPath(parent, depth, c);
    forall path | Path(parent, c, path)
      ensures |path| <= depth[c]
    {
      PathsShort(parent, depth, c, path);
    }
  }

  // ----- adding a leaf

  /** Class t has just become one deeper (or new): all others are right, and t's parent
      only has t to catch up with. */
  ghost predicate Rising(parent: Parents, depth: map<nat, nat>, t: nat)
    requires t in parent && parent.Keys == depth.Keys && TreeOk(parent)
  {
    DepthsBut(parent, depth, parent[t]) && (parent[t].Some? ==> Behind(parent, depth, t, parent[t].value))
  }

  /** Class p would be right but for its child t, which may be as deep as p. */
  ghost predicate Behind(parent: Parents, depth: map<nat, nat>, t: nat, p: nat)
    requires t in parent && p in parent && parent.Keys == depth.Keys
  {
    && depth[t] <= depth[p]
    && (forall k :: ChildOf(parent, k, p) && k != t ==> depth[k] < depth[p])
    && (depth[p] > 0 ==> depth[t] == depth[p] || exists k :: ChildOf(parent, k, p) && k != t && depth[k] + 1 == depth[p])
  }

  /** A class that was right is at most behind once one of its children got deeper by one. */
  lemma FallsBehind(parent: Parents, depth: map<nat, nat>, t: nat, g: nat)
    requires TreeOk(parent) && ChildOf(parent, t, g) && g in parent && parent.Keys == depth.Keys && DepthOk(parent, depth, g)
    ensures Behind(parent, depth[t := depth[t] + 1], t, g)
  {
    if depth[g] > 0 {
      var k :| ChildOf(parent, k, g) && depth[k] + 1 == depth[g];
    }
  }

  lemma RisingDone(parent: Parents, depth: map<nat, nat>, t: nat)
    requires TreeOk(parent) && t in parent && parent.Keys == depth.Keys && Rising(parent, depth, t)
    requires parent[t].None? || depth[t] < depth[parent[t].value]
    ensures Depths(parent, depth)
  {
    forall c | c in parent
      ensures DepthOk(parent, depth, c)
    {
      if Some(c) == parent[t] {
        var k :| ChildOf(parent, k, c) && k != t && depth[k] + 1 == depth[c];
      }
    }
  }

  lemma RisingUp(parent: Parents, depth: map<nat, nat>, t: nat)
    requires TreeOk(parent) && t in parent && parent.Keys == depth.Keys && Rising(parent, depth, t)
    requires parent[t].Some? && depth[t] >= depth[parent[t].value]
    ensures Rising(parent, depth[parent[t].value := depth[t] + 1], parent[t].value)
  {
    var p := parent[t].value;
    var depth' := depth[p := depth[t] + 1];
    CaughtUp(parent, depth, t, p);
    forall c | c in parent && Some(c) != parent[p] && c != p
      ensures DepthOk(parent, depth', c)
    {
      Unaffected(parent, depth, c, p, depth[t] + 1);
    }
    if parent[p].Some? {
      FallsBehind(parent, depth, p, parent[p].value);
    }
  }

  lemma CaughtUp(parent: Parents, depth: map<nat, nat>, t: nat, p: nat)
    requires TreeOk(parent) && ChildOf(parent, t, p) && p in parent && parent.Keys == depth.Keys
    requires Behind(parent, depth, t, p) && depth[t] == depth[p]
    ensures DepthOk(parent, depth[p := depth[t] + 1], p)
  {
    assert ChildOf(parent, t, p);
  }

  /** A class whose children keep their depths stays right. */
  lemma Unaffected(parent: Parents, depth: map<nat, nat>, c: nat, p: nat, d: nat)
    requires TreeOk(parent) && c in parent && p in parent && parent.Keys == depth.Keys && DepthOk(parent, depth, c)
    requires c != p && Some(c) != parent[p]
    ensures DepthOk(parent, depth[p := d], c)
  {
    assert forall k :: ChildOf(parent, k, c) ==> k != p;
  }

  /** Raise ancestors as far as needed. */
  method Raise(parent: Parents, depth: map<nat, nat>, leaf: nat) returns (d: map<nat, nat>)
    requires TreeOk(parent) && leaf in parent && parent.Keys == depth.Keys && Rising(parent, depth, leaf)
    ensures Depths(parent, d)
  {
    d := depth;
    var t := leaf;
    while parent[t].Some? && d[t] >= d[parent[t].value]
      invariant t in parent && parent.Keys == d.Keys && Rising(parent, d, t)
      decreases t
    {
      RisingUp(parent, d, t);
      var p := parent[t].value;
      d := d[p := d[t] + 1];
      t := p;
    }
    RisingDone(parent, d, t);
  }

  lemma NewTree(parent: Parents, c: nat, p: Option<nat>)
    requires TreeOk(parent) && c !in parent && (forall k :: k in parent ==> k < c) && (p.Some? ==> p.value in parent)
    ensures TreeOk(parent[c := p])
  {
  }

  lemma NewLeaf(parent: Parents, depth: map<nat, nat>, c: nat, p: Option<nat>)
    requires TreeOk(parent) && Depths(parent, depth) && c !in parent
    requires (p.Some? ==> p.value in parent) && TreeOk(parent[c := p])
    ensures Rising(parent[c := p], depth[c := 0], c)
  {
    var parent', depth' := parent[c := p], depth[c := 0];
    forall k | k in parent' && Some(k) != p
      ensures DepthOk(parent', depth', k)
    {
      if k == c {
        Childless(parent, depth, c, p);
      } else {
        assert DepthOk(parent, depth, k);
        SameChildren(parent, depth, c, p, k);
      }
    }
    if p.Some? {
      assert DepthOk(parent, depth, p.value);
      FirstBehind(parent, depth, c, p.value);
    }
  }

  lemma Childless(parent: Parents, depth: map<nat, nat>, c: nat, p: Option<nat>)
    requires TreeOk(parent) && parent.Keys == depth.Keys && c !in parent && p != Some(c)
    ensures DepthOk(parent[c := p], depth[c := 0], c)
  {
    var parent' := parent[c := p];
    assert forall k :: !ChildOf(parent', k, c);
  }

  lemma SameChildren(parent: Parents, depth: map<nat, nat>, c: nat, p: Option<nat>, k: nat)
    requires parent.Keys == depth.Keys && c !in parent && k in parent && Some(k) != p && DepthOk(parent, depth, k)
    ensures DepthOk(parent[c := p], depth[c := 0], k)
  {
    assert forall j :: ChildOf(parent[c := p], j, k) <==> ChildOf(parent, j, k);
  }

  lemma FirstBehind(parent: Parents, depth: map<nat, nat>, c: nat, p: nat)
    requires parent.Keys == depth.Keys && c !in parent && p in parent && DepthOk(parent, depth, p)
    ensures Behind(parent[c := Some(p)], depth[c := 0], c, p)
  {
    var parent', depth' := parent[c := Some(p)], depth[c := 0];
    assert forall j :: j != c ==> (ChildOf(parent', j, p) <==> ChildOf(parent, j, p));
    if depth[p] > 0 {
      var k: nat :| ChildOf(parent, k, p) && depth[k] + 1 == depth[p];
      assert ChildOf(parent', k, p) && k != c && depth'[k] + 1 == depth'[p];
    }
  }

  // ----- removing a leaf

  lemma GoneLeaf(parent: Parents, depth: map<nat, nat>, c: nat)
    requires TreeOk(parent) && Depths(parent, depth) && c in parent && forall k :: !ChildOf(parent, k, c)
    ensures TreeOk(parent - {c}) && DepthsBut(parent - {c}, depth - {c}, parent[c])
  {
    var parent', depth' := parent - {c}, depth - {c};
    forall k | k in parent' && parent'[k].Some?
      ensures parent'[k].value in parent'
    {
      assert ChildOf(parent, k, parent[k].value);
    }
    forall k | k in parent' && Some(k) != parent[c]
      ensures DepthOk(parent', depth', k)
    {
      assert DepthOk(parent, depth, k);
      FewerChildren(parent, depth, c, k);
    }
  }

  lemma FewerChildren(parent: Parents, depth: map<nat, nat>, c: nat, k: nat)
    requires parent.Keys == depth.Keys && c in parent && k in parent && k != c && Some(k) != parent[c] && DepthOk(parent, depth, k)
    ensures DepthOk(parent - {c}, depth - {c}, k)
  {
    assert forall j :: ChildOf(parent - {c}, j, k) <==> ChildOf(parent, j, k);
  }

  /** The greatest depth among the children of p, if it has any. */
  method Deepest(parent: Parents, depth: map<nat, nat>, p: nat) returns (any: bool, most: nat)
    requires parent.Keys == depth.Keys
    ensures any <==> exists k :: ChildOf(parent, k, p)
    ensures forall k :: ChildOf(parent, k, p) ==> depth[k] <= most
    ensures any ==> exists k :: ChildOf(parent, k, p) && depth[k] == most
  {
    any, most := false, 0;
    var todo := parent.Keys;
    while todo != {}
      invariant todo <= parent.Keys
      invariant forall k :: ChildOf(parent, k, p) && k !in todo ==> depth[k] <= most
      invariant any <==> exists k :: ChildOf(parent, k, p) && k !in todo
      invariant any ==> exists k :: ChildOf(parent, k, p) && depth[k] == most
      invariant !any ==> most == 0
      decreases |todo|
    {
      var k :| k in todo;
      if ChildOf(parent, k, p) {
        if !any || depth[k] > most {
          most := depth[k];
        }
        any := true;
      }
      todo := todo - {k};
    }
  }

  lemma Lowered(parent: Parents, depth: map<nat, nat>, p: nat, d: nat)
    requires TreeOk(parent) && p in parent && DepthsBut(parent, depth, Some(p))
    requires DepthOk(parent, depth[p := d], p)
    ensures DepthsBut(parent, depth[p := d], parent[p])
  {
    var depth' := depth[p := d];
    forall c | c in parent && Some(c) != parent[p]
      ensures DepthOk(parent, depth', c)
    {
      if c != p {
        Unaffected(parent, depth, c, p, d);
      }
    }
  }

  lemma OneDeeper(parent: Parents, depth: map<nat, nat>, p: nat, most: nat)
    requires TreeOk(parent) && p in parent && parent.Keys == depth.Keys
    requires (forall k :: ChildOf(parent, k, p) ==> depth[k] <= most) && exists k :: ChildOf(parent, k, p) && depth[k] == most
    ensures DepthOk(parent, depth[p := most + 1], p)
  {
    var k :| ChildOf(parent, k, p) && depth[k] == most;
    assert k != p;
  }

  /** Recompute upward until nothing changes. */
  method Recompute(parent: Parents, depth: map<nat, nat>, from: Option<nat>) returns (d: map<nat, nat>)
    requires TreeOk(parent) && (from.Some? ==> from.value in parent) && DepthsBut(parent, depth, from)
    ensures Depths(parent, d)
  {
    d := depth;
    var at := from;
    while at.Some?
      invariant (at.Some? ==> at.value in parent) && DepthsBut(parent, d, at)
      decreases if at.Some? then at.value + 1 else 0
    {
      var done;
      d, done := RecomputeOne(parent, d, at.value);
      at := if done then None else parent[at.value];
    }
  }

  method RecomputeOne(parent: Parents, depth: map<nat, nat>, p: nat) returns (d: map<nat, nat>, done: bool)
    requires TreeOk(parent) && p in parent && DepthsBut(parent, depth, Some(p))
    ensures DepthsBut(parent, d, if done then None else parent[p])
  {
    var any, most := Deepest(parent, depth, p);
    done := any && depth[p] == most + 1;
    d := depth[p := if any then most + 1 else 0];
    if any {
      OneDeeper(parent, depth, p, most);
    }
    if done {
      assert d == depth;
    } else {
      Lowered(parent, depth, p, d[p]);
    }
  }
}
