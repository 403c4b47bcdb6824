/** The node forest: every schema object is a record in a map keyed by node
    id, with a non-owning link to its parent. The record also carries the
    data a subclass would supply by overriding (type name, children, its own
    item path) and the cached description. */
module Forest {
  import opened Wrappers
  import opened NodeKinds

  type NodeId = nat

  datatype Node = Node(
    kind: NodeKind,
    name: string,
    /** getTypeName; the base class returns "". */
    typeName: string,
    /** getItemPath when a subclass overrides it (the database node's is ""). */
    ownItemPath: Option<string>,
    parent: Option<NodeId>,
    /** the number of ancestors; it makes every walk up the parent links finite */
    depth: nat,
    /** getChildren; a leaf has none */
    children: seq<NodeId>,
    description: string,
    descriptionLoaded: bool)

  type Forest = map<NodeId, Node>

  /** The state a freshly constructed node starts in: no parent, kind
      Unknown, description not loaded. */
  const Detached := Node(Unknown, "", "", None, None, 0, [], "", false)

  /** A parent is in the forest, one level up, and lists the node among
      its children; a root is at depth 0; a child a node lists names it as
      its parent. */
  ghost predicate Linked(f: Forest, id: NodeId)
    requires id in f
  {
    && (match f[id].parent
        case None => f[id].depth == 0
        case Some(p) => p in f && f[id].depth == f[p].depth + 1 && id in f[p].children)
    && forall c :: c in f[id].children ==> c in f && f[c].parent == Some(id)
  }

  ghost predicate WellFormed(f: Forest)
  {
    forall id :: id in f ==> Linked(f, id)
  }

  /** Changing what a node holds, but not its links, keeps the forest
      well formed. */
  lemma RelabelKeepsWellFormed(f: Forest, id: NodeId, n: Node)
    requires WellFormed(f) && id in f
    requires n.parent == f[id].parent && n.depth == f[id].depth && n.children == f[id].children
    ensures WellFormed(f[id := n])
  {
    var g := f[id := n];
    forall x | x in g
      ensures Linked(g, x)
    {
      assert Linked(f, x);
    }
  }

  /** A node that is in no collection yet, attached as the last child of
      another node one level deeper than it. */
  function Attach(f: Forest, id: NodeId, p: NodeId): (g: Forest)
    requires id in f && p in f
    ensures g.Keys == f.Keys
  {
    var h := f[id := f[id].(parent := Some(p), depth := f[p].depth + 1)];
    h[p := h[p].(children := h[p].children + [id])]
  }

  /** Attaching a detached node to another node keeps the forest well
      formed. */
  lemma AttachKeepsWellFormed(f: Forest, id: NodeId, p: NodeId)
    requires WellFormed(f) && id in f && p in f && id != p
    requires f[id].parent.None? && f[id].children == []
    ensures WellFormed(Attach(f, id, p))
    ensures Attach(f, id, p)[id].parent == Some(p) && Attach(f, id, p)[id].depth == f[p].depth + 1
    ensures Attach(f, id, p)[p].children == f[p].children + [id]
    ensures forall x :: x in f && x != id && x != p ==> Attach(f, id, p)[x] == f[x]
  {
    var g := Attach(f, id, p);
    forall x | x in g
      ensures Linked(g, x)
    {
      assert Linked(f, x);
      if x != id {
        assert f[x].parent != Some(id) by {
          assert Linked(f, id);
        }
        forall c | c in f[x].children
          ensures c != id
        {
          assert f[c].parent == Some(x);
        }
      }
    }
  }

  /** The strict ancestors of a node, nearest first. */
  function Ancestors(f: Forest, id: NodeId): (r: seq<NodeId>)
    requires WellFormed(f) && id in f
    ensures |r| == f[id].depth
    ensures forall i :: 0 <= i < |r| ==> r[i] in f && f[r[i]].depth == f[id].depth - 1 - i
    ensures f[id].parent.Some? ==> r != [] && r[0] == f[id].parent.value
    decreases f[id].depth
  {
    match f[id].parent
    case None => []
    case Some(p) => [p] + Ancestors(f, p)
  }

  lemma {:induction false} DistinctCardinality(s: seq<NodeId>)
    requires forall i, j :: 0 <= i < j < |s| ==> s[i] != s[j]
    ensures |set x: NodeId | x in s| == |s|
  {
    if s != [] {
      var rest := set x: NodeId | x in s[1..];
      DistinctCardinality(s[1..]);
      assert s[0] !in rest;
      assert (set x: NodeId | x in s) == {s[0]} + rest;
      assert |{s[0]} + rest| == 1 + |rest|;
    }
  }

  /** A node is never deeper than the forest is large, because it and its
      ancestors are that many distinct nodes. */
  lemma DepthBound(f: Forest, id: NodeId)
    requires WellFormed(f) && id in f
    ensures f[id].depth < |f|
  {
    var chain := [id] + Ancestors(f, id);
    assert forall i :: 0 <= i < |chain| ==> chain[i] in f && f[chain[i]].depth == f[id].depth - i;
    assert forall i, j :: 0 <= i < j < |chain| ==> f[chain[i]].depth != f[chain[j]].depth;
    DistinctCardinality(chain);
    var s := set x: NodeId | x in chain;
    assert s <= f.Keys;
    SubsetCardinality(s, f.Keys);
    assert |f.Keys| == |f|;
  }

  lemma {:induction false} SubsetCardinality(a: set<NodeId>, b: set<NodeId>)
    requires a <= b
    ensures |a| <= |b|
  {
    if a != {} {
      var x :| x in a;
      SubsetCardinality(a - {x}, b - {x});
    }
  }

  /** x is id or lies below it: walking up from x reaches id. */
  ghost predicate Descends(f: Forest, x: NodeId, id: NodeId)
    requires WellFormed(f) && x in f
    decreases f[x].depth
  {
    x == id || match f[x].parent
      case None => false
      case Some(p) => Descends(f, p, id)
  }

  lemma {:induction false} DescendsThroughChild(f: Forest, x: NodeId, c: NodeId, id: NodeId)
    requires WellFormed(f) && x in f && c in f && f[c].parent == Some(id)
    requires Descends(f, x, c)
    ensures Descends(f, x, id)
    decreases f[x].depth
  {
    if x != c {
      DescendsThroughChild(f, f[x].parent.value, c, id);
    }
  }

  /** The nodes drop() reaches from id, in call order: id itself, then the
      subtree of each child in the order getChildren lists them. */
  function DropOrder(f: Forest, id: NodeId): (r: seq<NodeId>)
    requires WellFormed(f) && id in f
    ensures r != [] && r[0] == id
    decreases |f| - f[id].depth, 1
  {
    DepthBound(f, id);
    [id] + DropChildren(f, id, 0)
  }

  /** The subtrees of the children of id from the i-th on. */
  function DropChildren(f: Forest, id: NodeId, i: nat): seq<NodeId>
    requires WellFormed(f) && id in f && i <= |f[id].children|
    decreases |f| - f[id].depth, 0, |f[id].children| - i
  {
    if i == |f[id].children| then []
    else
      var c := f[id].children[i];
      DepthBound(f, id);
      DepthBound(f, c);
      DropOrder(f, c) + DropChildren(f, id, i + 1)
  }

  /** One child's turn in the drop of id's children. */
  lemma DropChildrenStep(f: Forest, id: NodeId, i: nat)
    requires WellFormed(f) && id in f && i < |f[id].children|
    ensures var c := f[id].children[i];
      && c in f && f[c].depth == f[id].depth + 1 && f[c].depth < |f|
      && DropChildren(f, id, i) == DropOrder(f, c) + DropChildren(f, id, i + 1)
  {
    assert Linked(f, id);
    DepthBound(f, f[id].children[i]);
  }

  /** drop() stays inside the subtree: every node it reaches lies below
      the node it was called on. */
  lemma {:induction false} DropOrderInSubtree(f: Forest, id: NodeId)
    requires WellFormed(f) && id in f
    ensures forall x :: x in DropOrder(f, id) ==> x in f && Descends(f, x, id)
    decreases |f| - f[id].depth, 1
  {
    DepthBound(f, id);
    DropChildrenInSubtree(f, id, 0);
  }

  lemma {:induction false} DropChildrenInSubtree(f: Forest, id: NodeId, i: nat)
    requires WellFormed(f) && id in f && i <= |f[id].children|
    ensures forall x :: x in DropChildren(f, id, i) ==> x in f && Descends(f, x, id)
    decreases |f| - f[id].depth, 0, |f[id].children| - i
  {
    if i < |f[id].children| {
      var c := f[id].children[i];
      DepthBound(f, id);
      DepthBound(f, c);
      DropOrderInSubtree(f, c);
      DropChildrenInSubtree(f, id, i + 1);
      forall x | x in DropOrder(f, c)
        ensures Descends(f, x, id)
      {
        DescendsThroughChild(f, x, c, id);
      }
    }
  }

  /** And it reaches all of it: every node below id is dropped. */
  lemma {:induction false} DropOrderCoversSubtree(f: Forest, id: NodeId, x: NodeId)
    requires WellFormed(f) && id in f && x in f && Descends(f, x, id)
    ensures x in DropOrder(f, id)
    decreases f[x].depth
  {
    if x != id {
      var q := f[x].parent.value;
      DropOrderCoversSubtree(f, id, q);
      assert Linked(f, x);
      ChildVisited(f, id, q, x);
    }
  }

  /** A child of a node drop() reaches is reached too. */
  lemma {:induction false} ChildVisited(f: Forest, id: NodeId, q: NodeId, x: NodeId)
    requires WellFormed(f) && id in f && q in f && q in DropOrder(f, id) && x in f[q].children
    ensures x in DropOrder(f, id)
    decreases |f| - f[id].depth, 1
  {
    DepthBound(f, id);
    if q == id {
      var k :| 0 <= k < |f[id].children| && f[id].children[k] == x;
      ChildSubtreeIncluded(f, id, 0, k);
      assert x == DropOrder(f, x)[0];
    } else {
      ChildVisitedIn(f, id, 0, q, x);
    }
  }

  lemma {:induction false} ChildVisitedIn(f: Forest, id: NodeId, i: nat, q: NodeId, x: NodeId)
    requires WellFormed(f) && id in f && q in f && i <= |f[id].children|
    requires q in DropChildren(f, id, i) && x in f[q].children
    ensures x in DropChildren(f, id, i)
    decreases |f| - f[id].depth, 0, |f[id].children| - i
  {
    DepthBound(f, id);
    var c := f[id].children[i];
    DepthBound(f, c);
    if q in DropOrder(f, c) {
      ChildVisited(f, c, q, x);
    } else {
      ChildVisitedIn(f, id, i + 1, q, x);
    }
  }

  /** The subtree of the k-th child is part of the drops from the i-th on. */
  lemma {:induction false} ChildSubtreeIncluded(f: Forest, id: NodeId, i: nat, k: nat)
    requires WellFormed(f) && id in f && i <= k < |f[id].children|
    ensures forall y :: y in DropOrder(f, f[id].children[k]) ==> y in DropChildren(f, id, i)
    decreases k - i
  {
    if i < k {
      ChildSubtreeIncluded(f, id, i + 1, k);
    }
  }

  /** drop() on id reaches exactly the nodes below it (id included). */
  lemma DropReachesSubtree(f: Forest, id: NodeId)
    requires WellFormed(f) && id in f
    ensures forall x :: x in DropOrder(f, id) <==> x in f && Descends(f, x, id)
  {
    DropOrderInSubtree(f, id);
    forall x | x in f && Descends(f, x, id)
      ensures x in DropOrder(f, id)
    {
      DropOrderCoversSubtree(f, id, x);
    }
  }

  /** getPathName: the base class names a node in its item path by the
      node's own name, unchanged. */
  function PathName(n: Node): (r: string)
    ensures r == n.name
  {
    n.name
  }

  /** A node's own `TypeName(PathName)` segment of an item path: the type
      name, then the path name enclosed in parentheses, and nothing else. */
  function Segment(n: Node): (r: string)
    ensures |r| == |n.typeName| + |n.name| + 2
    ensures r[..|n.typeName|] == n.typeName && r[|n.typeName|] == '(' && r[|r| - 1] == ')'
    ensures r[|n.typeName| + 1..|r| - 1] == n.name
  {
    n.typeName + "(" + PathName(n) + ")"
  }

  /** getItemPath: the parent's item path, then "::", then the node's own
      segment; the separator is left out when the parent's path is empty,
      and a node that sets its own path answers with that. */
  function ItemPath(f: Forest, id: NodeId): (r: string)
    requires WellFormed(f) && id in f
    ensures f[id].ownItemPath.Some? ==> r == f[id].ownItemPath.value
    ensures f[id].ownItemPath.None? ==>
      |r| >= |Segment(f[id])| && r[|r| - |Segment(f[id])|..] == Segment(f[id])
    ensures f[id].ownItemPath.None? && (f[id].parent.None? || ItemPath(f, f[id].parent.value) == "") ==>
      r == Segment(f[id])
    ensures f[id].ownItemPath.None? && f[id].parent.Some? && ItemPath(f, f[id].parent.value) != "" ==>
      var pp := ItemPath(f, f[id].parent.value);
      |r| == |pp| + 2 + |Segment(f[id])| && r[..|pp|] == pp && r[|pp|..|pp| + 2] == "::"
    decreases f[id].depth
  {
    match f[id].ownItemPath
    case Some(p) => p
    case None =>
      var own := Segment(f[id]);
      match f[id].parent
      case None => own
      case Some(p) =>
        var parentPath := ItemPath(f, p);
        if parentPath != "" then parentPath + "::" + own else own
  }

  /** No override along the way: the path is never empty, so below such a
      node every parent contributes a segment and a separator. */
  lemma {:induction false} BaseItemPathNonEmpty(f: Forest, id: NodeId)
    requires WellFormed(f) && id in f
    requires f[id].ownItemPath.None?
    ensures ItemPath(f, id) != ""
  {
  }

  /** Below a database whose own item path is empty, a table's path is its
      bare segment and a column's is the table's segment, "::" and its own:
      the database contributes neither a segment nor a separator. */
  lemma ItemPathBelowDatabase(f: Forest, db: NodeId, t: NodeId, c: NodeId)
    requires WellFormed(f) && db in f && t in f && c in f
    requires f[db].ownItemPath == Some("")
    requires f[t].parent == Some(db) && f[t].ownItemPath.None?
    requires f[c].parent == Some(t) && f[c].ownItemPath.None?
    ensures ItemPath(f, t) == Segment(f[t])
    ensures ItemPath(f, c) == Segment(f[t]) + "::" + Segment(f[c])
  {
  }

  /** getDatabase: walk the parent links up to the first Database. */
  function DatabaseOf(f: Forest, id: NodeId): (r: Option<NodeId>)
    requires WellFormed(f) && id in f
    ensures r.Some? ==> r.value in f && f[r.value].kind == Database && f[id].parent.Some?
    decreases f[id].depth
  {
    match f[id].parent
    case None => None
    case Some(p) => if f[p].kind == Database then Some(p) else DatabaseOf(f, p)
  }

  /** getDatabase answers with the nearest strict ancestor of kind Database
      (the deepest one, ancestors having distinct depths), never with the
      node itself, and with none when no ancestor is one. */
  lemma {:induction false} DatabaseIsNearestAncestor(f: Forest, id: NodeId)
    requires WellFormed(f) && id in f
    ensures var anc := Ancestors(f, id);
      match DatabaseOf(f, id)
      case Some(d) =>
        && d in anc && d != id
        && forall a :: a in anc && a in f && f[a].kind == Database ==> f[a].depth <= f[d].depth
      case None => forall a :: a in anc && a in f ==> f[a].kind != Database
    decreases f[id].depth
  {
    var anc := Ancestors(f, id);
    match f[id].parent
    case None =>
    case Some(p) =>
      var panc := Ancestors(f, p);
      assert anc == [p] + panc;
      if f[p].kind == Database {
        assert DatabaseOf(f, id) == Some(p);
        forall a | a in anc && a in f
          ensures f[a].depth <= f[p].depth
        {
          var i :| 0 <= i < |anc| && anc[i] == a;
        }
      } else {
        DatabaseIsNearestAncestor(f, p);
        assert DatabaseOf(f, id) == DatabaseOf(f, p);
        match DatabaseOf(f, p)
        case Some(d) =>
          assert f[d].depth < f[p].depth < f[id].depth;
        case None =>
      }
  }

  /** isSystem: an object is a system object exactly when its name begins
      with the four characters of the reserved prefix RDB$; a shorter name
      never is. */
  function IsSystem(name: string): (r: bool)
    ensures r <==> "RDB$" <= name
  {
    name[..if |name| < 4 then |name| else 4] == "RDB$"
  }

  lemma IsSystemExamples()
    ensures IsSystem("RDB$RELATIONS") && !IsSystem("CUSTOMERS")
    ensures !IsSystem("RDB") && !IsSystem("rdb$RELATIONS")
  {
    assert "RDB$RELATIONS"[..4] == "RDB$";
    assert "CUSTOMERS"[0] != "RDB$"[0];
    assert "rdb$RELATIONS"[0] != "RDB$"[0];
  }

  /** getDropSqlStatement: `DROP <type name> <name>;`. */
  function DropSqlStatement(n: Node): (r: string)
    ensures |r| == 7 + |n.typeName| + |n.name|
    ensures "DROP " <= r && r[|r| - 1] == ';'
    ensures r[5..5 + |n.typeName|] == n.typeName && r[5 + |n.typeName|] == ' '
    ensures r[|r| - 1 - |n.name|..|r| - 1] == n.name
  {
    "DROP " + n.typeName + " " + n.name + ";"
  }
}
