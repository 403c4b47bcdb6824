/** The tree of schema objects as the application holds it: nodes whose
    names, kinds, parents and cached descriptions are updated in place.
    Everything the catalog would answer is passed in, and every statement
    the node would send to it is returned. */
module MetadataTree {
  import opened Wrappers
  import opened Text
  import opened NodeKinds
  import opened Forest
  import opened Dependencies

  // ---------------------------------------------------------------------
  // The catalog's side of getDescription / setDescription

  /** How the catalog answers the description query. */
  datatype DescriptionRead =
    /** the transaction, the statement or the fetch fails: nothing read */
    | FailsBeforeFetch(error: string)
    /** the row's description is null */
    | NullValue
    /** the blob's successive chunks; an empty read is the end of the blob */
    | Chunks(chunks: seq<string>)
    /** some chunks, then the blob, the null test or the commit fails */
    | FailsMidStream(chunks: seq<string>, error: string)

  /** The description statement and the keys bound to its placeholders. */
  datatype DescriptionQuery = DescriptionQuery(sql: string, keys: seq<string>)

  /** The update statement, the new value (None binds null) and the keys. */
  datatype DescriptionUpdate = DescriptionUpdate(sql: string, value: Option<string>, keys: seq<string>)

  /** What the blob chunks deliver: the chunks before the first empty one. */
  function BlobText(chunks: seq<string>): string
  {
    if chunks == [] || chunks[0] == "" then "" else chunks[0] + BlobText(chunks[1..])
  }

  /** The blob text is the chunks up to the end marker, concatenated in
      order; whatever follows the first empty read is never looked at. */
  lemma {:induction false} BlobTextIsPrefixConcat(chunks: seq<string>, n: nat)
    requires n <= |chunks| && (n == |chunks| || chunks[n] == "")
    requires forall j :: 0 <= j < n ==> chunks[j] != ""
    ensures BlobText(chunks) == Concat(chunks[..n])
  {
    if n > 0 {
      BlobTextIsPrefixConcat(chunks[1..], n - 1);
      assert chunks[1..][..n - 1] == chunks[..n][1..];
    }
  }

  /** The chunk loop of getDescription: read until a read comes back empty,
      appending every chunk. */
  method ReadBlob(chunks: seq<string>) returns (text: string)
    ensures text == BlobText(chunks)
  {
    text := "";
    var i := 0;
    while i < |chunks| && chunks[i] != ""
      invariant 0 <= i <= |chunks|
      invariant text + BlobText(chunks[i..]) == BlobText(chunks)
    {
      assert chunks[i..][1..] == chunks[i + 1..];
      text := text + chunks[i];
      i := i + 1;
    }
  }

  /** What getDescription caches for an answer. */
  function CachedText(answer: DescriptionRead): string
  {
    match answer
    case FailsBeforeFetch(_) => ""
    case NullValue => ""
    case Chunks(chunks) => BlobText(chunks)
    case FailsMidStream(chunks, _) => BlobText(chunks)
  }

  /** What getDescription returns for an answer: the text, or the error
      message in its place. */
  function Reply(answer: DescriptionRead): string
  {
    match answer
    case FailsBeforeFetch(e) => e
    case NullValue => ""
    case Chunks(chunks) => BlobText(chunks)
    case FailsMidStream(_, e) => e
  }

  /** The keys the description statements bind after the value: the
      node's name, and for a column or parameter the name of the relation
      or procedure that owns it. */
  function DescriptionKeys(f: Forest, id: NodeId): (r: seq<string>)
    requires id in f && (KeyedByContainer(f[id].kind) ==> f[id].parent.Some? && f[id].parent.value in f)
    ensures 1 <= |r| <= 2 && r[0] == f[id].name
    ensures |r| == 2 <==> KeyedByContainer(f[id].kind)
    ensures |r| == 2 ==> r[1] == f[f[id].parent.value].name
  {
    if KeyedByContainer(f[id].kind) then [f[id].name, f[f[id].parent.value].name] else [f[id].name]
  }

  /** A node with a database and a description statement can be described. */
  predicate Describable(f: Forest, id: NodeId)
    requires WellFormed(f) && id in f
  {
    DatabaseOf(f, id).Some? && DescriptionSql(f[id].kind) != ""
  }

  // ---------------------------------------------------------------------
  // The catalog's side of getDependencies

  /** What one catalog query delivers: some rows, then possibly an error. */
  datatype Answer<R> = Answer(rows: seq<R>, failure: Option<string>)

  /** The answers of the dependency query, of the query for referencing
      foreign keys, and of the final commit. */
  datatype DependencyCatalog = DependencyCatalog(
    dependencyRows: Answer<DepRow>,
    referencingRows: Answer<RefRow>,
    commitFailure: Option<string>)

  /** The queries getDependencies sends: RDB$DEPENDENCIES filtered by the
      node's type code and name (selecting what it depends on when
      ofObject, what depends on it otherwise), and the query for foreign
      keys of other tables that reference a table. */
  datatype CatalogQuery =
    | DependencyQuery(ofObject: bool, typeCode: int, name: string)
    | ReferencingKeysQuery(name: string)

  function Committed(catalog: DependencyCatalog): Outcome<string>
  {
    match catalog.commitFailure
    case None => Pass
    case Some(e) => Fail(e)
  }

  // ---------------------------------------------------------------------
  // The tree

  class Tree {
    /** Every node, by id. */
    var nodes: Forest
    /** The nodes notify() was called on, in call order. */
    var notified: seq<NodeId>
    /** The nodes drop() was called on, in call order. */
    var dropped: seq<NodeId>

    /** The parent links are consistent, and a node whose description is
        not loaded caches nothing. */
    ghost predicate Valid()
      reads this
    {
      && WellFormed(nodes)
      && forall x :: x in nodes && !nodes[x].descriptionLoaded ==> nodes[x].description == ""
    }

    constructor()
      ensures Valid() && nodes == map[] && notified == [] && dropped == []
    {
      nodes := map[];
      notified := [];
      dropped := [];
    }

    /** The node constructor: no parent, kind Unknown, description not
        loaded. The subclass being constructed supplies its type name and,
        if it overrides getItemPath, its own item path. */
    method AddNode(id: NodeId, typeName: string, ownItemPath: Option<string>)
      requires Valid() && id !in nodes
      modifies this
      ensures Valid()
      ensures nodes == old(nodes)[id := Detached.(typeName := typeName, ownItemPath := ownItemPath)]
      ensures nodes[id].kind == Unknown && nodes[id].parent.None? && !nodes[id].descriptionLoaded
      ensures notified == old(notified) && dropped == old(dropped)
    {
      nodes := nodes[id := Detached.(typeName := typeName, ownItemPath := ownItemPath)];
      forall x | x in nodes
        ensures Linked(nodes, x)
      {
        if x != id {
          assert Linked(old(nodes), x);
        }
      }
    }

    /** setParent, for a node that is not yet in the tree (no parent, no
        children); the collection that takes the node in lists it as its
        last child. */
    method SetParent(id: NodeId, p: NodeId)
      requires Valid() && id in nodes && p in nodes && id != p
      requires nodes[id].parent.None? && nodes[id].children == []
      modifies this
      ensures Valid()
      ensures nodes == old(nodes)
        [id := old(nodes)[id].(parent := Some(p), depth := old(nodes)[p].depth + 1)]
        [p := old(nodes)[p].(children := old(nodes)[p].children + [id])]
      ensures notified == old(notified) && dropped == old(dropped)
    {
      AttachKeepsWellFormed(nodes, id, p);
      nodes := Attach(nodes, id, p);
    }

    /** setName: the name without its trailing blanks; observers are
        notified; nothing else changes. */
    method SetName(id: NodeId, name: string)
      requires Valid() && id in nodes
      modifies this
      ensures Valid()
      ensures nodes == old(nodes)[id := old(nodes)[id].(name := RightTrim(name))]
      ensures notified == old(notified) + [id] && dropped == old(dropped)
    {
      RelabelKeepsWellFormed(nodes, id, nodes[id].(name := RightTrim(name)));
      nodes := nodes[id := nodes[id].(name := RightTrim(name))];
      notified := notified + [id];
    }

    /** setType: only the kind changes, and nobody is notified. */
    method SetType(id: NodeId, kind: NodeKind)
      requires Valid() && id in nodes
      modifies this
      ensures Valid()
      ensures nodes == old(nodes)[id := old(nodes)[id].(kind := kind)]
      ensures notified == old(notified) && dropped == old(dropped)
    {
      RelabelKeepsWellFormed(nodes, id, nodes[id].(kind := kind));
      nodes := nodes[id := nodes[id].(kind := kind)];
    }

    /** drop: the call on id, then drop() on each child in turn. */
    method Drop(id: NodeId)
      requires Valid() && id in nodes
      modifies this`dropped
      ensures dropped == old(dropped) + DropOrder(nodes, id)
      decreases |nodes| - nodes[id].depth
    {
      DepthBound(nodes, id);
      dropped := dropped + [id];
      var children := nodes[id].children;
      for i := 0 to |children|
        invariant dropped + DropChildren(nodes, id, i) == old(dropped) + DropOrder(nodes, id)
      {
        DropChildrenStep(nodes, id, i);
        Drop(children[i]);
      }
    }

    /** getDescription: the cached text once loaded; "N/A" for a node with
        no database or a kind without a description statement; otherwise
        one query, whose answer is cached and returned. */
    method GetDescription(id: NodeId, answer: DescriptionRead)
      returns (text: string, query: Option<DescriptionQuery>)
      requires Valid() && id in nodes
      modifies this
      ensures Valid()
      ensures notified == old(notified) && dropped == old(dropped)
      ensures old(nodes)[id].descriptionLoaded ==>
        text == old(nodes)[id].description && query.None? && nodes == old(nodes)
      ensures !old(nodes)[id].descriptionLoaded && !Describable(old(nodes), id) ==>
        text == "N/A" && query.None? && nodes == old(nodes)
      ensures !old(nodes)[id].descriptionLoaded && Describable(old(nodes), id) ==>
        && query == Some(DescriptionQuery(DescriptionSql(old(nodes)[id].kind), DescriptionKeys(old(nodes), id)))
        && text == Reply(answer)
        && nodes == old(nodes)[id := old(nodes)[id].(
             description := CachedText(answer), descriptionLoaded := !answer.FailsBeforeFetch?)]
    {
      var n := nodes[id];
      if n.descriptionLoaded {
        return n.description, None;
      }
      var sql := DescriptionSql(n.kind);
      if DatabaseOf(nodes, id).None? || sql == "" {
        return "N/A", None;
      }
      assert Linked(nodes, id);
      var keys := [n.name];
      if KeyedByContainer(n.kind) {
        keys := keys + [nodes[n.parent.value].name];
      }
      assert keys == DescriptionKeys(nodes, id);
      query := Some(DescriptionQuery(sql, keys));
      // the cached text is cleared before the query and stays clear if it fails
      var desc := "";
      var loaded := false;
      match answer {
        case FailsBeforeFetch(e) =>
          text := e;
        case NullValue =>
          loaded := true;
          text := "";
        case Chunks(chunks) =>
          loaded := true;
          desc := ReadBlob(chunks);
          text := desc;
        case FailsMidStream(chunks, e) =>
          loaded := true;
          desc := ReadBlob(chunks);
          text := e;
      }
      RelabelKeepsWellFormed(nodes, id, n.(description := desc, descriptionLoaded := loaded));
      nodes := nodes[id := n.(description := desc, descriptionLoaded := loaded)];
    }

    /** setDescription: fails quietly without a database and with a message
        for a kind without an update statement; otherwise sends the update
        (empty text as null) and, unless it fails, caches the text as
        loaded and notifies. */
    method SetDescription(id: NodeId, description: string, failure: Option<string>)
      returns (status: Outcome<Option<string>>, update: Option<DescriptionUpdate>)
      requires Valid() && id in nodes
      modifies this
      ensures Valid() && dropped == old(dropped)
      ensures DatabaseOf(old(nodes), id).None? ==>
        status == Fail(None) && update.None? && nodes == old(nodes) && notified == old(notified)
      ensures DatabaseOf(old(nodes), id).Some? && ChangeDescriptionSql(old(nodes)[id].kind) == "" ==>
        && status == Fail(Some("The object does not support descriptions"))
        && update.None? && nodes == old(nodes) && notified == old(notified)
      ensures DatabaseOf(old(nodes), id).Some? && ChangeDescriptionSql(old(nodes)[id].kind) != "" ==>
        && update == Some(DescriptionUpdate(ChangeDescriptionSql(old(nodes)[id].kind),
                                            if description == "" then None else Some(description),
                                            DescriptionKeys(old(nodes), id)))
        && (failure.Some? ==> status == Fail(failure) && nodes == old(nodes) && notified == old(notified))
        && (failure.None? ==>
             && status == Pass
             && nodes == old(nodes)[id := old(nodes)[id].(description := description, descriptionLoaded := true)]
             && notified == old(notified) + [id])
    {
      update := None;
      if DatabaseOf(nodes, id).None? {
        return Fail(None), None;
      }
      var n := nodes[id];
      var sql := ChangeDescriptionSql(n.kind);
      if sql == "" {
        return Fail(Some("The object does not support descriptions")), None;
      }
      assert Linked(nodes, id);
      var value: Option<string> := if description != "" then Some(description) else None;
      var keys := [n.name];
      if KeyedByContainer(n.kind) {
        keys := keys + [nodes[n.parent.value].name];
      }
      assert keys == DescriptionKeys(nodes, id);
      update := Some(DescriptionUpdate(sql, value, keys));
      if failure.Some? {
        return Fail(failure), update;
      }
      RelabelKeepsWellFormed(nodes, id, n.(descriptionLoaded := true, description := description));
      nodes := nodes[id := n.(descriptionLoaded := true, description := description)];
      notified := notified + [id];
      status := Pass;
    }

    /** getDependencies: fails before any query without a database or for a
        kind with no dependency type code; otherwise groups the rows of the
        dependency query, then adds a table's own foreign keys (ofObject) or
        the foreign keys that reference it (not ofObject), and commits. A
        failure keeps the entries already added. */
    method GetDependencies(id: NodeId, list: seq<Dependency>, ofObject: bool, lookup: Lookup,
                           foreignKeys: seq<ForeignKey>, catalog: DependencyCatalog)
      returns (status: Outcome<string>, result: seq<Dependency>, queries: seq<CatalogQuery>)
      requires Valid() && id in nodes
      ensures DatabaseOf(nodes, id).None? ==>
        status == Fail("Database not set") && result == list && queries == []
      ensures DatabaseOf(nodes, id).Some? && !HasOrdinal(nodes[id].kind) ==>
        status == Fail("Unsupported type") && result == list && queries == []
      ensures DatabaseOf(nodes, id).Some? && HasOrdinal(nodes[id].kind) ==>
        var n := nodes[id];
        var grouped := list + Grouped(catalog.dependencyRows.rows, lookup);
        && queries != [] && queries[0] == DependencyQuery(ofObject, OrdinalOf(n.kind), n.name)
        && (catalog.dependencyRows.failure.Some? ==>
              status == Fail(catalog.dependencyRows.failure.value) && result == grouped && |queries| == 1)
        && (catalog.dependencyRows.failure.None? && n.kind == Table && ofObject ==>
              var fk := ForeignKeyEntries(foreignKeys, lookup);
              && result == grouped + fk.0 && |queries| == 1
              && status == if fk.1.Some? then Fail(fk.1.value) else Committed(catalog))
        && (catalog.dependencyRows.failure.None? && n.kind == Table && !ofObject ==>
              && result == grouped + ReferencingFold(catalog.referencingRows.rows, lookup).entries
              && queries == [queries[0], ReferencingKeysQuery(n.name)]
              && status == if catalog.referencingRows.failure.Some?
                           then Fail(catalog.referencingRows.failure.value) else Committed(catalog))
        && (catalog.dependencyRows.failure.None? && n.kind != Table ==>
              result == grouped && |queries| == 1 && status == Committed(catalog))
    {
      result := list;
      queries := [];
      if DatabaseOf(nodes, id).None? {
        return Fail("Database not set"), result, queries;
      }
      var n := nodes[id];
      var mytype := ComputeOrdinal(n.kind);
      if n.kind == Unknown || mytype == -1 {
        return Fail("Unsupported type"), result, queries;
      }
      queries := [DependencyQuery(ofObject, mytype, n.name)];
      result := CollectDependencyRows(result, catalog.dependencyRows.rows, lookup);
      if catalog.dependencyRows.failure.Some? {
        return Fail(catalog.dependencyRows.failure.value), result, queries;
      }
      if n.kind == Table && ofObject {
        var fkStatus;
        fkStatus, result := AppendForeignKeys(result, foreignKeys, lookup);
        if fkStatus.Fail? {
          return fkStatus, result, queries;
        }
      }
      if n.kind == Table && !ofObject {
        queries := queries + [ReferencingKeysQuery(n.name)];
        result := CollectReferencingRows(result, catalog.referencingRows.rows, lookup);
        if catalog.referencingRows.failure.Some? {
          return Fail(catalog.referencingRows.failure.value), result, queries;
        }
      }
      status := Committed(catalog);
    }
  }
}
