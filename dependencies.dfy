/** Dependency resolution: the rows of the catalog's dependency query are
    resolved to nodes and grouped by adjacency; a table's foreign keys, and
    the foreign keys of other tables that reference it, add further
    entries. The catalog's answers and the tree's name lookup are inputs. */
module Dependencies {
  import opened Wrappers
  import opened Text
  import opened NodeKinds
  import opened Forest

  /** One object this node depends on (or that depends on it), with the
      fields the dependency goes through (empty for the whole object). */
  datatype Dependency = Dependency(target: NodeId, fields: seq<string>)

  /** A row of the RDB$DEPENDENCIES query: the other side's type code and
      name, and RDB$FIELD_NAME, which may be null. */
  datatype DepRow = DepRow(otherType: int, otherName: string, fieldName: Option<string>)

  /** A row of the query for foreign keys of other tables that reference
      this one: the referencing table and one of its key columns. */
  datatype RefRow = RefRow(relationName: string, fieldName: string)

  /** A foreign key of a table: the table it references and the referenced
      column list. */
  datatype ForeignKey = ForeignKey(referencedTable: string, referencedColumns: seq<string>)

  /** findByNameAndType on the owning database. */
  type Lookup = (NodeKind, string) -> Option<NodeId>

  function Targets(deps: seq<Dependency>): (r: seq<NodeId>)
    ensures |r| == |deps| && forall i :: 0 <= i < |deps| ==> r[i] == deps[i].target
  {
    if deps == [] then [] else Targets(deps[..|deps| - 1]) + [deps[|deps| - 1].target]
  }

  /** All field names of a list of dependencies, entry after entry. */
  function AllFields(deps: seq<Dependency>): seq<string>
  {
    if deps == [] then [] else AllFields(deps[..|deps| - 1]) + deps[|deps| - 1].fields
  }

  function LastTarget(deps: seq<Dependency>): Option<NodeId>
  {
    if deps == [] then None else Some(deps[|deps| - 1].target)
  }

  /** Dependency::addField on the entry last pushed. */
  function AddField(deps: seq<Dependency>, field: string): (r: seq<Dependency>)
    requires deps != []
    ensures |r| == |deps| && r[..|r| - 1] == deps[..|deps| - 1]
    ensures r[|r| - 1] == Dependency(deps[|deps| - 1].target, deps[|deps| - 1].fields + [field])
  {
    deps[..|deps| - 1] + [deps[|deps| - 1].(fields := deps[|deps| - 1].fields + [field])]
  }

  lemma AddFieldKeepsTargets(deps: seq<Dependency>, field: string)
    requires deps != []
    ensures Targets(AddField(deps, field)) == Targets(deps)
    ensures AllFields(AddField(deps, field)) == AllFields(deps) + [field]
  {
    var r := AddField(deps, field);
    assert r[..|r| - 1] == deps[..|deps| - 1];
  }

  lemma AddFieldAfterPrefix(prefix: seq<Dependency>, deps: seq<Dependency>, field: string)
    requires deps != []
    ensures AddField(prefix + deps, field) == prefix + AddField(deps, field)
  {
    assert (prefix + deps)[..|prefix + deps| - 1] == prefix + deps[..|deps| - 1];
  }

  // ---------------------------------------------------------------------
  // Rows of the dependency table

  /** The node a row stands for, or None when the row is skipped: a type
      code outside the ordinal table or mapped to Unknown, or a name the
      tree does not know. A row of kind Table that is not found is looked
      up again as a View. */
  function Resolve(row: DepRow, lookup: Lookup): (r: Option<NodeId>)
    ensures r.Some? ==> InOrdinalRange(row.otherType) && DepTypes[row.otherType] != Unknown
  {
    if !InOrdinalRange(row.otherType) then None
    else
      var t := DepTypes[row.otherType];
      var name := RightTrim(row.otherName);
      if t == Unknown then None
      else if lookup(t, name).Some? then lookup(t, name)
      else if t == Table then lookup(View, name)
      else None
  }

  /** The view fallback applies to Table rows only; other kinds are looked
      up under their own kind and nothing else. */
  lemma ResolveFallback(row: DepRow, lookup: Lookup)
    requires InOrdinalRange(row.otherType) && DepTypes[row.otherType] != Unknown
    ensures var t := DepTypes[row.otherType];
      var name := RightTrim(row.otherName);
      Resolve(row, lookup) ==
        if t == Table && lookup(Table, name).None? then lookup(View, name) else lookup(t, name)
  {
  }

  /** Codes past the table (such as 16) or mapped to Unknown are skipped
      whatever the lookup answers. */
  lemma UntrackedCodesSkipped(row: DepRow, lookup: Lookup)
    requires !InOrdinalRange(row.otherType) || DepTypes[row.otherType] == Unknown
    ensures Resolve(row, lookup) == None
  {
  }

  /** The trimmed field name of a row, unless it is null. */
  function RowField(row: DepRow): Option<string>
  {
    match row.fieldName
    case None => None
    case Some(f) => Some(RightTrim(f))
  }

  /** What the row loop of getDependencies appends: a new entry whenever a
      resolved row's target differs from the previous resolved row's, and
      each non-null field name added to the current entry. */
  function Grouped(rows: seq<DepRow>, lookup: Lookup): seq<Dependency>
  {
    if rows == [] then []
    else GroupStep(Grouped(rows[..|rows| - 1], lookup), rows[|rows| - 1], lookup)
  }

  /** One pass of the row loop over the entries g built so far. */
  function GroupStep(g: seq<Dependency>, row: DepRow, lookup: Lookup): seq<Dependency>
  {
    match Resolve(row, lookup)
    case None => g
    case Some(t) =>
      var grown := if LastTarget(g) == Some(t) then g else g + [Dependency(t, [])];
      match RowField(row)
      case None => grown
      case Some(f) => AddField(grown, f)
  }

  /** The targets of the rows that are not skipped, in row order. */
  function Resolved(rows: seq<DepRow>, lookup: Lookup): seq<NodeId>
  {
    if rows == [] then []
    else
      var row := rows[|rows| - 1];
      match Resolve(row, lookup)
      case None => Resolved(rows[..|rows| - 1], lookup)
      case Some(t) => Resolved(rows[..|rows| - 1], lookup) + [t]
  }

  /** The trimmed non-null field names of the rows that are not skipped. */
  function KeptFields(rows: seq<DepRow>, lookup: Lookup): seq<string>
  {
    if rows == [] then []
    else
      var row := rows[|rows| - 1];
      if Resolve(row, lookup).Some? && RowField(row).Some?
      then KeptFields(rows[..|rows| - 1], lookup) + [RowField(row).value]
      else KeptFields(rows[..|rows| - 1], lookup)
  }

  /** A sequence with every run of equal adjacent elements cut to one. */
  function Collapse(s: seq<NodeId>): (r: seq<NodeId>)
    ensures |r| <= |s|
    ensures s != [] ==> r != [] && r[0] == s[0] && r[|r| - 1] == s[|s| - 1]
    ensures forall i :: 0 <= i < |r| - 1 ==> r[i] != r[i + 1]
    ensures forall x :: x in r <==> x in s
  {
    if |s| <= 1 then s
    else if s[0] == s[1] then Collapse(s[1..])
    else [s[0]] + Collapse(s[1..])
  }

  lemma {:induction false} CollapseSnoc(s: seq<NodeId>, x: NodeId)
    ensures Collapse(s + [x]) ==
      if s != [] && s[|s| - 1] == x then Collapse(s) else Collapse(s) + [x]
  {
    if |s| == 1 {
      assert s + [x] == [s[0], x];
    } else if |s| > 1 {
      assert (s + [x])[1..] == s[1..] + [x];
      CollapseSnoc(s[1..], x);
    }
  }

  /** The entries' targets are exactly the resolved targets with adjacent
      repeats merged: one entry per run, none for a skipped row. */
  lemma {:induction false} GroupedTargets(rows: seq<DepRow>, lookup: Lookup)
    ensures Targets(Grouped(rows, lookup)) == Collapse(Resolved(rows, lookup))
  {
    if rows != [] {
      var p := rows[..|rows| - 1];
      GroupedTargets(p, lookup);
      GroupStepTargets(Grouped(p, lookup), rows[|rows| - 1], Resolved(p, lookup), lookup);
    }
  }

  /** One pass of the row loop keeps the targets the collapsed resolved
      targets. */
  lemma GroupStepTargets(g: seq<Dependency>, row: DepRow, res: seq<NodeId>, lookup: Lookup)
    requires Targets(g) == Collapse(res)
    ensures Targets(GroupStep(g, row, lookup)) ==
      match Resolve(row, lookup)
      case None => Collapse(res)
      case Some(t) => Collapse(res + [t])
  {
    match Resolve(row, lookup)
    case None =>
    case Some(t) =>
      CollapseSnoc(res, t);
      assert (LastTarget(g) == Some(t)) == (res != [] && res[|res| - 1] == t) by {
        assert |Targets(g)| == |g|;
      }
      var grown := if LastTarget(g) == Some(t) then g else g + [Dependency(t, [])];
      assert Targets(grown) == Collapse(res + [t]) by {
        if LastTarget(g) != Some(t) {
          assert (g + [Dependency(t, [])])[..|g|] == g;
        }
      }
      match RowField(row)
      case None =>
      case Some(f) => AddFieldKeepsTargets(grown, f);
  }

  /** Within one query's entries, two neighbours never share a target, and
      every target comes from some row that was not skipped. */
  lemma GroupedNeighboursDiffer(rows: seq<DepRow>, lookup: Lookup)
    ensures var g := Grouped(rows, lookup);
      && (forall i :: 0 <= i < |g| - 1 ==> g[i].target != g[i + 1].target)
      && (forall t :: t in Targets(g) <==> t in Resolved(rows, lookup))
  {
    GroupedTargets(rows, lookup);
  }

  /** Every non-null field name of a row that is not skipped lands in the
      entries, in row order, and nothing else does. */
  lemma {:induction false} GroupedFields(rows: seq<DepRow>, lookup: Lookup)
    ensures AllFields(Grouped(rows, lookup)) == KeptFields(rows, lookup)
  {
    if rows != [] {
      GroupedFields(rows[..|rows| - 1], lookup);
      GroupStepFields(Grouped(rows[..|rows| - 1], lookup), rows[|rows| - 1], lookup);
    }
  }

  /** One pass of the row loop adds the row's field name, if it keeps one. */
  lemma GroupStepFields(g: seq<Dependency>, row: DepRow, lookup: Lookup)
    ensures AllFields(GroupStep(g, row, lookup)) ==
      if Resolve(row, lookup).Some? && RowField(row).Some? then AllFields(g) + [RowField(row).value]
      else AllFields(g)
  {
    match Resolve(row, lookup)
    case None =>
    case Some(t) =>
      var grown := if LastTarget(g) == Some(t) then g else g + [Dependency(t, [])];
      assert AllFields(grown) == AllFields(g) by {
        if LastTarget(g) != Some(t) {
          assert (g + [Dependency(t, [])])[..|g|] == g;
        }
      }
      match RowField(row)
      case None =>
      case Some(f) => AddFieldKeepsTargets(grown, f);
  }

  /** A skipped row does not reset the grouping: removing it changes
      nothing, so the rows on either side of it still merge. */
  lemma {:induction false} SkippedRowTransparent(a: seq<DepRow>, row: DepRow, b: seq<DepRow>, lookup: Lookup)
    requires Resolve(row, lookup) == None
    ensures Grouped(a + [row] + b, lookup) == Grouped(a + b, lookup)
  {
    if b == [] {
      assert a + [row] + b == a + [row] && a + b == a;
      GroupedSnoc(a, row, lookup);
    } else {
      var b', last := b[..|b| - 1], b[|b| - 1];
      SkippedRowTransparent(a, row, b', lookup);
      assert a + [row] + b == (a + [row] + b') + [last];
      assert a + b == (a + b') + [last];
      GroupedSnoc(a + [row] + b', last, lookup);
      GroupedSnoc(a + b', last, lookup);
    }
  }

  /** Appending a row is one more pass of the loop. */
  lemma GroupedSnoc(p: seq<DepRow>, row: DepRow, lookup: Lookup)
    ensures Grouped(p + [row], lookup) == GroupStep(Grouped(p, lookup), row, lookup)
  {
    assert (p + [row])[..|p|] == p;
  }

  /** Two adjacent rows for the same target with field names become one
      entry holding both fields in row order. */
  lemma AdjacentRowsMerge(r1: DepRow, r2: DepRow, t: NodeId, f1: string, f2: string, lookup: Lookup)
    requires Resolve(r1, lookup) == Some(t) && Resolve(r2, lookup) == Some(t)
    requires RowField(r1) == Some(f1) && RowField(r2) == Some(f2)
    ensures Grouped([r1, r2], lookup) == [Dependency(t, [f1, f2])]
  {
    GroupedSnoc([], r1, lookup);
    GroupStepField([], r1, t, f1, lookup);
    var g1 := [Dependency(t, [f1])];
    assert AddField([] + [Dependency(t, [])], f1) == g1 by {
      assert ([] + [Dependency(t, [])])[..0] == [] && [] + [f1] == [f1];
    }
    assert [] + [r1] == [r1];
    GroupedSnoc([r1], r2, lookup);
    GroupStepField(g1, r2, t, f2, lookup);
    assert AddField(g1, f2) == [Dependency(t, [f1, f2])] by {
      assert g1[..0] == [] && [f1] + [f2] == [f1, f2];
    }
    assert [r1] + [r2] == [r1, r2];
  }

  /** One pass for a resolved row with a field name: it extends the last
      entry when that has the row's target, and otherwise opens one. */
  lemma GroupStepField(g: seq<Dependency>, row: DepRow, t: NodeId, f: string, lookup: Lookup)
    requires Resolve(row, lookup) == Some(t) && RowField(row) == Some(f)
    ensures GroupStep(g, row, lookup) ==
      if LastTarget(g) == Some(t) then AddField(g, f) else AddField(g + [Dependency(t, [])], f)
  {
  }

  /** The trimmed forms of the padded names used below. */
  lemma PaddedNamesTrim()
    ensures RightTrim("T ") == "T" && RightTrim("T") == "T"
    ensures RightTrim("B  ") == "B" && RightTrim("A") == "A"
  {
    RightTrimUnique("T ", "T");
    RightTrimUnique("B  ", "B");
  }

  /** The same for catalog rows padded with blanks: rows naming table "T"
      with fields "A" and "B  " give the one entry (7, ["A", "B"]). */
  lemma MergeExample(lookup: Lookup)
    requires lookup(Table, "T") == Some(7)
    ensures Grouped([DepRow(0, "T ", Some("A")), DepRow(0, "T", Some("B  "))], lookup)
      == [Dependency(7, ["A", "B"])]
  {
    var r1, r2 := DepRow(0, "T ", Some("A")), DepRow(0, "T", Some("B  "));
    PaddedNamesTrim();
    assert Resolve(r1, lookup) == Some(7) && Resolve(r2, lookup) == Some(7) by {
      assert DepTypes[0] == Table;
    }
    assert RowField(r1) == Some("A") && RowField(r2) == Some("B");
    AdjacentRowsMerge(r1, r2, 7, "A", "B", lookup);
  }

  /** Adjacency grouping does not give one entry per target: in query
      order (type code, then name), a view listed under the table code and
      the same view listed under its own code are two runs apart, so the
      view gets two entries. */
  lemma FallbackCanRepeatTarget(v: string, w: string, a: NodeId, b: NodeId, lookup: Lookup)
    requires lookup(Table, RightTrim(v)).None? && lookup(View, RightTrim(v)) == Some(a)
    requires lookup(Table, RightTrim(w)) == Some(b) && a != b
    ensures Targets(Grouped([DepRow(0, v, None), DepRow(0, w, None), DepRow(1, v, None)], lookup)) == [a, b, a]
  {
    var r0, r1, r2 := DepRow(0, v, None), DepRow(0, w, None), DepRow(1, v, None);
    assert DepTypes[0] == Table && DepTypes[1] == View;
    AlternatingTargets(r0, r1, r2, a, b, lookup);
  }

  /** Three field-less rows whose targets alternate give three entries. */
  lemma AlternatingTargets(r0: DepRow, r1: DepRow, r2: DepRow, a: NodeId, b: NodeId, lookup: Lookup)
    requires Resolve(r0, lookup) == Some(a) && Resolve(r1, lookup) == Some(b) && Resolve(r2, lookup) == Some(a)
    requires r0.fieldName.None? && r1.fieldName.None? && r2.fieldName.None? && a != b
    ensures Targets(Grouped([r0, r1, r2], lookup)) == [a, b, a]
  {
    var g1 := [Dependency(a, [])];
    var g2 := g1 + [Dependency(b, [])];
    var g3 := g2 + [Dependency(a, [])];
    assert Grouped([r0], lookup) == g1 by {
      GroupedSnoc([], r0, lookup);
      GroupStepOpen([], r0, a, lookup);
      assert [] + [r0] == [r0] && [] + [Dependency(a, [])] == g1;
    }
    assert Grouped([r0, r1], lookup) == g2 by {
      GroupedSnoc([r0], r1, lookup);
      GroupStepOpen(g1, r1, b, lookup);
      assert [r0] + [r1] == [r0, r1];
    }
    assert Grouped([r0, r1, r2], lookup) == g3 by {
      GroupedSnoc([r0, r1], r2, lookup);
      GroupStepOpen(g2, r2, a, lookup);
      assert [r0, r1] + [r2] == [r0, r1, r2];
    }
    var ts := Targets(g3);
    assert |ts| == 3 && ts[0] == a && ts[1] == b && ts[2] == a;
  }

  /** One pass for a resolved row with a null field name whose target
      differs from the last entry's: it opens an empty entry. */
  lemma GroupStepOpen(g: seq<Dependency>, row: DepRow, t: NodeId, lookup: Lookup)
    requires Resolve(row, lookup) == Some(t) && row.fieldName.None? && LastTarget(g) != Some(t)
    ensures GroupStep(g, row, lookup) == g + [Dependency(t, [])]
  {
  }

  /** Appending a row adds its target to Resolved and its field name to
      KeptFields when it is not skipped. */
  lemma RowsSnoc(p: seq<DepRow>, row: DepRow, lookup: Lookup)
    ensures Resolved(p + [row], lookup) ==
      if Resolve(row, lookup).Some? then Resolved(p, lookup) + [Resolve(row, lookup).value] else Resolved(p, lookup)
    ensures KeptFields(p + [row], lookup) ==
      if Resolve(row, lookup).Some? && RowField(row).Some? then KeptFields(p, lookup) + [RowField(row).value]
      else KeptFields(p, lookup)
  {
    assert (p + [row])[..|p|] == p;
  }

  /** Rows none of which resolves leave the entries as they are and keep
      no field name. */
  lemma {:induction false} SkippedRunTransparent(a: seq<DepRow>, b: seq<DepRow>, lookup: Lookup)
    requires Resolved(b, lookup) == []
    ensures Grouped(a + b, lookup) == Grouped(a, lookup)
    ensures KeptFields(b, lookup) == []
  {
    if b != [] {
      var b', row := b[..|b| - 1], b[|b| - 1];
      assert b == b' + [row];
      RowsSnoc(b', row, lookup);
      SkippedRunTransparent(a, b', lookup);
      assert a + b == (a + b') + [row];
      GroupedSnoc(a + b', row, lookup);
    } else {
      assert a + b == a;
    }
  }

  /** The first resolved row of a run opens the run's entry. */
  lemma GroupStepFirst(g: seq<Dependency>, row: DepRow, t: NodeId, lookup: Lookup)
    requires Resolve(row, lookup) == Some(t) && LastTarget(g) != Some(t)
    ensures GroupStep(g, row, lookup) ==
      g + [Dependency(t, if RowField(row).Some? then [RowField(row).value] else [])]
  {
    match RowField(row)
    case None =>
    case Some(f) =>
      var grown := g + [Dependency(t, [])];
      assert AddField(grown, f) == g + [Dependency(t, [f])] by {
        assert grown[..|g|] == g && [] + [f] == [f];
      }
  }

  /** A later row of the run extends the open entry, or is skipped. */
  lemma GroupStepExtend(g: seq<Dependency>, fs: seq<string>, row: DepRow, t: NodeId, lookup: Lookup)
    requires Resolve(row, lookup).Some? ==> Resolve(row, lookup) == Some(t)
    ensures GroupStep(g + [Dependency(t, fs)], row, lookup) ==
      g + [Dependency(t, if Resolve(row, lookup).Some? && RowField(row).Some? then fs + [RowField(row).value] else fs)]
  {
    var g' := g + [Dependency(t, fs)];
    assert LastTarget(g') == Some(t);
    if Resolve(row, lookup).Some? && RowField(row).Some? {
      assert AddField(g', RowField(row).value)[..|g|] == g;
    }
  }

  /** A run of rows whose resolved rows (there is at least one) all stand
      for the same node t, read after entries that do not end with t,
      becomes exactly one new entry: target t, holding the run's kept field
      names in row order. Applied run after run this gives every entry of
      Grouped(rows) its target and its fields. */
  lemma {:induction false} GroupedRun(a: seq<DepRow>, b: seq<DepRow>, t: NodeId, lookup: Lookup)
    requires Resolved(b, lookup) != [] && forall x :: x in Resolved(b, lookup) ==> x == t
    requires LastTarget(Grouped(a, lookup)) != Some(t)
    ensures Grouped(a + b, lookup) == Grouped(a, lookup) + [Dependency(t, KeptFields(b, lookup))]
  {
    var b', row := b[..|b| - 1], b[|b| - 1];
    RunLast(b, t, lookup);
    assert a + b == (a + b') + [row];
    GroupedSnoc(a + b', row, lookup);
    if Resolved(b', lookup) == [] {
      SkippedRunTransparent(a, b', lookup);
      GroupStepFirst(Grouped(a, lookup), row, t, lookup);
    } else {
      GroupedRun(a, b', t, lookup);
      GroupStepExtend(Grouped(a, lookup), KeptFields(b', lookup), row, t, lookup);
    }
  }

  /** The last row of a run with target t: if it resolves, it is to t; it is
      the first resolved row when none before it resolves; and it adds its
      field name to KeptFields when it is kept. */
  lemma RunLast(b: seq<DepRow>, t: NodeId, lookup: Lookup)
    requires Resolved(b, lookup) != [] && forall x :: x in Resolved(b, lookup) ==> x == t
    ensures var b', row := b[..|b| - 1], b[|b| - 1];
      && (Resolve(row, lookup).Some? ==> Resolve(row, lookup) == Some(t))
      && (Resolved(b', lookup) == [] ==> Resolve(row, lookup) == Some(t))
      && (forall x :: x in Resolved(b', lookup) ==> x == t)
      && KeptFields(b, lookup) ==
        if Resolve(row, lookup).Some? && RowField(row).Some? then KeptFields(b', lookup) + [RowField(row).value]
        else KeptFields(b', lookup)
  {
    var b', row := b[..|b| - 1], b[|b| - 1];
    match Resolve(row, lookup)
    case None =>
      assert Resolved(b, lookup) == Resolved(b', lookup);
    case Some(u) =>
      assert Resolved(b, lookup) == Resolved(b', lookup) + [u];
      assert u in Resolved(b, lookup);
      assert forall x :: x in Resolved(b', lookup) ==> x in Resolved(b, lookup);
  }


  /** The lookups the row loop of getDependencies makes for one row. */
  method ResolveRow(row: DepRow, lookup: Lookup) returns (current: Option<NodeId>)
    ensures current == Resolve(row, lookup)
  {
    current := None;
    if !InOrdinalRange(row.otherType) {
      return;
    }
    var t := DepTypes[row.otherType];
    if t == Unknown {
      return;
    }
    var objectName := RightTrim(row.otherName);
    current := lookup(t, objectName);
    if current.None? && t == Table {
      current := lookup(View, objectName);
    }
  }

  /** The row loop of getDependencies (the `last`/`dep` cursor): the
      entries it appends are Grouped(rows). */
  method CollectDependencyRows(list: seq<Dependency>, rows: seq<DepRow>, lookup: Lookup)
    returns (result: seq<Dependency>)
    ensures result == list + Grouped(rows, lookup)
  {
    result := list;
    var last: Option<NodeId> := None;
    for i := 0 to |rows|
      invariant result == list + Grouped(rows[..i], lookup)
      invariant last == LastTarget(Grouped(rows[..i], lookup))
    {
      assert rows[..i + 1][..i] == rows[..i];
      var row := rows[i];
      var current := ResolveRow(row, lookup);
      if current.None? {
        continue;
      }
      ghost var g := Grouped(rows[..i], lookup);
      ghost var grown := if last == current then g else g + [Dependency(current.value, [])];
      if current != last {
        result := result + [Dependency(current.value, [])];
        last := current;
      }
      assert result == list + grown && LastTarget(grown) == current;
      if row.fieldName.Some? {
        AddFieldAfterPrefix(list, grown, RightTrim(row.fieldName.value));
        result := AddField(result, RightTrim(row.fieldName.value));
      }
    }
    assert rows[..|rows|] == rows;
  }

  // ---------------------------------------------------------------------
  // Foreign keys of this table

  /** The entries a table's foreign keys add, one per key in key order, up
      to the first key whose referenced table the tree does not know; the
      error names that table. */
  function ForeignKeyEntries(fks: seq<ForeignKey>, lookup: Lookup): (r: (seq<Dependency>, Option<string>))
    ensures |r.0| <= |fks|
    ensures r.1.None? <==> |r.0| == |fks|
    ensures forall i :: 0 <= i < |r.0| ==>
      lookup(Table, fks[i].referencedTable) == Some(r.0[i].target) && r.0[i].fields == fks[i].referencedColumns
    ensures r.1.Some? ==>
      (lookup(Table, fks[|r.0|].referencedTable).None? &&
       r.1.value == "Table " + fks[|r.0|].referencedTable + " not found.")
  {
    if fks == [] then ([], None)
    else
      match lookup(Table, fks[0].referencedTable)
      case None => ([], Some("Table " + fks[0].referencedTable + " not found."))
      case Some(t) =>
        var rest := ForeignKeyEntries(fks[1..], lookup);
        ([Dependency(t, fks[0].referencedColumns)] + rest.0, rest.1)
  }

  /** The foreign-key loop of getDependencies: each key appends one entry,
      never merged with what is already in the list. */
  method AppendForeignKeys(list: seq<Dependency>, fks: seq<ForeignKey>, lookup: Lookup)
    returns (status: Outcome<string>, result: seq<Dependency>)
    ensures result == list + ForeignKeyEntries(fks, lookup).0
    ensures status == match ForeignKeyEntries(fks, lookup).1
      case None => Pass
      case Some(e) => Fail(e)
  {
    result := list;
    for i := 0 to |fks|
      invariant result + ForeignKeyEntries(fks[i..], lookup).0 == list + ForeignKeyEntries(fks, lookup).0
      invariant ForeignKeyEntries(fks[i..], lookup).1 == ForeignKeyEntries(fks, lookup).1
    {
      assert fks[i..][1..] == fks[i + 1..];
      var table := lookup(Table, fks[i].referencedTable);
      if table.None? {
        return Fail("Table " + fks[i].referencedTable + " not found."), result;
      }
      result := result + [Dependency(table.value, fks[i].referencedColumns)];
    }
    status := Pass;
  }

  // ---------------------------------------------------------------------
  // Foreign keys of other tables that reference this one

  /** The state of the referencing-key loop: the entries so far and the
      name of the table whose entry is open. */
  datatype RefCursor = RefCursor(entries: seq<Dependency>, last: Option<string>)

  /** The referencing-key loop, grouping consecutive rows of the same table
      name. The name is looked up only when it changes; a name the tree does
      not know is skipped and leaves the open entry open. */
  function ReferencingFold(rows: seq<RefRow>, lookup: Lookup): (r: RefCursor)
    ensures r.last.Some? ==> r.entries != []
    ensures |r.entries| <= |rows|
    ensures forall i :: 0 <= i < |r.entries| ==> r.entries[i].fields != []
  {
    if rows == [] then RefCursor([], None)
    else RefStep(ReferencingFold(rows[..|rows| - 1], lookup), rows[|rows| - 1], lookup)
  }

  /** One pass of the referencing-key loop. */
  function RefStep(c: RefCursor, row: RefRow, lookup: Lookup): (r: RefCursor)
    requires c.last.Some? ==> c.entries != []
    ensures r.last.Some? ==> r.entries != []
    ensures |c.entries| <= |r.entries| <= |c.entries| + 1
    ensures (forall i :: 0 <= i < |c.entries| ==> c.entries[i].fields != []) ==>
      forall i :: 0 <= i < |r.entries| ==> r.entries[i].fields != []
  {
    var name := RightTrim(row.relationName);
    var field := RightTrim(row.fieldName);
    if c.last != Some(name) then
      match lookup(Table, name)
      case None => c
      case Some(t) => RefCursor(c.entries + [Dependency(t, [field])], Some(name))
    else RefCursor(AddField(c.entries, field), c.last)
  }

  /** The trimmed column names of the referencing rows, in row order. */
  function FieldNames(rows: seq<RefRow>): (r: seq<string>)
    ensures |r| == |rows|
    ensures forall i :: 0 <= i < |rows| ==> r[i] == RightTrim(rows[i].fieldName)
  {
    if rows == [] then [] else FieldNames(rows[..|rows| - 1]) + [RightTrim(rows[|rows| - 1].fieldName)]
  }

  /** When every referencing table is known, every row's trimmed column
      name is in the entries, in row order. */
  lemma {:induction false} ReferencingKeepsAllFields(rows: seq<RefRow>, lookup: Lookup)
    requires forall i :: 0 <= i < |rows| ==> lookup(Table, RightTrim(rows[i].relationName)).Some?
    ensures AllFields(ReferencingFold(rows, lookup).entries) == FieldNames(rows)
  {
    if rows != [] {
      var p := rows[..|rows| - 1];
      ReferencingKeepsAllFields(p, lookup);
      RefStepFields(ReferencingFold(p, lookup), rows[|rows| - 1], lookup);
    }
  }

  /** A row whose table is known adds its column name to the fields. */
  lemma RefStepFields(c: RefCursor, row: RefRow, lookup: Lookup)
    requires c.last.Some? ==> c.entries != []
    requires lookup(Table, RightTrim(row.relationName)).Some?
    ensures AllFields(RefStep(c, row, lookup).entries) == AllFields(c.entries) + [RightTrim(row.fieldName)]
  {
    var field := RightTrim(row.fieldName);
    if c.last != Some(RightTrim(row.relationName)) {
      var t := lookup(Table, RightTrim(row.relationName)).value;
      assert (c.entries + [Dependency(t, [field])])[..|c.entries|] == c.entries;
    } else {
      AddFieldKeepsTargets(c.entries, field);
    }
  }

  /** One step of the fold: a row whose trimmed table name differs from the
      previous one and is found opens a new entry. */
  lemma ReferencingOpens(p: seq<RefRow>, row: RefRow, t: NodeId, lookup: Lookup)
    requires ReferencingFold(p, lookup).last != Some(RightTrim(row.relationName))
    requires lookup(Table, RightTrim(row.relationName)) == Some(t)
    ensures ReferencingFold(p + [row], lookup)
      == RefCursor(ReferencingFold(p, lookup).entries + [Dependency(t, [RightTrim(row.fieldName)])],
                   Some(RightTrim(row.relationName)))
  {
    assert (p + [row])[..|p|] == p;
  }

  /** One step of the fold: a row whose trimmed table name differs from the
      previous one and is not found is skipped; the open entry stays open. */
  lemma ReferencingSkips(p: seq<RefRow>, row: RefRow, lookup: Lookup)
    requires ReferencingFold(p, lookup).last != Some(RightTrim(row.relationName))
    requires lookup(Table, RightTrim(row.relationName)).None?
    ensures ReferencingFold(p + [row], lookup) == ReferencingFold(p, lookup)
  {
    assert (p + [row])[..|p|] == p;
  }

  /** A later row of a run adds its column name to the open entry. */
  lemma RefStepExtend(e: seq<Dependency>, t: NodeId, fs: seq<string>, name: string, row: RefRow, lookup: Lookup)
    requires RightTrim(row.relationName) == name
    ensures RefStep(RefCursor(e + [Dependency(t, fs)], Some(name)), row, lookup)
      == RefCursor(e + [Dependency(t, fs + [RightTrim(row.fieldName)])], Some(name))
  {
    assert AddField(e + [Dependency(t, fs)], RightTrim(row.fieldName))[..|e|] == e;
  }

  /** A run of rows of one known table, read when the open entry is not that
      table's, becomes exactly one new entry: the table, holding the run's
      trimmed column names in row order, and that entry stays open. */
  lemma {:induction false} ReferencingRun(p: seq<RefRow>, b: seq<RefRow>, name: string, t: NodeId, lookup: Lookup)
    requires b != [] && forall i :: 0 <= i < |b| ==> RightTrim(b[i].relationName) == name
    requires ReferencingFold(p, lookup).last != Some(name)
    requires lookup(Table, name) == Some(t)
    ensures ReferencingFold(p + b, lookup)
      == RefCursor(ReferencingFold(p, lookup).entries + [Dependency(t, FieldNames(b))], Some(name))
  {
    var b', row := b[..|b| - 1], b[|b| - 1];
    assert p + b == (p + b') + [row];
    RefSnoc(p + b', row, lookup);
    if b' == [] {
      assert p + b' == p;
      assert FieldNames(b) == [RightTrim(row.fieldName)];
    } else {
      ReferencingRun(p, b', name, t, lookup);
      RefStepExtend(ReferencingFold(p, lookup).entries, t, FieldNames(b'), name, row, lookup);
    }
  }

  /** Appending a row is one more pass of the referencing-key loop. */
  lemma RefSnoc(p: seq<RefRow>, row: RefRow, lookup: Lookup)
    ensures ReferencingFold(p + [row], lookup) == RefStep(ReferencingFold(p, lookup), row, lookup)
  {
    assert (p + [row])[..|p|] == p;
  }


  /** The query has no ORDER BY, so rows of one table need not be adjacent:
      after rows of table A, a row of table B and then another row of A
      open two more entries, so A is listed twice. */
  lemma UnorderedRowsRepeatTable(p: seq<RefRow>, tb: string, y: string, ta: string, z: string,
                                 a: NodeId, b: NodeId, lookup: Lookup)
    requires ReferencingFold(p, lookup).last == Some(RightTrim(ta))
    requires lookup(Table, RightTrim(ta)) == Some(a) && lookup(Table, RightTrim(tb)) == Some(b) && a != b
    ensures ReferencingFold(p + [RefRow(tb, y)] + [RefRow(ta, z)], lookup).entries
      == ReferencingFold(p, lookup).entries + [Dependency(b, [RightTrim(y)])] + [Dependency(a, [RightTrim(z)])]
  {
    ReferencingOpens(p, RefRow(tb, y), b, lookup);
    ReferencingOpens(p + [RefRow(tb, y)], RefRow(ta, z), a, lookup);
  }

  /** The referencing-key loop as written: the cursor starts as the empty
      name with no open entry, so a first row whose trimmed name is empty
      matches it and addField is called through a null pointer (None). */
  datatype RefCursorAsWritten = RefCursorAsWritten(entries: seq<Dependency>, lastTable: string, open: bool)

  function ReferencingFoldAsWritten(rows: seq<RefRow>, lookup: Lookup): (r: Option<RefCursorAsWritten>)
    ensures r.Some? && r.value.open ==> r.value.entries != []
  {
    if rows == [] then Some(RefCursorAsWritten([], "", false))
    else
      match ReferencingFoldAsWritten(rows[..|rows| - 1], lookup)
      case None => None
      case Some(c) =>
        var row := rows[|rows| - 1];
        var name := RightTrim(row.relationName);
        var field := RightTrim(row.fieldName);
        if name != c.lastTable then
          match lookup(Table, name)
          case None => Some(c)
          case Some(t) => Some(RefCursorAsWritten(c.entries + [Dependency(t, [field])], name, true))
        else if !c.open then None
        else Some(RefCursorAsWritten(AddField(c.entries, field), c.lastTable, true))
  }

  /** The discrepancy: a blank relation name in the first row reaches the
      null dereference, while the corrected loop looks the name up. */
  lemma BlankNameDereferencesNull(lookup: Lookup)
    ensures ReferencingFoldAsWritten([RefRow("   ", "ID")], lookup) == None
    ensures ReferencingFold([RefRow("   ", "ID")], lookup).entries ==
      if lookup(Table, "").Some? then [Dependency(lookup(Table, "").value, ["ID"])] else []
  {
    assert RightTrim("   ") == "" by { RightTrimKeepsLeading("", "", 3); }
    assert RightTrim("ID") == "ID";
  }

  /** The correction changes nothing when no relation name is blank, which
      is every answer a real catalog gives. */
  lemma {:induction false} AsWrittenAgreesWithoutBlankNames(rows: seq<RefRow>, lookup: Lookup)
    requires forall i :: 0 <= i < |rows| ==> RightTrim(rows[i].relationName) != ""
    ensures var c := ReferencingFold(rows, lookup);
      ReferencingFoldAsWritten(rows, lookup) == Some(RefCursorAsWritten(c.entries, c.last.GetOr(""), c.last.Some?))
  {
    if rows != [] {
      AsWrittenAgreesWithoutBlankNames(rows[..|rows| - 1], lookup);
    }
  }

  /** Opening an empty entry and then adding a field to it gives the
      entry holding that field. */
  lemma OpenEntryThenAdd(list: seq<Dependency>, entries: seq<Dependency>, t: NodeId, field: string)
    ensures AddField(list + entries + [Dependency(t, [])], field) == list + (entries + [Dependency(t, [field])])
  {
    var grown := list + entries + [Dependency(t, [])];
    assert grown[..|grown| - 1] == list + entries;
    assert [] + [field] == [field];
  }

  /** The referencing-key loop of getDependencies, with the cursor
      starting at "no table" rather than at the empty name. */
  method CollectReferencingRows(list: seq<Dependency>, rows: seq<RefRow>, lookup: Lookup)
    returns (result: seq<Dependency>)
    ensures result == list + ReferencingFold(rows, lookup).entries
  {
    result := list;
    var lastTable: Option<string> := None;
    for i := 0 to |rows|
      invariant result == list + ReferencingFold(rows[..i], lookup).entries
      invariant lastTable == ReferencingFold(rows[..i], lookup).last
    {
      assert rows[..i + 1][..i] == rows[..i];
      ghost var c := ReferencingFold(rows[..i], lookup);
      assert ReferencingFold(rows[..i + 1], lookup) == RefStep(c, rows[i], lookup);
      var tableName := RightTrim(rows[i].relationName);
      var fieldName := RightTrim(rows[i].fieldName);
      if lastTable != Some(tableName) {
        var table := lookup(Table, tableName);
        if table.None? {
          continue;
        }
        result := result + [Dependency(table.value, [])];
        lastTable := Some(tableName);
        OpenEntryThenAdd(list, c.entries, table.value, fieldName);
      } else {
        AddFieldAfterPrefix(list, c.entries, fieldName);
      }
      result := AddField(result, fieldName);
    }
    assert rows[..|rows|] == rows;
  }
}
