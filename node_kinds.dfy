/** The kind registry: catalog keywords, per-kind description statements,
    and the ordinal table that maps kinds to the type codes of the
    catalog's dependency table (RDB$DEPENDENCIES). */
module NodeKinds {
  import opened Wrappers

  datatype NodeKind =
    | Unknown | Database | Table | View | Procedure | Trigger | Generator
    | Function | Domain | Role | Column | Parameter | Exception

  /** The catalog keyword naming each kind, for the kinds that have one. */
  function Keyword(k: NodeKind): Option<string>
  {
    match k
    case Table => Some("TABLE")
    case View => Some("VIEW")
    case Procedure => Some("PROCEDURE")
    case Trigger => Some("TRIGGER")
    case Generator => Some("GENERATOR")
    case Function => Some("FUNCTION")
    case Domain => Some("DOMAIN")
    case Role => Some("ROLE")
    case Column => Some("COLUMN")
    case Exception => Some("EXCEPTION")
    case _ => None
  }

  /** getTypeByName: exact, case-sensitive keyword match; anything else is
      Unknown. The result is the one kind whose keyword is `name`. */
  function Classify(name: string): (r: NodeKind)
    ensures r != Unknown ==> Keyword(r) == Some(name)
    ensures r == Unknown <==> forall k :: Keyword(k) != Some(name)
  {
    if name == "TABLE" then Table
    else if name == "VIEW" then View
    else if name == "PROCEDURE" then Procedure
    else if name == "TRIGGER" then Trigger
    else if name == "GENERATOR" then Generator
    else if name == "FUNCTION" then Function
    else if name == "DOMAIN" then Domain
    else if name == "ROLE" then Role
    else if name == "COLUMN" then Column
    else if name == "EXCEPTION" then Exception
    else Unknown
  }

  /** Classify inverts Keyword on every kind that has a keyword. */
  lemma ClassifyKeyword(k: NodeKind)
    requires Keyword(k).Some?
    ensures Classify(Keyword(k).value) == k
  {
  }

  /** Matching is case-sensitive: lower-case spellings are not keywords. */
  lemma ClassifyIsCaseSensitive()
    ensures Classify("table") == Unknown && Classify("View") == Unknown
    ensures Classify("TABLE ") == Unknown
  {
  }

  /** The kinds that have a description column in the catalog. */
  predicate SupportsDescription(k: NodeKind)
  {
    k in {Table, View, Procedure, Trigger, Function, Column, Parameter, Domain, Exception}
  }

  /** Columns and parameters are keyed by (name, container name); every
      other kind by its name alone. */
  predicate KeyedByContainer(k: NodeKind)
  {
    k == Column || k == Parameter
  }

  // The statements of getDescriptionSql, one per catalog table.
  const ReadRelation := "select rdb$description from rdb$relations where RDB$RELATION_NAME=?"
  const ReadProcedure := "select rdb$description from rdb$procedures where RDB$procedure_NAME=?"
  const ReadTrigger := "select rdb$description from rdb$triggers where RDB$trigger_NAME=?"
  const ReadFunction := "select rdb$description from RDB$FUNCTIONS where RDB$FUNCTION_NAME=?"
  const ReadColumn := "select rdb$description from rdb$relation_fields where rdb$field_name=? and rdb$relation_name=?"
  const ReadParameter := "select rdb$description from rdb$procedure_parameters where rdb$parameter_name=? and rdb$procedure_name=?"
  const ReadDomain := "select rdb$description from rdb$fields where rdb$field_name=?"
  const ReadException := "select RDB$DESCRIPTION from RDB$EXCEPTIONS where RDB$EXCEPTION_NAME = ?"

  /** getDescriptionSql: the statement reading a kind's description; the
      empty string means the kind has none. */
  function DescriptionSql(k: NodeKind): (r: string)
    ensures r == "" <==> !SupportsDescription(k)
  {
    match k
    case View => ReadRelation
    case Table => ReadRelation
    case Procedure => ReadProcedure
    case Trigger => ReadTrigger
    case Function => ReadFunction
    case Column => ReadColumn
    case Parameter => ReadParameter
    case Domain => ReadDomain
    case Exception => ReadException
    case _ => ""
  }

  // The statements of getChangeDescriptionSql, one per catalog table.
  const UpdateRelation := "update rdb$relations set rdb$description = ? where RDB$RELATION_NAME = ?"
  const UpdateProcedure := "update rdb$procedures set rdb$description = ? where RDB$PROCEDURE_name=?"
  const UpdateTrigger := "update rdb$triggers set rdb$description = ? where RDB$trigger_NAME=?"
  const UpdateFunction := "update RDB$FUNCTIONS set rdb$description = ? where RDB$FUNCTION_NAME=?"
  const UpdateColumn := "update rdb$relation_fields set rdb$description = ? where rdb$field_name=? and rdb$relation_name=?"
  const UpdateParameter := "update rdb$procedure_parameters set rdb$description = ? where rdb$parameter_name = ? and rdb$procedure_name=?"
  const UpdateDomain := "update rdb$fields set rdb$description = ? where rdb$field_name=?"
  const UpdateException := "update RDB$EXCEPTIONS set RDB$DESCRIPTION = ? where RDB$EXCEPTION_NAME = ?"

  /** getChangeDescriptionSql: the statement writing a kind's description;
      the empty string means the kind has none. */
  function ChangeDescriptionSql(k: NodeKind): (r: string)
    ensures r == "" <==> !SupportsDescription(k)
  {
    match k
    case View => UpdateRelation
    case Table => UpdateRelation
    case Procedure => UpdateProcedure
    case Trigger => UpdateTrigger
    case Function => UpdateFunction
    case Column => UpdateColumn
    case Parameter => UpdateParameter
    case Domain => UpdateDomain
    case Exception => UpdateException
    case _ => ""
  }

  /** Reading and writing are supported for exactly the same kinds, and a
      view shares the statements of a table (both live in rdb$relations). */
  lemma DescriptionStatementsAgree(k: NodeKind)
    ensures DescriptionSql(k) == "" <==> ChangeDescriptionSql(k) == ""
    ensures DescriptionSql(View) == DescriptionSql(Table)
    ensures ChangeDescriptionSql(View) == ChangeDescriptionSql(Table)
  {
  }

  /** dep_types: position i holds the kind whose RDB$DEPENDENCIES type code
      is i; codes the program does not track hold Unknown. */
  const DepTypes: seq<NodeKind> := [
    Table, View, Trigger, Unknown, Unknown,
    Procedure, Unknown, Exception, Unknown, Unknown,
    Unknown, Unknown, Unknown, Unknown, Generator,
    Function
  ]

  /** The last position of k in s, or -1 when k does not occur. */
  function LastIndexOf(s: seq<NodeKind>, k: NodeKind): (r: int)
    ensures -1 <= r < |s|
    ensures r == -1 <==> k !in s
    ensures r >= 0 ==> s[r] == k && forall j :: r < j < |s| ==> s[j] != k
  {
    if s == [] then -1
    else if s[|s| - 1] == k then |s| - 1
    else LastIndexOf(s[..|s| - 1], k)
  }

  /** Extending the scanned prefix by one position. */
  lemma LastIndexOfStep(s: seq<NodeKind>, k: NodeKind, i: nat)
    requires i < |s|
    ensures LastIndexOf(s[..i + 1], k) == if s[i] == k then i else LastIndexOf(s[..i], k)
  {
    assert s[..i + 1][..i] == s[..i];
  }

  /** The value the ordinal loop leaves in `mytype`. */
  function OrdinalOf(k: NodeKind): int
  {
    LastIndexOf(DepTypes, k)
  }

  /** A dependency query is possible only for a known kind the table lists. */
  predicate HasOrdinal(k: NodeKind)
  {
    k != Unknown && OrdinalOf(k) != -1
  }

  /** The loop of getDependencies that scans dep_types for this node's kind
      and keeps the last matching position. */
  method ComputeOrdinal(k: NodeKind) returns (mytype: int)
    ensures mytype == OrdinalOf(k)
    ensures mytype == -1 <==> k !in DepTypes
    ensures mytype != -1 ==> DepTypes[mytype] == k
  {
    mytype := -1;
    for i := 0 to |DepTypes|
      invariant mytype == LastIndexOf(DepTypes[..i], k)
    {
      LastIndexOfStep(DepTypes, k, i);
      if DepTypes[i] == k {
        mytype := i;
      }
    }
    assert DepTypes[..|DepTypes|] == DepTypes;
  }

  /** Every kind other than Unknown that dep_types lists sits at exactly
      one position, so the table can be read in both directions. */
  lemma KindPosition(j: int, k: NodeKind)
    requires 0 <= j < |DepTypes| && DepTypes[j] == k && k != Unknown
    ensures j == match k
      case Table => 0
      case View => 1
      case Trigger => 2
      case Procedure => 5
      case Exception => 7
      case Generator => 14
      case Function => 15
      case _ => -1
  {
  }

  /** The ordinals the table assigns. */
  lemma OrdinalTable()
    ensures OrdinalOf(Table) == 0 && OrdinalOf(View) == 1 && OrdinalOf(Trigger) == 2
    ensures OrdinalOf(Procedure) == 5 && OrdinalOf(Exception) == 7
    ensures OrdinalOf(Generator) == 14 && OrdinalOf(Function) == 15
  {
    assert DepTypes[0] == Table && DepTypes[1] == View && DepTypes[2] == Trigger;
    assert DepTypes[5] == Procedure && DepTypes[7] == Exception;
    assert DepTypes[14] == Generator && DepTypes[15] == Function;
    KindPosition(OrdinalOf(Table), Table);
    KindPosition(OrdinalOf(View), View);
    KindPosition(OrdinalOf(Trigger), Trigger);
    KindPosition(OrdinalOf(Procedure), Procedure);
    KindPosition(OrdinalOf(Exception), Exception);
    KindPosition(OrdinalOf(Generator), Generator);
    KindPosition(OrdinalOf(Function), Function);
  }

  /** Unknown fills several positions, the last being 13, so the ordinal
      loop alone would accept it; getDependencies rejects it separately. */
  lemma OrdinalOfUnknown()
    ensures OrdinalOf(Unknown) == 13 && !HasOrdinal(Unknown)
  {
    assert DepTypes[13] == Unknown;
    var r := OrdinalOf(Unknown);
    assert r != 14 && r != 15;
  }

  /** Database, Domain, Role, Column and Parameter have no ordinal, so a
      dependency query on them fails with "Unsupported type". */
  lemma NoOrdinal(k: NodeKind)
    requires k in {Database, Domain, Role, Column, Parameter}
    ensures OrdinalOf(k) == -1 && !HasOrdinal(k)
  {
    if OrdinalOf(k) != -1 {
      KindPosition(OrdinalOf(k), k);
    }
  }

  /** The kind-to-ordinal and ordinal-to-kind directions are consistent: a
      kind with an ordinal occupies exactly that one position. */
  lemma OrdinalRoundTrip(k: NodeKind, j: int)
    requires HasOrdinal(k)
    requires 0 <= j < |DepTypes| && DepTypes[j] == k
    ensures j == OrdinalOf(k) && DepTypes[OrdinalOf(k)] == k
  {
    KindPosition(j, k);
    KindPosition(OrdinalOf(k), k);
  }

  /** Type codes the program can map: valid positions of dep_types. */
  predicate InOrdinalRange(t: int)
  {
    0 <= t < |DepTypes|
  }

  /** The guard of the row loop as written: `object_type > type_count`
      skips a row, so every code up to and including 16 is let through. */
  predicate AdmittedAsWritten(t: int)
  {
    !(t > |DepTypes|)
  }

  /** The discrepancy: code 16 passes the guard as written although 16 is
      not a position of the 16-entry table, and so does every negative
      code. Elsewhere the guards agree. */
  lemma GuardAdmitsPastEnd()
    ensures AdmittedAsWritten(|DepTypes|) && !InOrdinalRange(|DepTypes|)
    ensures forall t :: t < 0 ==> AdmittedAsWritten(t) && !InOrdinalRange(t)
    ensures forall t :: 0 <= t && t != |DepTypes| ==> (AdmittedAsWritten(t) <==> InOrdinalRange(t))
  {
  }
}
