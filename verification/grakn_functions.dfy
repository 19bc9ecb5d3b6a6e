/** The Graql schema statement for an entity built from the columns of a table:
    `define <name> sub entity` followed by one clause per column. */
module GraknFunctions {
  import opened Wrappers

  /** What a column contributes, as `entity_query` writes it: without a key every column
      is an attribute it has; with a key only the key column is written, and every
      other column contributes nothing but its separator. */
  function ColumnClause(col: string, entityKey: Option<string>): string {
    match entityKey
    case None => "has " + col
    case Some(k) => if col == k then "key " + col else ""
  }

  /** The clauses of the first `i` columns, each followed by ", " or, after the last
      column, by ";". */
  function Clauses(cols: seq<string>, entityKey: Option<string>, i: nat): string
    requires i <= |cols|
  {
    if i == 0 then ""
    else Clauses(cols, entityKey, i - 1) + ColumnClause(cols[i - 1], entityKey) + (if i == |cols| then ";" else ", ")
  }

  /** The declaration every statement starts with. */
  function Header(entityName: string): string {
    "define " + entityName + " sub entity"
  }

  /** What `entity_query` returns: the declaration closed by ";" when there are no
      columns, otherwise followed by "," and the column clauses. */
  function DefineEntity(entityName: string, cols: seq<string>, entityKey: Option<string>): string {
    if |cols| == 0 then Header(entityName) + ";"
    else Header(entityName) + "," + Clauses(cols, entityKey, |cols|)
  }

  /** `entity_query`: a counted loop over the columns appending one clause and one
      separator per column. */
  method EntityQuery(cols: seq<string>, entityName: string, entityKey: Option<string>)
    returns (graqlInsertQuery: string)
    ensures graqlInsertQuery == DefineEntity(entityName, cols, entityKey)
  {
    graqlInsertQuery := "define " + entityName + " sub entity";
    var attrLength := |cols|;
    if attrLength == 0 {
      graqlInsertQuery := graqlInsertQuery + ";";
      return;
    }
    graqlInsertQuery := graqlInsertQuery + ",";
    ghost var head := graqlInsertQuery;
    var attrCounter := 1;
    var i := 0;
    while i < |cols|
      invariant 0 <= i <= |cols|
      invariant attrCounter == i + 1
      invariant graqlInsertQuery == head + Clauses(cols, entityKey, i)
    {
      var attr := cols[i];
      var clause: string;
      if entityKey.Some? {
        if attr == entityKey.value {
          clause := "key " + attr;
        } else {
          clause := "";
        }
      } else {
        clause := "has " + attr;
      }
      assert clause == ColumnClause(cols[i], entityKey);
      graqlInsertQuery := graqlInsertQuery + clause;
      var sep: string;
      if attrCounter == attrLength {
        sep := ";";
      } else {
        sep := ", ";
      }
      assert sep == if i + 1 == |cols| then ";" else ", ";
      graqlInsertQuery := graqlInsertQuery + sep;
      ClausesNext(cols, entityKey, i, head);
      attrCounter := attrCounter + 1;
      i := i + 1;
    }
  }

  /** One more column extends the clauses by its own clause and separator. */
  lemma ClausesNext(cols: seq<string>, entityKey: Option<string>, i: nat, head: string)
    requires i < |cols|
    ensures head + Clauses(cols, entityKey, i + 1)
         == head + Clauses(cols, entityKey, i) + ColumnClause(cols[i], entityKey) + (if i + 1 == |cols| then ";" else ", ")
  {
    var c := Clauses(cols, entityKey, i);
    var t := ColumnClause(cols[i], entityKey);
    var sep := if i + 1 == |cols| then ";" else ", ";
    assert Clauses(cols, entityKey, i + 1) == (c + t) + sep;
    assert head + ((c + t) + sep) == (head + (c + t)) + sep;
    assert head + (c + t) == (head + c) + t;
  }

  /** Texts with `sep` between neighbours. */
  function Join(sep: string, xs: seq<string>): string {
    if xs == [] then ""
    else if |xs| == 1 then xs[0]
    else Join(sep, xs[..|xs| - 1]) + sep + xs[|xs| - 1]
  }

  function ColumnClauses(cols: seq<string>, entityKey: Option<string>): (ts: seq<string>)
    ensures |ts| == |cols|
    ensures forall i | 0 <= i < |cols| :: ts[i] == ColumnClause(cols[i], entityKey)
  {
    seq(|cols|, i requires 0 <= i < |cols| => ColumnClause(cols[i], entityKey))
  }

  /** The first `i` clauses are the column clauses joined by ", ", followed by ", " while
      columns remain and by ";" after the last. */
  lemma {:induction false} ClausesJoin(cols: seq<string>, entityKey: Option<string>, i: nat)
    requires 0 < i <= |cols|
    ensures Clauses(cols, entityKey, i)
         == Join(", ", ColumnClauses(cols[..i], entityKey)) + (if i == |cols| then ";" else ", ")
  {
    if i == 1 {
      ClausesJoinFirst(cols, entityKey);
    } else {
      ClausesJoin(cols, entityKey, i - 1);
      ClausesJoinStep(cols, entityKey, i);
    }
  }

  /** The first column's clause is the whole join of one clause. */
  lemma ClausesJoinFirst(cols: seq<string>, entityKey: Option<string>)
    requires 0 < |cols|
    ensures Clauses(cols, entityKey, 1)
         == Join(", ", ColumnClauses(cols[..1], entityKey)) + (if 1 == |cols| then ";" else ", ")
  {
    var t := ColumnClause(cols[0], entityKey);
    assert ColumnClauses(cols[..1], entityKey) == [t];
  }

  /** One more column: if the first `i - 1` clauses are joined, so are the first `i`. */
  lemma ClausesJoinStep(cols: seq<string>, entityKey: Option<string>, i: nat)
    requires 1 < i <= |cols|
    requires Clauses(cols, entityKey, i - 1) == Join(", ", ColumnClauses(cols[..i - 1], entityKey)) + ", "
    ensures Clauses(cols, entityKey, i)
         == Join(", ", ColumnClauses(cols[..i], entityKey)) + (if i == |cols| then ";" else ", ")
  {
    var t := ColumnClause(cols[i - 1], entityKey);
    var prev := ColumnClauses(cols[..i - 1], entityKey);
    ColumnClausesSnoc(cols, entityKey, i);
    JoinSnoc(", ", prev, t);
  }

  /** One more column adds its clause at the end of the list of clauses. */
  lemma ColumnClausesSnoc(cols: seq<string>, entityKey: Option<string>, i: nat)
    requires 0 < i <= |cols|
    ensures ColumnClauses(cols[..i], entityKey) == ColumnClauses(cols[..i - 1], entityKey) + [ColumnClause(cols[i - 1], entityKey)]
  {
  }

  /** Joining one more text adds the separator and that text. */
  lemma JoinSnoc(sep: string, xs: seq<string>, x: string)
    requires xs != []
    ensures Join(sep, xs + [x]) == Join(sep, xs) + sep + x
  {
    assert (xs + [x])[..|xs|] == xs;
  }

  /** With no columns the statement declares the entity alone. */
  lemma DefineWithoutColumns(entityName: string, entityKey: Option<string>)
    ensures DefineEntity(entityName, [], entityKey) == "define " + entityName + " sub entity;"
  {
  }

  /** With columns the statement is the declaration, a comma, the column clauses joined
      by ", " (so n - 1 separators for n columns) and a closing ";". */
  lemma DefineWithColumns(entityName: string, cols: seq<string>, entityKey: Option<string>)
    requires |cols| > 0
    ensures DefineEntity(entityName, cols, entityKey)
         == Header(entityName) + "," + Join(", ", ColumnClauses(cols, entityKey)) + ";"
  {
    ClausesJoin(cols, entityKey, |cols|);
    assert cols[..|cols|] == cols;
  }

  /** Without a key every column is written as "has <col>", in column order. */
  lemma DefineWithoutKey(entityName: string, cols: seq<string>)
    requires |cols| > 0
    ensures var ts := ColumnClauses(cols, None);
      && (forall i | 0 <= i < |cols| :: ts[i] == "has " + cols[i])
      && DefineEntity(entityName, cols, None) == Header(entityName) + "," + Join(", ", ts) + ";"
  {
    DefineWithColumns(entityName, cols, None);
  }

  /** With a key, the key column is written as "key <col>" and every other column as
      nothing at all. */
  lemma DefineWithKey(entityName: string, cols: seq<string>, key: string)
    requires |cols| > 0
    ensures var ts := ColumnClauses(cols, Some(key));
      && (forall i | 0 <= i < |cols| :: ts[i] == if cols[i] == key then "key " + key else "")
      && DefineEntity(entityName, cols, Some(key)) == Header(entityName) + "," + Join(", ", ts) + ";"
  {
    DefineWithColumns(entityName, cols, Some(key));
  }

  /** The statement for two columns. */
  lemma DefineTwo(entityName: string, a: string, b: string, entityKey: Option<string>)
    ensures DefineEntity(entityName, [a, b], entityKey)
         == Header(entityName) + "," + ColumnClause(a, entityKey) + ", " + ColumnClause(b, entityKey) + ";"
  {
    var c1 := ColumnClause(a, entityKey);
    var c2 := ColumnClause(b, entityKey);
    assert Clauses([a, b], entityKey, 1) == c1 + ", ";
    assert Clauses([a, b], entityKey, 2) == c1 + ", " + c2 + ";";
  }

  /** A key column and a second column: the second column is dropped, leaving an empty
      clause before the final ";". */
  lemma KeyDropsOtherColumns()
    ensures DefineEntity("Company", ["name", "age"], Some("name")) == "define Company sub entity,key name, ;"
  {
    DefineTwo("Company", "name", "age", Some("name"));
    assert "age" != "name" by { assert "age"[0] != "name"[0]; }
    assert ColumnClause("name", Some("name")) == "key name";
    assert ColumnClause("age", Some("name")) == "";
    var head := Header("Company") + ",";
    assert head == "define Company sub entity,";
    assert head + "key name" + ", " + "" + ";" == "define Company sub entity,key name, ;";
  }

  /** The clause a column evidently should get: the key column as "key", every other
      column as "has". */
  function IntendedColumnClause(col: string, entityKey: Option<string>): string {
    if entityKey == Some(col) then "key " + col else "has " + col
  }

  function IntendedClauses(cols: seq<string>, entityKey: Option<string>): (ts: seq<string>)
    ensures |ts| == |cols|
    ensures forall i | 0 <= i < |cols| :: ts[i] == IntendedColumnClause(cols[i], entityKey)
  {
    seq(|cols|, i requires 0 <= i < |cols| => IntendedColumnClause(cols[i], entityKey))
  }

  /** The statement with every column declared: "key" for the key column, "has" otherwise. */
  function DefineEntityIntended(entityName: string, cols: seq<string>, entityKey: Option<string>): string {
    if |cols| == 0 then Header(entityName) + ";"
    else Header(entityName) + "," + Join(", ", IntendedClauses(cols, entityKey)) + ";"
  }

  /** In the intended statement every column is declared, and is declared as a key
      exactly when it is the key; without a key it agrees with `entity_query`. */
  lemma IntendedDeclaresEveryColumn(entityName: string, cols: seq<string>, entityKey: Option<string>)
    ensures var ts := IntendedClauses(cols, entityKey);
      forall i | 0 <= i < |cols| ::
        && (ts[i] == "key " + cols[i] <==> entityKey == Some(cols[i]))
        && (ts[i] == "has " + cols[i] <==> entityKey != Some(cols[i]))
    ensures entityKey.None? ==> DefineEntityIntended(entityName, cols, entityKey) == DefineEntity(entityName, cols, entityKey)
  {
    var ts := IntendedClauses(cols, entityKey);
    forall i | 0 <= i < |cols|
      ensures ts[i] == "key " + cols[i] <==> entityKey == Some(cols[i])
      ensures ts[i] == "has " + cols[i] <==> entityKey != Some(cols[i])
    {
      if entityKey == Some(cols[i]) {
        assert ("has " + cols[i])[0] == 'h' && ("key " + cols[i])[0] == 'k';
      } else {
        assert ("has " + cols[i])[0] == 'h' && ("key " + cols[i])[0] == 'k';
      }
    }
    if entityKey.None? && |cols| > 0 {
      DefineWithColumns(entityName, cols, entityKey);
      assert IntendedClauses(cols, entityKey) == ColumnClauses(cols, entityKey);
    }
  }

  /** The intended statement for two columns. */
  lemma IntendedTwo(entityName: string, a: string, b: string, entityKey: Option<string>)
    ensures DefineEntityIntended(entityName, [a, b], entityKey)
         == Header(entityName) + "," + IntendedColumnClause(a, entityKey) + ", "
            + IntendedColumnClause(b, entityKey) + ";"
  {
    var c1 := IntendedColumnClause(a, entityKey);
    var c2 := IntendedColumnClause(b, entityKey);
    assert IntendedClauses([a, b], entityKey) == [c1, c2];
    JoinTwo(", ", c1, c2);
  }

  /** The intended statement for the same two columns declares both. */
  lemma IntendedKeepsOtherColumns()
    ensures DefineEntityIntended("Company", ["name", "age"], Some("name")) == "define Company sub entity,key name, has age;"
  {
    IntendedTwo("Company", "name", "age", Some("name"));
    assert "age" != "name" by { assert "age"[0] != "name"[0]; }
    assert IntendedColumnClause("name", Some("name")) == "key name";
    assert IntendedColumnClause("age", Some("name")) == "has age";
    var head := Header("Company") + ",";
    assert head == "define Company sub entity,";
    assert head + "key name" + ", " + "has age" + ";" == "define Company sub entity,key name, has age;";
  }

  lemma JoinTwo(sep: string, a: string, b: string)
    ensures Join(sep, [a, b]) == a + sep + b
  {
    assert [a, b][..1] == [a];
  }
}
