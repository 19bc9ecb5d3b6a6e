/** The sentence a Find query reads as (`query_string_find_maker`) and the query object
    `find_action` assembles from a concept and the user's selections. */
module FindQuery {
  import opened Wrappers
  import opened Schema
  import opened Conditions
  import opened Inflection
  import opened AttrSetter

  /** The text one record adds. Only an attribute record has a `cond` dict with a
      `cond_string`; for the other shapes the lookup raises inside the `try` (a list
      indexed by a string, or a missing key) and the bare `except` adds the attribute
      string alone. A traversal with relationship conditions adds the sentence of
      those conditions, about the relationship, after an " and ". */
  function Clause(a: AttrObj): string
    decreases a, 2
  {
    a.attrString
    + (if a.AttrRecord? then a.cond.condString else "")
    + (if a.TraversalRecord? && a.hasRelConds then " and " + FindSentence(a.relName, a.relConds) else "")
  }

  /** What the loop has appended after its first `i` records: each record's text,
      followed by " and " unless it is the last record. */
  function Pieces(objs: seq<AttrObj>, i: nat): string
    requires i <= |objs|
    decreases objs, 0, i
  {
    if i == 0 then ""
    else Pieces(objs, i - 1) + Clause(objs[i - 1]) + (if i != |objs| then " and " else "")
  }

  /** `query_string_find_maker(concept, attr_obj_list)`. */
  function FindSentence(concept: string, objs: seq<AttrObj>): string
    decreases objs, 1
  {
    "Find " + Plural(concept).value + Pieces(objs, |objs|) + ". "
  }

  /** `query_string_find_maker`: a counted loop over the records, recursing into the
      relationship conditions of a traversal. */
  method QueryStringFindMaker(concept: string, attrObjList: seq<AttrObj>) returns (queryString: string)
    ensures queryString == FindSentence(concept, attrObjList)
    decreases attrObjList, 1
  {
    queryString := "Find " + Plural(concept).value;
    ghost var head := queryString;
    var attrLen := |attrObjList|;
    var attrCounter := 1;
    var i := 0;
    while i < |attrObjList|
      invariant 0 <= i <= |attrObjList|
      invariant attrCounter == i + 1
      invariant queryString == head + Pieces(attrObjList, i)
    {
      var text := ClauseText(attrObjList[i]);
      ghost var before := queryString;
      queryString := queryString + text;
      if attrCounter != attrLen {
        queryString := queryString + " and ";
      }
      ghost var sep := if i + 1 != |attrObjList| then " and " else "";
      assert queryString == before + text + sep;
      PiecesNext(attrObjList, i, head, text, sep);
      attrCounter := attrCounter + 1;
      i := i + 1;
    }
    queryString := queryString + ". ";
    FindSentenceOf(concept, attrObjList, head);
  }

  /** One more record extends what the loop has appended by its text and its separator. */
  lemma PiecesNext(objs: seq<AttrObj>, i: nat, head: string, text: string, sep: string)
    requires i < |objs| && text == Clause(objs[i])
    requires sep == if i + 1 != |objs| then " and " else ""
    ensures head + Pieces(objs, i + 1) == head + Pieces(objs, i) + text + sep
  {
    var p := Pieces(objs, i);
    assert Pieces(objs, i + 1) == (p + text) + sep;
    assert head + ((p + text) + sep) == (head + (p + text)) + sep;
    assert head + (p + text) == (head + p) + text;
  }

  /** The sentence is the heading, every record's piece, and ". ". */
  lemma FindSentenceOf(concept: string, objs: seq<AttrObj>, head: string)
    requires head == "Find " + Plural(concept).value
    ensures FindSentence(concept, objs) == head + Pieces(objs, |objs|) + ". "
  {
  }

  /** The body of the loop for one record: the `try` and its bare `except`, then the
      sentence of the relationship conditions when the record has them. */
  method ClauseText(attr: AttrObj) returns (text: string)
    ensures text == Clause(attr)
    decreases attr, 2
  {
    if attr.AttrRecord? {
      text := attr.attrString + attr.cond.condString;
    } else {
      text := attr.attrString;
    }
    if attr.TraversalRecord? && attr.hasRelConds {
      text := text + " and ";
      var nested := QueryStringFindMaker(attr.relName, attr.relConds);
      text := text + nested;
    }
  }

  /** `concept_json`: one concept of the query, its kind, its records and its sentence. */
  datatype ConceptJson = ConceptJson(concept: string, conceptType: string, attrs: seq<AttrObj>, queryString: string)

  /** `CodexQueryFind`: the concepts of a Find query and the text the user reads. */
  datatype CodexQueryFind = CodexQueryFind(concepts: seq<ConceptJson>, queryString: string)

  /** A concept named in `entity_map` is an entity; any other name is taken for a relationship. */
  function ConceptType(schema: Schema, concept: string): string {
    if concept in schema.entityMap then "Entity" else "Relationship"
  }

  /** What `find_action` returns or raises. */
  function Find(schema: Schema, concept: string, args: FindArgs): Result<CodexQueryFind> {
    var attrs :- AttrObjs(schema, concept, concept in schema.entityMap, args);
    var conceptJson := ConceptJson(concept, ConceptType(schema, concept), attrs, FindSentence(concept, attrs));
    Ok(CodexQueryFind([conceptJson], conceptJson.queryString))
  }

  /** `find_action`: decides entity or relationship, builds the records, renders the
      sentence, and concatenates the sentences of its one-element concept list. */
  method FindAction(schema: Schema, concept: string, args: FindArgs) returns (r: Result<CodexQueryFind>)
    ensures r == Find(schema, concept, args)
  {
    var isEnt: bool;
    var conceptType: string;
    if concept in schema.entityMap {
      isEnt, conceptType := true, "Entity";
    } else {
      isEnt, conceptType := false, "Relationship";
    }
    var attrObjList := AttrSetterLoop(schema, concept, isEnt, args);
    if attrObjList.Err? {
      return Err(attrObjList.error);
    }
    var queryString := QueryStringFindMaker(concept, attrObjList.value);
    var conceptJson := ConceptJson(concept, conceptType, attrObjList.value, queryString);
    var codexQueryList := [conceptJson];
    var queryText := "";
    var i := 0;
    while i < |codexQueryList|
      invariant 0 <= i <= |codexQueryList|
      invariant queryText == if i == 0 then "" else queryString
    {
      queryText := queryText + codexQueryList[i].queryString;
      i := i + 1;
    }
    r := Ok(CodexQueryFind(codexQueryList, queryText));
  }
}

module FindQueryProps {
  import opened Wrappers
  import opened Schema
  import opened Conditions
  import opened Inflection
  import opened AttrSetter
  import opened AttrSetterProps
  import opened FindQuery

  /** Texts joined with " and " between neighbours. */
  function JoinAnd(xs: seq<string>): string {
    if xs == [] then ""
    else if |xs| == 1 then xs[0]
    else JoinAnd(xs[..|xs| - 1]) + " and " + xs[|xs| - 1]
  }

  function ClauseTexts(objs: seq<AttrObj>): (ts: seq<string>)
    ensures |ts| == |objs|
    ensures forall i | 0 <= i < |objs| :: ts[i] == Clause(objs[i])
  {
    seq(|objs|, i requires 0 <= i < |objs| => Clause(objs[i]))
  }

  /** After `i` records the loop holds their texts joined by " and ", and one more
      " and " when records remain. */
  lemma {:induction false} PiecesJoin(objs: seq<AttrObj>, i: nat)
    requires i <= |objs|
    ensures Pieces(objs, i) == JoinAnd(ClauseTexts(objs[..i])) + (if 0 < i < |objs| then " and " else "")
  {
    if i > 0 {
      PiecesJoin(objs, i - 1);
      var ts := ClauseTexts(objs[..i]);
      assert ts[..i - 1] == ClauseTexts(objs[..i - 1]);
      assert ts[i - 1] == Clause(objs[i - 1]);
    }
  }

  /** The sentence: "Find", the plural of the concept, the texts of the records joined
      by " and ", and a closing ". ". */
  lemma FindSentenceJoins(concept: string, objs: seq<AttrObj>)
    ensures FindSentence(concept, objs) == "Find " + Plural(concept).value + JoinAnd(ClauseTexts(objs)) + ". "
  {
    PiecesJoin(objs, |objs|);
    assert objs[..|objs|] == objs;
  }

  /** With no records the sentence names the concept alone. */
  lemma FindSentenceOfNothing(concept: string)
    ensures FindSentence(concept, []) == "Find " + Plural(concept).value + ". "
  {
  }

  /** An attribute record reads " that have a <name> that <condition> <value>". */
  lemma AttributeClause(schema: Schema, concept: string, isEnt: bool, args: FindArgs, name: string, c: nat)
    requires ConceptAttrAt(schema, concept, isEnt, args, name, c).Ok?
    ensures c < |args.conceptConds| && c < |args.conceptValues|
    ensures Clause(ConceptAttrAt(schema, concept, isEnt, args, name, c).value)
         == " that have a " + name + " that " + args.conceptConds[c] + " " + args.conceptValues[c]
  {
    ConceptAttrRecord(schema, concept, isEnt, args, name, c);
  }

  /** A traversal reads " that <action> <entity>" and " that have a <attribute>" for each
      attribute of the second entity, without their conditions (a traversal's `cond` is
      a list, so the `try` falls back to the attribute string), then the relationship's
      own sentence when it has conditions. */
  lemma TraversalClause(schema: Schema, concept: string, args: FindArgs, action: string, j: nat)
    requires TraversalAt(schema, concept, args, action, j).Ok?
    ensures var o := TraversalAt(schema, concept, args, action, j).value;
      && j < |args.conceptRels| && j < |args.conceptRelAttrs|
      && Clause(o) == " that " + action + " " + args.conceptRels[j] + HaveAs(args.conceptRelAttrs[j])
                      + (if |args.withRelAttrs| > 0 then " and " + FindSentence(o.relName, o.relConds) else "")
  {
    TraversalRecordFields(schema, concept, args, action, j);
    var o := TraversalAt(schema, concept, args, action, j).value;
    TraversalText(o);
  }

  /** A traversal's text is its attribute string and, when it has relationship
      conditions, the sentence about them. */
  lemma TraversalText(o: AttrObj)
    requires o.TraversalRecord?
    ensures Clause(o) == o.attrString + (if o.hasRelConds then " and " + FindSentence(o.relName, o.relConds) else "")
  {
  }

  /** `find_action` succeeds exactly when `attr_setter` does; its one concept is an
      entity exactly when the name is in `entity_map`, carries the records of
      `attr_setter` for that kind, and its sentence is the query's text. */
  lemma FindShape(schema: Schema, concept: string, args: FindArgs)
    ensures Find(schema, concept, args).Ok? <==> AttrObjs(schema, concept, concept in schema.entityMap, args).Ok?
    ensures Find(schema, concept, args).Err? ==>
      Find(schema, concept, args).error == AttrObjs(schema, concept, concept in schema.entityMap, args).error
    ensures Find(schema, concept, args).Ok? ==>
      var q := Find(schema, concept, args).value;
      && |q.concepts| == 1
      && q.concepts[0].concept == concept
      && (q.concepts[0].conceptType == "Entity" <==> concept in schema.entityMap)
      && (q.concepts[0].conceptType == "Relationship" <==> concept !in schema.entityMap)
      && q.concepts[0].attrs == AttrObjs(schema, concept, concept in schema.entityMap, args).value
      && q.queryString == q.concepts[0].queryString == FindSentence(concept, q.concepts[0].attrs)
  {
  }
}
