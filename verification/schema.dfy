/** The in-memory schema the query builder reads and never changes:
    `entity_map[concept] = {key, cols, rels}` and
    `rel_map[rel] = {rel1, rel2, cols}`, with `codex_details` among a relationship's cols. */
module Schema {
  import opened Wrappers

  /** One value of a `cols` dict. An attribute column is `{"type": t}`; the provenance
      column `codex_details` of a relationship is stored as a bare string. */
  datatype Column = Typed(valueType: string) | Bare(text: string)

  /** `entity_map[e]["rels"][r]`: the role `e` plays in `r` and the entity at the other end. */
  datatype RelSide = RelSide(plays: string, withEnt: string)

  datatype Entity = Entity(key: string, cols: map<string, Column>, rels: map<string, RelSide>)

  /** `rel_map[r]["rel1"]` or `["rel2"]`: one end of a relationship. */
  datatype Member = Member(role: string, entity: string, key: string, keyType: string)

  datatype Relationship = Relationship(rel1: Member, rel2: Member, cols: map<string, Column>)

  datatype RelEntry = RelEntry(name: string, rel: Relationship)

  /** `entity_map` is only looked up; `rel_map` is also iterated, so it keeps its
      insertion order as a sequence of entries. */
  datatype Schema = Schema(entityMap: map<string, Entity>, relMap: seq<RelEntry>)

  const CodexDetails: string := "codex_details"

  /** A Python dict holds each key once; a `rel_map` built by the loader has no repeated name. */
  predicate DistinctNames(relMap: seq<RelEntry>) {
    forall i, j | 0 <= i < j < |relMap| :: relMap[i].name != relMap[j].name
  }

  /** `rel_map[name]`. */
  function LookupRel(relMap: seq<RelEntry>, name: string): (r: Result<Relationship>)
    ensures r.Ok? <==> exists i | 0 <= i < |relMap| :: relMap[i].name == name
    ensures r.Ok? ==> exists i | 0 <= i < |relMap| :: relMap[i] == RelEntry(name, r.value)
    ensures r.Err? ==> r.error == KeyError(name)
  {
    if relMap == [] then Err(KeyError(name))
    else if relMap[0].name == name then Ok(relMap[0].rel)
    else
      var r := LookupRel(relMap[1..], name);
      assert forall i | 1 <= i < |relMap| :: relMap[i] == relMap[1..][i - 1];
      r
  }

  /** With distinct names, `rel_map[name]` is the relationship of the one entry so named. */
  lemma LookupRelDistinct(relMap: seq<RelEntry>, i: nat)
    requires DistinctNames(relMap) && i < |relMap|
    ensures LookupRel(relMap, relMap[i].name) == Ok(relMap[i].rel)
  {
  }

  /** `cols[attr]["type"]`: a missing column raises KeyError, and indexing the bare
      string of `codex_details` with "type" raises TypeError. */
  function ColType(cols: map<string, Column>, attr: string): (r: Result<string>)
    ensures r.Ok? <==> attr in cols && cols[attr].Typed?
    ensures r.Ok? ==> r.value == cols[attr].valueType
    ensures attr !in cols ==> r == Err(KeyError(attr))
  {
    var col :- Lookup(cols, attr);
    match col
    case Typed(t) => Ok(t)
    case Bare(_) => Err(TypeError("string indices must be integers"))
  }

  /** `entity_map[concept]["cols"][attr]["type"]` when `isEnt`, else the same in `rel_map`. */
  function AttrTypeOf(schema: Schema, concept: string, isEnt: bool, attr: string): Result<string> {
    if isEnt then
      var e :- Lookup(schema.entityMap, concept);
      ColType(e.cols, attr)
    else
      var r :- LookupRel(schema.relMap, concept);
      ColType(r.cols, attr)
  }

  /** True when both entities are among the two ends of the relationship. */
  predicate Joins(e: RelEntry, ent1: string, ent2: string) {
    && (ent1 == e.rel.rel1.entity || ent1 == e.rel.rel2.entity)
    && (ent2 == e.rel.rel1.entity || ent2 == e.rel.rel2.entity)
  }

  /** The relationship between two entities: the last joining entry in `rel_map`
      order, or "" when there is none. */
  function RelNameBetween(rels: seq<RelEntry>, ent1: string, ent2: string): string {
    if rels == [] then ""
    else if Joins(rels[|rels| - 1], ent1, ent2) then rels[|rels| - 1].name
    else RelNameBetween(rels[..|rels| - 1], ent1, ent2)
  }

  /** No joining entry gives "". */
  lemma {:induction false} RelNameBetweenNone(rels: seq<RelEntry>, ent1: string, ent2: string)
    requires forall i | 0 <= i < |rels| :: !Joins(rels[i], ent1, ent2)
    ensures RelNameBetween(rels, ent1, ent2) == ""
  {
    if rels != [] {
      var init := rels[..|rels| - 1];
      assert !Joins(rels[|rels| - 1], ent1, ent2);
      forall i | 0 <= i < |init|
        ensures !Joins(init[i], ent1, ent2)
      {
        assert init[i] == rels[i];
      }
      RelNameBetweenNone(init, ent1, ent2);
    }
  }

  /** Otherwise the result is the name of the last joining entry. */
  lemma {:induction false} RelNameBetweenLast(rels: seq<RelEntry>, ent1: string, ent2: string, i: nat)
    requires i < |rels| && Joins(rels[i], ent1, ent2)
    requires forall j | i < j < |rels| :: !Joins(rels[j], ent1, ent2)
    ensures RelNameBetween(rels, ent1, ent2) == rels[i].name
  {
    if i < |rels| - 1 {
      var init := rels[..|rels| - 1];
      assert !Joins(rels[|rels| - 1], ent1, ent2);
      assert init[i] == rels[i];
      forall j | i < j < |init|
        ensures !Joins(init[j], ent1, ent2)
      {
        assert init[j] == rels[j];
      }
      RelNameBetweenLast(init, ent1, ent2, i);
    }
  }

  /** `get_rel_name_from_ents`: scans `rel_map` in order and overwrites the answer at
      every relationship whose ends include both entities. */
  method GetRelNameFromEnts(schema: Schema, rel1: string, rel2: string) returns (relName: string)
    ensures relName == RelNameBetween(schema.relMap, rel1, rel2)
  {
    var rels := schema.relMap;
    relName := "";
    var i := 0;
    while i < |rels|
      invariant 0 <= i <= |rels|
      invariant relName == RelNameBetween(rels[..i], rel1, rel2)
    {
      var check1 := rels[i].rel.rel1.entity;
      var check2 := rels[i].rel.rel2.entity;
      if rel1 == check1 || rel1 == check2 {
        if rel2 == check1 || rel2 == check2 {
          relName := rels[i].name;
        }
      }
      assert rels[..i + 1][..i] == rels[..i];
      i := i + 1;
    }
    assert rels[..i] == rels;
  }

  /** Swapping the two entities does not change the relationship found. */
  lemma {:induction false} RelNameBetweenSymmetric(rels: seq<RelEntry>, ent1: string, ent2: string)
    ensures RelNameBetween(rels, ent1, ent2) == RelNameBetween(rels, ent2, ent1)
  {
    if rels != [] {
      RelNameBetweenSymmetric(rels[..|rels| - 1], ent1, ent2);
    }
  }
}
