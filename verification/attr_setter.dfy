/** `attr_setter`: one record per selected name of a Find query, either an attribute
    of the concept with its condition, or a traversal to a second entity with the
    conditions on that entity and, optionally, on the joining relationship. */
module AttrSetter {
  import opened Wrappers
  import opened Schema
  import opened Conditions

  /** The parallel lists a Find request passes, as `find_action` hands them on. */
  datatype FindArgs = FindArgs(
    conceptAttrs: seq<string>, conceptConds: seq<string>, conceptValues: seq<string>,
    relActions: seq<string>, conceptRels: seq<string>,
    conceptRelAttrs: seq<seq<string>>, conceptRelConds: seq<seq<string>>, conceptRelValues: seq<seq<string>>,
    withRelAttrs: seq<seq<string>>, withRelConds: seq<seq<string>>, withRelValues: seq<seq<string>>)

  /** `selected_attrs = concept_attrs + rel_actions`. */
  function Selected(args: FindArgs): seq<string> {
    args.conceptAttrs + args.relActions
  }

  const RemoveMissing: string := "list.remove(x): x not in list"

  /** `attr_list`: the column names of an entity; for a relationship, its column names
      without `codex_details`, whose absence makes `list.remove` raise. */
  function AttrList(schema: Schema, concept: string, isEnt: bool): (r: Result<set<string>>)
    ensures isEnt ==> (r.Ok? <==> concept in schema.entityMap)
    ensures isEnt && r.Ok? ==> r.value == schema.entityMap[concept].cols.Keys
    ensures isEnt && r.Err? ==> r.error == KeyError(concept)
    ensures !isEnt ==> (r.Ok? <==> LookupRel(schema.relMap, concept).Ok? &&
                                   CodexDetails in LookupRel(schema.relMap, concept).value.cols)
    ensures !isEnt && r.Ok? ==>
              r.value == LookupRel(schema.relMap, concept).value.cols.Keys - {CodexDetails}
    ensures !isEnt && r.Ok? ==> CodexDetails !in r.value
    ensures !isEnt && LookupRel(schema.relMap, concept).Err? ==> r == Err(KeyError(concept))
    ensures !isEnt && LookupRel(schema.relMap, concept).Ok? &&
            CodexDetails !in LookupRel(schema.relMap, concept).value.cols ==>
              r == Err(ValueError(RemoveMissing))
  {
    if isEnt then
      var e :- Lookup(schema.entityMap, concept);
      Ok(e.cols.Keys)
    else
      var rel :- LookupRel(schema.relMap, concept);
      if CodexDetails in rel.cols then Ok(rel.cols.Keys - {CodexDetails})
      else Err(ValueError(RemoveMissing))
  }

  /** How many of `names` are in `s`. */
  function CountIn(names: seq<string>, s: set<string>): (n: nat)
    ensures n <= |names|
  {
    if names == [] then 0
    else CountIn(names[..|names| - 1], s) + (if names[|names| - 1] in s then 1 else 0)
  }

  lemma CountInNext(names: seq<string>, s: set<string>, k: nat)
    requires k < |names|
    ensures CountIn(names[..k + 1], s) == CountIn(names[..k], s) + (if names[k] in s then 1 else 0)
  {
    assert names[..k + 1][..k] == names[..k];
  }

  /** The record for an attribute of the concept, the `c`-th such name selected. */
  function ConceptAttrAt(schema: Schema, concept: string, isEnt: bool, args: FindArgs, name: string, c: nat)
    : Result<AttrObj>
  {
    var attrType :- AttrTypeOf(schema, concept, isEnt, name);
    var conceptCond :- Index(args.conceptConds, c);
    var conceptValue :- Index(args.conceptValues, c);
    var cond :- CondSetter(attrType, name, concept, conceptCond, conceptValue);
    Ok(AttrRecord(concept, cond, attrType, name, " that have a " + name))
  }

  /** The conditions on the joining relationship, present when `with_rel_attrs` is not empty. */
  function RelCondsAt(schema: Schema, relName: string, args: FindArgs, j: nat, attrString: string)
    : Result<seq<AttrObj>>
  {
    if |args.withRelAttrs| == 0 then Ok([])
    else
      var attrs :- Index(args.withRelAttrs, j);
      var conds :- Index(args.withRelConds, j);
      var values :- Index(args.withRelValues, j);
      CondArray(schema, relName, false, attrs, conds, values, attrString)
  }

  /** The condition dicts of a traversal: the `cond_setter` part of each record. */
  function CondJsonsOf(recs: seq<AttrObj>): (cs: seq<CondJson>)
    requires forall i | 0 <= i < |recs| :: recs[i].RelCondRecord?
    ensures |cs| == |recs|
    ensures forall i | 0 <= i < |recs| :: cs[i] == CondJson(recs[i].selectedCond, recs[i].condValue, recs[i].condString)
  {
    if recs == [] then []
    else CondJsonsOf(recs[..|recs| - 1]) + [CondJson(recs[|recs| - 1].selectedCond, recs[|recs| - 1].condValue, recs[|recs| - 1].condString)]
  }

  /** The declared types of a traversal's attributes. */
  function AttrTypesOf(recs: seq<AttrObj>): (ts: seq<string>)
    requires forall i | 0 <= i < |recs| :: recs[i].RelCondRecord?
    ensures |ts| == |recs|
    ensures forall i | 0 <= i < |recs| :: ts[i] == recs[i].attrType
  {
    if recs == [] then [] else AttrTypesOf(recs[..|recs| - 1]) + [recs[|recs| - 1].attrType]
  }

  /** The record for a relationship action, the `j`-th such name selected. */
  function TraversalAt(schema: Schema, concept: string, args: FindArgs, action: string, j: nat)
    : Result<AttrObj>
  {
    var ent2 :- Index(args.conceptRels, j);
    var relAttrs :- Index(args.conceptRelAttrs, j);
    var relConds :- Index(args.conceptRelConds, j);
    var relValues :- Index(args.conceptRelValues, j);
    TraversalTo(schema, concept, args, action, j, ent2, relAttrs, relConds, relValues)
  }

  /** The traversal to `ent2` once its lists are read: the relationship joining the
      concept to `ent2`, and the role `ent2` plays in it. */
  function TraversalTo(schema: Schema, concept: string, args: FindArgs, action: string, j: nat,
                       ent2: string, relAttrs: seq<string>, relConds: seq<string>, relValues: seq<string>)
    : Result<AttrObj>
  {
    var relName := RelNameBetween(schema.relMap, concept, ent2);
    var e2 :- Lookup(schema.entityMap, ent2);
    var side :- Lookup(e2.rels, relName);
    TraversalWith(schema, args, action, j, ent2, relName, side.plays, relAttrs, relConds, relValues)
  }

  /** The rest of the traversal. Its inner loop does the lookups of `cond_array_maker` on
      the second entity, in the same order, and keeps the condition dicts, the types and
      the attribute string. */
  function TraversalWith(schema: Schema, args: FindArgs, action: string, j: nat, ent2: string,
                         relName: string, relOther: string,
                         relAttrs: seq<string>, relConds: seq<string>, relValues: seq<string>)
    : Result<AttrObj>
  {
    var head := " that " + action + " " + ent2;
    var recs :- CondArray(schema, ent2, true, relAttrs, relConds, relValues, head);
    var attrString := head + HaveAs(relAttrs);
    var nested :- RelCondsAt(schema, relName, args, j, attrString);
    Ok(TraversalRecord(ent2, action, relName, relOther, ent2, CondJsonsOf(recs), AttrTypesOf(recs),
                       relAttrs, attrString, |args.withRelAttrs| > 0, nested))
  }

  /** Step `k` of the loop: names in the attribute list use the next condition and value,
      other names the next relationship action; with no relationship actions at all the
      code reads `selected_ent2` before it was ever assigned. */
  function AttrStep(schema: Schema, concept: string, isEnt: bool, attrList: set<string>, args: FindArgs, k: nat)
    : Result<AttrObj>
    requires k < |Selected(args)|
  {
    var sel := Selected(args);
    var c := CountIn(sel[..k], attrList);
    if sel[k] in attrList then ConceptAttrAt(schema, concept, isEnt, args, sel[k], c)
    else if |args.relActions| > 0 then TraversalAt(schema, concept, args, sel[k], k - c)
    else Err(UnboundLocalError("selected_ent2"))
  }

  function AttrSteps(schema: Schema, concept: string, isEnt: bool, attrList: set<string>, args: FindArgs)
    : (s: seq<Result<AttrObj>>)
    ensures |s| == |Selected(args)|
    ensures forall k | 0 <= k < |s| :: s[k] == AttrStep(schema, concept, isEnt, attrList, args, k)
  {
    seq(|Selected(args)|, k requires 0 <= k < |Selected(args)| => AttrStep(schema, concept, isEnt, attrList, args, k))
  }

  /** What `attr_setter` returns or raises. */
  function AttrObjs(schema: Schema, concept: string, isEnt: bool, args: FindArgs): Result<seq<AttrObj>> {
    var attrList :- AttrList(schema, concept, isEnt);
    Sequence(AttrSteps(schema, concept, isEnt, attrList, args))
  }

  /** The relationship-action branch of the loop body, from `selected_ent2` on. */
  method TraversalStep(schema: Schema, concept: string, args: FindArgs, selectedAttr: string, relActionCounter: nat)
    returns (r: Result<AttrObj>)
    ensures r == TraversalAt(schema, concept, args, selectedAttr, relActionCounter)
  {
    var j := relActionCounter;
    if j >= |args.conceptRels| || j >= |args.conceptRelAttrs| || j >= |args.conceptRelConds| || j >= |args.conceptRelValues| {
      return Err(IndexError);
    }
    var selectedEnt2 := args.conceptRels[j];
    var relAttrs := args.conceptRelAttrs[j];
    var relConds := args.conceptRelConds[j];
    var relValues := args.conceptRelValues[j];
    var relName := GetRelNameFromEnts(schema, concept, selectedEnt2);
    if selectedEnt2 !in schema.entityMap {
      return Err(KeyError(selectedEnt2));
    }
    if relName !in schema.entityMap[selectedEnt2].rels {
      return Err(KeyError(relName));
    }
    var relOther := schema.entityMap[selectedEnt2].rels[relName].plays;
    r := TraversalWithStep(schema, args, selectedAttr, j, selectedEnt2, relName, relOther, relAttrs, relConds, relValues);
  }

  /** The traversal once the relationship and the role are known: the loop over the
      second entity's attributes, then the conditions on the relationship. */
  method TraversalWithStep(schema: Schema, args: FindArgs, selectedAttr: string, j: nat, selectedEnt2: string,
                           relName: string, relOther: string,
                           relAttrs: seq<string>, relConds: seq<string>, relValues: seq<string>)
    returns (r: Result<AttrObj>)
    ensures r == TraversalWith(schema, args, selectedAttr, j, selectedEnt2, relName, relOther, relAttrs, relConds, relValues)
  {
    var head := " that " + selectedAttr + " " + selectedEnt2;
    var recs := CondArrayMaker(schema, selectedEnt2, true, relAttrs, relConds, relValues, head);
    if recs.Err? {
      return Err(recs.error);
    }
    var condJson, attrType, attrString := Project(recs.value, relAttrs, head);
    var relCondsJson := RelCondsStep(schema, relName, args, j, attrString);
    if relCondsJson.Err? {
      return Err(relCondsJson.error);
    }
    r := Ok(TraversalRecord(selectedEnt2, selectedAttr, relName, relOther, selectedEnt2,
                            condJson, attrType, relAttrs, attrString, |args.withRelAttrs| > 0, relCondsJson.value));
  }

  /** The lists a traversal keeps from its condition records, and its attribute string. */
  method Project(recs: seq<AttrObj>, relAttrs: seq<string>, head: string)
    returns (condJson: seq<CondJson>, attrType: seq<string>, attrString: string)
    requires forall i | 0 <= i < |recs| :: recs[i].RelCondRecord?
    requires |recs| == |relAttrs|
    ensures condJson == CondJsonsOf(recs)
    ensures attrType == AttrTypesOf(recs)
    ensures attrString == head + HaveAs(relAttrs)
  {
    condJson, attrType, attrString := [], [], head;
    var relAttrCounter := 0;
    while relAttrCounter < |relAttrs|
      invariant 0 <= relAttrCounter <= |relAttrs|
      invariant attrString == head + HaveAs(relAttrs[..relAttrCounter])
      invariant condJson == CondJsonsOf(recs[..relAttrCounter])
      invariant attrType == AttrTypesOf(recs[..relAttrCounter])
    {
      var rec := recs[relAttrCounter];
      HaveAsNext(head, relAttrs, relAttrCounter);
      assert recs[..relAttrCounter + 1][..relAttrCounter] == recs[..relAttrCounter];
      attrString := attrString + " that have a " + relAttrs[relAttrCounter];
      condJson := condJson + [CondJson(rec.selectedCond, rec.condValue, rec.condString)];
      attrType := attrType + [rec.attrType];
      relAttrCounter := relAttrCounter + 1;
    }
    assert relAttrs[..relAttrCounter] == relAttrs;
    assert recs[..relAttrCounter] == recs;
  }

  /** `attr_json["rel_conds"]`, built only when `with_rel_attrs` is not empty. */
  method RelCondsStep(schema: Schema, relName: string, args: FindArgs, j: nat, attrString: string)
    returns (r: Result<seq<AttrObj>>)
    ensures r == RelCondsAt(schema, relName, args, j, attrString)
  {
    if |args.withRelAttrs| == 0 {
      return Ok([]);
    }
    if j >= |args.withRelAttrs| || j >= |args.withRelConds| || j >= |args.withRelValues| {
      return Err(IndexError);
    }
    r := CondArrayMaker(schema, relName, false, args.withRelAttrs[j], args.withRelConds[j],
                        args.withRelValues[j], attrString);
  }

  /** The body of the loop for the `k`-th selected name, given the two counters. */
  method AttrStepOf(schema: Schema, concept: string, isEnt: bool, attrList: set<string>, args: FindArgs, k: nat,
                    conceptAttrCounter: nat, relActionCounter: nat)
    returns (r: Result<AttrObj>)
    requires k < |Selected(args)|
    requires conceptAttrCounter == CountIn(Selected(args)[..k], attrList)
    requires relActionCounter == k - conceptAttrCounter
    ensures r == AttrStep(schema, concept, isEnt, attrList, args, k)
  {
    var selectedAttr := Selected(args)[k];
    if selectedAttr in attrList {
      r := ConceptAttrAt(schema, concept, isEnt, args, selectedAttr, conceptAttrCounter);
    } else if |args.relActions| > 0 {
      r := TraversalStep(schema, concept, args, selectedAttr, relActionCounter);
    } else {
      r := Err(UnboundLocalError("selected_ent2"));
    }
  }

  /** `attr_setter`: the attribute list of the concept, then one record per selected name. */
  method AttrSetterLoop(schema: Schema, concept: string, isEnt: bool, args: FindArgs)
    returns (r: Result<seq<AttrObj>>)
    ensures r == AttrObjs(schema, concept, isEnt, args)
  {
    var attrListOr := AttrList(schema, concept, isEnt);
    if attrListOr.Err? {
      return Err(attrListOr.error);
    }
    r := SelectedLoop(schema, concept, isEnt, attrListOr.value, args);
  }

  /** The loop of `attr_setter`: walks `concept_attrs + rel_actions` with one counter
      into the attribute conditions and one into the relationship actions. */
  method SelectedLoop(schema: Schema, concept: string, isEnt: bool, attrList: set<string>, args: FindArgs)
    returns (r: Result<seq<AttrObj>>)
    ensures r == Sequence(AttrSteps(schema, concept, isEnt, attrList, args))
  {
    var relActionCounter := 0;
    var conceptAttrCounter := 0;
    ghost var steps := AttrSteps(schema, concept, isEnt, attrList, args);

    var attrObjList: seq<AttrObj> := [];
    var selectedAttrs := args.conceptAttrs + args.relActions;
    var k := 0;
    while k < |selectedAttrs|
      invariant 0 <= k <= |selectedAttrs|
      invariant conceptAttrCounter == CountIn(selectedAttrs[..k], attrList)
      invariant relActionCounter == k - conceptAttrCounter
      invariant Sequence(steps[..k]) == Ok(attrObjList)
    {
      var selectedAttr := selectedAttrs[k];
      CountInNext(selectedAttrs, attrList, k);
      var attrJson := AttrStepOf(schema, concept, isEnt, attrList, args, k, conceptAttrCounter, relActionCounter);
      if selectedAttr in attrList {
        conceptAttrCounter := conceptAttrCounter + 1;
      } else {
        relActionCounter := relActionCounter + 1;
      }
      SequencePrefixNext(steps, k, attrObjList);
      if attrJson.Err? {
        return Err(attrJson.error);
      }
      attrObjList := attrObjList + [attrJson.value];
      k := k + 1;
    }
    assert steps[..k] == steps;
    r := Ok(attrObjList);
  }
}

module AttrSetterProps {
  import opened Wrappers
  import opened Schema
  import opened Conditions
  import opened AttrSetter

  /** An attribute record takes the `c`-th condition and value and the declared type. */
  lemma ConceptAttrRecord(schema: Schema, concept: string, isEnt: bool, args: FindArgs, name: string, c: nat)
    requires ConceptAttrAt(schema, concept, isEnt, args, name, c).Ok?
    ensures var o := ConceptAttrAt(schema, concept, isEnt, args, name, c).value;
      && c < |args.conceptConds| && c < |args.conceptValues|
      && o == AttrRecord(concept, CondJsonMaker(args.conceptConds[c], args.conceptValues[c]),
                         o.attrType, name, " that have a " + name)
      && AttrTypeOf(schema, concept, isEnt, name) == Ok(o.attrType)
  {
  }

  /** A traversal record names the `j`-th second entity, the relationship `rel_map`
      last lists between the concept and it, and the role the second entity plays
      there; it keeps one condition and one declared type per attribute of the second
      entity, the attribute string grown by each of them, and the conditions on the
      relationship exactly when `with_rel_attrs` is not empty. */
  lemma TraversalRecordFields(schema: Schema, concept: string, args: FindArgs, action: string, j: nat)
    requires TraversalAt(schema, concept, args, action, j).Ok?
    ensures var o := TraversalAt(schema, concept, args, action, j).value;
      && j < |args.conceptRels| && j < |args.conceptRelAttrs|
      && j < |args.conceptRelConds| && j < |args.conceptRelValues|
      && o.TraversalRecord?
      && o.relEnt == args.conceptRels[j] && o.attrConcept == o.relEnt
      && o.relAttr == action
      && o.relName == RelNameBetween(schema.relMap, concept, o.relEnt)
      && o.relEnt in schema.entityMap && o.relName in schema.entityMap[o.relEnt].rels
      && o.relOther == schema.entityMap[o.relEnt].rels[o.relName].plays
      && o.attributes == args.conceptRelAttrs[j]
      && o.attrString == " that " + action + " " + o.relEnt + HaveAs(o.attributes)
      && |o.conds| == |o.attributes| && |o.attrTypes| == |o.attributes|
      && (forall i | 0 <= i < |o.attributes| ::
            && i < |args.conceptRelConds[j]| && i < |args.conceptRelValues[j]|
            && o.conds[i] == CondJsonMaker(args.conceptRelConds[j][i], args.conceptRelValues[j][i])
            && AttrTypeOf(schema, o.relEnt, true, o.attributes[i]) == Ok(o.attrTypes[i]))
      && o.hasRelConds == (|args.withRelAttrs| > 0)
      && (!o.hasRelConds ==> o.relConds == [])
      && (o.hasRelConds ==>
            && j < |args.withRelAttrs| && j < |args.withRelConds| && j < |args.withRelValues|
            && CondArray(schema, o.relName, false, args.withRelAttrs[j], args.withRelConds[j],
                         args.withRelValues[j], o.attrString) == Ok(o.relConds))
  {
    var ent2 := args.conceptRels[j];
    var relAttrs, relConds, relValues := args.conceptRelAttrs[j], args.conceptRelConds[j], args.conceptRelValues[j];
    var head := " that " + action + " " + ent2;
    CondArrayRecords(schema, ent2, true, relAttrs, relConds, relValues, head);
  }

  /** What `attr_setter` returns, read step by step: record `k` is step `k` of the loop. */
  lemma AttrObjsSteps(schema: Schema, concept: string, isEnt: bool, args: FindArgs)
    requires AttrObjs(schema, concept, isEnt, args).Ok?
    ensures AttrList(schema, concept, isEnt).Ok?
    ensures var objs := AttrObjs(schema, concept, isEnt, args).value;
      && |objs| == |Selected(args)|
      && forall k | 0 <= k < |Selected(args)| ::
           AttrStep(schema, concept, isEnt, AttrList(schema, concept, isEnt).value, args, k) == Ok(objs[k])
  {
    var attrList := AttrList(schema, concept, isEnt).value;
    var steps := AttrSteps(schema, concept, isEnt, attrList, args);
    SequenceSpec(steps);
    assert AttrObjs(schema, concept, isEnt, args) == Sequence(steps);
  }

  /** One record per selected name, in the order `concept_attrs + rel_actions`: an
      attribute record exactly for the names among the concept's attributes, and a
      traversal record for every other name. */
  lemma AttrObjsFollowSelection(schema: Schema, concept: string, isEnt: bool, args: FindArgs)
    requires AttrObjs(schema, concept, isEnt, args).Ok?
    ensures var objs := AttrObjs(schema, concept, isEnt, args).value;
      var attrList := AttrList(schema, concept, isEnt).value;
      && |objs| == |Selected(args)|
      && forall k | 0 <= k < |objs| ::
           && (objs[k].AttrRecord? <==> Selected(args)[k] in attrList)
           && (objs[k].AttrRecord? ==> objs[k].attribute == Selected(args)[k] && objs[k].attrConcept == concept)
           && (!objs[k].AttrRecord? ==> objs[k].TraversalRecord? && objs[k].relAttr == Selected(args)[k])
  {
    AttrObjsSteps(schema, concept, isEnt, args);
    var objs := AttrObjs(schema, concept, isEnt, args).value;
    var attrList := AttrList(schema, concept, isEnt).value;
    forall k | 0 <= k < |objs|
      ensures objs[k].AttrRecord? <==> Selected(args)[k] in attrList
      ensures objs[k].AttrRecord? ==> objs[k].attribute == Selected(args)[k] && objs[k].attrConcept == concept
      ensures !objs[k].AttrRecord? ==> objs[k].TraversalRecord? && objs[k].relAttr == Selected(args)[k]
    {
      StepFollowsSelection(schema, concept, isEnt, attrList, args, k, objs[k]);
    }
  }

  /** Step `k` builds an attribute record for a name in the attribute list, and a
      traversal record for any other name. */
  lemma StepFollowsSelection(schema: Schema, concept: string, isEnt: bool, attrList: set<string>, args: FindArgs,
                             k: nat, o: AttrObj)
    requires k < |Selected(args)|
    requires AttrStep(schema, concept, isEnt, attrList, args, k) == Ok(o)
    ensures o.AttrRecord? <==> Selected(args)[k] in attrList
    ensures o.AttrRecord? ==> o.attribute == Selected(args)[k] && o.attrConcept == concept
    ensures !o.AttrRecord? ==> o.TraversalRecord? && o.relAttr == Selected(args)[k]
  {
    var sel := Selected(args);
    var c := CountIn(sel[..k], attrList);
    if sel[k] in attrList {
      ConceptAttrShape(schema, concept, isEnt, args, sel[k], c);
    } else {
      TraversalShape(schema, concept, args, sel[k], k - c);
    }
  }

  /** The attribute branch raises at its first failing step: the attribute's declared
      type, then the `c`-th condition and value, then `cond_setter`. */
  lemma ConceptAttrFailure(schema: Schema, concept: string, isEnt: bool, args: FindArgs, name: string, c: nat)
    ensures var t := AttrTypeOf(schema, concept, isEnt, name);
      var r := ConceptAttrAt(schema, concept, isEnt, args, name, c);
      && (t.Err? ==> r == Err(t.error))
      && (t.Ok? && (c >= |args.conceptConds| || c >= |args.conceptValues|) ==> r == Err(IndexError))
      && (t.Ok? && c < |args.conceptConds| && c < |args.conceptValues| ==>
            var j := CondSetter(t.value, name, concept, args.conceptConds[c], args.conceptValues[c]);
            j.Err? ==> r == Err(j.error))
  {
  }

  lemma ConceptAttrShape(schema: Schema, concept: string, isEnt: bool, args: FindArgs, name: string, c: nat)
    requires ConceptAttrAt(schema, concept, isEnt, args, name, c).Ok?
    ensures var o := ConceptAttrAt(schema, concept, isEnt, args, name, c).value;
      o.AttrRecord? && o.attribute == name && o.attrConcept == concept
  {
  }

  lemma TraversalShape(schema: Schema, concept: string, args: FindArgs, action: string, j: nat)
    requires TraversalAt(schema, concept, args, action, j).Ok?
    ensures var o := TraversalAt(schema, concept, args, action, j).value;
      o.TraversalRecord? && o.relAttr == action
  {
  }

  /** For a relationship the provenance column `codex_details` is never offered as an
      attribute, so no attribute record names it. */
  lemma NoCodexDetailsAttribute(schema: Schema, concept: string, args: FindArgs)
    requires AttrObjs(schema, concept, false, args).Ok?
    ensures var objs := AttrObjs(schema, concept, false, args).value;
      forall k | 0 <= k < |objs| :: objs[k].AttrRecord? ==> objs[k].attribute != CodexDetails
  {
    AttrObjsFollowSelection(schema, concept, false, args);
  }

  /** Without relationship actions every selected name must be an attribute of the
      concept: the first one that is not reads `selected_ent2` before any assignment. */
  lemma UnboundSecondEntity(schema: Schema, concept: string, isEnt: bool, args: FindArgs, k: nat)
    requires args.relActions == []
    requires AttrList(schema, concept, isEnt).Ok?
    requires k < |args.conceptAttrs| && args.conceptAttrs[k] !in AttrList(schema, concept, isEnt).value
    requires forall i | 0 <= i < k :: AttrStep(schema, concept, isEnt, AttrList(schema, concept, isEnt).value, args, i).Ok?
    ensures AttrObjs(schema, concept, isEnt, args) == Err(UnboundLocalError("selected_ent2"))
  {
    var attrList := AttrList(schema, concept, isEnt).value;
    var steps := AttrSteps(schema, concept, isEnt, attrList, args);
    assert Selected(args)[k] == args.conceptAttrs[k];
    SequenceFirstError(steps, k);
  }

  /** The last counted name: a positive count is reached at some name in `s`, with one
      less before it. */
  lemma {:induction false} LastCounted(names: seq<string>, s: set<string>)
    requires CountIn(names, s) > 0
    ensures exists k | 0 <= k < |names| :: names[k] in s && CountIn(names[..k], s) == CountIn(names, s) - 1
  {
    var n := |names|;
    var init := names[..n - 1];
    assert names[..n - 1] == init;
    if names[n - 1] in s {
      assert names[n - 1] in s && CountIn(names[..n - 1], s) == CountIn(names, s) - 1;
    } else {
      LastCounted(init, s);
      var k :| 0 <= k < |init| && init[k] in s && CountIn(init[..k], s) == CountIn(init, s) - 1;
      assert init[..k] == names[..k];
    }
  }

  /** The last uncounted name: names outside `s` are numbered by position minus count. */
  lemma {:induction false} LastUncounted(names: seq<string>, s: set<string>)
    requires |names| - CountIn(names, s) > 0
    ensures exists k | 0 <= k < |names| :: names[k] !in s && k - CountIn(names[..k], s) == |names| - CountIn(names, s) - 1
  {
    var n := |names|;
    var init := names[..n - 1];
    if names[n - 1] !in s {
      assert names[n - 1] !in s && (n - 1) - CountIn(names[..n - 1], s) == |names| - CountIn(names, s) - 1;
    } else {
      LastUncounted(init, s);
      var k :| 0 <= k < |init| && init[k] !in s && k - CountIn(init[..k], s) == |init| - CountIn(init, s) - 1;
      assert init[..k] == names[..k];
    }
  }

  /** Step `k` of a successful call. */
  lemma AttrObjAt(schema: Schema, concept: string, isEnt: bool, args: FindArgs, k: nat)
    requires AttrObjs(schema, concept, isEnt, args).Ok?
    requires k < |Selected(args)|
    ensures AttrList(schema, concept, isEnt).Ok?
    ensures k < |AttrObjs(schema, concept, isEnt, args).value|
    ensures AttrStep(schema, concept, isEnt, AttrList(schema, concept, isEnt).value, args, k)
         == Ok(AttrObjs(schema, concept, isEnt, args).value[k])
  {
    AttrObjsSteps(schema, concept, isEnt, args);
  }

  /** The attribute counter only moves forward: a successful call used one condition and
      one value per attribute name, so neither list was shorter than that count. */
  lemma AttributeCounterInRange(schema: Schema, concept: string, isEnt: bool, args: FindArgs)
    requires AttrObjs(schema, concept, isEnt, args).Ok?
    ensures AttrList(schema, concept, isEnt).Ok?
    ensures var attrs := CountIn(Selected(args), AttrList(schema, concept, isEnt).value);
      attrs <= |args.conceptConds| && attrs <= |args.conceptValues|
  {
    assert AttrList(schema, concept, isEnt).Ok?;
    var attrList := AttrList(schema, concept, isEnt).value;
    var sel := Selected(args);
    if CountIn(sel, attrList) > 0 {
      LastCounted(sel, attrList);
      var k :| 0 <= k < |sel| && sel[k] in attrList && CountIn(sel[..k], attrList) == CountIn(sel, attrList) - 1;
      AttrObjAt(schema, concept, isEnt, args, k);
      ConceptAttrRecord(schema, concept, isEnt, args, sel[k], CountIn(sel[..k], attrList));
    }
  }

  /** The relationship-action counter only moves forward: one set of second-entity lists
      per name that is not an attribute, so none of those lists was shorter. */
  lemma RelActionCounterInRange(schema: Schema, concept: string, isEnt: bool, args: FindArgs)
    requires AttrObjs(schema, concept, isEnt, args).Ok?
    ensures AttrList(schema, concept, isEnt).Ok?
    ensures var others := |Selected(args)| - CountIn(Selected(args), AttrList(schema, concept, isEnt).value);
      && others <= |args.conceptRels| && others <= |args.conceptRelAttrs|
      && others <= |args.conceptRelConds| && others <= |args.conceptRelValues|
  {
    assert AttrList(schema, concept, isEnt).Ok?;
    var attrList := AttrList(schema, concept, isEnt).value;
    var sel := Selected(args);
    if |sel| - CountIn(sel, attrList) > 0 {
      LastUncounted(sel, attrList);
      var k :| 0 <= k < |sel| && sel[k] !in attrList && k - CountIn(sel[..k], attrList) == |sel| - CountIn(sel, attrList) - 1;
      AttrObjAt(schema, concept, isEnt, args, k);
      TraversalBounds(schema, concept, args, sel[k], k - CountIn(sel[..k], attrList));
    }
  }

  /** A traversal that succeeds read its four lists at its own index. */
  lemma TraversalBounds(schema: Schema, concept: string, args: FindArgs, action: string, j: nat)
    requires TraversalAt(schema, concept, args, action, j).Ok?
    ensures && j < |args.conceptRels| && j < |args.conceptRelAttrs|
            && j < |args.conceptRelConds| && j < |args.conceptRelValues|
  {
  }
}
