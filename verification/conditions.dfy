/** Conditions of a Find query: checking a requested condition against the attribute's
    declared type (`cond_setter`), and the list of condition records built for a
    relationship's own attributes (`cond_array_maker`). */
module Conditions {
  import opened Wrappers
  import opened Schema

  /** The dict built by `cond_json_maker`. Values are kept as the text the f-string prints. */
  datatype CondJson = CondJson(selectedCond: string, condValue: string, condString: string)

  function CondJsonMaker(conceptCond: string, conceptValue: string): CondJson {
    CondJson(conceptCond, conceptValue, " that " + conceptCond + " " + conceptValue)
  }

  /** The attribute types `cond_setter` knows. */
  predicate KnownType(attrType: string) {
    attrType == "string" || attrType == "long" || attrType == "double" || attrType == "bool"
  }

  /** The conditions each known type admits: string values are compared by equals or
      contains, long and double values by equals, less than or greater than, and a
      bool attribute takes true or false. */
  predicate LegalCond(attrType: string, cond: string) {
    || (attrType == "string" && (cond == "equals" || cond == "contains"))
    || ((attrType == "long" || attrType == "double") && (cond == "equals" || cond == "less than" || cond == "greater than"))
    || (attrType == "bool" && (cond == "true" || cond == "false"))
  }

  /** `cond_setter`: a legal condition gives its dict; an illegal one on a known type is
      a ValueError, and every other type, date included, is a TypeError. */
  function CondSetter(attrType: string, attrName: string, concept: string, conceptCond: string, conceptValue: string)
    : (r: Result<CondJson>)
    ensures r.Ok? <==> LegalCond(attrType, conceptCond)
    ensures r.Ok? ==> && r.value.selectedCond == conceptCond
                      && r.value.condValue == conceptValue
                      && r.value.condString == " that " + conceptCond + " " + conceptValue
    ensures KnownType(attrType) && r.Err? ==> r.error.ValueError?
    ensures !KnownType(attrType) ==> r == Err(TypeError("Undefined Type"))
  {
    if attrType == "string" then
      if conceptCond == "equals" || conceptCond == "contains" then Ok(CondJsonMaker(conceptCond, conceptValue))
      else Err(ValueError("For string values must be equals or contains not " + conceptCond))
    else if attrType == "long" || attrType == "double" then
      if conceptCond == "equals" || conceptCond == "less than" || conceptCond == "greater than" then
        Ok(CondJsonMaker(conceptCond, conceptValue))
      else Err(ValueError("For int values " + conceptCond + " is not in ['equals', 'less than', 'greater than']"))
    else if attrType == "bool" then
      if conceptCond == "true" || conceptCond == "false" then Ok(CondJsonMaker(conceptCond, conceptValue))
      else Err(ValueError("For bool values " + conceptCond + " is not in ['true', 'false']"))
    else
      Err(TypeError("Undefined Type"))
  }

  /** The dicts the Find builder produces, in their three shapes. */
  datatype AttrObj =
      /** `attr_setter`, an attribute of the concept itself. */
    | AttrRecord(attrConcept: string, cond: CondJson, attrType: string, attribute: string, attrString: string)
      /** `attr_setter`, a traversal to a second entity: `cond`, `attr_type` and
          `attribute` are lists there; `rel_conds` is present only when `hasRelConds`. */
    | TraversalRecord(relEnt: string, relAttr: string, relName: string, relOther: string, attrConcept: string,
                      conds: seq<CondJson>, attrTypes: seq<string>, attributes: seq<string>, attrString: string,
                      hasRelConds: bool, relConds: seq<AttrObj>)
      /** `cond_array_maker`: the `cond_setter` dict with four more keys, and no `cond` key. */
    | RelCondRecord(selectedCond: string, condValue: string, condString: string,
                    attrString: string, attrType: string, attribute: string, concept: string)

  /** `" that have a " + a` for every attribute, in order. */
  function HaveAs(attrs: seq<string>): string {
    if attrs == [] then "" else HaveAs(attrs[..|attrs| - 1]) + " that have a " + attrs[|attrs| - 1]
  }

  /** The attribute string after one more attribute: the text so far and one more
      " that have a " clause. */
  lemma HaveAsNext(prefix: string, attrs: seq<string>, i: nat)
    requires i < |attrs|
    ensures prefix + HaveAs(attrs[..i + 1]) == prefix + HaveAs(attrs[..i]) + " that have a " + attrs[i]
  {
    var h := HaveAs(attrs[..i]);
    assert attrs[..i + 1][..i] == attrs[..i];
    assert HaveAs(attrs[..i + 1]) == h + " that have a " + attrs[i];
    assert prefix + (h + " that have a " + attrs[i]) == prefix + h + " that have a " + attrs[i];
  }

  /** Step `i` of the `cond_array_maker` loop: record `i` takes `rel_conds[i]`,
      `rel_values[i]` and the attribute's type, and the prefix extended by every
      attribute up to and including `rel_attrs[i]`. */
  function CondRecordAt(schema: Schema, concept: string, isEnt: bool, relAttrs: seq<string>,
                        relConds: seq<string>, relValues: seq<string>, prefix: string, i: nat): Result<AttrObj>
    requires i < |relAttrs|
  {
    var conceptCond :- Index(relConds, i);
    var conceptValue :- Index(relValues, i);
    var currType :- AttrTypeOf(schema, concept, isEnt, relAttrs[i]);
    var c :- CondSetter(currType, relAttrs[i], concept, conceptCond, conceptValue);
    Ok(RelCondRecord(c.selectedCond, c.condValue, c.condString,
                     prefix + HaveAs(relAttrs[..i + 1]), currType, relAttrs[i], concept))
  }

  function CondSteps(schema: Schema, concept: string, isEnt: bool, relAttrs: seq<string>,
                     relConds: seq<string>, relValues: seq<string>, prefix: string): (s: seq<Result<AttrObj>>)
    ensures |s| == |relAttrs|
    ensures forall i | 0 <= i < |relAttrs| :: s[i] == CondRecordAt(schema, concept, isEnt, relAttrs, relConds, relValues, prefix, i)
  {
    seq(|relAttrs|, i requires 0 <= i < |relAttrs| =>
      CondRecordAt(schema, concept, isEnt, relAttrs, relConds, relValues, prefix, i))
  }

  /** What `cond_array_maker` returns or raises: the steps in order, up to the first
      exception. */
  function CondArray(schema: Schema, concept: string, isEnt: bool, relAttrs: seq<string>,
                     relConds: seq<string>, relValues: seq<string>, prefix: string): (r: Result<seq<AttrObj>>)
    ensures r.Ok? ==> |r.value| == |relAttrs|
    ensures r.Ok? ==> forall i | 0 <= i < |relAttrs| :: r.value[i].RelCondRecord? && r.value[i].attribute == relAttrs[i]
  {
    CondStepsShape(schema, concept, isEnt, relAttrs, relConds, relValues, prefix);
    SequenceSpec(CondSteps(schema, concept, isEnt, relAttrs, relConds, relValues, prefix));
    Sequence(CondSteps(schema, concept, isEnt, relAttrs, relConds, relValues, prefix))
  }

  /** Every step that succeeds builds the record of its own attribute. */
  lemma CondStepsShape(schema: Schema, concept: string, isEnt: bool, relAttrs: seq<string>,
                       relConds: seq<string>, relValues: seq<string>, prefix: string)
    ensures var steps := CondSteps(schema, concept, isEnt, relAttrs, relConds, relValues, prefix);
      forall i | 0 <= i < |steps| && steps[i].Ok? :: steps[i].value.RelCondRecord? && steps[i].value.attribute == relAttrs[i]
  {
    var steps := CondSteps(schema, concept, isEnt, relAttrs, relConds, relValues, prefix);
    forall i | 0 <= i < |steps| && steps[i].Ok?
      ensures steps[i].value.RelCondRecord? && steps[i].value.attribute == relAttrs[i]
    {
      CondRecordAtShape(schema, concept, isEnt, relAttrs, relConds, relValues, prefix, i);
    }
  }

  lemma CondRecordAtShape(schema: Schema, concept: string, isEnt: bool, relAttrs: seq<string>,
                          relConds: seq<string>, relValues: seq<string>, prefix: string, i: nat)
    requires i < |relAttrs|
    requires CondRecordAt(schema, concept, isEnt, relAttrs, relConds, relValues, prefix, i).Ok?
    ensures var rec := CondRecordAt(schema, concept, isEnt, relAttrs, relConds, relValues, prefix, i).value;
      rec.RelCondRecord? && rec.attribute == relAttrs[i]
  {
  }

  /** `cond_array_maker`: one record per attribute, with a counter into the
      condition and value lists and a growing `attr_string`. */
  method CondArrayMaker(schema: Schema, concept: string, isEnt: bool, relAttrs: seq<string>,
                        relConds: seq<string>, relValues: seq<string>, prefix: string)
    returns (r: Result<seq<AttrObj>>)
    ensures r == CondArray(schema, concept, isEnt, relAttrs, relConds, relValues, prefix)
  {
    ghost var steps := CondSteps(schema, concept, isEnt, relAttrs, relConds, relValues, prefix);
    var condArray: seq<AttrObj> := [];
    var attrString := prefix;
    var relAttrCounter := 0;
    while relAttrCounter < |relAttrs|
      invariant 0 <= relAttrCounter <= |relAttrs|
      invariant attrString == prefix + HaveAs(relAttrs[..relAttrCounter])
      invariant Sequence(steps[..relAttrCounter]) == Ok(condArray)
    {
      var relAttr := relAttrs[relAttrCounter];
      if relAttrCounter >= |relConds| || relAttrCounter >= |relValues| {
        SequencePrefixNext(steps, relAttrCounter, condArray);
        return Err(IndexError);
      }
      var conceptCond := relConds[relAttrCounter];
      var conceptValue := relValues[relAttrCounter];
      var currType := AttrTypeOf(schema, concept, isEnt, relAttr);
      if currType.Err? {
        SequencePrefixNext(steps, relAttrCounter, condArray);
        return Err(currType.error);
      }
      HaveAsNext(prefix, relAttrs, relAttrCounter);
      attrString := attrString + " that have a " + relAttr;
      var condJson := CondSetter(currType.value, relAttr, concept, conceptCond, conceptValue);
      if condJson.Err? {
        SequencePrefixNext(steps, relAttrCounter, condArray);
        return Err(condJson.error);
      }
      var c := condJson.value;
      var record := RelCondRecord(c.selectedCond, c.condValue, c.condString,
                                  attrString, currType.value, relAttr, concept);
      SequencePrefixNext(steps, relAttrCounter, condArray);
      condArray := condArray + [record];
      relAttrCounter := relAttrCounter + 1;
    }
    assert steps[..relAttrCounter] == steps;
    r := Ok(condArray);
  }

  /** `cond_array_maker` returns exactly one record per attribute, in order; record `i`
      carries `rel_conds[i]`, `rel_values[i]`, the type declared in `entity_map` or
      `rel_map` as `is_ent` says, and the prefix followed by " that have a a0 ... ai". */
  lemma CondArrayRecords(schema: Schema, concept: string, isEnt: bool, relAttrs: seq<string>,
                         relConds: seq<string>, relValues: seq<string>, prefix: string)
    requires CondArray(schema, concept, isEnt, relAttrs, relConds, relValues, prefix).Ok?
    ensures var recs := CondArray(schema, concept, isEnt, relAttrs, relConds, relValues, prefix).value;
      && |recs| == |relAttrs|
      && |relConds| >= |relAttrs| && |relValues| >= |relAttrs|
      && forall i | 0 <= i < |relAttrs| ::
        && recs[i].RelCondRecord?
        && recs[i].selectedCond == relConds[i]
        && recs[i].condValue == relValues[i]
        && recs[i].condString == " that " + relConds[i] + " " + relValues[i]
        && AttrTypeOf(schema, concept, isEnt, relAttrs[i]) == Ok(recs[i].attrType)
        && recs[i].attribute == relAttrs[i]
        && recs[i].concept == concept
        && recs[i].attrString == prefix + HaveAs(relAttrs[..i + 1])
  {
    var steps := CondSteps(schema, concept, isEnt, relAttrs, relConds, relValues, prefix);
    SequenceSpec(steps);
    var recs := CondArray(schema, concept, isEnt, relAttrs, relConds, relValues, prefix).value;
    forall i | 0 <= i < |relAttrs|
      ensures && recs[i].RelCondRecord?
              && recs[i].selectedCond == relConds[i]
              && recs[i].condValue == relValues[i]
              && recs[i].condString == " that " + relConds[i] + " " + relValues[i]
              && AttrTypeOf(schema, concept, isEnt, relAttrs[i]) == Ok(recs[i].attrType)
              && recs[i].attribute == relAttrs[i]
              && recs[i].concept == concept
              && recs[i].attrString == prefix + HaveAs(relAttrs[..i + 1])
    {
      assert steps[i] == Ok(recs[i]);
      CondRecordAtFields(schema, concept, isEnt, relAttrs, relConds, relValues, prefix, i);
    }
    if |relAttrs| > 0 {
      assert steps[|relAttrs| - 1].Ok?;
    }
  }

  /** The record of step `i`, field by field. */
  lemma CondRecordAtFields(schema: Schema, concept: string, isEnt: bool, relAttrs: seq<string>,
                           relConds: seq<string>, relValues: seq<string>, prefix: string, i: nat)
    requires i < |relAttrs|
    requires CondRecordAt(schema, concept, isEnt, relAttrs, relConds, relValues, prefix, i).Ok?
    ensures var rec := CondRecordAt(schema, concept, isEnt, relAttrs, relConds, relValues, prefix, i).value;
      && i < |relConds| && i < |relValues|
      && rec.RelCondRecord?
      && rec.selectedCond == relConds[i]
      && rec.condValue == relValues[i]
      && rec.condString == " that " + relConds[i] + " " + relValues[i]
      && AttrTypeOf(schema, concept, isEnt, relAttrs[i]) == Ok(rec.attrType)
      && rec.attribute == relAttrs[i]
      && rec.concept == concept
      && rec.attrString == prefix + HaveAs(relAttrs[..i + 1])
  {
  }
}
