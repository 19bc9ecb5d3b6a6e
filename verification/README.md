# grakn-codex query builder, modelled in Dafny

grakn-codex turns tables into a Grakn knowledge graph and lets a user ask questions
about it in plain terms. This project models the parts of it that are plain logic:

- **The Find-query builder** (`codex/codex_query_builder.py`). It reads an in-memory
  schema: `entity_map` (entities with their key, typed columns and relationships) and
  `rel_map` (relationships with their two ends and their columns, one of them the
  provenance column `codex_details`). It checks each requested condition against the
  attribute's declared type (`cond_setter`). It finds the relationship joining two
  entities (`get_rel_name_from_ents`). It builds one record per selected attribute or
  relationship traversal (`attr_setter`, `cond_array_maker`). Finally it renders the
  English sentence the user reads, such as
  `Find Companies that have a name that contains Google. ` (`plural`,
  `query_string_find_maker`, `find_action`).
- **The Graql schema statement** `define <name> sub entity, ...` built from a table's
  columns (`entity_query` in `codex/grakn_functions.py`).
- **The reshaping of query answers into columns** (`turn_to_df` in `codex_viz.py`), up
  to the column dict it hands to pandas.
- **Two text helpers** (`text_analyze.py`):
  - the greedy filter that keeps non-overlapping token spans (`filter_spans`);
  - the cleaner that drops line breaks and surrounding whitespace (`massage_str`).

Python exceptions are values here. Every operation that can raise returns
`Result<T>`, whose `Err` carries the exception: `KeyError(key)`, `IndexError`,
`ValueError(message)`, `TypeError(message)` or `UnboundLocalError(name)`. Lookups are
done in the order the code does them, so the error a model returns is the first one
the code would raise. The loops that build lists are specified by one step function
per index, combined by `Wrappers.Sequence`: the values of all steps, or the first
error.

Where the code updates variables in a loop, the model is a `method` with that loop,
proved equal to a specification function. The properties are then proved about that
function:

| Method | Specification function |
|---|---|
| `Schema.GetRelNameFromEnts` | `RelNameBetween` |
| `Conditions.CondArrayMaker` | `CondArray` |
| `AttrSetter.AttrSetterLoop` | `AttrObjs` |
| `AttrSetter.SelectedLoop` | `Sequence(AttrSteps(...))` |
| `FindQuery.QueryStringFindMaker` | `FindSentence` |
| `FindQuery.FindAction` | `Find` |
| `GraknFunctions.EntityQuery` | `DefineEntity` |
| `CodexViz.TurnToDf` | `DfMap` |
| `TextAnalyze.FilterSpans` | `Filter` |

`plural`, `cond_setter` and `massage_str` are pure expressions in the code and are
functions here.

Files: `wrappers.dfy` (Option, Result, exceptions, Sequence), `plural.dfy`, `schema.dfy`,
`conditions.dfy`, `attr_setter.dfy`, `find_query.dfy`, `grakn_functions.dfy`,
`codex_viz.dfy`, `text_analyze.dfy`.

## Model

| member | source | states |
|---|---|---|
| Inflection.FirstRule | codex/codex_query_builder.py:39-42 | The loop returns the rewrite of a rule whose pattern finds the word, and returns None exactly when no rule finds it |
| Inflection.Plural | codex/codex_query_builder.py:25-42 | `plural` never returns None: the last pattern `$` finds every word |
| Inflection.PluralTriesRulesInOrder | codex/codex_query_builder.py:25-42 | The rules are tried in table order and the first one that finds decides the plural |
| Inflection.PluralOfPlainWord | codex/codex_query_builder.py:25-36 | For a word without a final newline, the four rules in English: s/x/z add "es"; an "h" after any character other than a,e,i,o,u,d,g,k,p,r,t adds "es"; a "y" after a non-vowel becomes "ies"; any other word adds "s" |
| Inflection.PluralShape | codex/codex_query_builder.py:25-42 | For a word without a final newline, the plural is longer than its word, ends in "s", and keeps every letter of the word except possibly the last |
| Inflection.PluralWithFinalNewline | codex/codex_query_builder.py:25-36 | With a final newline, `$` also matches before it: the "add" rules insert their suffix both before and after the newline, while the "ies" rule keeps the newline last |
| Inflection.PluralOfCompany | codex/codex_query_builder.py:32-35 | "Company" becomes "Companies", as in the rendered example sentence |
| Schema.LookupRel | codex/codex_query_builder.py:228 | `rel_map[name]` succeeds exactly when some entry has that name and returns that entry's relationship; otherwise it raises KeyError(name) |
| Schema.LookupRelDistinct | codex/codex_query_builder.py:228 | When `rel_map` has no repeated name, as in a Python dict, looking up any entry's name returns that entry's relationship |
| Schema.ColType | codex/codex_query_builder.py:244-247 | `cols[attr]["type"]` succeeds exactly for a typed column and returns its type; a missing column raises KeyError(attr) |
| Schema.GetRelNameFromEnts | codex/codex_query_builder.py:45-67 | The overwriting scan over `rel_map` computes `RelNameBetween`, the last entry joining the two entities |
| Schema.RelNameBetweenNone | codex/codex_query_builder.py:45-67 | The result is "" when no relationship has both entities among its two ends |
| Schema.RelNameBetweenLast | codex/codex_query_builder.py:45-67 | Otherwise the result is the name of the last joining relationship, in `rel_map` order |
| Schema.RelNameBetweenSymmetric | codex/codex_query_builder.py:45-67 | Swapping the two entities gives the same relationship |
| Conditions.CondSetter | codex/codex_query_builder.py:70-126 | Succeeds exactly on a legal (type, condition) pair: string with equals/contains, long or double with equals/less than/greater than, bool with true/false. Its dict then holds the condition, the value and " that <cond> <value>". An illegal condition on a known type is a ValueError; any other type, date included, is TypeError("Undefined Type") |
| Conditions.CondArray | codex/codex_query_builder.py:130-183 | A successful call has one record per attribute, and record i is a condition record for attribute i |
| Conditions.CondArrayMaker | codex/codex_query_builder.py:130-183 | The counted loop returns, or raises, exactly what `CondArray` gives: the records of the steps in order, or the first exception |
| Conditions.CondArrayRecords | codex/codex_query_builder.py:130-183 | On success there are exactly len(rel_attrs) records and both lists are at least that long. Record i carries rel_conds[i], rel_values[i], their condition string, the type declared in `entity_map` or `rel_map` as `is_ent` says, attribute i, the concept, and the prefix followed by " that have a a0 ... that have a ai" |
| AttrSetter.AttrList | codex/codex_query_builder.py:221-230 | For an entity: succeeds exactly when it is in `entity_map`, and then gives its column names; otherwise KeyError of the concept. For a relationship: succeeds exactly when `rel_map` has it and its columns include `codex_details`, and then gives its column names without `codex_details`. A missing relationship is a KeyError of the concept, and one without `codex_details` raises the ValueError of `list.remove` |
| AttrSetter.TraversalStep | codex/codex_query_builder.py:260-289 | The relationship-action branch: the next second entity and its lists, the relationship between the concept and it, and the role the second entity plays there, raising at the first failing lookup |
| AttrSetter.TraversalWithStep | codex/codex_query_builder.py:290-383 | The rest of a traversal: the inner loop over the second entity's attributes, then the relationship conditions |
| AttrSetter.Project | codex/codex_query_builder.py:297-340 | The inner loop keeps one condition dict and one type per record, in order, and grows the attribute string by " that have a <attr>" per attribute |
| AttrSetter.RelCondsStep | codex/codex_query_builder.py:367-379 | `rel_conds` is `cond_array_maker` on the joining relationship with the lists at the action counter, and is built only when `with_rel_attrs` is not empty |
| AttrSetter.AttrStepOf | codex/codex_query_builder.py:237-385 | The loop body for the k-th selected name, given the two counters, computes step k of `AttrObjs` |
| AttrSetter.AttrSetterLoop | codex/codex_query_builder.py:186-397 | `attr_setter` returns, or raises, exactly what `AttrObjs` gives: the exception of the attribute-list lookup, or the outcome of the loop over the selected names |
| AttrSetter.SelectedLoop | codex/codex_query_builder.py:233-395 | The loop with its two counters returns the records of every selected name in order, or raises the exception of the first step that fails. The attribute counter is always the number of earlier names in the attribute list, and the action counter is the number of the others |
| AttrSetterProps.ConceptAttrFailure | codex/codex_query_builder.py:241-258 | The attribute branch raises at its first failing step: the lookup of the declared type, then the c-th condition or value (IndexError), then `cond_setter` |
| AttrSetterProps.ConceptAttrRecord | codex/codex_query_builder.py:241-258 | An attribute record takes the c-th condition and value, the declared type, and the attribute string " that have a <name>" |
| AttrSetterProps.TraversalRecordFields | codex/codex_query_builder.py:260-385 | A traversal record holds: the j-th second entity and the action; the relationship `get_rel_name_from_ents` finds and the role the second entity plays in it; one `cond_setter` dict and one declared type per attribute of the second entity; the attribute string " that <action> <ent2>" with " that have a <attr>" per attribute; and `rel_conds` exactly when `with_rel_attrs` is not empty |
| AttrSetterProps.AttrObjsSteps | codex/codex_query_builder.py:235-397 | A successful call has one record per selected name, and record k is step k of the loop |
| AttrSetterProps.AttrObjsFollowSelection | codex/codex_query_builder.py:235-258 | Records follow `concept_attrs + rel_actions` in order: an attribute record, naming the concept, exactly for names in the attribute list; a traversal record for every other name |
| AttrSetterProps.NoCodexDetailsAttribute | codex/codex_query_builder.py:226-230 | For a relationship no attribute record names `codex_details` |
| AttrSetterProps.UnboundSecondEntity | codex/codex_query_builder.py:342-343 | Without relationship actions, the first selected name outside the attribute list makes the call raise UnboundLocalError on `selected_ent2` |
| AttrSetterProps.AttributeCounterInRange | codex/codex_query_builder.py:250-258 | A successful call consumed one condition and one value per attribute name, so neither list is shorter than that count |
| AttrSetterProps.RelActionCounterInRange | codex/codex_query_builder.py:265-269 | A successful call consumed one second entity and one set of lists per other name, so none of those lists is shorter than that count |
| FindQuery.ClauseText | codex/codex_query_builder.py:409-422 | The text of one record: its attribute string, plus the condition string only for an attribute record (the other shapes fall into the bare `except`). A traversal with relationship conditions then adds " and " and the sentence of those conditions about the relationship |
| FindQuery.QueryStringFindMaker | codex/codex_query_builder.py:400-431 | The counted loop, recursing through `ClauseText`, builds exactly `FindSentence` |
| FindQuery.FindAction | codex/codex_query_builder.py:434-505 | `find_action` returns, or raises, exactly `Find`: one concept with its kind, records and sentence, and the concatenated query text |
| FindQueryProps.PiecesJoin | codex/codex_query_builder.py:404-427 | After i records the loop holds their texts joined by " and ", plus one more " and " while records remain |
| FindQueryProps.FindSentenceJoins | codex/codex_query_builder.py:400-431 | The sentence is "Find " + plural(concept), then the record texts separated by " and " with none after the last, then ". " |
| FindQueryProps.FindSentenceOfNothing | codex/codex_query_builder.py:400-431 | With no records the sentence is "Find <plural>. " |
| FindQueryProps.AttributeClause | codex/codex_query_builder.py:409-413 | An attribute record reads " that have a <name> that <condition> <value>" |
| FindQueryProps.TraversalClause | codex/codex_query_builder.py:409-422 | A traversal reads " that <action> <ent2>", then " that have a <attr>" per attribute without their conditions, then " and " and the relationship's own sentence when `with_rel_attrs` is not empty |
| FindQueryProps.TraversalText | codex/codex_query_builder.py:414-422 | A traversal's text is its attribute string and, exactly when it has `rel_conds`, the relationship sentence |
| FindQueryProps.FindShape | codex/codex_query_builder.py:449-501 | `find_action` succeeds exactly when `attr_setter` does, and raises its error otherwise. On success: one concept, of type "Entity" exactly when the name is in `entity_map` (else "Relationship"); its records are those of `attr_setter`; and the query text is its sentence |
| GraknFunctions.EntityQuery | codex/grakn_functions.py:42-70 | The `+=` loop over the columns builds exactly `DefineEntity` |
| GraknFunctions.ClausesJoin | codex/grakn_functions.py:54-68 | After i columns the text is their clauses joined by ", ", followed by ", " while columns remain and by ";" after the last |
| GraknFunctions.DefineWithoutColumns | codex/grakn_functions.py:43-49 | With no columns the statement is exactly "define <name> sub entity;" |
| GraknFunctions.DefineWithColumns | codex/grakn_functions.py:51-68 | With columns the statement is "define <name> sub entity,", the column clauses joined by ", " (n-1 separators for n columns), and one final ";" |
| GraknFunctions.DefineWithoutKey | codex/grakn_functions.py:54-61 | Without a key every column appears as "has <col>", in column order |
| GraknFunctions.DefineWithKey | codex/grakn_functions.py:57-59 | With a key only the key column is written, as "key <col>"; every other column contributes nothing but its separator |
| GraknFunctions.KeyDropsOtherColumns | codex/grakn_functions.py:57-61 | As written, columns name and age with key name give "define Company sub entity,key name, ;" |
| GraknFunctions.IntendedDeclaresEveryColumn | codex/grakn_functions.py:57-61 | In the corrected statement every column is declared: as "key" exactly when it is the key, as "has" otherwise. Without a key it equals what `entity_query` builds |
| GraknFunctions.IntendedKeepsOtherColumns | codex/grakn_functions.py:57-61 | The corrected statement for columns name and age with key name is "define Company sub entity,key name, has age;" |
| CodexViz.EmptyColumns | codex_viz.py:27-29 | The initial dict has exactly the given columns as keys, each with an empty list |
| CodexViz.TurnToDf | codex_viz.py:13-36 | The nested loops return, or raise, exactly `DfMap`: None for no answers, else the columns of the first answer filled from every answer |
| CodexVizProps.NoAnswersNoFrame | codex_viz.py:22-23 | An empty answer list gives None |
| CodexVizProps.FrameColumns | codex_viz.py:25-33 | The columns are the keys of the first answer, in its order, and nothing else. Column c holds, answer after answer, every value stored under c |
| CodexVizProps.AppendRowSpec | codex_viz.py:32-33 | Appending one answer keeps the set of columns and extends each column by the answer's values under that key |
| CodexVizProps.AppendRowsSpec | codex_viz.py:31-33 | Appending the answers in turn keeps the set of columns and extends each column by all their values under that key |
| CodexVizProps.AppendRowOk | codex_viz.py:32-33 | Appending an answer succeeds exactly when each of its keys is already a column; otherwise it is a KeyError on such a key |
| CodexVizProps.AppendRowsOk | codex_viz.py:31-33 | Appending the answers succeeds exactly when every key of every answer is a column; otherwise it is a KeyError on such a key |
| CodexVizProps.UnknownKeyFails | codex_viz.py:25-33 | `turn_to_df` fails exactly when some answer has a key the first answer lacks, and the error is a KeyError on such a key |
| CodexVizProps.ColumnOfLength | codex_viz.py:31-33 | A column is never longer than the answer list, and is shorter when some answer lacks its key |
| CodexVizProps.UniformAnswers | codex_viz.py:25-33 | When every answer has exactly the keys of the first, the call succeeds, every column has len(answers) entries, and entry i is answers[i][col] |
| CodexVizProps.MissingKeyShortensColumn | codex_viz.py:31-33 | An answer missing a column's key leaves that column shorter than the answer list |
| TextAnalyze.Range | text_analyze.py:27 | `range(start, end)` as a set holds exactly the tokens from start up to but excluding end |
| TextAnalyze.FilterSpans | text_analyze.py:18-28 | The loop over the sorted spans, with its growing `seen_tokens`, returns exactly `Filter` |
| TextAnalyzeProps.SortDescSpec | text_analyze.py:20-21 | The sort orders the spans by decreasing (length, start) and keeps every span: the result is a permutation |
| TextAnalyzeProps.SortIsDetermined | text_analyze.py:20-21 | Any list sorted by the key with the same spans is the list the model's sort gives, so, with spans as (start, end) pairs, the choice of sorting algorithm does not matter |
| TextAnalyzeProps.SeenIsKeptTokens | text_analyze.py:23-27 | `seen_tokens` is at every step exactly the union of the ranges of the kept spans |
| TextAnalyzeProps.KeptWhenEndsFree | text_analyze.py:25-27 | The next span is kept exactly when neither its first token nor its last token (end - 1) is covered by a span kept before it |
| TextAnalyzeProps.KeptIsSubseq | text_analyze.py:24-26 | The kept spans are a subsequence of the sorted spans seen so far, so they are no more than those |
| TextAnalyzeProps.KeptDisjoint | text_analyze.py:19-27 | Because longer spans come first, the kept spans pairwise share no token, and they stay in sorted order |
| TextAnalyzeProps.FirstKept | text_analyze.py:21-26 | The first span in sorted order is always kept, and stays first |
| TextAnalyzeProps.FilterSpec | text_analyze.py:18-28 | `filter_spans` returns a subsequence of the spans sorted by decreasing (length, start). The result is sorted, no longer than the input, and free of overlaps, and it starts with the first sorted span when there is one |
| TextAnalyze.Without | text_analyze.py:68 | `replace(c, '')` leaves no c, keeps every other character, and never lengthens the string |
| TextAnalyzeProps.WithoutMultiset | text_analyze.py:68 | `replace(c, '')` keeps every other character as often as the input has it, and none of c |
| TextAnalyzeProps.WithoutAppend | text_analyze.py:68 | Removing c from a concatenation removes it from each part, so the kept characters stay in their order |
| TextAnalyzeProps.WithoutOne | text_analyze.py:68 | A single character is kept exactly when it is not c |
| TextAnalyzeProps.StripLeftSpec | text_analyze.py:68 | `lstrip` drops exactly the leading whitespace (as `str.isspace` defines it) and leaves none at the start |
| TextAnalyzeProps.StripRightSpec | text_analyze.py:68 | `rstrip` drops exactly the trailing whitespace and leaves none at the end |
| TextAnalyzeProps.StripSpec | text_analyze.py:68 | `strip` returns a slice of its input with only whitespace outside it and none at either end |
| TextAnalyzeProps.MassageStrSpec | text_analyze.py:67-68 | The cleaned string has no '\r' or '\n' and no whitespace at either end, and it is a slice of the input with its line breaks removed |
| TextAnalyzeProps.MassageStrIdempotent | text_analyze.py:67-68 | Cleaning a cleaned string changes nothing |

## Left out

- The Grakn client and session I/O are not modelled: database creation, `load_entity_into_grakn`, and `check_types`, which inspects pandas dtypes. `entity_query` takes the table's column names as a sequence of strings, each as `str(attr)` would print it.
- `turn_to_df` stops at the column dict it builds. The final `pd.DataFrame.from_dict` call is not modelled; `CodexViz.Frame` is that dict together with its column order. Answers are lists of (key, value) pairs in dict order, and values are of any type `V`.
- The Streamlit and graphviz rendering, `codex_st.py`, and the spaCy and NLTK code are not part of this model.
- spaCy `Span` objects are modelled as (start, end) token pairs, which is all `filter_spans` reads. Distinct spans over the same tokens are therefore one value here. The code does pass such spans: `extract_entity_relations` (text_analyze.py:33-34) filters `list(doc.ents) + list(doc.noun_chunks)`, where an entity and a noun chunk can cover the same tokens. Python's stable `sorted` keeps the earlier of the two in input order. The model cannot tell which of them survives, only that one span with those bounds does (`TextAnalyzeProps.SortIsDetermined`).
- Regular expressions are not modelled in general. The four patterns of the `plural` rule table are written out as character tests, including Python's `$` matching before a final newline.
- Python's `str.isspace` set is written out for `strip`. Unicode normalisation and surrogates are outside the model.
- `concept_value` and the other condition values are modelled as the text the f-string prints. Their Python type is not kept, because the builder only formats them.
- Logging calls are not modelled. Neither are the `plays_map` computed and never used (codex/codex_query_builder.py:208-224), the expression at line 357 whose value is discarded, or the unused `attrs2` and `rule_num`.
- `find_action`'s `except` that sets the text to "Enter Query:" is unreachable once `attr_setter` has returned, because the loop only concatenates strings. The model has no such branch.
- `CodexQueryFind` is a plain record of its concepts and query string. Its class, and the Compute, Cluster and Rule queries, are not part of this model.
- `query_string_find_maker` recurses into `rel_conds` records, which never carry `rel_conds` themselves; the model's recursion on the record datatype covers every depth.
- Schemas whose `rel_map` repeats a relationship name are outside the code's domain, because a Python dict cannot hold them. `Schema.DistinctNames` states the condition. Under it, `Schema.LookupRelDistinct` shows that `rel_map[name]` is the one entry with that name. Without it, `LookupRel` takes the first such entry.
- AttrSetter.AttrList: the order of the attribute list is not kept, only its set of names, because `attr_setter` only tests membership in it.

## Findings

| source | as written | input that shows it | evidently intended | confidence | as-written member | corrected member |
|---|---|---|---|---|---|---|
| codex/grakn_functions.py:57-61 | With an `entity_key`, the "has" branch is the `else` of the key-is-set test. Every column other than the key therefore adds nothing but its separator, and the statement has empty clauses | entity "Company", columns ["name", "age"], key "name" gives "define Company sub entity,key name, ;" | "define Company sub entity,key name, has age;": the key column as "key", every other column as "has" | not executed | GraknFunctions.KeyDropsOtherColumns | GraknFunctions.IntendedDeclaresEveryColumn |
