# Adaptive Framework storage adaptors in Dafny

The Adaptive Framework gives many kinds of stores one object model.  This project
models the parts of it that have an algorithm or a protocol of their own, and proves
what they promise, or exactly when they keep the promise.

| file | models |
|---|---|
| `Basics.dfy`, `BigEndian.dfy` | shared vocabulary: octet order of strings, big-endian numbers |
| `Criteria.dfy` | query criteria as decision trees, and the walk that tests one object |
| `Rql.dfy`, `RqlMeaning.dfy` | how the criteria parser links comparisons into such a tree, and what the tree means |
| `Planner.dfy`, `PlanMeaning.dfy` | the index planner: sargability, cursor lists, join, merge |
| `IndexQuery.dfy` | the query loop over a plan, against the full scan |
| `IndexCursor.dfy` | eq and ge cursors over an index database, and the query over them |
| `LmdbKeys.dfy` | primary keys and the scan of one object type or of all |
| `IndexStore.dfy` | add, modify, replace and delete, with their index updates |
| `Retrieve.dfy` | retrieve_objects end to end: index databases, planned query, primary scan |
| `Journal.dfy`, `JournalStore.dfy` | the journal consumer protocol and its database |
| `LdapSchema.dfy` | inherited LDAP attributes as linked lists that share their tails |
| `LdapSearch.dfy`, `LdapFilter.dfy` | search filters of RFC 4515, and criteria translated to them |
| `Ubjson.dfy`, `UbjsonRoundTrip.dfy`, `UbjsonGrammar.dfy`, `UbjsonWriter.dfy`, `UbjsonParser.dfy` | the UBJSON codec and the grammar it reads |
| `Registry.dfy` | the adaptor registry: reference counts and stopping instances |
| `SessionCache.dfy` | cached sessions and transactions of one execution context |
| `VfsMap.dfy` | the vfs map: configured entries, in-place ordered insertion, longest-prefix lookup |
| `Framing.dfy` | chunk framing of local mode |

Code that changes things step by step is modelled by methods and classes, each proved
against a function of its inputs or of the old state; the promises are proved as
lemmas about those functions.  Code made of expressions and recursion is modelled by
functions.  Octet strings are Dafny strings.  An error or a throw is a value of the
result (`None`, `Failed`, `Invalid`, `ok == false`), never a precondition.  Each call
that runs inside one LMDB transaction or one locked section is one atomic step.

## What the proofs found

These are properties one would expect, or that a comment asks for, that the code does
not have.  The model follows the code; the lemma named says exactly when the property
holds, and some give an input that breaks it.

- A merge of cursor lists (afw_adaptor_impl_index.c:1239-1249) drops the cursors that
  are not larger than some cursor of the other list, although its comment asks for
  both lists, and an indexed OR then misses objects: `MergeKeepsAll`,
  `QueryIsScanExactlyWhen`, `MergeLosesMatch`.
- An object that lacks a property of the filter fails the whole filter in a scan, but
  an inner-join cursor of an indexed OR delivers it untested:
  `QueryIsScanExactlyWhen`, `MissingPropertyDelivered`.  With indexes on the plain
  properties this cannot arise, because an object without the property cannot be
  indexed: `IndexedRetrieve`.
- A filter can be sargable and still have no plan; the planner then returns a NULL
  list that its caller dereferences: `PlannedExactly`, `SargableWithoutPlan`.
- The look-ahead for a later cursor reads every operator with its operands exchanged,
  and so agrees with the residual test for eq alone: `AppliesExactlyWhen`,
  `AppliesIsExchanged`.  The directory agrees with it for eq, and for ne over objects
  that have the property: `EntryAgreesExactlyWhen`, `SearchIsWalkExactlyWhen`.
- The function and object forms of criteria redirect whatever the first entry of an
  operand links to, so that `and(and(a,b),c)` loses `b`:
  `FunctionFormMeansExactlyWhen`, `FunctionFormExactlyWhen`,
  `FunctionFormLosesOperand`.
- A ge cursor delivers an object with several values in the range several times:
  `CursorOnceExactlyWhen`, `DistinctExactlyWhen`.  A pair whose object is gone ends a
  cursor early: `DrainsExactlyWhen`.
- A type whose name begins with another type's name can end that type's scan early:
  `ScanExactlyWhen`, `PrefixNameHidesObject`.
- Empty strings are never indexed, so no pair is stored for one: `CursorExactlyWhen`.
  A cursor for one is not even opened, because the store takes no key without octets,
  and the query throws: `OpenCursor`, `PlannedExactly`.
- An index whose name ends in the separator and another index's name can share that
  index's database: `NamesShareExactlyWhen`, `SeparateExactlyWhen`.
- The journal reads a consumer's record under its bare uuid and writes it under a
  prefixed key, so no consumer ever makes progress; the protocol is right when both
  keys are the same: `ProgressExactlyWhen`, `ExactlyOnce`.
- A search of the journal that finds nothing keeps an advance cursor that is already
  there, as a comment asks about, and the next search starts at that one again:
  `FruitlessKeepsPlace`.
- LDAP filters with lt and gt are not filters of the grammar, and a search without
  criteria has no parentheses: `TreeIsAFilterExactlyWhen`, `ClassAloneIsNoFilter`.
- The UBJSON writer emits doubles in the order of its machine's memory, which a comment
  there asks about, and the parser takes them to be big-endian: on a little-endian
  machine a double comes back with its octets reversed: `RoundTripExactlyWhen`,
  `LittleEndianExactlyWhen`.
- The UBJSON writer refuses -2147483648, and everything outside 32 bits, although a
  comment says that this cannot happen: `PutInteger`.  A repeated property name is
  not preserved: `RoundTripExactlyWhen`.  The parser's bound test lets some negative
  lengths pass: `LengthTestExactlyWhen`.
- The test for a vfs map entry without a path compares the wrong lengths
  (afw_vfs_adaptor.c:93): it refuses the entry `=/`, and misses most entries without an
  equal sign: `TestRefusesExactlyWhen`, `AcceptedExactlyWhen`.

## Model

| member | source | states |
|---|---|---|
| `Criteria.TestObject` | src/afw/query_criteria/afw_query_criteria.c:2073-2137 | the test loop accepts an object exactly when the walk of the decision tree does: an absent property fails the whole filter wherever the walk meets it; comparisons of a list property are weaker, see below |
| `Criteria.WalkIsEval` | src/afw/query_criteria/afw_query_criteria.c:2086-2132 | for every tree and object, the walk accepts exactly when the tree is true of the entries that hold and the walk meets no absent property |
| `Criteria.DefinedNeverMissing` | src/afw/query_criteria/afw_query_criteria.c:2090-2094 | an object that defines every property a filter names is never failed for want of one |
| `Rql.InfixMeansExpression` | src/afw/query_criteria/afw_query_criteria.c:1050-1130 | for every infix expression, the entries the parser makes and redirects unfold to a tree that is true exactly when the expression is, and that is monotone, as the planner and the LDAP adaptor expect |
| `Rql.InfixIsLower` | src/afw/query_criteria/afw_query_criteria.c:1028-1130 | redirecting the links that leave each operand builds, at any position among earlier entries and for any continuations, exactly the tree that goes to the one where the expression holds and to the other where it fails; links only lead forward, so the tree is finite |
| `Rql.LowerMeans` | src/afw/query_criteria/afw_query_criteria.c:1050-1130 | that tree, for every truth assignment, takes the truth continuation exactly when the expression holds |
| `Rql.LowerIsMonotone` | src/afw/query_criteria/afw_query_criteria.c:1050-1130 | for continuations of which the failing one implies the other, the tree is monotone |
| `Rql.FunctionFormExactlyWhen` | src/afw/query_criteria/afw_query_criteria.c:1200-1240 | the function and object forms, which redirect whatever the first entry of an operand links to, link the entries as the infix form does exactly when the expression is direct: no operand but the last of an and (or) begins, at any depth of first operands, with an and (or) of its own |
| `RqlMeaning.FunctionFormMeansExactlyWhen` | src/afw/query_criteria/afw_query_criteria.c:1200-1240 | a direct expression means in these forms what it spells; when no comparison is repeated, the tree has the truth of the expression under every assignment if and only if the expression is direct |
| `RqlMeaning.LossShowsExactlyWhen` | src/afw/query_criteria/afw_query_criteria.c:1413-1457 | with repeated comparisons the loss can be hidden: and(and(a,b),c) means what it spells exactly when b is a or c |
| `RqlMeaning.IndirectIsUnlinked` | src/afw/query_criteria/afw_query_criteria.c:1200-1240 | an expression that is not direct leaves an entry that no link of any entry leads to |
| `RqlMeaning.EveryLeafMatters` | src/afw/query_criteria/afw_query_criteria.c:1050-1130 | in an expression without repeated comparisons every comparison decides it under some assignment to the others |
| `Rql.FunctionFormLosesOperand` | src/afw/query_criteria/afw_query_criteria.c:1413-1457 | and(and(a,b),c) in those forms becomes a tree that never tests b |
| `Rql.Builder.PatchOn` | src/afw/query_criteria/afw_query_criteria.c:1028-1048 | the loop redirects every link equal to the old one in the run of entries it is given, of either kind, and touches no other entry |
| `Rql.Builder.Build` | src/afw/query_criteria/afw_query_criteria.c:1154-1240 | parsing an expression appends exactly the entries that the lemmas above speak about, leaving earlier entries alone |
| `Rql.Builder.BuildAll` | src/afw/query_criteria/afw_query_criteria.c:1070-1130 | the operand loop: each operand is parsed, then the one before is redirected to it |
| `Planner.Cardinality` | src/afw/adaptor/afw_adaptor_impl_index.c:1107-1138 | the total of the counts, unavailable when the list is empty or any count is |
| `Planner.Join` | src/afw/adaptor/afw_adaptor_impl_index.c:1148-1188 | keeps the list that is known to be no larger, the other one when its own total is unknown, with every cursor marked as needing the residual test |
| `Planner.JoinKeepsSmaller` | src/afw/adaptor/afw_adaptor_impl_index.c:1148-1188 | a join keeps one of its lists whole: the one with no larger total, or the only one that has a total |
| `Planner.TotalAdds` | src/afw/adaptor/afw_adaptor_impl_index.c:1107-1138 | the total of one cursor is its count and the total of two lists together the sum of theirs |
| `Planner.InsertCursor` | src/afw/adaptor/afw_adaptor_impl_index.c:1213-1245 | one round of the merge loops puts the cursor once, before the first smaller one, or nowhere when none is smaller, and fails when a count is unavailable |
| `Planner.Merge` | src/afw/adaptor/afw_adaptor_impl_index.c:1198-1254 | the merge loops compute the fold of those rounds; an empty first list gives no list |
| `Planner.MergeExact` | src/afw/adaptor/afw_adaptor_impl_index.c:1213-1254 | a merge returns all of the second list and exactly those of the first that are larger than some cursor of the second, with their multiplicity, in descending order when the second list was |
| `Planner.MergeKeepsAll` | src/afw/adaptor/afw_adaptor_impl_index.c:1190-1254 | a merge loses nothing, as its comment asks, if and only if every cursor of the first list is larger than some cursor of the second |
| `Planner.CursorList` | src/afw/adaptor/afw_adaptor_impl_index.c:1282-1409 | the recursive planner computes the plan that the lemmas below speak about |
| `PlanMeaning.PlannedExactly` | src/afw/adaptor/afw_adaptor_impl_index.c:1282-1409 | for every filter and whatever opens, is indexed or has a count, there is a plan exactly for the plannable trees: all cursors open, and on both sides of an OR stand cursors with counts as the merge needs them; the plan has a cursor, and only cursors with counts, exactly when the tree says so. Elsewhere the planner throws or hands on a NULL list |
| `PlanMeaning.CountedExactlyWhen` | src/afw/adaptor/afw_adaptor_impl_index.c:1190-1254 | where all cursors open and have counts a monotone filter has a plan exactly when every OR has an index on its left side |
| `PlanMeaning.IndexedIsPlannable` | src/afw/adaptor/afw_adaptor_impl_index.c:1282-1409 | indexing every property of a monotone filter gives any plan a cursor, and is enough for a plan where all cursors open and have counts |
| `PlanMeaning.SargableWithoutPlan` | src/afw/adaptor/afw_adaptor_impl_index.c:1006-1078 | being sargable is not enough: a filter over two indexed and one unindexed property is sargable and has no plan |
| `PlanMeaning.SargableExactlyWhen` | src/afw/adaptor/afw_adaptor_impl_index.c:1006-1097 | a monotone filter is sargable if and only if it cannot hold without one of its indexed entries holding, where anything may hold behind an ne entry |
| `PlanMeaning.SargableMeans` | src/afw/adaptor/afw_adaptor_impl_index.c:1006-1097 | without ne entries: if and only if no set of entries makes the filter true without an indexed entry of it |
| `PlanMeaning.InnerJoinIsSound` | src/afw/adaptor/afw_adaptor_impl_index.c:1148-1170 | in every plan of a monotone tree, the entry of a cursor that still counts as an inner join implies the whole filter |
| `PlanMeaning.PlanCovers` | src/afw/adaptor/afw_adaptor_impl_index.c:1282-1409 | whenever a monotone filter is true, the entry of a planned cursor or of one that a merge left out is true |
| `PlanMeaning.CursorsFromEnv` | src/afw/adaptor/afw_adaptor_impl_index.c:1330-1345 | every planned and every dropped cursor was opened for an entry of the filter on an indexed property |
| `IndexQuery.EqAppliesIsHolds` | src/afw/adaptor/afw_adaptor_impl_index.c:1478-1545 | for eq the look-ahead and the residual test agree on every entry and object; for list values that rests on the intended comparison, see below |
| `IndexQuery.AppliesExactlyWhen` | src/afw/adaptor/afw_adaptor_impl_index.c:1422-1545 | the look-ahead and the residual test agree on all objects if and only if the operator is eq |
| `IndexQuery.AppliesIsExchanged` | src/afw/adaptor/afw_adaptor_impl_index.c:1478-1545 | on a string property the look-ahead reads every operator as the residual test reads it with its operands exchanged |
| `IndexQuery.AppliesToList` | src/afw/adaptor/afw_adaptor_impl_index.c:1478-1545 | to the look-ahead a list is equal to each of its items and below every other string |
| `IndexQuery.IsDuplicate` | src/afw/adaptor/afw_adaptor_impl_index.c:1610-1640 | the look-ahead finds a later cursor exactly when the entry of one applies to the object |
| `IndexQuery.Query` | src/afw/adaptor/afw_adaptor_impl_index.c:1560-1662 | the query loop hands out exactly the sequence that the lemmas below characterise, and fails without a plan |
| `IndexQuery.EmittedExactly` | src/afw/adaptor/afw_adaptor_impl_index.c:1589-1662 | over cursors that hold exactly what their entries hold of, the loop emits an object once, and exactly when the last cursor that holds it is an inner join or the object passes the residual test |
| `IndexQuery.UnionFiltered` | src/afw/adaptor/afw_adaptor_impl_index.c:1589-1662 | when inner joins hold only objects that pass, the loop emits the union of the cursors filtered by the criteria, each object once |
| `IndexQuery.QueryIsScanExactlyWhen` | src/afw/adaptor/afw_adaptor_impl_index.c:1560-1662 | for every monotone eq filter with a plan the indexed query emits each object at most once, and emits what the full scan delivers if and only if no match was held only by cursors a merge dropped and no object that lacks a property came last from an inner join |
| `IndexQuery.QueryIsScan` | src/afw/adaptor/afw_adaptor_impl_index.c:1282-1662 | when no merge dropped a cursor and every object defines the properties of the filter, query and full scan deliver the same objects |
| `IndexQuery.MergeLosesMatch` | src/afw/adaptor/afw_adaptor_impl_index.c:1239-1249 | a=1 OR b=2 with one match each: the match of the dropped cursor is never delivered |
| `IndexQuery.MissingPropertyDelivered` | src/afw/adaptor/afw_adaptor_impl_index.c:1589-1608 | the same filter with every cursor kept: an object without a, which the scan rejects, is delivered by the inner join of b |
| `LmdbKeys.KeyRoundTrip` | src/afw_lmdb/afw_lmdb_internal.c:144-178 | splitting a key into type and uuid inverts joining them, and joining inverts splitting |
| `LmdbKeys.DumpObjects` | src/afw_lmdb/afw_lmdb_adaptor_session.c:442-558 | the scan of a type, which starts at the first key not below its name, or of everything hands on what the model of the scan says, in order, up to the first object at which the callback abandons |
| `LmdbKeys.DumpFrom` | src/afw_lmdb/afw_lmdb_adaptor_session.c:507-557 | the cursor loop, key by key: a key without a type is passed over, the first key of another type ends the scan of one type, and the callback may abandon |
| `LmdbKeys.HandedOnOnce` | src/afw_lmdb/afw_lmdb_adaptor_session.c:543-554 | what the callback sees is determined by the full scan and its answers |
| `LmdbKeys.WholeScan` | src/afw_lmdb/afw_lmdb_adaptor_session.c:490-494 | a scan without a type delivers exactly the matching objects that have a type |
| `LmdbKeys.ScanIsOrdered` | src/afw_lmdb/afw_lmdb_adaptor_session.c:507-557 | every scan delivers in key order, so no object twice |
| `LmdbKeys.ScanExactlyWhen` | src/afw_lmdb/afw_lmdb_adaptor_session.c:486-541 | over keys in octet order the scan delivers exactly the matching objects of the type, for every filter, if and only if no key of another type that begins with the type name stands before one of its own |
| `LmdbKeys.PrefixFreeIsContiguous` | src/afw_lmdb/afw_lmdb_adaptor_session.c:486-541 | it is so when no stored type name is a prefix of another |
| `LmdbKeys.PrefixNameHidesObject` | src/afw_lmdb/afw_lmdb_adaptor_session.c:486-541 | with types Cat and Cats the scan of Cat can miss its only object |
| `IndexStore.NamesDiffer` | src/afw_lmdb/afw_lmdb_index.c:68-85 | two indexes whose names are apart never share a database, and of one index no two object types do |
| `IndexStore.NamesShareExactlyWhen` | src/afw_lmdb/afw_lmdb_index.c:68-85 | two index names can share a database, for some object types, if and only if they are equal or one ends in the separator followed by the other |
| `IndexStore.SeparateExactlyWhen` | src/afw_lmdb/afw_lmdb_index.c:68-85 | the condition on the names of a session under which the results below hold is exact: without it two of its indexes share a database for some object types |
| `IndexStore.AddAllAccepts` | src/afw_lmdb/afw_lmdb_index.c:222-285 | a unique index takes the texts of an object exactly when none of them is taken or repeated |
| `IndexStore.AcceptedExactly` | src/afw/adaptor/afw_adaptor_impl_index.c:300-420 | updating all indexes succeeds exactly when every one of them accepts the new object given what the old one leaves behind |
| `IndexStore.UpdateAllEffect` | src/afw/adaptor/afw_adaptor_impl_index.c:878-981 | updating all indexes takes from each index database what the old object owed to it and adds what the new one owes, and leaves every other database alone |
| `IndexStore.UpdateKeepsConsistent` | src/afw/adaptor/afw_adaptor_impl_index.c:878-981 | if every index database held exactly the pairs of value and key computed from the primary database, it does so after one object is added, changed or removed together with its index updates |
| `IndexStore.ConsistentExactlyWhen` | src/afw/adaptor/afw_adaptor_impl_index.c:228-420 | databases are consistent if and only if each holds a text with a key exactly when the definition lists the type or none, its filter accepts the stored object of that key, and the text is not empty and is an item, folded where the index folds, of what the value expression computes or of the property of the index; and no stored object is one that an index throws on |
| `IndexStore.AcceptsExactlyWhen` | src/afw/adaptor/afw_adaptor_impl_index.c:228-420 | an index refuses an object if and only if it applies and the value expression gives an object or nothing defined, or the property is missing, or it is unique and a text is shown twice or stored already and not left behind by the old object under the key |
| `IndexStore.DeleteSucceeds` | src/afw_lmdb/afw_lmdb_adaptor_session.c:376-419 | unindexing an object that was indexed never fails |
| `IndexStore.Session.constructor` | src/afw_lmdb/afw_lmdb_adaptor_session.c:189-232 | a session over empty databases is consistent |
| `IndexStore.Session.TryIndex` | src/afw/adaptor/afw_adaptor_impl_index.c:300-420 | one index, one object: type and filter applicability, the computed value or the property, each text in turn with the empty ones passed over; a throw at any point fails the call |
| `IndexStore.Session.UpdateIndexes` | src/afw/adaptor/afw_adaptor_impl_index.c:878-981 | index_object, unindex_object and reindex_object walk all definitions |
| `IndexStore.Session.Write` | src/afw_lmdb/afw_lmdb_adaptor_session.c:214-232 | the primary write and the index updates happen together or not at all, and after every call each index database holds exactly what the definitions show of the stored objects |
| `IndexStore.Session.AddObject` | src/afw_lmdb/afw_lmdb_adaptor_session.c:189-232 | refused exactly when the key exists or an index does not admit the object; otherwise the object is stored; a refused call changes nothing, and afterwards the databases are in step with the stored objects |
| `IndexStore.Session.ModifyObject` | src/afw_lmdb/afw_lmdb_adaptor_session.c:243-290 | refused exactly when the object is missing or an index does not admit the result; in step afterwards |
| `IndexStore.Session.ReplaceObject` | src/afw_lmdb/afw_lmdb_adaptor_session.c:298-346 | likewise for a replacement |
| `IndexStore.Session.DeleteObject` | src/afw_lmdb/afw_lmdb_adaptor_session.c:356-419 | succeeds exactly when the object exists, removes it and everything it owed to the indexes |
| `Retrieve.CursorExactlyWhen` | src/afw_lmdb/afw_lmdb_index.c:222-285 | over consistent databases the pairs stored under a value in a plain index belong to exactly the objects that have the value if and only if the value is not the empty string or no object has it |
| `Retrieve.IndexedRetrieve` | src/afw_lmdb/afw_lmdb_adaptor_session.c:81-180 | end to end: over consistent databases and contiguous keys, a monotone eq filter on plainly indexed properties is sargable, and is answered from the indexes exactly when it is plannable, which it is when no value is empty and all counts are available; the answer has each object at most once, and the objects of the primary scan if and only if every match held by a dropped cursor is held by a kept one |
| `Retrieve.RetrieveObjects` | src/afw_lmdb/afw_lmdb_adaptor_session.c:101-130 | without a type everything is scanned; with one the indexes answer exactly when the filter is sargable and else the type is scanned |
| `Retrieve.RetrieveThrowsExactlyWhen` | src/afw_lmdb/afw_lmdb_adaptor_session.c:101-130 | with a type and a monotone filter the call goes to the indexes and throws there if and only if every match has an indexed entry of the filter and there is no plan with a cursor |
| `IndexCursor.DrainedReads` | src/afw_lmdb/afw_lmdb_internal.c:1010-1145 | over consistent databases the drained eq cursors of plain and unique indexes are what the planner theorems take cursors to hold |
| `IndexCursor.RetrieveThroughCursors` | src/afw_lmdb/afw_lmdb_adaptor_session.c:81-180 | the same result with nothing assumed of the cursors: sorted pairs, cursors over them, plan, query loop and scan together |
| `IndexCursor.OpenCursor` | src/afw_lmdb/afw_lmdb_internal.c:945-989 | opening a cursor puts it at the first pair its operator selects, and throws exactly for an empty value, which the store takes for no key |
| `IndexStore.UpdateKeepsUnique` | src/afw_lmdb/afw_lmdb_index.c:263-270 | no unique index ever holds a value twice, whatever is updated |
| `IndexCursor.Cursor.Reset` | src/afw_lmdb/afw_lmdb_internal.c:851-887 | leaves the cursor at the first pair its operator selects, or without data |
| `IndexCursor.PositionExactly` | src/afw_lmdb/afw_lmdb_internal.c:879-887 | that is, over sorted pairs, the first pair whose value is not below the wanted one for ge, and the first that has it for eq |
| `IndexCursor.Cursor.NextObject` | src/afw_lmdb/afw_lmdb_internal.c:1072-1145 | returns the key of the current pair if its object is there and moves on either way; a pair without an object makes the call return nothing |
| `IndexCursor.Cursor.Drain` | src/afw_lmdb/afw_lmdb_internal.c:1010-1145 | successive calls give exactly the sequence that the lemmas below speak about |
| `IndexCursor.Cursor.Contains` | src/afw_lmdb/afw_lmdb_internal.c:1151-1208 | finds whether the value is stored for the key, and leaves the cursor back at its first pair, not where it was |
| `IndexCursor.DrainsExactlyWhen` | src/afw_lmdb/afw_lmdb_internal.c:1010-1145 | an eq or ge cursor on an index that is not unique delivers exactly the keys of the pairs its operator selects, in database order, if and only if none of them is stale |
| `IndexCursor.UniqueDrainsExactlyWhen` | src/afw_lmdb/afw_lmdb_internal.c:1034-1044 | an eq cursor on a unique index, which never moves on, does so if and only if the value is stored at most once |
| `IndexCursor.GeDrains` | src/afw_lmdb/afw_lmdb_internal.c:1046-1145 | from any position a ge cursor hands out, pair by pair and in order, the keys up to the first pair whose object is gone |
| `IndexCursor.GeDelivers` | src/afw_lmdb/afw_lmdb_internal.c:883-887 | over sorted pairs whose objects are all there a ge cursor hands out exactly the keys stored under the wanted value or a higher one |
| `IndexCursor.EqCursorReads` | src/afw_lmdb/afw_lmdb_internal.c:1034-1044 | over consistent databases an eq cursor delivers exactly the keys stored under its value, each once, as the query theorems assume |
| `IndexCursor.UniqueEqCursorReads` | src/afw_lmdb/afw_lmdb_internal.c:1034-1044 | and so does one on a unique index |
| `IndexCursor.DistinctExactlyWhen` | src/afw_lmdb/afw_lmdb_internal.c:1046-1053 | the keys that an operator selects come once each if and only if no key is stored under two of the selected values |
| `IndexCursor.CursorOnceExactlyWhen` | src/afw_lmdb/afw_lmdb_internal.c:1046-1053 | over consistent databases what an eq or ge cursor hands out has every object at most once if and only if no object is stored under two of the values its operator selects |
| `IndexCursor.GeRepeatsObject` | src/afw_lmdb/afw_lmdb_internal.c:1046-1053 | so a ge cursor delivers an object with two values in the range twice |
| `BigEndian.RoundTrip` | src/afw_lmdb/afw_lmdb_journal.c:82-104 | a number that fits its width is read back from its big-endian octets |
| `BigEndian.OrderPreserved` | src/afw_lmdb/afw_lmdb_journal.c:82-104 | octet order of big-endian numbers of one width is numeric order |
| `Journal.ScanIsLeast` | src/afw_lmdb/afw_lmdb_journal.c:471-505 | the scan stops at the least applicable cursor at or after its start, or one past the last entry, and everything it passes is inapplicable |
| `Journal.ScanByPeers` | src/afw/adaptor/afw_adaptor_impl.c:470-502 | read off the peers of the entries: a consumer with a peer passes over exactly the entries that came from it and is never turned away; one without a peer stops at the first entry it meets, and is turned away exactly when that has a peer |
| `Journal.ApplicableByPeers` | src/afw/adaptor/afw_adaptor_impl.c:470-502 | the entries for a consumer with a peer are those that did not come from it, for one without a peer those that have none |
| `Journal.StepKeepsInv` | src/afw_lmdb/afw_lmdb_journal.c:420-677 | every call of any consumer keeps a consumer's invariant: it has marked exactly the applicable cursors below its start, what it consumes is applicable, and nothing applicable lies between its current and advance cursors |
| `Journal.RunKeepsInv` | src/afw_lmdb/afw_lmdb_journal.c:420-809 | and so does every run, with its own marks appended in order |
| `Journal.ExactlyOnce` | src/afw_lmdb/afw_lmdb_journal.c:420-809 | over every interleaving of add, get_next, advance and mark by any consumers, what a fresh consumer marks is a prefix of the increasing list of its applicable cursors: none skipped, none twice |
| `Journal.NextIsNext` | src/afw_lmdb/afw_lmdb_journal.c:420-549 | after any such run a call delivers exactly the next of those cursors with its entry, and delivers nothing only when all are marked |
| `Journal.GetNextByPeers` | src/afw_lmdb/afw_lmdb_journal.c:420-549 | over every interleaving: what get_next delivers to a fresh consumer is an entry that did not come from its peer and that it has not marked, everything before it is marked or its own, nothing is found only when all entries for it are marked, and it is turned away exactly when it has no peer and the first entry it has not marked has one |
| `Journal.ReissueExactlyWhen` | src/afw_lmdb/afw_lmdb_journal.c:508-523 | an answer is marked as issued again exactly when the consumer has been given an entry by get_next or advance_cursor and has not marked it since, and then it is that entry |
| `Journal.AdvanceIsNext` | src/afw_lmdb/afw_lmdb_journal.c:551-677 | over every interleaving advance_cursor answers the first entry for the consumer that it has not marked, marked as issued again exactly when the consumer holds it; get_next would deliver that entry and delivers it next; it finds nothing only when all are marked |
| `Journal.FruitlessKeepsPlace` | src/afw_lmdb/afw_lmdb_journal.c:532-541 | a search that finds nothing changes only the advance cursor, which if unset becomes one past the last entry |
| `Journal.NamedNeverThrows` | src/afw_lmdb/afw_lmdb_journal.c:485-500 | a consumer whose record names its peer is never turned away by an entry |
| `Journal.ReissuedUntilMarked` | src/afw_lmdb/afw_lmdb_journal.c:420-549 | until it is marked, an entry is issued to its consumer again, unchanged, whatever anyone else does |
| `Journal.BetweenCursorsIsSkipped` | src/afw_lmdb/afw_lmdb_journal.c:505-541 | in every reachable state every cursor between a consumer's current and advance cursors is inapplicable to it |
| `Journal.SeekThenReissue` | src/afw_lmdb/afw_lmdb_journal.c:310-410 | a seek delivers the least applicable cursor at or after the chosen one, and the next call issues that entry again |
| `Journal.PrefixedNeverMoves` | src/afw_lmdb/afw_lmdb_journal.c:126-180 | with records read under one key and written under another, no run ever changes the record a consumer is served from |
| `Journal.ProgressExactlyWhen` | src/afw_lmdb/afw_lmdb_journal.c:126-180 | a fresh consumer can mark anything in some run if and only if the prefix its record is written under is empty; the one in the source is not |
| `JournalStore.LastAndNext` | src/afw_lmdb/afw_lmdb_journal.c:82-104 | while the keys are those of 1 to n, the last key is that of n and the next key comes after every key, so appending it is legal |
| `JournalStore.Store.GetEntry` | src/afw_lmdb/afw_lmdb_journal.c:182-215 | the entry under the big-endian key of a number is that numbered entry, and there is none for other numbers |
| `JournalStore.Store.AddEntry` | src/afw_lmdb/afw_lmdb_journal.c:46-118 | the key set stays 1 to n: an entry goes under the number after the last, and is refused only when that number would wrap |
| `JournalStore.Store.GetNextForConsumer` | src/afw_lmdb/afw_lmdb_journal.c:420-549 | one call is one step of the state machine, and answers the delivered entry, whether it is a reissue, nothing, or an error |
| `JournalStore.Store.AdvanceCursorForConsumer` | src/afw_lmdb/afw_lmdb_journal.c:552-677 | likewise, answering the cursor alone |
| `JournalStore.Store.GetNextForConsumerAfterCursor` | src/afw_lmdb/afw_lmdb_journal.c:310-410 | delivers the first applicable entry from the chosen cursor on and replaces all three cursors; a thrown scan changes nothing |
| `JournalStore.Store.MarkEntryConsumed` | src/afw_lmdb/afw_lmdb_journal.c:753-809 | accepted exactly for the cursor being consumed |
| `JournalStore.Store.ScanStore` | src/afw_lmdb/afw_lmdb_journal.c:471-505 | the scan loop terminates and has the same result for every limit |
| `LdapSchema.DeclaresByLevel` | src/afw_ldap/afw_ldap_metadata.c:870-1024 | the transitive closure of section 2.4 of RFC 4512, level by level: a class has an attribute exactly when it lists it or a registered parent has it |
| `LdapSchema.NoNodeTwice` | src/afw_ldap/afw_ldap_metadata.c:806-821 | a list that ends has no node twice, so following it terminates |
| `LdapSchema.EndsExactlyWhen` | src/afw_ldap/afw_ldap_metadata.c:806-821 | in any pool of nodes a list ends, and with it every walk along it, if and only if no run along it comes to a node a second time |
| `LdapSchema.Metadata.Lookup` | src/afw_ldap/afw_ldap_metadata.c:806-821 | the list walk finds a node exactly when one on the list carries the name, and that node carries it |
| `LdapSchema.Metadata.Append` | src/afw_ldap/afw_ldap_metadata.c:885-911 | an attribute goes into the last node when that is blank and else into a new one behind it, cutting off what was spliced there |
| `LdapSchema.Metadata.AddOwn` | src/afw_ldap/afw_ldap_metadata.c:885-911 | the own part of a list has exactly the registered properties of the class |
| `LdapSchema.Metadata.CopyUnique` | src/afw_ldap/afw_ldap_metadata.c:982-1007 | the copy loop leaves the list with its old names and those of the parent list, walks the parent list unchanged, and touches no node outside the list under construction |
| `LdapSchema.Metadata.Splice` | src/afw_ldap/afw_ldap_metadata.c:1009-1017 | the parent list comes behind a new blank node; the result still ends and has no new names |
| `LdapSchema.Metadata.AddParent` | src/afw_ldap/afw_ldap_metadata.c:959-1018 | a parent is built first, and then the list under construction has the parent's attributes as well |
| `LdapSchema.Metadata.Build` | src/afw_ldap/afw_ldap_metadata.c:830-1024 | for an acyclic SUP graph, building a class gives it a list that ends and has exactly the attributes the class or a registered ancestor declares; nodes and lists that were there stay as they were, and a class that has its list keeps it |
| `LdapSchema.Metadata.BuildAll` | src/afw_ldap/afw_ldap_metadata.c:1030-1135 | in whatever order the classes come, every one ends up with its list |
| `LdapSchema.Metadata.Find` | src/afw_ldap/afw_ldap_metadata.c:806-821 | an attribute is found on the list of a class if and only if the class or a registered ancestor declares it |
| `LdapSearch.ReadsBack` | src/afw_ldap/afw_ldap_internal.c:363-399 | every well-formed search filter, written as section 3 of RFC 4515 writes it, is read back whatever follows, so its text has one reading |
| `LdapSearch.ReadIsPrinted` | src/afw_ldap/afw_ldap_internal.c:363-399 | the reader accepts nothing but what can be written |
| `LdapFilter.ExpressionReadsAs` | src/afw_ldap/afw_ldap_internal.c:412-475 | for every tree whose values need no escape and whose lt and gt values, if any, begin with an equal sign, the text in its parentheses reads as exactly one filter, the one built from the tree, whatever follows |
| `LdapFilter.SearchTextReadsAs` | src/afw_ldap/afw_ldap_adaptor_session.c:113-137 | the whole search text reads as the conjunction of the class test and that filter |
| `LdapFilter.ClassAloneIsNoFilter` | src/afw_ldap/afw_ldap_adaptor_session.c:113-137 | without criteria the text is not in parentheses and is not a filter of the grammar |
| `LdapFilter.TreeIsAFilterExactlyWhen` | src/afw_ldap/afw_ldap_internal.c:363-475 | the text of a tree is a filter of the grammar if and only if every lt and gt entry anywhere in it has a value that begins with an equal sign, and then it reads as another operator |
| `LdapFilter.FilterMeansReading` | src/afw_ldap/afw_ldap_internal.c:412-475 | for every tree and directory entry the filter matches exactly when the tree is true read as (entry and on_true) or on_false |
| `LdapFilter.ReadsRightExactlyWhen` | src/afw_ldap/afw_ldap_internal.c:412-475 | a tree and all its subtrees read as what they mean if and only if no entry leads to rejection where it holds or acceptance where it fails, and where it holds the failing branch implies the other |
| `LdapFilter.MonotoneIsSound` | src/afw_ldap/afw_ldap_internal.c:412-475 | monotone trees are such trees |
| `LdapFilter.SearchIsTurnedWalk` | src/afw_ldap/afw_ldap_internal.c:363-475 | for every sound tree and every object the directory answers what the walk answers for the tree with le and ge exchanged when it goes on past absent properties |
| `LdapFilter.SearchIsWalkExactlyWhen` | src/afw_ldap/afw_ldap_internal.c:363-475 | for a sound tree of eq and ne entries and any object the directory and the walk differ if and only if the walk meets an absent property and would accept if it went on |
| `LdapFilter.SearchIsWalk` | src/afw_ldap/afw_ldap_internal.c:363-475 | with eq and ne alone the directory and the walk agree on such objects |
| `LdapFilter.EntryAgreesExactlyWhen` | src/afw_ldap/afw_ldap_internal.c:363-399 | one eq, ne, le or ge entry: the directory and the residual test agree on all objects that have the property exactly for eq and ne, and on all objects exactly for eq |
| `Ubjson.NumberReadsBack` | src/afw_ubjson/afw_ubjson_from_value.c:114-170 | the big-endian two's complement payload under the marker chosen for a number stands for that number |
| `UbjsonRoundTrip.ReadsValue` | src/afw_ubjson/afw_ubjson_to_value.c:375-462 | wherever the octets of an encodable value stand and whatever follows them, the parser consumes exactly them and gives the value that rereading describes, or fails where that fails |
| `UbjsonGrammar.AcceptsExactly` | src/afw_ubjson/afw_ubjson_to_value.c:103-462 | for any octets, any position and any place inside the input: the parser reads a given value from there to that place if and only if an encoding of the value stands there, by a grammar of encodings with their markers, lengths, containers and payload widths |
| `UbjsonGrammar.TreeIsRead` | src/afw_ubjson/afw_ubjson_to_value.c:103-462 | every encoding of the grammar, whatever follows it, is read as the value it stands for, and refused when it stands for none |
| `UbjsonRoundTrip.RoundTripExactlyWhen` | src/afw_ubjson/afw_ubjson_from_value.c:172-456 | decoding the encoding of a value gives the value back if and only if no object in it repeats a name or names a property _meta_ and the order of octets of the writing machine does not show in its doubles |
| `UbjsonRoundTrip.BigEndianIsSymmetric` | src/afw_ubjson/afw_ubjson_from_value.c:172-199 | on a big-endian machine it never shows |
| `UbjsonRoundTrip.LittleEndianExactlyWhen` | src/afw_ubjson/afw_ubjson_from_value.c:172-199 | on a little-endian machine it does not show in a double if and only if its eight octets are the same from both ends |
| `UbjsonRoundTrip.LengthTestExactlyWhen` | src/afw_ubjson/afw_ubjson_to_value.c:207-227 | the 64-bit bound test agrees with the parser modelled here on every length, except exactly for a negative one no larger than the octets already read |
| `UbjsonRoundTrip.ConsumesExactly` | src/afw_ubjson/afw_ubjson_to_value.c:375-462 | a canonical value in the middle of any octets is read from exactly its own, with its doubles in the order they were written in |
| `UbjsonRoundTrip.PrefixFree` | src/afw_ubjson/afw_ubjson_from_value.c:339-456 | no encoding is a proper prefix of another |
| `UbjsonRoundTrip.ParsedIsCanonical` | src/afw_ubjson/afw_ubjson_to_value.c:287-373 | every value the parser makes of any input repeats no name and has no _meta_ property |
| `UbjsonRoundTrip.DecodedComesBack` | src/afw_ubjson/afw_ubjson_to_value.c:375-462 | encoding what was decoded, where it can be encoded, decodes to the same value but for its doubles, and those are the same exactly when the writing machine does not show in them |
| `UbjsonRoundTrip.RepeatedNameIsLost` | src/afw_ubjson/afw_ubjson_to_value.c:336-360 | a repeated property name comes back once, with the later value in the earlier place |
| `UbjsonRoundTrip.MetaExactlyWhen` | src/afw_ubjson/afw_ubjson_to_value.c:342-360 | a _meta_ anywhere among the properties is taken and leaves the other properties as they were exactly when it is an object that decodes, and makes the whole fail otherwise |
| `UbjsonRoundTrip.ShapedContainers` | src/afw_ubjson/afw_ubjson_to_value.c:229-340 | of the lists and objects that state a type exactly the empty ones are read, and those that state a count never are |
| `UbjsonRoundTrip.ShortestInteger` | src/afw_ubjson/afw_ubjson_from_value.c:114-170 | any octets that the parser reads as an integer in the writer's range are at least as many as the writer uses for it |
| `UbjsonRoundTrip.IntegerOctets` | src/afw_ubjson/afw_ubjson_from_value.c:114-170 | octet by octet: the marker of the smallest of four types and the number modulo its range, most significant octet first |
| `UbjsonWriter.Writer.PutInteger` | src/afw_ubjson/afw_ubjson_from_value.c:114-170 | writes the number under the smallest marker and nothing for a number outside -2147483647 to 2147483647 |
| `UbjsonWriter.Writer.PutString` | src/afw_ubjson/afw_ubjson_from_value.c:88-111 | a one-octet string with a marker is a char, names have no marker, and a length out of range fails |
| `UbjsonWriter.Writer.PutDouble` | src/afw_ubjson/afw_ubjson_from_value.c:172-199 | a double goes out as memory holds it |
| `UbjsonWriter.Writer.PutValue` | src/afw_ubjson/afw_ubjson_from_value.c:368-456 | fails exactly for values that cannot be encoded, otherwise appends exactly the octets of the value and restores the depth; earlier output is never changed |
| `UbjsonWriter.Writer.PutList` | src/afw_ubjson/afw_ubjson_from_value.c:339-366 | likewise for lists |
| `UbjsonWriter.Writer.PutObject` | src/afw_ubjson/afw_ubjson_from_value.c:201-252 | likewise for objects |
| `UbjsonParser.Parser.ParseLength` | src/afw_ubjson/afw_ubjson_to_value.c:103-142 | a length is an int8, uint8, int16 or int32 that is not negative |
| `UbjsonParser.Parser.ParseNumber` | src/afw_ubjson/afw_ubjson_to_value.c:144-205 | the integer or double that the octets of the marker stand for, or a failure past the end |
| `UbjsonParser.Parser.ParseString` | src/afw_ubjson/afw_ubjson_to_value.c:207-227 | a length and that many octets inside the input |
| `UbjsonParser.Parser.ParseValue` | src/afw_ubjson/afw_ubjson_to_value.c:375-462 | the cursor-driven parser computes, from every position of every input and with every type given, exactly the value and the position that the specification gives |
| `UbjsonParser.Parser.ParseArray` | src/afw_ubjson/afw_ubjson_to_value.c:237-277 | likewise for lists: a count fails, a type is only followed by the empty list |
| `UbjsonParser.Parser.ParseObject` | src/afw_ubjson/afw_ubjson_to_value.c:287-373 | likewise for objects |
| `Registry.ReleasedTakesOne` | src/afw/adaptor/afw_adaptor.c:226-258 | a release takes one claim, from that instance only, and unlinks the instance exactly when it was the last |
| `Registry.ReleasedUnclaimed` | src/afw/adaptor/afw_adaptor.c:226-258 | a release of an instance that the anchor does not hold changes nothing |
| `Registry.StepKeepsInv` | src/afw/adaptor/afw_adaptor.c:43-258 | every locked section by any thread keeps the invariant: counts are outstanding claims, each instance is once in its chain, and a destroyed one is in none |
| `Registry.RunKeepsInv` | src/afw/adaptor/afw_adaptor.c:43-258 | and so does every interleaving |
| `Registry.LiveExactlyWhileClaimed` | src/afw/adaptor/afw_adaptor.c:43-258 | over every interleaving from an empty registry the count of an instance is its outstanding references plus one while it is active or its stop is pending, it is in the chain exactly while that is not 0, and it has been destroyed, once, exactly when that has become 0 |
| `Registry.HeldOutlivesStop` | src/afw/adaptor/afw_adaptor.c:43-258 | an instance stopped while a reference to it is out stays in the chain and is destroyed when that reference comes back |
| `Registry.ClaimedIsUsable` | src/afw/adaptor/afw_adaptor.c:115-139 | what is handed out, active or about to be released has not been destroyed |
| `Registry.StepDestroys` | src/afw/adaptor/afw_adaptor.c:226-258 | a section destroys at most one instance, the one whose last claim it takes |
| `Registry.DestroyedStays` | src/afw/adaptor/afw_adaptor.c:226-258 | a destroyed instance is out of reach in every later state |
| `Registry.StopAgain` | src/afw/adaptor/afw_adaptor.c:74-103 | stopping an id without an active instance changes nothing |
| `Registry.RelatedCountIsRunning` | src/afw/adaptor/afw_adaptor.c:687-719 | the related instance count is the number of instances started and not destroyed, negative when none is active |
| `Registry.Environment.SetActiveLocked` | src/afw/adaptor/afw_adaptor.c:53-107 | throws exactly for a stop of an unknown id; otherwise the new instance is active with one claim and the one before heads the stopping chain with its count |
| `Registry.Environment.SetActive` | src/afw/adaptor/afw_adaptor.c:43-113 | both sections together: the new instance has one claim more, the one before one claim less, no other count changes |
| `Registry.Environment.GetReference` | src/afw/adaptor/afw_adaptor.c:115-139 | the active instance with one claim more, or none |
| `Registry.Environment.Release` | src/afw/adaptor/afw_adaptor.c:226-265 | the chain walk unlinks and destroys as the state machine says; an unknown instance is ignored |
| `Registry.Environment.RelatedInstanceCount` | src/afw/adaptor/afw_adaptor.c:687-719 | the counting loop |
| `SessionCache.EndingReverses` | src/afw/adaptor/afw_adaptor.c:407-419 | commits come in exactly the reverse order of the begins, or not at all when aborting, and every transaction is released once |
| `SessionCache.EndingCloses` | src/afw/adaptor/afw_adaptor.c:407-419 | a log that was properly nested stays so and ends with no transaction open |
| `SessionCache.CommitThenDrop` | src/afw/adaptor/afw_adaptor.c:407-419 | in a properly nested log a commit is of the transaction begun last and its release follows at once |
| `SessionCache.Context.Create` | src/afw/adaptor/afw_adaptor.c:268-282 | takes one reference to the adaptor, or throws without one |
| `SessionCache.Context.Release` | src/afw/adaptor/afw_adaptor.c:284-311 | drops the session from the cache only if it is the one there, and gives exactly one reference back |
| `SessionCache.Context.GetCached` | src/afw/adaptor/afw_adaptor.c:314-391 | at most one session and one transaction for an adaptor id: an existing one is used, a new one is made or begun only when there is none; a failed call changes nothing |
| `SessionCache.Context.EnsureTransaction` | src/afw/adaptor/afw_adaptor.c:340-364 | begins a transaction exactly when none is open for the id and the adaptor has transactions |
| `SessionCache.Context.EndTransactions` | src/afw/adaptor/afw_adaptor.c:407-419 | the loop from the last transaction to the first |
| `SessionCache.Context.ReleaseSessions` | src/afw/adaptor/afw_adaptor.c:421-427 | every cached session is released once, in any order |
| `SessionCache.Context.CommitAndRelease` | src/afw/adaptor/afw_adaptor.c:392-436 | afterwards no session is cached and no transaction open, the log has the commits and releases in reverse order of begin followed by one release for every cached session, and only references held outside the cache remain |
| `VfsMap.ClashExactlyWhen` | src/afw_vfs/afw_vfs_adaptor.c:145-161 | moving an entry to its place meets an equal prefix exactly when the map has one |
| `VfsMap.InsertedIsOrdered` | src/afw_vfs/afw_vfs_adaptor.c:145-161 | an insertion keeps the map strictly ordered by descending prefix length and then by octets |
| `VfsMap.InsertedAdds` | src/afw_vfs/afw_vfs_adaptor.c:145-161 | it adds the entry and loses none |
| `VfsMap.OrderIsUnique` | src/afw_vfs/afw_vfs_adaptor.c:145-161 | the order of the map does not depend on the order of the configuration |
| `VfsMap.FirstMatchIsLongest` | src/afw_vfs/afw_vfs_adaptor_session.c:27-47 | in an ordered map the first matching prefix is the longest, and no other entry of its length matches |
| `VfsMap.MoveToPlace` | src/afw_vfs/afw_vfs_adaptor.c:145-161 | the swap loop moves the new entry to its place in the array and refuses exactly a clash |
| `VfsMap.ParseEntry` | src/afw_vfs/afw_vfs_adaptor.c:89-143 | an entry with an equal sign gives its prefix and directory exactly when the source accepts it |
| `VfsMap.AcceptedExactlyWhen` | src/afw_vfs/afw_vfs_adaptor.c:89-143 | among entries with an equal sign the source accepts exactly those whose prefix is empty or ends with a slash and whose directory exists and ends with a slash, except the root directory for the empty prefix |
| `VfsMap.TestRefusesExactlyWhen` | src/afw_vfs/afw_vfs_adaptor.c:93-98 | the test for a missing equal sign or path finds a missing equal sign only in an entry of one octet, and refuses every entry that is an equal sign and one octet |
| `VfsMap.BuildMap` | src/afw_vfs/afw_vfs_adaptor.c:60-163 | the map is refused exactly when the list is empty, an entry is not accepted or two prefixes are equal; otherwise it is ordered and has exactly the configured entries |
| `VfsMap.GetEntry` | src/afw_vfs/afw_vfs_adaptor_session.c:27-47 | finds the longest configured prefix of an object id, and nothing only when there is none |
| `Framing.DecimalReadsBack` | src/afw_command/afw_command_local_server.c:568-572 | reading a printed length gives the length |
| `Framing.WrittenReadsBack` | src/afw_command/afw_command_local_server.c:553-634 | what is written for any chunks of any octets, ended by write_end, reads back as their concatenation, whatever follows |
| `Framing.ConversationReadsBack` | src/afw_command/afw_command_local_server.c:50-120 | a whole sequence of segments reads back segment by segment and then reports the end |
| `Framing.AcceptsExactly` | src/afw_command/afw_command_local_server.c:50-120 | an input is read as a segment with given data and rest if and only if it begins with chunks that hold the data, each its length, a newline and that many octets, and then a length of 0 |
| `Framing.ConversationExactlyWhen` | src/afw_command/afw_command_local_server.c:50-120 | a whole input is read to its end without an error if and only if it is a sequence of such segments |
| `Framing.TruncationIsNoticed` | src/afw_command/afw_command_local_server.c:64-115 | a segment cut short at any octet is an error, or the end of the input when nothing of it is there; it is never taken for data |
| `Framing.LocalServer.GetInput` | src/afw_command/afw_command_local_server.c:50-120 | the reading loops return the segment, nothing at the end, or an error that is then fatal, as the specification of reading says |
| `Framing.LocalServer.ScanNumber` | src/afw_command/afw_command_local_server.c:84-95 | all digits at the head are consumed and their value returned |
| `Framing.LocalServer.ReadChunk` | src/afw_command/afw_command_local_server.c:101-110 | exactly the announced octets are appended, and a shorter input is an error |
| `Framing.LocalServer.WriteResult` | src/afw_command/afw_command_local_server.c:553-584 | a non-empty result is written as its length, a newline and itself; an empty one writes nothing |
| `Framing.LocalServer.WriteEnd` | src/afw_command/afw_command_local_server.c:622-634 | ends a segment |

## Left out

- LMDB, APR, libyaml, libldap and FastCGI themselves: databases are maps and sets of pairs with atomic transactions, hash tables are maps, and what libldap does with a filter is section 4.5.1.7 of RFC 4511 for known attributes.
- Pools and the release of memory, tracing, authorization callbacks, metrics, extension registration, command-line and request plumbing, vfs file input and output, and the Python tooling.
- The lock balance of the transaction macros on error and early-return paths, and the session indexer whose transaction is never set: index operations run in the session's current transaction.
- The not_found catch that cuts unindexing short when an index database is missing: the databases are open.
- Index cursors for lt, le, gt and ne, which compare prefixes and stop at the end of a range in ways that differ from the operators. The query theorems are about eq, which alone has counts.
- The replace operation of an index, which nothing calls.
- How an index's value and filter expressions are evaluated: they are functions of type, key and object. `Retrieve` uses definitions without a value expression and without case folding.
- Conversion between data types in comparisons, the operators in, match and contains, null property values, and object values: a property value is one string or a list of strings.
- Criteria.TestObject: a string compared with a list property is compared with each item, which is what the comparison is for. The source (afw_query_criteria.c:1587-1637) converts the string to the type of the list and then compares its items by that type's comparison, which is not an order of the items.
- IndexQuery.EqAppliesIsHolds: for list values it compares the look-ahead, as it is, with the residual test as it is meant, for the same reason.
- The shared nodes of a decision tree: the tree stands for the directed acyclic graph of entries, whose nodes are visited once for every path that reaches them.
- Planner.Join: the source marks the cursors of the kept list in place, which only that list refers to; the model returns the marked list and so does not capture aliasing with the other list.
- Cursor counts: whatever the store reports, unrelated to the number of objects a cursor holds.
- IndexQuery.Query: the callback's request to abandon is ignored, as the source's query loop ignores it.
- Retrieve.RetrieveObjects: the object types that the adaptor describes itself, which it answers first. The query loop ignores the callback's request to abandon.
- UbjsonGrammar.AcceptsExactly: is about values that end inside the input. A value whose last octet is the one behind the input is in ParseValue, and not in the grammar.
- Uuids as text and their conversion to the 16 octets of a key.
- JournalStore: cursors are stored as decimal text; the model stores the numbers. The other get_entry options, which choose one of the modelled scans or reads, are not modelled.
- Journal.ExactlyOnce: the client-chosen seek is not part of the run, as it can skip entries by design; `SeekThenReissue` is its contract.
- LdapSchema.Metadata.Build: assumes that the SUP graph has no cycle, as a hierarchy of classes below top has none. With a cycle the source registers a class before it visits its parents and so splices lists that lead back into themselves; `EndsExactlyWhen` says when a list ends, and what the walks of such lists do is not modelled. The pointers of the source are indexes into the pool of nodes. Parent paths, the required flag and the synthetic property type objects are not modelled.
- LdapSchema.Metadata.BuildAll: likewise.
- LDAP schema parsing and syntax tables.
- LdapFilter: values with characters that need an escape, which the source does not escape, and the conversion of values to LDAP syntax. Approximate matching is read as equality.
- LdapSearch.ReadsBack: escapes, substring filters and extensible matches are not part of the abstract filter, because the adaptor never writes them.
- Ubjson: high-precision numbers, which the parser refuses. Containers with a type or count, which the writer never makes, are modelled as the parser treats them: all but the empty one fail. The octet one past the input, which the source may read, and the conversion of a float32 to a double are parameters.
- UbjsonWriter.Writer.PutObject: the meta object that the source writes first when the options ask for one is not modelled.
- UbjsonWriter.Writer.PutValue: as PutObject; a double is the eight octets of its number.
- UbjsonParser.Parser.ParseLength: a negative length is a failure here; in the source it becomes a huge size_t. `LengthTestExactlyWhen` says when that still passes the bound test, and what is read then is not modelled.
- UbjsonParser.Parser.ParseString: likewise.
- UbjsonParser.Parser.ParseObject: a `_meta_` object is checked and then dropped, while the source attaches it to the object. Embedded objects are set in the object that holds them before they are parsed; the model sets them after, which gives the same object.
- UbjsonParser.Parser.ParseValue: as ParseObject and ParseString.
- Registry: an instance is activated once; the service layer that starts adaptors on demand is not modelled, nor is a release by someone who holds no reference.
- SessionCache: the runtime session of the cache, which nothing ever sets, and the object type cache. Whether an adaptor is available and has transactions is a parameter.
- VfsMap.BuildMap: entries are strings with an equal sign, without NUL octets; of the others the source refuses those of one octet and takes a path behind their end, which is not modelled. Whether a path is a directory is a parameter.
- VfsMap.ParseEntry: likewise.
- Framing: the directives and modes of local mode.
- Framing.LocalServer.ScanNumber: lengths beyond a long long, which fscanf bounds, are read as they stand.
- Rql: tokens, decoding and the and/or entries that only keep the shape of the expression; an object form with an empty list of filters gives a NULL filter and is not modelled.
