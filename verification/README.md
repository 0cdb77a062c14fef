# Verification of the GOsa object engine

This project models the parts of the GOsa backend that decide something: which filter line runs next, who may do
what, in which order attributes are saved, when an object is closed, and which stored records belong together. Each
part is written in the form of the source (methods that change state, with loops and their invariants) and proved
against a specification, and the specification is then proved to mean what the system promises.

| file | part of the system |
|---|---|
| FilterSyntax, FilterCompiler, FilterMachine, FilterExecution, FilterCorrectness, FilterNesting, FilterLaws | the compiler for in- and out-filters and the stack machine that runs its process lists |
| Validator | the postfix machine for value validation |
| SaveOrder | dependency levels of attributes and the propagation of changes on commit |
| AclModel, AclDecision, AclMeaning, AclRoles, AclLists, AclResort, AclMemo | matching, the walk up the tree and what a decision means, roles, ordered sets, and the keys of the memo of the ACL resolver |
| AclChanges, AclLaws, AclStale, AclResolver, AclSteps, AclRuns | what the operations of the resolver change and keep, updates that break off, the resolver with its memo, what each call does without one, and whole runs |
| ObjectStack | objects opened over JSON-RPC and the collector that closes idle ones |
| Extensions | extend, retract and commit of an object's extensions |
| JsonStore, IndexMove, Relations | the JSON backend, the object index, and relations kept by foreign objects |
| AclText, LogonHours | the stored text form of ACLs and of Samba logon hours |

Some properties one would expect do not hold of the code. They are stated as they are, with the exact condition:
bodies of a When are copied without relocating their jumps (`CodeAgreesIffFlat`, `ForwardIffFlat`, `MeantIffFlat`); a
comparator that returns a pair is always taken as true by the filter machine (`VerdictFollowedIff`); an update of a
priority leaves a set unsorted (`UpdateKeepsSortedIff`), and the next `ACLSet.add` sorts it, which can take a grant away
(`UnsortedSetLosesGrant`, `AddTakesGrantIff`); removing an ACL set can remove another empty one instead
(`BaseGoneIff`); an update that raises half-way can leave a stale memo (`StaleIff`, `StaleInRoleIff`,
`BrokenOffUpdateLeavesStaleMemo`), and so can loading an empty database (`LoadAcls`, `ReloadKeepsStaleGrant`); memo keys
can collide (`UsersCollideIff`); the search whether a role is used need not end (`SearchEndsIff`, `SearchOnCycle`);
removing a role can leave a dangling reference (`RemovalKeepsReferencesIff`, `RemovalCanDangle`); an entry added for the
empty base is stored nowhere (`EmptyBaseStoresNothing`); an extension added and saved cannot be retracted by a second
commit of the same object (`CommitStoresActiveIff`, `SecondCommitLeavesExtensionBehind`); retracting an extension can
take a method of the base with it (`ToggleRestoresMethodsIff`); data that carry the keys of a name can break the JSON
file (`UpdateSoundIff`); a logon-hours round trip rotates the week outside UTC (`IdentityIff`); the ownership check of
the object stack asks whether the user owns any object at all (`StrangerAcceptedIff`, `StrangerCloses`). A Choice runs
all of its Whens, not only the first that matches, and so does the model.

`dafny verify dfyconfig.toml` checks everything.

## Model

| member | source | states |
|---|---|---|
| FilterCompiler.BuildFilter | backend/src/gosa/backend/objects/factory.py:1143-1168 | The lines of an in- or out-filter are those of its chains one behind the other, numbered from 1 without gaps, each chain compiled behind the ones before it |
| FilterCompiler.BuildValidator | backend/src/gosa/backend/objects/factory.py:1143-1168 | A validator becomes the postfix form of its one condition tree |
| FilterCompiler.HandleFilterChain | backend/src/gosa/backend/objects/factory.py:1170-1188 | A chain appends the code of its entries, in order, behind the lines already there, and leaves those alone |
| FilterCompiler.HandleChoice | backend/src/gosa/backend/objects/factory.py:1232-1246 | All Whens are emitted one after the other; there is no jump past the later ones |
| FilterCompiler.HandleWhen | backend/src/gosa/backend/objects/factory.py:1248-1301 | Condition, conditional jump, copied body, jump over the Else body, copied Else body, with the two bodies compiled in lists of their own |
| FilterCompiler.EmitBodies | backend/src/gosa/backend/objects/factory.py:1266-1301 | The jump arithmetic: a match goes on at the first body line, a mismatch at the first Else line, the end of the body jumps one behind the Else body |
| FilterCompiler.HandleConditionOperator | backend/src/gosa/backend/objects/factory.py:1339-1360 | Left operand, right operand, operator: the tree in postfix |
| FilterMachine.ExecuteLines | backend/src/gosa/backend/objects/object.py:893-983 | For every list of lines, also one whose jumps go back, the first rounds of the loop are that many steps of the machine |
| FilterMachine.ProcessFilter | backend/src/gosa/backend/objects/object.py:879-983 | On every list and every state on which the loop ends, after whatever number of rounds, it ends in the outcome of the step semantics; on lists whose jumps go ahead that is the outcome of running forward |
| FilterMachine.StopsInTime | backend/src/gosa/backend/objects/object.py:893-983 | Every list whose jumps go ahead halts within n + 1 machine steps, whatever the filters and comparators do |
| FilterCorrectness.CodeAgreesIffFlat | backend/src/gosa/backend/objects/factory.py:1285-1299 | Leaving the jumps of copied bodies unrelocated gives the relocated code if and only if no When or Else body holds a When |
| FilterCorrectness.ForwardIffFlat | backend/src/gosa/backend/objects/factory.py:1274-1299 | All jumps the handlers emit for a chain go ahead if and only if no When or Else body holds a When |
| FilterCorrectness.RelocatedMeansTree | backend/src/gosa/backend/objects/factory.py:1170-1384 | For every nesting, relocated code run from line 1 ends in exactly the state or exception of reading the tree directly, and jumps only ahead |
| FilterCorrectness.AppendedMeansTree | backend/src/gosa/backend/objects/factory.py:1170-1384 | Compiled behind any earlier lines, a chain with plain bodies continues from their outcome as its tree says, whatever they leave on the stack, and all jumps stay ahead |
| FilterCorrectness.CompiledMeansTree | backend/src/gosa/backend/objects/object.py:879-983 | What the compiler makes of a whole filter with plain bodies, run by the machine, is the direct reading of its trees |
| FilterCorrectness.ForwardCode | backend/src/gosa/backend/objects/factory.py:1274-1301 | Every compiled jump goes strictly ahead, to a line of its own code or one behind it |
| FilterExecution.RunCondition | backend/src/gosa/backend/objects/object.py:934-960 | The code of a complete condition tree takes the machine behind itself with exactly one value more on the stack, the value of the tree, or to the exception of a comparator |
| FilterExecution.RunPlaced | backend/src/gosa/backend/objects/object.py:962-975 | From the start of a placed When the machine gets, going only ahead, behind it with the state of the chosen body and the stack it had |
| FilterExecution.WhenKeepsStack | backend/src/gosa/backend/objects/object.py:962-975 | The same in machine steps: after some number of them the machine is behind the When with exactly the stack it had before, or has stopped with the exception of the tree |
| FilterCorrectness.NeverUnderflows | backend/src/gosa/backend/objects/object.py:939-967 | No run of a compiled filter with plain bodies and complete conditions, whole or cut short, stops at an empty stack |
| FilterCorrectness.UnderflowsIffIncomplete | backend/src/gosa/backend/objects/object.py:939-967 | With comparators that do not raise, a When on an empty stack goes to the body its condition picks if the condition is complete, and raises from the empty stack exactly if it is not |
| FilterCorrectness.NestedWhenDiverges | backend/src/gosa/backend/objects/factory.py:1285-1299 | A When with a filter as the only thing in the body of another When: compiled without relocation it never ends once the outer condition holds, although its tree has an ordinary outcome |
| FilterNesting.NestingNeverEnds | backend/src/gosa/backend/objects/factory.py:1285-1299 | Every filter, however large, whose first nesting When nests in the body it runs on a match: with comparators that agree and filters that change nothing its tree leaves the state as it is, but its lines never come to an end other than an empty stack |
| FilterNesting.MeantIffFlat | backend/src/gosa/backend/objects/factory.py:1274-1301 | Leaving out filters that nest first in an Else body, the compiled lines mean the tree for all filters, comparators and states if and only if no body holds a When |
| FilterCorrectness.VerdictFollowedIff | backend/src/gosa/backend/objects/object.py:944-951 | Pushed verdicts are followed as they are; a pushed pair (verdict, errors) always counts as true, so the branch agrees with the verdict if and only if the verdict is true |
| FilterLaws.RunFilters | backend/src/gosa/backend/objects/object.py:900-936 | A filter made of filters, compiled and run: each filter gets the key and the properties the one before handed back, and the outcome is what the last one hands back, or the error about the first that raises or hands back something unusable |
| FilterLaws.ComposesOnce | backend/src/gosa/backend/objects/object.py:900-936 | That outcome is determined by the filters and the state |
| FilterLaws.RunFilter | backend/src/gosa/backend/objects/object.py:906-936 | A single filter, compiled and run: the rewritten state if its key is a property and every property has a backend, a type and a value that is a list or None; otherwise the error about the key, or about the property, or what the filter raised |
| FilterLaws.ConditionSays | backend/src/gosa/backend/objects/object.py:940-975 | A complete condition raises what its first raising comparator raises, and is otherwise the and and or of the answers, where a pair counts as true |
| FilterLaws.RunWhen | backend/src/gosa/backend/objects/object.py:898-985 | A When with filters in both bodies, compiled and run: the answers of the comparators pick the body, and the state goes through the filters of that body only |
| Validator.ProcessValidator | backend/src/gosa/backend/objects/object.py:807-877 | The validator loop computes the outcome of the postfix list line by line, verdict and messages |
| Validator.ValidatorMeansTree | backend/src/gosa/backend/objects/object.py:826-877 | For every complete condition tree the verdict is the tree's boolean value, although the operands are popped in reverse, and the messages are those of its failed parts |
| Validator.ExecuteTree | backend/src/gosa/backend/objects/object.py:834-867 | The lines of a tree leave exactly one value more on the stack than before, the tree's truth value |
| Validator.VerdictIffComplete | backend/src/gosa/backend/objects/object.py:847-877 | There is a verdict if and only if no condition is missing; otherwise an empty stack is popped |
| Validator.RejectionHasMessage | backend/src/gosa/backend/objects/object.py:861-877 | If every failing comparator says why, every rejection carries a message that is not empty |
| Validator.AcceptedIff | backend/src/gosa/backend/objects/object.py:826-877 | A value is accepted if and only if the and and or of the answers of the comparators says so |
| Validator.OneCondition | backend/src/gosa/backend/objects/object.py:861-877 | A single condition that fails is reported with the last of its errors |
| Validator.TwoConditions | backend/src/gosa/backend/objects/object.py:834-877 | Of two conditions that both have to hold the last one that fails is reported |
| SaveOrder.SaveOrderHelper | backend/src/gosa/backend/objects/object.py:108-132 | Succeeds if and only if every walk from the attribute fits into the remaining levels, and then adds every attribute at exactly the levels its walks reach |
| SaveOrder.SaveOrder | backend/src/gosa/backend/objects/object.py:92-106 | Returns every attribute once with each dependency before its dependents, or raises |
| SaveOrder.OrderExistsIff | backend/src/gosa/backend/objects/object.py:108-132 | The order exists if and only if all dependencies are attributes and no dependency walk has ten attributes |
| SaveOrder.CycleRaises | backend/src/gosa/backend/objects/object.py:108-132 | Every dependency cycle contains a walk of ten attributes, so every cycle raises |
| SaveOrder.Pass | backend/src/gosa/backend/objects/object.py:606-627 | One pass over the attributes marks only what is affected, reports a change exactly if it made one, and along a dependency-first order settles every flag |
| SaveOrder.Propagate | backend/src/gosa/backend/objects/object.py:600-629 | Along a dependency-first order the flags after the loop are exactly the attributes that reach a changed one, after at most two of the five passes |
| SaveOrder.OrderAndPropagate | backend/src/gosa/backend/objects/object.py:600-629 | Order and propagation together: an exact commit status, or no order at all, exactly as the dependencies decide |
| AclModel.MatchImpl | backend/src/gosa/backend/acl.py:724-841 | The recursive match with its shared list of used roles computes the specified verdict and list on every role graph, cyclic ones included, and ends |
| AclModel.LoopMeansReentry | backend/src/gosa/backend/acl.py:755-761 | A match enters no role twice, and reports a loop only on a role it has entered |
| AclModel.MatchIsScan | backend/src/gosa/backend/acl.py:746-771 | On every role graph matching is the first-match scan over the depth-first unfolding, which stops where a role is met again or does not exist |
| AclModel.MatchMeaning | backend/src/gosa/backend/acl.py:746-841 | On every role graph the verdict is that of the first unfolded entry that grants the request, or a loop if a role is entered a second time before it, or a missing role if one is named before it, or no match if none of these happens |
| AclModel.EntriesUseOuterMembers | backend/src/gosa/backend/acl.py:748-753 | Every entry reached through roles is tried with the members of the ACL that started |
| AclDecision.Check | backend/src/gosa/backend/acl.py:1270-1324 | The early-returning walk up the DN, over the sets and over their entries ends with the decision the walk order specifies |
| AclDecision.GrantsIff | backend/src/gosa/backend/acl.py:1291-1321 | The walk grants if and only if, before any exception, there is a matching PSUB entry, or a matching SUB entry (or ONE entry on the target's own base) that no matching RESET precedes |
| AclDecision.DecisionGrantsIff | backend/src/gosa/backend/acl.py:1238-1324 | The same for whole decisions: users that are admins or None are always granted, everybody else by the walk |
| AclDecision.ReplaceOnWalk | backend/src/gosa/backend/acl.py:1277-1289 | The walk meets the list of a set if and only if the base of the set is a suffix of the target and contains the root, and then exactly once: between what it meets below and in earlier sets and what it meets in later sets and above |
| AclMeaning.DirectDecisionIff | backend/src/gosa/backend/acl.py:1238-1324 | Where no set uses a role nothing is raised, and a user who is no administrator is granted a request if and only if some entry at or above the target, below or at the root, has an action that holds every right asked for, is about the topic and names the user (or, for m and o, the manager or owner), and its scope is PSUB, or SUB, or ONE on the target, with no covering RESET entry nearer to the target or earlier on the same base in the last two cases |
| AclMeaning.GrantHasReason | backend/src/gosa/backend/acl.py:746-841 | On every role graph: whoever is granted and is no administrator is so by an entry on the way from the target to the root, or one its roles lead to, with an action that covers the request |
| AclMeaning.ReasonNamesMembers | backend/src/gosa/backend/acl.py:748-753 | Where roles carry no members that action names the members of the entry in the set |
| AclMeaning.UnheldRightIsDenied | backend/src/gosa/backend/acl.py:814-815 | A right that no stored action holds is granted to nobody but administrators |
| AclMeaning.OneEntryDecides | backend/src/gosa/backend/acl.py:775-841 | One entry on the root decides a question about the root exactly by whether one of its actions covers the request |
| AclMeaning.OwnerDecides | backend/src/gosa/backend/acl.py:788-803 | An action with the right o is for the owner of the target alone, whoever the members and managers are |
| AclMeaning.ManagerDecides | backend/src/gosa/backend/acl.py:788-797 | One with the right m is for the managers alone |
| AclMeaning.RaisesIff | backend/src/gosa/backend/acl.py:1289-1321 | The walk raises exactly what its first exception says, if nothing before it settles the decision |
| AclDecision.AddingOneEntry | backend/src/gosa/backend/acl.py:1289-1321 | Adding a PSUB entry that uses no role, anywhere, never takes a grant away; adding a RESET entry never creates one |
| AclLists.SortSorts | backend/src/gosa/backend/acl.py:239-240 | Sorting by priority gives an ordered permutation |
| AclLists.AddInserts | backend/src/gosa/backend/acl.py:235-240 | Adding sorts any list and puts the entry behind all entries of equal or smaller key and before all others, in ascending order for sets and descending order for roles |
| AclLists.AddKeepsOrder | backend/src/gosa/backend/acl.py:210-241 | Compared with the sorted list, which is the list itself if it was in order, ACLSet.add of a direct PSUB entry never takes a grant away and of a RESET entry never creates one |
| AclLaws.AddedHolds | backend/src/gosa/backend/acl.py:231-240 | Adding keeps every entry and brings in the new one, with the length of the list as its priority if it has none, and afterwards priorities go up in a set and down in a role |
| AclLaws.AddToFirstHolds | backend/src/gosa/backend/acl.py:1183-1200 | The first set on the base gains the entry, every other set stays |
| AclLaws.AddToAllHolds | backend/src/gosa/backend/acl.py:1463-1480 | Every set on the base gains the entry, every other set stays |
| AclLaws.MergedHolds | backend/src/gosa/backend/acl.py:1172-1181 | A set on a known base gives its entries to the first set there, every other set stays |
| AclLaws.RemoveUserHolds | backend/src/gosa/backend/acl.py:117-121 | Every entry of every set loses one mention of the user and nothing else |
| AclLaws.RemoveFirstHolds | backend/src/gosa/backend/acl.py:119-121 | The first mention of a name goes and nothing else; whoever was mentioned once is gone |
| AclResort.ListMattersIff | backend/src/gosa/backend/acl.py:1289-1321 | Another list in one set changes whether a user is granted if and only if the user is no administrator, the base of the set is a suffix of the target that contains the root, what the walk meets before the list leaves the decision open, and the two lists settle it differently |
| AclResort.SortMattersIff | backend/src/gosa/backend/acl.py:238-240 | On a walk without exceptions the sort by itself takes a grant away if and only if the walk comes past the set, a grant comes before every reset in the old order and none does in the new one, nothing before the set grants or resets, and no permanent grant lies anywhere; and it creates one in the mirrored case |
| AclResort.AddTakesGrantIff | backend/src/gosa/backend/acl.py:210-241 | On a walk without exceptions ACLSet.add of a direct PSUB entry takes a grant away if and only if the sort alone would and the entry does not match the request |
| AclResort.AddOnRootTakesGrantIff | backend/src/gosa/backend/acl.py:210-241 | For one set on the root and a question about the root: if and only if a grant comes before every reset in the list and none does when it is sorted, no entry grants for good, and the new one does not match |
| AclChanges.UnsortedSetLosesGrant | backend/src/gosa/backend/acl.py:1924-1925 | An update of a priority leaves a set unsorted, and adding a direct PSUB entry that concerns somebody else then takes a grant away |
| AclLists.ReplacedSortedIff | backend/src/gosa/backend/acl.py:1924-1925 | Another entry in one place keeps a sorted list sorted if and only if its priority fits between those of its neighbours |
| AclChanges.UpdateKeepsSortedIff | backend/src/gosa/backend/acl.py:1848-1938 | updateACL keeps the sets sorted if and only if it leaves the priority or the new one fits between those of the neighbours |
| AclChanges.UpdateKeepsRolesSortedIff | backend/src/gosa/backend/acl.py:2095-2193 | The same for updateACLRole and the roles |
| AclChanges.AddToFirstKeeps | backend/src/gosa/backend/acl.py:1183-1200 | add_acl_to_set keeps every set sorted and the bases plain, and one set per base and no entry in two sets for an entry with a new id |
| AclChanges.AddToAllKeeps | backend/src/gosa/backend/acl.py:1463-1480 | add_acl_to_base keeps every set sorted |
| AclChanges.RemoveByBaseKeeps | backend/src/gosa/backend/acl.py:1410-1431 | remove_aclset_by_base keeps every set sorted, one set per base and no entry in two sets |
| AclChanges.RemoveUserKeeps | backend/src/gosa/backend/acl.py:1482-1509 | remove_acls_for_user keeps the same |
| AclChanges.AfterRemovalKeeps | backend/src/gosa/backend/acl.py:1722-1759 | removeACL keeps the same |
| AclChanges.RoleChangesKeepSorted | backend/src/gosa/backend/acl.py:1202-1235 | Adding to a role and removing from it keep the roles sorted, and installing a role does if and only if its list is sorted |
| AclChanges.RemovedEntryDecides | backend/src/gosa/backend/acl.py:1722-1759 | removeACL decides like the sets with just that entry taken out, so removing a direct PSUB entry never creates a grant and removing a RESET entry never takes one away |
| AclRoles.IsRoleUsed | backend/src/gosa/backend/acl.py:1347-1376 | On every role graph, wherever the search ends: it says whether references lead from the sets to the role, or raises the KeyError for the missing role it meets first |
| AclRoles.SeekMeaning | backend/src/gosa/backend/acl.py:1366-1376 | Found means that references lead to the role, not found that they do not, on every role graph |
| AclRoles.SearchEndsIff | backend/src/gosa/backend/acl.py:1366-1376 | The recursion ends within some depth if and only if no role is met again on its own path before the name or a missing role is met, and then in that outcome, however deep it may go |
| AclRoles.SearchOnCycle | backend/src/gosa/backend/acl.py:1366-1376 | On one and the same cycle the search for a role of the cycle ends and the search for any other name does not |
| AclRoles.RankedSetsAnswer | backend/src/gosa/backend/acl.py:1347-1376 | Where nothing in reach of the sets lies on a cycle or dangles, every search ends with the right answer; the rest of the graph may be as it will |
| AclRoles.RemovalKeepsSearches | backend/src/gosa/backend/acl.py:1433-1461 | Removing a role that is not reachable from the sets leaves every search as it was, errors and endless ones included |
| AclRoles.RemovalIsInvisible | backend/src/gosa/backend/acl.py:1433-1461 | Removing a role that is not reachable from the sets changes no decision and no exception, for every query and every role graph |
| AclRoles.RemovalKeepsReferencesIff | backend/src/gosa/backend/acl.py:1455-1461 | A removal leaves the role graph without dangling references if and only if no other role refers to the removed one |
| AclRoles.RemovalCanDangle | backend/src/gosa/backend/acl.py:1433-1461 | A role used only by a role no set uses can be removed, which leaves a dangling reference out of reach, and the next removal succeeds as well |
| AclMemo.KeyTellsPlainQueriesApart | backend/src/gosa/backend/acl.py:886-899 | Plain queries with the same key are the same query |
| AclMemo.KeysCanCollide | backend/src/gosa/backend/acl.py:888-892 | Queries of two different users can share a key, because dots are not told apart |
| AclMemo.UsersCollideIff | backend/src/gosa/backend/acl.py:888-892 | Two users can share a key, for some topics, if and only if one name continues the other behind a dot |
| AclResolver.ACLResolver.constructor | backend/src/gosa/backend/acl.py:940-952 | A new resolver starts with an empty, coherent memo |
| AclResolver.ACLResolver.Check | backend/src/gosa/backend/acl.py:886-899 | Whatever is answered from or stored in the memo keeps it coherent, and with a memo of plain queries every plain query gets the uncached decision of the current state and leaves the memo plain |
| AclResolver.AskedIffPermitted | backend/src/gosa/backend/acl.py:1901-1911 | In front of a coherent memo of plain queries, asking for permission on one base after the other succeeds if and only if the user may write on each of them |
| AclResolver.ACLResolver.GetNextAclId | backend/src/gosa/backend/acl.py:1018-1035 | The id is the smallest one larger than the last that no entry of a set or a role uses |
| AclLaws.UsedIdsAre | backend/src/gosa/backend/acl.py:1022-1030 | The ids in use are those of the entries of all sets and all roles |
| AclResolver.ACLResolver.AddAclSet | backend/src/gosa/backend/acl.py:1172-1181 | A set on a new base is appended and makes any memo coherent, one on a known base is merged entry by entry and keeps it so |
| AclResolver.ACLResolver.AddAclToSet | backend/src/gosa/backend/acl.py:1183-1200 | The entry goes into the first set on the base, or the call raises and changes nothing; the memo stays coherent |
| AclResolver.ACLResolver.AddAclToBase | backend/src/gosa/backend/acl.py:1463-1480 | The entry goes into every set on the base; the memo stays coherent |
| AclResolver.ACLResolver.AddAclToRole | backend/src/gosa/backend/acl.py:1202-1222 | The entry goes into the role at its place, or the call raises and changes nothing; the memo stays coherent |
| AclResolver.ACLResolver.AddAclRole | backend/src/gosa/backend/acl.py:1224-1235 | The role replaces any of the same name; the memo stays coherent |
| AclResolver.ACLResolver.RemoveRole | backend/src/gosa/backend/acl.py:1433-1461 | Wherever its search ends: an unknown or used role is refused, a missing role that the search meets raises, every other removal changes no decision at all, and the memo stays coherent |
| AclSteps.RemovalReasons | backend/src/gosa/backend/acl.py:1445-1461 | A role is refused as not found exactly if it does not exist, as in use only if the sets lead to it, as dangling only for a role that does not exist, and is removed only if the sets do not lead to it |
| AclResolver.ACLResolver.RemoveAclSetByBase | backend/src/gosa/backend/acl.py:1410-1431 | The loop over the list it removes from leaves exactly the specified list, and raises exactly if no set is on the base |
| AclLists.BaseGoneIff | backend/src/gosa/backend/acl.py:1410-1431 | With one set per base, the base is gone afterwards if and only if its set had entries or no empty set stands before it: sets are compared as lists |
| AclLists.RemovalDecides | backend/src/gosa/backend/acl.py:1410-1431 | Either way every decision afterwards is the one with the entries on that base taken out |
| AclResolver.ACLResolver.RemoveAclsForUser | backend/src/gosa/backend/acl.py:1482-1509 | The first mention of the user goes from every entry of every set; the memo stays coherent |
| AclResolver.ACLResolver.AddACL | backend/src/gosa/backend/acl.py:1762-1845 | Succeeds exactly for a permitted user with valid arguments and a known role, otherwise with the first error in the source's order; opens a set if the base has none, on the root for the empty base, and stores exactly the described entry under the next free id in every set on the base; an unknown role is noticed behind both; the memo stays coherent |
| AclLaws.NewEntryHolds | backend/src/gosa/backend/acl.py:1827-1845 | The new entry holds what was asked for, with scope SUB if none is given; one that uses a role has no scope and no actions |
| AclLaws.AddArguments | backend/src/gosa/backend/acl.py:1796-1820 | Accepted exactly with a known scope or none, a priority from -100 to 100, rights out of the nine letters, and actions or a role but not both; each error has exactly its reason |
| AclLaws.OpenedHolds | backend/src/gosa/backend/acl.py:1823-1825 | A base that has a set gets none; otherwise there is one new empty set behind the others, on the base, or on the root for the empty base |
| AclChanges.EmptyBaseStoresNothing | backend/src/gosa/backend/acl.py:136-142 | An entry for the empty base is stored in no set: the set that is opened for it is on the root |
| AclResolver.MemoIsRightEach | backend/src/gosa/backend/acl.py:886-899 | In front of a coherent memo of plain queries, asking for permission on one base after the other comes back with exactly the answer, or the first error, there would be without a memo |
| AclResolver.ACLResolver.Clear | backend/src/gosa/backend/acl.py:1037-1044 | Sets and roles are forgotten but not the answers: the memo stays coherent if and only if it remembers no grant but those of administrators and of calls without a user |
| AclResolver.ACLResolver.LoadAcls | backend/src/gosa/backend/acl.py:996-1010 | Loads the roles and sets that the database holds; afterwards the memo is coherent if and only if there is a role or a set, or nothing had to be forgotten |
| AclResolver.InstalledHolds | backend/src/gosa/backend/acl.py:1224-1235 | Each role ends up with the entries it was given last, and other roles stay |
| AclResolver.ReloadKeepsStaleGrant | backend/src/gosa/backend/acl.py:996-1044 | A resolver that goes on granting from its memo after loading a database without roles and sets |
| AclResolver.ACLResolver.UpdateACL | backend/src/gosa/backend/acl.py:1848-1938 | Every error in the source's order, with one permission asked per entry of the id; then the last such entry is rewritten field by field, exactly the given values replacing the old ones, nothing else changes, and the memo is coherent unless the update broke off having changed what matching sees |
| AclChanges.UpdatedRewrites | backend/src/gosa/backend/acl.py:1920-1938 | Field by field: the id stays; members, priority, actions, role and scope are the given value where one is given and the old one otherwise; new actions replace the old ones and any role, a role replaces the actions; an unknown role leaves neither, and a scope is refused for an entry that uses a role |
| AclLaws.UpdateGrantsExactly | backend/src/gosa/backend/acl.py:1926-1930 | After an update with actions the entry matches exactly the requests those actions cover for its members, and nothing it granted before |
| AclLaws.UpdatedEntryDecides | backend/src/gosa/backend/acl.py:1926-1930 | With that entry alone on the root a request is granted if and only if one of the new actions covers it |
| AclLaws.FirstAndLastPlace | backend/src/gosa/backend/acl.py:1901-1911 | The entry that updateACL changes is the last with the id, the one that removeACL removes the first |
| AclSteps.UpdateArguments | backend/src/gosa/backend/acl.py:1880-1919 | An update is accepted exactly with a known scope or none, known rights, an entry the user may change, and actions or a role but not both |
| AclStale.BreaksOffIff | backend/src/gosa/backend/acl.py:1920-1937 | An update breaks off if and only if it names an unknown role, or gives a scope to an entry that uses a role |
| AclStale.HarmlessUpdate | backend/src/gosa/backend/acl.py:1920-1938 | An update that breaks off without changing what matching sees leaves every decision that was taken as it was |
| AclStale.HarmlessRoleUpdate | backend/src/gosa/backend/acl.py:2166-2191 | The same for the entries of roles |
| AclStale.StaleIff | backend/src/gosa/backend/acl.py:1920-1938 | For an entry and an update there are a policy and a decision that the update turns stale by breaking off, if and only if it changes the members of a reference, takes away an entry that counts, or turns one into a new reference |
| AclStale.StaleInRoleIff | backend/src/gosa/backend/acl.py:2166-2191 | The exact condition for entries of roles |
| AclResolver.CheckThenUpdate | backend/src/gosa/backend/acl.py:886-938 | After a question and an update that breaks off and changes the decision, the memo is not coherent and goes on giving the old answer |
| AclResolver.BrokenOffUpdateLeavesStaleMemo | backend/src/gosa/backend/acl.py:1920-1938 | A resolver on which that happens: it answers a grant out of its memo that is no longer the decision |
| AclResolver.ACLResolver.RemoveACL | backend/src/gosa/backend/acl.py:1722-1759 | The first entry of the id goes exactly for somebody permitted on its base, and its set with it if that is empty then; without such an entry the call raises; the memo stays coherent |
| AclResolver.ACLResolver.AddACLRole | backend/src/gosa/backend/acl.py:1979-2010 | Succeeds exactly for a permitted user and a new name that is not empty, otherwise with the first error, and adds an empty role; the memo stays coherent |
| AclResolver.ACLResolver.AddACLToRole | backend/src/gosa/backend/acl.py:2013-2092 | Succeeds exactly for a permitted user, a known role, valid arguments and no reference of a role to itself, otherwise with the first error; stores exactly the described entry under the next free id; the memo stays coherent |
| AclLaws.AddToRoleArguments | backend/src/gosa/backend/acl.py:2042-2075 | Accepted exactly for a role that exists, a priority from -100 to 100, a scope for actions, known rights, actions or a role but not both, and no other role than itself; each error has its reason |
| AclResolver.ACLResolver.UpdateACLRole | backend/src/gosa/backend/acl.py:2095-2193 | Every error in the source's order; then the first entry of the id in some role that has one is rewritten field by field, never to a reference of its role to itself; nothing else changes, and the memo is coherent unless the update broke off having changed what matching sees |
| AclLaws.UpdateRoleArguments | backend/src/gosa/backend/acl.py:2119-2150 | Accepted exactly with a priority from -100 to 100, actions or a role but not both, a known scope or none and known rights |
| AclResolver.ACLResolver.RemoveRoleACL | backend/src/gosa/backend/acl.py:2196-2222 | The first entry of the id in some role that has one goes, exactly for a permitted user; otherwise the call raises; the memo stays coherent |
| AclSteps.StepKeeps | backend/src/gosa/backend/acl.py:1172-2222 | Every call keeps the bases plain, and all but those that bring their own entries or a new priority keep every list sorted, one set per base and no entry in two sets |
| AclSteps.ChangeNeedsPermission | backend/src/gosa/backend/acl.py:1722-2222 | No command changes anything, or comes back without an error, for a user to whom the policy does not grant the right w on the bases it concerns: the base it names, the bases of all entries with the id for an update, that of the first for a removal, the root for roles |
| AclRuns.Perform | backend/src/gosa/backend/acl.py:1172-2222 | The memo cannot be noticed: one call of any kind changes sets, roles and the next id, and comes back with the answer, id or error, exactly as its specification over the policy alone says, and leaves a coherent, readable memo unless it is an update that breaks off |
| AclRuns.Run | backend/src/gosa/backend/acl.py:1172-2222 | Every run of calls in any order goes through states of which each follows from the one before by the specification of its call, with the specified replies and a coherent memo in each, up to the last call or the first update that breaks off |
| AclRuns.AskAfterRun | backend/src/gosa/backend/acl.py:886-899 | After such a run a plain query is answered with the uncached decision on the policy that the calls have led to |
| ObjectStack.NoticesAlternate | backend/src/gosa/backend/components/jsonrpc_objects.py:454-533 | The notices of a reference are (closing, closing_aborted)*, optionally followed by closing or by closing and closed; closed comes at least 59 seconds after its warning, for an object untouched for more than 10 minutes and 59 seconds |
| ObjectStack.JSONRPCObjectMapper.OpenObject | backend/src/gosa/backend/components/jsonrpc_objects.py:381-389 | A new reference starts unmarked, without notices, and the protocol invariant is kept |
| ObjectStack.StrangerAcceptedIff | backend/src/gosa/backend/components/jsonrpc_objects.py:409-414 | A request on somebody else's object is accepted if and only if the user has some other object open |
| ObjectStack.StrangerCloses | backend/src/gosa/backend/components/jsonrpc_objects.py:78-95 | A user who has opened an object closes one that belongs to somebody else |
| ObjectStack.JSONRPCObjectMapper.CloseObject | backend/src/gosa/backend/components/jsonrpc_objects.py:78-95 | The owner of an open object is never refused; RefNotFound comes back exactly for a reference that is not open, NotOwner exactly if no open object belongs to the user; closing sends no notice and cancels no job |
| ObjectStack.JSONRPCObjectMapper.ContinueObjectEditing | backend/src/gosa/backend/components/jsonrpc_objects.py:98-118 | Refused in the same cases only; a touched object loses its mark, its owner hears closing_aborted exactly if there was one, and the invariant is kept |
| ObjectStack.JSONRPCObjectMapper.SetObjectProperty | backend/src/gosa/backend/components/jsonrpc_objects.py:143-171 | The same for setting a property, refused with PropertyNotFound exactly for a property the open object does not have, before the owner is looked at |
| ObjectStack.JSONRPCObjectMapper.Gc | backend/src/gosa/backend/components/jsonrpc_objects.py:454-533 | One collection closes exactly the idle objects whose mark has run out, warns exactly the idle unmarked ones, withdraws exactly the marks of touched ones; afterwards idle objects are marked, marks lie in the future, and every marked object has a countdown job of its own |
| ObjectStack.JSONRPCObjectMapper.RunCountdown | backend/src/gosa/backend/components/jsonrpc_objects.py:510-513 | When a due countdown job has run, no object refers to it any more |
| ObjectStack.SettledAt | backend/src/gosa/backend/components/jsonrpc_objects.py:466-525 | What a single object looks like after a collection: idle means marked, marked means untouched since |
| ObjectStack.CollectedInSeconds | backend/src/gosa/backend/components/jsonrpc_objects.py:466-525 | In seconds: ten minutes after it was touched last, or created, an object is marked for deletion in 59 seconds, it is closed once the mark has passed, and touched in between it loses the mark; its owner is told each of these things |
| Extensions.ObjectProxy.constructor | backend/src/gosa/backend/objects/proxy.py:132-171 | An opened object has exactly the loaded extensions active and stored, and every method bound to the base or to an active extension |
| Extensions.ObjectProxy.Extend | backend/src/gosa/backend/objects/proxy.py:480-524 | Extending refuses in the source's order with the first missing dependency, and otherwise brings the retracted object back or makes a new one and binds its methods |
| Extensions.ObjectProxy.Retract | backend/src/gosa/backend/objects/proxy.py:526-560 | Retracting refuses while an active extension needs it, and otherwise moves the object to the retractions and unbinds exactly its methods |
| Extensions.ObjectProxy.Commit | backend/src/gosa/backend/objects/proxy.py:784-805 | Retractions of extensions that were there at the start are carried out, the others forgotten, and unless the checks refuse every active extension is stored |
| Extensions.RunKeeps | backend/src/gosa/backend/objects/proxy.py:480-560 | After every run of extend, retract and commit the active extensions have everything they need, none of them awaits retraction, and every method is bound to the base or to an active extension |
| Extensions.ExtendRefusals | backend/src/gosa/backend/objects/proxy.py:480-524 | extend is refused exactly for an unknown extension, one that is active, one that misses something it needs, and one the user may not have, in that order |
| Extensions.RetractRefusals | backend/src/gosa/backend/objects/proxy.py:526-550 | retract is refused exactly for an unknown extension, one that is not active, one that another active one needs, and one the user may not take away, in that order |
| Extensions.ExtendedHolds | backend/src/gosa/backend/objects/proxy.py:505-524 | extend installs the retracted object or else a new one, and binds every method of the extension to it and no other method |
| Extensions.RetractedHolds | backend/src/gosa/backend/objects/proxy.py:548-560 | retract keeps the object for later and drops exactly the methods of the extension |
| Extensions.CommittedHolds | backend/src/gosa/backend/objects/proxy.py:784-805 | A commit takes out the pending retractions of extensions that were there at the start, and stores what is active if the checks are passed |
| Extensions.FirstCommitStoresActive | backend/src/gosa/backend/objects/proxy.py:784-805 | However often extensions were toggled, and whatever commits were refused, the first successful commit leaves exactly the active ones stored |
| Extensions.CommitStoresActiveIff | backend/src/gosa/backend/objects/proxy.py:784-805 | A successful commit stores exactly the active extensions if and only if every stored one that is no longer active is a pending retraction of one that was there at the start |
| Extensions.SecondCommitLeavesExtensionBehind | backend/src/gosa/backend/objects/proxy.py:784-788 | Any extension that was not there at the start, added, saved, retracted and saved again, is still stored |
| Extensions.ToggleRestoresMethodsIff | backend/src/gosa/backend/objects/proxy.py:513-560 | Extending and retracting gives the method tables back if and only if the extension brings no method name that is already taken |
| Extensions.RetractedCanReturn | backend/src/gosa/backend/objects/proxy.py:526-560 | A retracted extension can be brought back at once |
| Extensions.RetractThenExtend | backend/src/gosa/backend/objects/proxy.py:505-560 | Then the same extension object is active again and nothing is pending for it |
| Extensions.RetractThenExtendIsIdentityIff | backend/src/gosa/backend/objects/proxy.py:505-560 | And nothing at all has changed, if and only if exactly the extension's own method names were bound to it |
| JsonStore.RunsAreSound | backend/src/gosa/backend/objects/backend/back_json.py:99-337 | Over every run, DNs end in their parentDN, an entry has one DN and no two entries share one |
| JsonStore.OneToOne | backend/src/gosa/backend/objects/backend/back_json.py:120-142 | In such a store UUIDs and DNs determine each other |
| JsonStore.CreateKeeps | backend/src/gosa/backend/objects/backend/back_json.py:176-212 | A new entry gets a free name made of one of the candidates, all other entries stay, and it fails exactly without an rdn or when every candidate is taken |
| JsonStore.CreatedHolds | backend/src/gosa/backend/objects/backend/back_json.py:176-212 | Creating stores exactly one record under the first free name, with the type, the parent, the times and all data, and keeps every other entry |
| JsonStore.FirstFreeIsFirst | backend/src/gosa/backend/objects/backend/back_json.py:231-249 | The candidate used is the first that is free |
| JsonStore.ExtendKeeps | backend/src/gosa/backend/objects/backend/back_json.py:108-118 | An extension record holds the data and names nothing; every other record and name stays |
| JsonStore.ExtendedHolds | backend/src/gosa/backend/objects/backend/back_json.py:108-118 | The record holds exactly the data and the type; all other records of all entries stay |
| JsonStore.UpdateKeeps | backend/src/gosa/backend/objects/backend/back_json.py:290-306 | An update changes no name: every DN belongs to the same entry as before |
| JsonStore.UpdatedHolds | backend/src/gosa/backend/objects/backend/back_json.py:290-306 | An update sets exactly the keys it is given, in the record that was there or in a new one with the type; all other records stay |
| JsonStore.RetractKeeps | backend/src/gosa/backend/objects/backend/back_json.py:99-106 | Exactly the one record goes, and names stay consistent |
| JsonStore.RemoveKeeps | backend/src/gosa/backend/objects/backend/back_json.py:251-260 | Exactly the records of the entry go, and names stay consistent |
| JsonStore.MoveKeeps | backend/src/gosa/backend/objects/backend/back_json.py:315-337 | A move gives the entry its own RDN under the new base and touches nothing else, and fails exactly if that name is taken, which it always is when the base is the present one |
| JsonStore.MoveBackRestores | backend/src/gosa/backend/objects/backend/back_json.py:315-337 | Every successful move can be undone by moving back, and then the file is what it was |
| JsonStore.UpdatesCompose | backend/src/gosa/backend/objects/backend/back_json.py:290-306 | Two updates of a record are one update with the later values on top |
| JsonStore.RetractUndoesExtendIff | backend/src/gosa/backend/objects/backend/back_json.py:99-118 | Retracting a new extension gives the file back if and only if the UUID was there before |
| JsonStore.WithRecordSoundIff | backend/src/gosa/backend/objects/backend/back_json.py:290-306 | Writing a record keeps names consistent if and only if its own name and parent agree and, if it names the entry, the entry has no other name and no other entry has that one |
| JsonStore.UpdateSoundIff | backend/src/gosa/backend/objects/backend/back_json.py:290-306 | So an update with any data keeps names consistent if and only if the record it makes meets that condition |
| JsonStore.ExtendSoundIff | backend/src/gosa/backend/objects/backend/back_json.py:108-118 | The same for an extension with any data |
| JsonStore.DataMustLeaveNamesAlone | backend/src/gosa/backend/objects/backend/back_json.py:303-304 | Attribute data that carry the name of another entry break the file |
| JsonStore.JSON.Dn2Uuid | backend/src/gosa/backend/objects/backend/back_json.py:120-130 | Finds an entry exactly if it has the name |
| JsonStore.JSON.Uuid2Dn | backend/src/gosa/backend/objects/backend/back_json.py:132-142 | Finds exactly the name of the entry |
| JsonStore.JSON.GetUniqDn | backend/src/gosa/backend/objects/backend/back_json.py:231-249 | The first candidate no entry has, or none |
| JsonStore.JSON.Create | backend/src/gosa/backend/objects/backend/back_json.py:176-212 | Creates as specified, with the source's two errors, and keeps the store sound |
| JsonStore.JSON.Move | backend/src/gosa/backend/objects/backend/back_json.py:315-337 | Moves as specified; a taken target raises and leaves the file as it was |
| IndexMove.SubtreeMoves | backend/src/gosa/backend/objects/index.py:630-650 | Everything strictly below a moved object keeps its relative path under the new name, every other row is untouched, and the parent column stays the tail of the DN |
| IndexMove.UpdateHolds | backend/src/gosa/backend/objects/index.py:617-650 | Row by row, for changed and unchanged names: the same objects, the new row for the object unless it was moved below itself, a new name for everything else strictly below the old one, and no change to anybody else |
| IndexMove.ObjectGetsItsRowIff | backend/src/gosa/backend/objects/index.py:626-646 | The moved object itself ends with its new row if and only if it was not moved below itself |
| IndexMove.StaysUniqueIff | backend/src/gosa/backend/objects/index.py:617-650 | DNs stay unique if and only if no row outside the subtree already has the new name of a row inside it |
| IndexMove.FreeSubtreeStaysUnique | backend/src/gosa/backend/objects/index.py:617-650 | In particular when nothing else lies at or below the new name |
| IndexMove.ParentsFollow | backend/src/gosa/backend/objects/index.py:630-650 | A row whose parent was in the index still finds it there |
| IndexMove.MoveBackRestoresIff | backend/src/gosa/backend/objects/index.py:617-650 | A move and the move back restore every row if and only if nothing outside the subtree lay below the name moved to |
| IndexMove.RowMovedAndBack | backend/src/gosa/backend/objects/index.py:630-650 | Each other row is restored exactly if it lay below the old name, or not below the new one |
| IndexMove.ObjectIndex.Update | backend/src/gosa/backend/objects/index.py:617-650 | The object gets its new row, rows strictly below a changed name follow, every other row is untouched, and with an unchanged name all others are; an unknown object raises and changes nothing |
| IndexMove.ObjectIndex.Insert | backend/src/gosa/backend/objects/index.py:545-565 | Ignored without a hosting parent, refused for a known UUID, stored otherwise |
| IndexMove.ObjectIndex.RemoveByUuid | backend/src/gosa/backend/objects/index.py:608-615 | Exactly that row goes |
| Relations.ObjectHandler.Load | backend/src/gosa/backend/objects/backend/back_object.py:54-69 | Exactly the names of the foreign objects that list the object |
| Relations.ObjectHandler.Update | backend/src/gosa/backend/objects/backend/back_object.py:83-145 | Raises exactly if the object has no match value or a name does not pick exactly one object, and then changes nothing; otherwise the foreign objects are rewritten as specified |
| Relations.ObjectHandler.Retract | backend/src/gosa/backend/objects/backend/back_object.py:74-81 | Raises exactly as an update would; otherwise, with unique single names, exactly the objects named in the original values list the object no more, and nobody else changes |
| Relations.WrittenAt | backend/src/gosa/backend/objects/backend/back_object.py:121-140 | Per foreign object: listed afterwards if added, or if listed before and not removed; all other members stay, in order |
| Relations.PutGet | backend/src/gosa/backend/objects/backend/back_object.py:83-145 | When the original values are what load returned, the new values are read back exactly |
| Relations.PutGetIff | backend/src/gosa/backend/objects/backend/back_object.py:121-140 | For arbitrary original values, the new ones are read back if and only if none that is kept had vanished and none had appeared that is not wanted |
| Relations.StaysSingleIff | backend/src/gosa/backend/objects/backend/back_object.py:130-136 | No membership is doubled if and only if nobody is added who is already listed |
| Relations.ThereAndBack | backend/src/gosa/backend/objects/backend/back_object.py:83-145 | An update and the update back restore who is related, and the order of everybody else |
| Relations.GetPut | backend/src/gosa/backend/objects/backend/back_object.py:121-140 | Writing back what was loaded changes nothing |
| AclText.ToText | backend/src/gosa/backend/objects/types/acl_set.py:39-72 | Every printable list of entries is printed line by line as specified, and a missing key raises |
| AclText.PrintedEntry | backend/src/gosa/backend/objects/types/acl_set.py:46-72 | The text of an entry: scope, priority, members and role name on a line each, empty ones included, then each action with topic, rights and options behind colons |
| AclText.FromText | backend/src/gosa/backend/objects/types/acl_set.py:80-128 | Reading follows the lines of each text, with an error for missing lines, missing parts and bad options |
| AclText.TextRoundTrip | backend/src/gosa/backend/objects/types/acl_set.py:39-128 | Parsing the printed form gives every well-formed list of entries back, missing options as {} |
| AclText.EntryRoundTrip | backend/src/gosa/backend/objects/types/acl_roles.py:39-118 | The same for one entry, with members for sets and without for roles |
| AclText.StoreAndLoad | backend/src/gosa/backend/objects/types/acl_roles.py:39-118 | Printing and reading, one after the other, for sets and roles |
| AclText.NormalIsStable | backend/src/gosa/backend/objects/types/acl_set.py:80-128 | A second round changes nothing any more |
| LogonHours.ToText | backend/src/gosa/backend/plugins/samba/logonhours.py:39-60 | Each of the 21 bytes is written as two hexadecimal digits of its reversed bits |
| LogonHours.ByteIsWritten | backend/src/gosa/backend/plugins/samba/logonhours.py:46-58 | Eight hours are written as the two upper-case digits of the number whose lowest bit is the first hour |
| LogonHours.FromText | backend/src/gosa/backend/plugins/samba/logonhours.py:65-90 | Fails exactly where a pair is not one or two hexadecimal digits, which is more than the source refuses, and otherwise reads the bytes and rotates the week by the time-zone shift |
| LogonHours.RotateAt | backend/src/gosa/backend/plugins/samba/logonhours.py:85-87 | Each hour is read from the hour that many places further on, round the week |
| LogonHours.ShiftIsHours | backend/src/gosa/backend/plugins/samba/logonhours.py:85-86 | The shift is the time zone in full hours, rounded down and counted round the week |
| LogonHours.DecodeEncoded | backend/src/gosa/backend/plugins/samba/logonhours.py:39-83 | The written text stands for the week it was written from and for no other |
| LogonHours.RoundTrip | backend/src/gosa/backend/plugins/samba/logonhours.py:39-90 | Reading back what was written is exactly the left rotation by the shift, for every valid week and every time zone |
| LogonHours.RotateKeepsOnes | backend/src/gosa/backend/plugins/samba/logonhours.py:85-87 | The rotation keeps the number of allowed hours |
| LogonHours.IdentityIff | backend/src/gosa/backend/plugins/samba/logonhours.py:85-87 | The round trip is the identity on all weeks if and only if the shift is 0 |

## Left out

- XML parsing, generated classes, LDAP, SQL, MQTT, HTTP and files: trees, rows and the JSON file are values in memory.
- Filters, comparators, regular expressions, the JSON codec and the owner and manager lookups are arbitrary functions; filters and comparators may raise, the lookups are fixed during a decision.
- Placeholder filling (`__fillInPlaceholders`) and filters that change their arguments in place; a filter is a function of the current key and properties.
- DNs are sequences of RDNs, so substring, suffix and LIKE tests compare whole RDNs, and spelling variants of a DN are different DNs.
- Action options in `ACL.match`: the inner `continue` skips an option and not the action, so options never refuse an action there; the model has none.
- ACL entries are values in their lists; sharing one entry object between sets is not modelled, except that `list.remove` compares entries by identity.
- AclResolver.ACLResolver.Check: keys are modelled as the text they are; that an answer equals the uncached decision is stated for queries whose keys can be read back (`AclMemo.Plain`), because other keys collide. Options are empty and do not appear in the key.
- AclResolver.ACLResolver.UpdateACLRole: which role's entry is found, if several roles hold the id, depends on the order of a dictionary and is left open; the same for `AclResolver.ACLResolver.RemoveRoleACL`.
- AclRuns.Run: runs end at an update that breaks off in the middle; `load_acls` is not one of the calls. The removal of a role whose search goes round a cycle is a call that raises (RecursionError) and changes nothing. That entries brought in from outside keep sets apart needs new ids (`AclChanges.AddToFirstKeeps`), and lists brought in must be sorted.
- AclLists.AddInserts: an entry without a priority sorts as 0; in the source every entry of a list has got one when it was added.
- AclResort.SortMattersIff: reads the condition off walks without exceptions, and so does `AclResort.AddTakesGrantIff`; `AclResort.ListMattersIff` holds for all.
- AclResolver.ACLResolver.RemoveRole: is stated where the search for the role ends (`AclRoles.SearchEndsIff`); how deep the interpreter lets it go is not modelled, so a search that ends is taken to end in its own outcome.
- FilterMachine.ProcessFilter: is stated where the loop ends; `FilterMachine.ExecuteLines` describes any number of rounds on every list.
- FilterNesting.MeantIffFlat: says nothing about filters whose first nesting When nests in its Else body only; their jumps go back as well (`FilterCorrectness.ForwardIffFlat`).
- AclResolver.ACLResolver.LoadAcls: the roles and sets read from the database are given; reading them, the unresolved-reference error, and administrators from the configuration are not modelled.
- Argument type checks, `getEntryPoints`, `getACLs` and the other listing commands are not modelled.
- ObjectStack.JSONRPCObjectMapper.Gc: reads the clock once per collection where the source reads it several times; the order of the references is arbitrary.
- Session ids, locks, `dispatchObjectMethod`, `reloadObject` (an open and a close), and the scheduler itself, of which only the waiting countdown jobs are kept.
- Extensions.ObjectProxy.Retract: the error does not name the extension that still needs the retracted one, which depends on the order of a dictionary.
- Extensions.ObjectProxy.Commit: the property checks are one answer, given before anything is stored; a backend that fails while the extensions are being stored, moves and foreign properties are not modelled.
- JsonStore.JSON.Create: the candidates for the RDN are given; timestamps are one text; `query`, `identify` and `is_uniq` are not modelled.
- JsonStore.RunsAreSound: the data leave the keys dn and parentDN alone and created UUIDs are new; `UpdateSoundIff` and `ExtendSoundIff` say exactly which other data would do.
- IndexMove.ObjectIndex.Update: `_adjusted_parent_dn` and the modification time are not columns of the model; key-value and extension rows are part of an object's row. Indexing runs, `importing` and `to_be_updated` are left out.
- Relations.ObjectHandler.Update: one mapped attribute at a time; the written state is specified when the naming attribute is single-valued and unique, otherwise only the errors are. Values with `%` would be search patterns and are taken literally.
- LogonHours.FromText: whitespace, signs and underscores that Python's `int` would also accept in a pair are errors here.
- AclText.TextRoundTrip: fields without newlines, topics and rights without colons, members that are not empty and hold no comma; other entries do not survive the text form.
