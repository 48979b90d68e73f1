# Verified model of OpenWrt's build and firmware tools

OpenWrt is configured by Kconfig and packed by a set of small host programs. This project
models the parts of them whose correctness is not obvious, in Dafny, and proves what they
are for.

Kconfig (`scripts/config`):

- `KconfigExpr`: dependency expressions over n < m < y, their value, and the removal of the
  constants y and n.
- `ExprEquality`, `ExprCanonical`: cancellation of common operands and the equality test
  that is mutually recursive with it. Sound in every environment, and exact: equality up to
  order and grouping.
- `ExprTransform`: De Morgan, comparison flipping and normal forms.
- `ExprJoin`, `ExprSpine`, `ExprDups`: peephole joins of two operands, slots into the tree
  that is being rewritten, and the loop that joins until nothing joins.
- `ExprHeap`, `ExprHeapDups`: the same rewriting on nodes in memory, retagged and relinked in
  place, copied where the equality test needs it, and replaced through slots that point into
  one tree.
- `Submenu`: when an entry is pulled under a symbol and why that is justified; the rewriting
  of prompt conditions of symbols that are not tristates.
- `MenuForest`, `MenuTree`, `MenuWalk`, `MenuBuilder`, `MenuRun`: the linked menu entries as
  the parser builds them, their restructuring, and the walk without a stack that writes them,
  one by one and one after the other.
- `DepCheck`: the search for recursive dependencies.
- `ChoiceGroup`: choices, the user's pick and the one value at y.
- `StringEscape`: string values saved and loaded.

Checksums and hashes:

- `Folds`, `Crc32`, `CraftCrc`, `Crc16`, `CrcTables`: table-driven and bitwise CRCs, accumulation over
  pieces, forcing a CRC-32 by four bytes, and the two CRC-16s that are complements.
- `BlockHash`, `Words`, `Md5Block`, `Md5Stream`: MD5, from the registers that take turns in a
  block to a file hashed in pieces, against RFC 1321.
- `Sha256Rounds`, `Sha256`, `Sha256Block`, `Sha256Stream`, `Sha256File`, `Sha256Constants`: the block function with
  rotating registers and a schedule that grows sixteen words at a time, the stream of chunks
  that calls it, and a file's digest, against FIPS 180-4.

Other tools:

- `BuffaloCipher`, `BuffaloContainer`: the stream cipher and the container of Buffalo
  firmware, decrypted into the front of the buffer that holds it.
- `ShuntingYard`, `ShuntingYardProof`: bqtool's expression parser and its evaluator.
- `GaugeCache`: bqtool's one-block cache over a gauge's data memory.

`Options` is the optional type that stands for NULL and for error returns.

## Where code and intention differ

The model follows the code. These places are stated as lemmas.

- `expr_transform` turns `!(a < b)` into `a >= b`, but two operands that cannot be ordered are
  neither. `TransformMeans` says what it makes of any expression, `TransformExact` that it never
  raises the value and when exactly it keeps it: whether the value hangs on such a comparison
  under an odd number of NOTs. `TurnedRoundExact` says for which operands this can happen at all,
  `UnorderedChanges` gives a state for each such pair.
- `expr_depends_symbol` accepts `S != n` and `S = y` whatever the type of S, but only a
  boolean or tristate symbol, or y, m or n, is then forced on: `ForcesExact`.
- `expr_trans_compare` reads NOT as if there were no m. `CompareReads` says what the compared form
  means, `CompareExact` when exactly it is right: when the answer does not hang on a symbol at m
  under an odd number of NOTs. For a single NOT that is `NegationExact`. It compares symbols as
  text, which is right exactly for those whose text names their value: `SymbolExact`.
- `expr_trans_bool` takes m for y. In the visibility of a prompt and in a default that does not
  show, if NOT stands above no comparison (`TransBoolLifted`, `TransBoolUnderNot`), which is so
  after `expr_transform`. But the condition of a select goes into a reverse dependency after the
  rewriting, where m is not y: `SelectExact` says when it shows there, `SelectExample` is a case.
- An entry is pulled when `expr_eliminate_eq` leaves y of the parent's form. That takes an AND:
  the very condition of the prompt, if it is anything else, is not enough: `CancelsToYesExact`,
  `SameConditionStays`.
- `sym_check_deps` prints every cycle it finds, but among ordinary symbols it returns NULL to
  its outermost caller, so that the error counter in `zconf.y` does not move: `Checker.CheckAll`.
- `sym_calc_choice` drops the choice's own user flag while calculating; a second calculation
  can then give another value. `StableExactly` says when it does not, `ForgottenChoice` is a
  case where it does.
- `write_params_block` writes the second block of a straddling last parameter over the
  first: `MisplacedExact`, `MisplacedExample`.
- It also reports success when a value is outside its limits, and then does not write the
  block in its buffer. `LostExact` says when that loses nothing, `LostExample` is a case where
  it does. Without parameters it writes what happens to be in its buffer, which is harmless only
  by chance (`EmptyExact`): a caller has to see to it that there are parameters.
- A parameter that runs on into the block in the buffer is written over what the device holds
  of that block: `TogetherExact` says when this never does harm, after any number of parameters,
  and `RunsIntoExample` is a case where it does. That is enough for the memory in the end, but not
  necessary, since a later parameter can write a lost byte again.

## Model

| member | source | states |
|---|---|---|
| `KconfigExpr.LogicalText` | scripts/config/expr.c:917-995 | the text of a boolean or tristate symbol names its value, so a test of it against a constant reads that value |
| `KconfigExpr.TextOrder` | scripts/config/expr.c:960-995 | compared as text, < is the order of character codes and = is equality; two strings always are, and whatever meets an operand that is no number |
| `KconfigExpr.NumberOrder` | scripts/config/expr.c:974-979 | two signed numbers are compared as such, otherwise both as 64 bits without a sign |
| `KconfigExpr.OneOfThree` | scripts/config/expr.c:981-994 | of <, = and > exactly one holds between operands that can be ordered, and the other three relations are the sums |
| `KconfigExpr.Unordered` | scripts/config/expr.c:968-973 | operands that cannot be ordered are neither less nor greater, but equal if their texts are |
| `KconfigExpr.ValueOfSymbols` | scripts/config/expr.c:917-995 | a value hangs on the symbols that occur, and on nothing else |
| `KconfigExpr.EliminateYnValue` | scripts/config/expr.c:246-327 | removing y and n operands keeps the value in every environment |
| `KconfigExpr.EliminateYnShrinks` | scripts/config/expr.c:246-327 | the result holds a y or n only if it is one, and is smaller whenever there was one to remove |
| `ExprEquality.EliminateEq1Sound` | scripts/config/expr.c:141-173 | one walk takes the same operand value out of both expressions |
| `ExprEquality.EliminateEqSound` | scripts/config/expr.c:175-196 | in every environment one common monotone context gives both old values from the two new ones |
| `ExprEquality.ContextMonotone` | scripts/config/expr.c:175-196 | that context is monotone, so an order between what is left is an order between the originals |
| `ExprEquality.ExprEqSound` | scripts/config/expr.c:200-244 | expressions found equal have the same value in every environment |
| `ExprEquality.CancelledToYes` | scripts/config/menu.c:352-361 | when only y is left of the second expression, the first is at most the second everywhere |
| `ExprCanonical.EliminateEq1Leaves` | scripts/config/expr.c:141-173 | cancellation leaves exactly the multiset difference of the operands, on either side |
| `ExprCanonical.ExprEqExact` | scripts/config/expr.c:200-244 | on expressions without y and n, expr_eq answers yes if and only if they agree up to order and grouping of operands |
| `ExprCanonical.NormalEqExact` | scripts/config/expr.c:200-244 | once transformed and freed of y and n, any two expressions are compared exactly |
| `ExprCanonical.CancelsToYesExact` | scripts/config/expr.c:175-196 | of the second expression only y is left if and only if it was y, or the first is an AND with all operands of the second among its own |
| `ExprCanonical.ConstantLeft` | scripts/config/expr.c:164-165 | y and n are never cancelled |
| `ExprTransform.DeMorganShrinks` | scripts/config/expr.c:694-711 | De Morgan's step shrinks a weight under which NOT multiplies, although the tree grows |
| `ExprTransform.TransformMeans` | scripts/config/expr.c:594-749 | of any expression it makes one whose value is that of the original with NOT carried down to symbols and comparisons turned round |
| `ExprTransform.PushedLowers` | scripts/config/expr.c:670-711 | carrying NOT down can only lower the value |
| `ExprTransform.TransformExact` | scripts/config/expr.c:594-749 | the value never rises, and is kept if and only if neither its being at least m nor its being y hangs on a comparison under an odd number of NOTs that cannot be ordered |
| `ExprTransform.OrderableExact` | scripts/config/expr.c:960-974 | however texts are parsed, two operands can be ordered in every state exactly when neither is of the type that cannot be, or the other one is never a number |
| `ExprTransform.TurnedRoundExact` | scripts/config/expr.c:686-693 | exactly for these operands NOT of an order comparison keeps its value in every state |
| `ExprTransform.TransformValue` | scripts/config/expr.c:594-749 | where every comparison under an odd number of NOTs can be ordered, the value is kept |
| `ExprTransform.NormalFlippable` | scripts/config/expr.c:594-749 | in a normal form there is no such comparison |
| `ExprTransform.TransformNormal` | scripts/config/expr.c:594-749 | in the result NOT stands only above symbols other than y, m and n |
| `ExprTransform.NormalIsFixed` | scripts/config/expr.c:594-749 | the normal forms are exactly the expressions left alone |
| `ExprTransform.FlipExact` | scripts/config/expr.c:670-693 | turning a comparison under NOT is right if and only if its operands can be ordered, or it is not an order comparison |
| `ExprTransform.UnorderedChanges` | scripts/config/expr.c:686-693 | for any two other operands there is a state, whatever the parsing, in which NOT of their comparison is y and becomes n |
| `ExprJoin.JoinValue` | scripts/config/expr.c:361-517 | the joined operand means the same as the AND or OR of the two it replaces |
| `ExprJoin.JoinShape` | scripts/config/expr.c:361-517 | it is no bigger than the first, no AND or OR of the same kind, and stays normal |
| `ExprJoin.OrJoinExact` | scripts/config/expr.c:361-420 | two unequal operands of an OR join exactly if they are s and !s of a boolean, or tests of a tristate for two of y, m and n |
| `ExprJoin.AndJoinExact` | scripts/config/expr.c:425-517 | and two of an AND exactly if they are one of the listed pairs of tests of one symbol |
| `ExprSpine.PutSlot` | scripts/config/expr.c:519-569 | overwriting one operand through its slot changes that operand, the size by the difference, and no slot |
| `ExprSpine.PutPairValue` | scripts/config/expr.c:545-563 | blanking one operand and joining both into the other keeps the value of the whole tree |
| `ExprDups.EliminateDups1` | scripts/config/expr.c:519-569 | a pass over all pairs of operands keeps the value, does not grow, leaves a y or n behind for every join, and if it counts none then no pair joins |
| `ExprDups.EliminateInside` | scripts/config/expr.c:538-543 | an operand of the other kind is cleaned in place first |
| `ExprDups.EliminateDups` | scripts/config/expr.c:571-592 | the loop terminates; the result has the same value everywhere, is no bigger, stays normal, and no rule for tests of a symbol applies to two operands of a spine; of a normal expression without y and n no operand is left twice. What is below a NOT, there only a symbol, is not looked at |
| `ExprDups.SettledNoTwins` | scripts/config/expr.c:366-367 | where nothing joins, no operand stands twice on a spine, up to order and grouping |
| `ExprHeapDups.AtSlot` | scripts/config/expr.c:519-533 | a slot is a field of a spine node, outside of the operand it points to |
| `ExprHeapDups.Replaced` | scripts/config/expr.c:548-559 | writing one slot puts another operand there and leaves all else linked |
| `ExprHeapDups.EliminateDups1` | scripts/config/expr.c:519-569 | in place: through two slots into one tree, which stay the same fields of the same nodes, the same guarantees |
| `ExprHeapDups.JoinNodes` | scripts/config/expr.c:361-517 | the joined operand is all in new nodes, and no node of either operand changes |
| `ExprHeapDups.JoinPair` | scripts/config/expr.c:545-563 | after the two slots are written no node of the freed operands is in the tree |
| `ExprHeapDups.EliminateDups` | scripts/config/expr.c:571-592 | in place: the same node ends with an expression of the same value, with the same guarantees, in old and new nodes, none of them shared |
| `ExprHeap.MorganHolds` | scripts/config/expr.c:694-711 | the retagged NOT, the retagged AND or OR and one new node make up the negated operands |
| `ExprHeap.AfterTurns` | scripts/config/expr.c:143-152 | two cancellations in turn leave three expressions that share no node, and nothing else changed |
| `ExprHeap.Nodes.EliminateYn` | scripts/config/expr.c:246-327 | in place: the same node then holds the expression without the constants, and no node outside changed |
| `ExprHeap.Nodes.TransBool` | scripts/config/expr.c:332-356 | every node stays where it is and together they hold the rewritten condition |
| `ExprHeap.Nodes.Transform` | scripts/config/expr.c:594-749 | the returned node holds the normal form, from old and new nodes, none of them shared |
| `ExprHeap.Nodes.FinishNot` | scripts/config/expr.c:660-741 | the cases of a NOT whose operand is done, re-entering the transformation |
| `ExprHeap.Nodes.Copy` | scripts/config/expr.c:65-104 | a copy of new nodes only |
| `ExprHeap.Nodes.ExprEq` | scripts/config/expr.c:200-244 | the equality test answers on copies: no node that was there changes |
| `ExprHeap.Nodes.EliminateEq1` | scripts/config/expr.c:141-173 | the results that go into the two slots share no node |
| `ExprHeap.Nodes.EliminateEq` | scripts/config/expr.c:175-196 | the same for the whole cancellation, ending without constants |
| `Submenu.DependsExact` | scripts/config/expr.c:779-806 | dependence is that an operand of the AND at the top is the symbol, or tests it for y, for m or for not n |
| `Submenu.ContainsExact` | scripts/config/expr.c:751-777 | a symbol is contained exactly if it occurs |
| `Submenu.DependsForces` | scripts/config/expr.c:779-806 | an expression that depends on a boolean or tristate symbol, or on a constant, is n whenever the symbol is |
| `Submenu.ForcesExact` | scripts/config/expr.c:779-806 | this holds of a symbol if and only if it is boolean or tristate, or y, m or n |
| `Submenu.CompareReads` | scripts/config/expr.c:808-871 | for the targets y and n the compared form says how the expression reads with NOT between two values |
| `Submenu.CompareExact` | scripts/config/expr.c:808-871 | it is right if and only if the answer does not hang on a symbol at m under an odd number of NOTs |
| `Submenu.NotNoSound` | scripts/config/expr.c:808-871 | where it says that an expression is not n, that is true in any case |
| `Submenu.CompareNothing` | scripts/config/expr.c:812-817 | a missing condition is y, and its compared form says so |
| `Submenu.TransCompareValue` | scripts/config/expr.c:808-871 | it is right where nothing under a single NOT is m |
| `Submenu.NegationExact` | scripts/config/expr.c:839-840 | the compared form of a NOT is right if and only if what stands under it is not m |
| `Submenu.NegatedSymbolExact` | scripts/config/expr.c:839-840 | the same for one negated symbol |
| `Submenu.SymbolExact` | scripts/config/expr.c:863-864 | the compared form of a symbol against n is right everywhere if and only if its text names its value |
| `Submenu.ReducedForm` | scripts/config/menu.c:342-344 | the reduced form has the value of the transformed comparison everywhere, that of the comparison where nothing is spoilt, is normal and has no duplicates |
| `Submenu.MayPull` | scripts/config/menu.c:346-361 | an entry is pulled only if its condition depends on the symbol or the normal form of its comparison is at most the parent's comparison everywhere; it must be pulled if it depends on the symbol, or contains it and the parent's form is y; and where the forms have no y or n inside, exactly if its form is an AND with all operands of the parent's |
| `Submenu.SameConditionStays` | scripts/config/menu.c:352-361 | a condition that is no AND does not get its entry pulled, even if it is the very condition of the prompt |
| `Submenu.PulledOnlyWhenVisible` | scripts/config/menu.c:346-366 | a pulled entry is visible only when the symbol is on or its prompt is visible, wherever the entry's own comparison is right |
| `Submenu.TransBoolLifted` | scripts/config/expr.c:332-356 | on normal forms the rewriting of FOO!=n into FOO is invisible once m counts as y |
| `Submenu.TransBoolUnderNot` | scripts/config/expr.c:332-356 | under NOT it is visible if and only if the symbol is m |
| `Submenu.VisibilityKept` | scripts/config/symbol.c:221-235 | rewriting every prompt condition leaves the symbol's visibility as it was |
| `Submenu.AnyVisibleExact` | scripts/config/symbol.c:221-226 | a symbol is as visible as the best of its prompts |
| `Submenu.TransBoolExact` | scripts/config/expr.c:332-356 | where m is not y, the rewriting keeps the value if and only if its being y does not hang on FOO!=n with FOO at m |
| `Submenu.SelectExact` | scripts/config/menu.c:329-337 | a select by a symbol that is no tristate keeps its force if and only if that symbol is n or the rewriting of its condition does not show |
| `Submenu.SelectExample` | scripts/config/menu.c:329-337 | a symbol that should be selected to y and is selected to m |
| `MenuForest.FinalizePreorder` | scripts/config/menu.c:339-425 | absorbing siblings and lifting children leave the depth-first order of the entries unchanged, for any rule that decides what is pulled |
| `MenuForest.FinalizeBelow` | scripts/config/menu.c:415-424 | afterwards no entry without a prompt has children, at any level |
| `MenuForest.LiftKept` | scripts/config/menu.c:415-424 | nothing is lifted exactly where every entry with children has a prompt |
| `MenuForest.LiftExact` | scripts/config/menu.c:375-425 | the level shows entries with a prompt with all their children, and in place of the children of the others these themselves, behind their parent |
| `MenuForest.PromptKeeps` | scripts/config/menu.c:415 | an entry with a prompt keeps all its children |
| `MenuForest.AbsorbExact` | scripts/config/menu.c:346-366 | an entry takes exactly the next siblings that it pulls, up to the first that it does not |
| `MenuForest.FinalizeRest` | scripts/config/menu.c:289-341 | only an entry with a symbol and without children takes siblings |
| `MenuForest.FinalizeAllGreedy` | scripts/config/menu.c:339-340 | afterwards no sibling stands before one that it should have taken |
| `MenuForest.FinalizeShows` | scripts/config/menu.c:339-425 | the children of an entry are its old ones or those that it pulls, finalized and then shown |
| `MenuTree.LinkedJoin` | scripts/config/menu.c:367-371 | a linked list of siblings is a front part that ends where the back part starts |
| `MenuTree.DistinctPreorder` | scripts/config/menu.c:339-425 | no entry is linked twice exactly when none occurs twice in the depth-first order |
| `MenuTree.SpliceLinked` | scripts/config/menu.c:421-423 | the three pointer assignments hang the children in as next siblings, with their parent |
| `MenuTree.AttachLinked` | scripts/config/menu.c:367-371 | the three assignments after the sibling loop make the siblings children and close both lists |
| `MenuTree.Menus.Reparent` | scripts/config/menu.c:416-420 | every entry of a list gets the new parent, and the last one is found |
| `MenuTree.Menus.LiftKids` | scripts/config/menu.c:375-425 | the last loop leaves the entries linked as the lifted forest, with right parents, and touches no others |
| `MenuTree.Menus.AbsorbSiblings` | scripts/config/menu.c:341-371 | the loop over later siblings leaves them linked as the absorbed forest |
| `MenuTree.Menus.FinalizeList` | scripts/config/menu.c:339-340 | finalizing each child in turn, following next pointers that the calls change |
| `MenuTree.Menus.Finalize` | scripts/config/menu.c:282-425 | the linked entries end as the restructured forest, every parent pointer right, nothing outside touched |
| `MenuWalk.Onwards` | scripts/config/confdata.c:813-826 | one step of the walk goes to the entry that is next in the depth-first order |
| `MenuWalk.Climb` | scripts/config/confdata.c:820-825 | the inner loop climbs to the next sibling of the nearest ancestor that has one, or ends |
| `MenuWalk.Walk` | scripts/config/confdata.c:793-826 | the walk terminates and visits every entry once, in depth-first order |
| `MenuWalk.FinalizeAndWalk` | scripts/config/confdata.c:793-826 | after menu_finalize the entries are visited in the order in which they stood before |
| `MenuBuilder.AppendPreorder` | scripts/config/menu.c:47-63 | an entry added at the open end comes last in the depth-first order |
| `MenuBuilder.AppendLinked` | scripts/config/menu.c:47-63 | writing the new entry through last_entry_ptr appends it to the linked tree |
| `MenuBuilder.Builder.AddEntry` | scripts/config/menu.c:47-63 | the tree grows by one entry below the current menu, in source order |
| `MenuBuilder.Builder.AddMenu` | scripts/config/menu.c:69-74 | the entry just added becomes the current menu, and its list the open end |
| `MenuBuilder.Builder.EndMenu` | scripts/config/menu.c:76-80 | the menu is closed and the open end is behind it, one level up |
| `MenuRun.Build` | scripts/config/menu.c:41-80 | any sequence of entries and nested menus leaves a linked tree with every entry in source order |
| `MenuRun.BuildAndWrite` | scripts/config/confdata.c:793-826 | built, restructured by any rules and walked, every entry is written once, in source order |
| `DepCheck.OrderedNoCycle` | scripts/config/symbol.c:1266-1298 | symbols that finished, each after what it depends on, lie on no cycle |
| `DepCheck.DepsExact` | scripts/config/symbol.c:1195-1227 | a symbol depends on what occurs in its reverse dependency, in the conditions of its properties but choices and selects, and in the values of its defaults |
| `DepCheck.Checker.CheckExprDeps` | scripts/config/symbol.c:1160-1192 | every symbol of an expression is walked unless a cycle was found |
| `DepCheck.Checker.CheckSymDeps` | scripts/config/symbol.c:1195-1227 | the reverse dependency and all properties are walked unless a cycle was found |
| `DepCheck.Checker.CheckDeps` | scripts/config/symbol.c:1266-1298 | the stack is as before and the symbol is checked; a returned symbol is where the cycle just printed starts, and is still being checked; if none is returned, all dependencies were walked or that cycle starts here |
| `DepCheck.Checker.CheckAll` | scripts/config/zconf.y:531-534 | a cycle is printed if and only if there is one, every printed cycle is real, no CHECK flag is left, and no call returns a symbol; constants outside the list depend on nothing |
| `ChoiceGroup.ExactlyOne` | scripts/config/symbol.c:295-325 | a calculated choice at y has exactly one value at y, visible, and the user's pick if that is visible |
| `ChoiceGroup.NoneOtherwise` | scripts/config/symbol.c:376-379 | a choice not at y has no value at y |
| `ChoiceGroup.YesExactly` | scripts/config/symbol.c:295-325 | a choice is at y if and only if it should be and has a visible value, and n without one |
| `ChoiceGroup.DefaultWins` | scripts/config/symbol.c:275-282 | without a visible pick a choice at y takes the first default that holds and is visible |
| `ChoiceGroup.FirstWins` | scripts/config/symbol.c:284-292 | without such a default it takes the first visible value |
| `ChoiceGroup.WantedWithin` | scripts/config/symbol.c:375-411 | the choice stays between what it must be and what its prompt allows, and within that it is what the user set |
| `ChoiceGroup.OfferedExact` | scripts/config/symbol.c:209-239 | in a choice at y a tristate value must be fully visible, a boolean one may be visible as m |
| `ChoiceGroup.ShownElsewhere` | scripts/config/symbol.c:209-239 | in a choice at m only tristate values are visible, as m; in one at n none is |
| `ChoiceGroup.ModuleValues` | scripts/config/symbol.c:386-400 | in a choice at m every visible value that the user set has its own setting |
| `ChoiceGroup.StableExactly` | scripts/config/symbol.c:302-312 | exactly when a second calculation gives the same values |
| `ChoiceGroup.ForgottenChoice` | scripts/config/symbol.c:302-312 | a choice set to y by the user that is n at the next calculation |
| `ChoiceGroup.PickWorks` | scripts/config/symbol.c:511-525 | a visible value picked in a choice at y becomes the one at y |
| `ChoiceGroup.InEveryState` | scripts/config/symbol.c:327-466 | all this in every state that picks and changes elsewhere lead to |
| `ChoiceGroup.Choice.CalcVisibility` | scripts/config/symbol.c:209-239 | one value's visibility, with m hidden under a choice at y |
| `ChoiceGroup.Choice.ChoiceDefault` | scripts/config/symbol.c:269-293 | the first visible default, else the first visible value |
| `ChoiceGroup.Choice.CalcChoice` | scripts/config/symbol.c:295-325 | the pick, else the default, else none and the choice is n; the user flag survives only if every visible value has its own |
| `ChoiceGroup.Choice.CalcChoiceValue` | scripts/config/symbol.c:327-466 | the choice's value from user, prompt and reverse dependency |
| `ChoiceGroup.Choice.CalcValue` | scripts/config/symbol.c:375-411 | a value is y only if chosen |
| `ChoiceGroup.Choice.Recalculate` | scripts/config/symbol.c:468-477 | everything is as the calculation says |
| `ChoiceGroup.Choice.SetValue` | scripts/config/symbol.c:479-532 | accepted exactly within range or without a change; an accepted value is the symbol's value afterwards, an accepted y also the pick, and the result is stable |
| `ChoiceGroup.Choice.SetChoice` | scripts/config/symbol.c:479-532 | accepted exactly within range or without a change; a refused value changes nothing, an accepted one is the choice's value, unless it is y and nothing is offered |
| `StringEscape.RoundTrip` | scripts/config/confdata.c:161-176 | a saved string reads back as itself, whatever follows on the line |
| `StringEscape.EscapedOne` | scripts/config/symbol.c:927-957 | a quote and a backslash get a backslash, and nothing else does |
| `StringEscape.UnescapedOne` | scripts/config/confdata.c:161-176 | behind a backslash any character stands for itself; without one a quote ends the string |
| `StringEscape.EscapedRoom` | scripts/config/symbol.c:927-940 | the first pass computes the length of the escaped string and its NUL |
| `StringEscape.EscapeStringValue` | scripts/config/symbol.c:920-961 | the allocated buffer is filled to its last character by the escaped string |
| `StringEscape.UnescapeInPlace` | scripts/config/confdata.c:161-176 | unescaping in place succeeds if and only if there is a closing quote, and leaves the unescaped string |
| `StringEscape.SaveAndLoad` | scripts/config/confdata.c:161-176 | what is written for a string is read back as that string |
| `Crc32.Step8Linear` | tools/firmware-utils/src/mkbrnimg.c:48-51 | eight shifts are linear over exclusive or, for any polynomial |
| `Crc32.ByteSplit` | tools/firmware-utils/src/mkbrnimg.c:55-62 | eight shifts are the table entry of the low byte and a move of the rest |
| `Crc32.CrcConcat` | tools/firmware-utils/src/cyg_crc32.c:147-161 | accumulating over any cut of a buffer is one pass |
| `Crc32.InitCrc32` | tools/firmware-utils/src/mkbrnimg.c:40-53 | the generated table is the bitwise register of every byte |
| `Crc32.TableStep` | tools/firmware-utils/src/mkbrnimg.c:59-61 | one lookup does the work of eight shifts |
| `Crc32.Accumulate` | tools/firmware-utils/src/cyg_crc32.c:129-138 | the table loop is the bit-at-a-time register over the buffer |
| `Crc32.Crc32Buf` | tools/firmware-utils/src/mkbrnimg.c:55-62 | crc32buf is the bitwise CRC |
| `Crc32.EtherAccumulate` | tools/firmware-utils/src/cyg_crc32.c:150-163 | the Ethernet form continues a CRC as RFC 1952 defines it |
| `Crc32.ComputeCrc32` | tools/firmware-utils/src/imagetag.c:40-61 | reading a region in chunks of 1024 bytes gives its CRC in one pass, also when the file ends early |
| `CrcTables.Entries0` | tools/firmware-utils/src/cyg_crc32.c:72-79 | the first 32 entries of the constant table are eight shifts each; `Entries32` to `Entries224` are the others |
| `CrcTables.Check32` | tools/firmware-utils/src/cyg_crc32.c:147-161 | the digits 1 to 9 have the catalogued check value of CRC-32 |
| `CrcTables.Check16` | tools/firmware-utils/src/encode_crc.c:39-49 | and that of the 16-bit CRC |
| `CrcTables.BuffaloPolynomial` | tools/firmware-utils/src/buffalo-lib.c:189 | buffalo_csum has the polynomial of CRC-32 |
| `CraftCrc.Commute32` | tools/firmware-utils/src/jcgimage.c:249-258 | one more shift may come before or after the 32 |
| `CraftCrc.Step32Linear` | tools/firmware-utils/src/jcgimage.c:249-258 | 32 shifts are linear |
| `CraftCrc.Unshift` | tools/firmware-utils/src/jcgimage.c:244-258 | the loop finds the register that 32 shifts turn into the inverted target |
| `CraftCrc.PatchedCrc` | tools/firmware-utils/src/jcgimage.c:259-263 | any buffer followed by the patch has the wanted CRC |
| `CraftCrc.CraftCrc` | tools/firmware-utils/src/jcgimage.c:239-271 | only the last four bytes change, the CRC-32 is then the target, and the self-check never fires |
| `CraftCrc.PatchOf` | tools/firmware-utils/src/jcgimage.c:259-263 | any four bytes are the bytes of some patch |
| `CraftCrc.PatchUnique` | tools/firmware-utils/src/jcgimage.c:239-271 | no other four bytes reach the same CRC |
| `Crc16.WideShiftLow` | tools/firmware-utils/src/encode_crc.c:39-49 | bits above the 16-bit register never come back into it |
| `Crc16.MakeCrc16` | tools/firmware-utils/src/encode_crc.c:39-49 | the byte step in a wider, possibly sign-extended int is the 16-bit one |
| `Crc16.SideBySide` | tools/firmware-utils/src/bcmalgo.c:104-118 | register and data byte shifted side by side are the register with the data mixed in |
| `Crc16.FeedByte` | tools/firmware-utils/src/bcmalgo.c:101-120 | the bit-serial loop is the byte step |
| `Crc16.GetHcs` | tools/firmware-utils/src/bcmalgo.c:95-132 | get_hcs is the complement of folding make_crc16's step from 0xffff |
| `Crc16.FoldCrc16` | tools/firmware-utils/src/encode_crc.c:91-151 | the checksum loop folds the same step |
| `BlockHash.PaddedTail` | scripts/mkhash.c:338-366 | padding the last, partial block is padding the whole message |
| `BlockHash.PaddedBack` | scripts/mkhash.c:338-366 | a padded message is whole blocks, from which it can be told where the length field tells its length |
| `BlockHash.LittleEndianHalves` | scripts/mkhash.c:358-366 | a number is written half by half |
| `BlockHash.HexInjective` | scripts/mkhash.c:678-690 | different digests print differently |
| `BlockHash.HexDigitExact` | scripts/mkhash.c:687 | the digits are 0 to 9 and a to f |
| `BlockHash.HashString` | scripts/mkhash.c:678-690 | two digits for every byte, or nothing if there is no room |
| `Md5Block.FSame` | scripts/mkhash.c:143 | the program's choose is the RFC's |
| `Md5Block.SecondRound` | scripts/mkhash.c:221-236 | the words of the second round in order; `ThirdRound` and `FourthRound` the others |
| `Md5Block.Rotations` | scripts/mkhash.c:203-273 | how far the steps of each round rotate |
| `Md5Block.TruthTables` | scripts/mkhash.c:143-147 | the four functions, as truth tables of three bits |
| `Md5Block.NumberBytes` | scripts/mkhash.c:161-172 | a word is read with its low byte first |
| `Md5Block.EncodeExact` | scripts/mkhash.c:370-385 | and written so, a before b, c and d |
| `Md5Block.FourTurns` | scripts/mkhash.c:152-155 | four steps that each write over one register are four of the RFC's steps that pass the registers on |
| `Md5Block.StepsInPlace` | scripts/mkhash.c:203-273 | the 64 steps, for any mixing of words |
| `Md5Block.Body` | scripts/mkhash.c:191-281 | one block changes the registers as section 3.4 of RFC 1321 says, for any table of constants |
| `Md5Stream.CounterWords` | scripts/mkhash.c:308-310 | the 29-bit low counter and the carry into the high one are the 64-bit bit length |
| `Md5Stream.PaddedInjective` | scripts/mkhash.c:338-366 | different messages of less than 2^64 bits are different when padded |
| `Md5Stream.Md5Ctx.Hash` | scripts/mkhash.c:302-335 | one more chunk, of any size, extends the message |
| `Md5Stream.Md5Ctx.Pad` | scripts/mkhash.c:343-368 | the registers are those that the RFC computes from the padded whole message |
| `Md5Stream.Md5Ctx.End` | scripts/mkhash.c:337-388 | the digest is those registers as bytes, and the context is cleared |
| `Md5Stream.HashFile` | scripts/mkhash.c:692-705 | a file read in pieces gives the digits of the RFC's digest of its contents |
| `Sha256Stream.Sha256Ctx.Update` | scripts/mkhash.c:613-650 | one more chunk, of any size, extends the message |
| `Sha256Stream.PaddedInjective` | scripts/mkhash.c:564-591 | different messages of less than 2^64 bits are different when padded |
| `Sha256Stream.Sha256Ctx.Pad` | scripts/mkhash.c:564-591 | the registers are those that the standard computes from the padded whole message |
| `Sha256Stream.Sha256Ctx.Final` | scripts/mkhash.c:656-667 | the digest is those registers as bytes, and the context is cleared |
| `Sha256Rounds.RotatedNext` | scripts/mkhash.c:481-493 | a round that overwrites two registers is the standard's round with the roles moved by one place |
| `Sha256Rounds.Extend` | scripts/mkhash.c:496-497 | sixteen words written behind the others are the standard's next sixteen |
| `Sha256Rounds.Transform` | scripts/mkhash.c:499-555 | rotating registers and the lazily extended schedule compute the plain rounds, for any word arithmetic |
| `Sha256.ChSame` | scripts/mkhash.c:442 | the program's choose is the standard's |
| `Sha256.MajSame` | scripts/mkhash.c:443 | the program's majority is the standard's |
| `Sha256.SigmaBits` | scripts/mkhash.c:476-479 | where the four sums of moved words send single bits |
| `Sha256.RoundExample` | scripts/mkhash.c:476-485 | the first and the last round for the message of three letters that is an example to FIPS 180-4 |
| `Sha256.FirstRound` | scripts/mkhash.c:481-493 | the registers after that first round |
| `Sha256.FirstWords` | scripts/mkhash.c:496-497 | the first words that its schedule adds |
| `Sha256Constants.Roots0` | scripts/mkhash.c:454-471 | the first eight constants are bits of cube roots of primes, as `Constants0` says of the table; the same up to `Roots56` and `Constants56` |
| `Sha256Constants.RegisterRoots` | scripts/mkhash.c:602-609 | the registers start as bits of square roots of primes, as `Registers` says of them |
| `Sha256Block.WordExample` | scripts/mkhash.c:95-126 | words are read and written with their high byte first |
| `Sha256.Sha256Transform` | scripts/mkhash.c:441-555 | SHA256_Transform is section 6.2.2 of FIPS 180-4 on 32-bit words |
| `Sha256Block.TransformBlock` | scripts/mkhash.c:429-555 | on a block of bytes, in place, it is the standard's compression; the stream calls it for every block |
| `Sha256File.HashFile` | scripts/mkhash.c:707-720 | a file read in pieces gives the digits of the standard's digest of its contents |
| `BuffaloCipher.XorTwice` | tools/firmware-utils/src/buffalo-lib.c:139 | the same mask twice changes nothing |
| `BuffaloCipher.ModIsRemainder` | tools/firmware-utils/src/buffalo-lib.c:99-136 | the remainder in which indices are counted is that of the division |
| `BuffaloCipher.CryptTwice` | tools/firmware-utils/src/buffalo-lib.c:119-146 | the cipher is its own inverse, since the key stream does not depend on the text |
| `BuffaloCipher.StateMultiset` | tools/firmware-utils/src/buffalo-lib.c:87-146 | however far it ran, the state is a rearrangement of its initial bytes |
| `BuffaloCipher.StepBack` | tools/firmware-utils/src/buffalo-lib.c:129-139 | a step can be taken back: indices and state before are known from those after |
| `BuffaloCipher.KeyExample` | tools/firmware-utils/src/buffalo-lib.c:105-115 | a short key mixed into a short state |
| `BuffaloCipher.StepExample` | tools/firmware-utils/src/buffalo-lib.c:129-139 | the first steps after that, with the bytes of key stream |
| `BuffaloCipher.BcryptCtx.constructor` | tools/firmware-utils/src/buffalo-lib.c:87-117 | the state is the key schedule's, for any state length |
| `BuffaloCipher.BcryptCtx.Step` | tools/firmware-utils/src/buffalo-lib.c:129-139 | one step of the cipher, its byte-sized indices in range |
| `BuffaloCipher.BcryptCtx.Process` | tools/firmware-utils/src/buffalo-lib.c:119-146 | part of a buffer encrypted to the same or an earlier, possibly overlapping place, the rest untouched |
| `BuffaloCipher.BcryptBuf` | tools/firmware-utils/src/buffalo-lib.c:154-178 | both state lengths, with the seed in front of the key |
| `BuffaloContainer.BuffaloCsum` | tools/firmware-utils/src/buffalo-lib.c:180-193 | the loop over signed characters computes the checksum |
| `BuffaloContainer.LengthsFit` | tools/firmware-utils/src/buffalo-lib.c:212-228 | the computed header length is what is written, and the buffer length leaves one to four bytes |
| `BuffaloContainer.EncryptBuf` | tools/firmware-utils/src/buffalo-lib.c:261-321 | the buffer holds the header, the data encrypted in place and the checksum, and is otherwise unchanged |
| `BuffaloContainer.RoundTrip` | tools/firmware-utils/src/buffalo-lib.c:323-419 | opening a sealed container, with anything behind it, gives back product, version, seed, checksum and data, if and only if the checksum was the data's |
| `BuffaloContainer.OpenedIsSealed` | tools/firmware-utils/src/buffalo-lib.c:323-419 | whatever is opened, with texts that are not empty, is a container with the right checksum, and what is found in it is what went in |
| `BuffaloContainer.MagicText` | tools/firmware-utils/src/buffalo-lib.c:250-259 | the two magics that are accepted |
| `BuffaloContainer.SignExact` | tools/firmware-utils/src/buffalo-lib.c:180-193 | a byte of 128 or more counts as a negative number |
| `BuffaloContainer.EncParam.DecryptBuf` | tools/firmware-utils/src/buffalo-lib.c:323-419 | succeeds exactly on what can be opened, with the data in the front of the same buffer |
| `BuffaloContainer.CsumBelow` | tools/firmware-utils/src/buffalo-lib.c:180-193 | the checksum stays in 32 bits |
| `BuffaloContainer.EncryptFile` | tools/firmware-utils/src/buffalo-enc.c:118-170 | the buffer of the computed length is the container with the file's checksum, and one to four more bytes |
| `BuffaloContainer.SealAndOpen` | tools/firmware-utils/src/buffalo-lib.c:261-419 | decrypt_buf on what encrypt_file made succeeds and gives back every field and, in the front of the buffer, the file |
| `ShuntingYard.ParseExpression` | package/bqtool/src/expression-parser.c:301-375 | the two queues do what the step by step reading says, or parsing fails |
| `ShuntingYard.EvaluateExpr` | package/bqtool/src/expression-parser.c:377-420 | the operand stack does what evaluating the tokens one by one says |
| `ShuntingYardProof.ReadTree` | package/bqtool/src/expression-parser.c:301-375 | reading a printed tree outputs a front part of its postorder and leaves the rest on the stack |
| `ShuntingYardProof.ParsePrinted` | package/bqtool/src/expression-parser.c:301-375 | a tree printed with only the needed parentheses parses to its postorder |
| `ShuntingYardProof.GrammarText` | package/bqtool/src/expression-parser.c:33-91 | leaving out parentheses by the program's strengths is printing by the usual grammar of sums, products and powers |
| `ShuntingYardProof.ParseGrammar` | package/bqtool/src/expression-parser.c:301-375 | text of that grammar parses to the postorder of what it means |
| `ShuntingYardProof.ThreeOperands` | package/bqtool/src/expression-parser.c:301-375 | which of two operators in a row takes the operand between them |
| `ShuntingYardProof.EvalPostorder` | package/bqtool/src/expression-parser.c:377-420 | a postorder evaluates to the tree's value on top of what was there |
| `ShuntingYardProof.RoundTrip` | package/bqtool/src/expression-parser.c:301-420 | print by the grammar, parse and evaluate give the tree's value, with one operand left |
| `ShuntingYardProof.OutcomeExact` | package/bqtool/src/expression-parser.c:391-419 | a result comes out only where there is one more operand than operators, and otherwise the right error |
| `ShuntingYardProof.ParseBalanced` | package/bqtool/src/expression-parser.c:330-370 | any token list parses if and only if its parentheses match |
| `ShuntingYardProof.ParseConserves` | package/bqtool/src/expression-parser.c:301-375 | then every operand and operator is in the output as often as in the input |
| `GaugeCache.AscendingSequenced` | package/bqtool/src/gauge.c:527-543 | ascending parameters never run on into the block that is still in the buffer |
| `GaugeCache.AddressExact` | package/bqtool/src/gauge.c:524-533 | the bytes of a subclass follow one another by their offsets |
| `GaugeCache.LoadSecond` | package/bqtool/src/gauge.c:534-543 | the second block is read behind the first one, whose last byte survives |
| `GaugeCache.Device.ReadBlock` | package/bqtool/src/gauge.c:361-384 | success is reported exactly if one of five tries succeeds, with the block in the buffer |
| `GaugeCache.Device.WriteBlock` | package/bqtool/src/gauge.c:361-391 | the same for writing: one that succeeds makes up for the failures before it |
| `GaugeCache.StoredAcross` | package/bqtool/src/gauge.c:592-603 | a parameter in two blocks: the first is written, the second stays in the buffer, over what was read of it |
| `GaugeCache.WriteParam` | package/bqtool/src/gauge.c:522-604 | afterwards device and buffer together are the memory with the parameter written, and it is known exactly what the device holds of it |
| `GaugeCache.WriteParamsBlock` | package/bqtool/src/gauge.c:509-615 | a device that never fails gets success reported; on success the memory is known exactly in every case: all values within limits, one refused, no parameters; in sequence it is the old one overwritten by every parameter unless the last one straddles |
| `GaugeCache.DeviceBehind` | package/bqtool/src/gauge.c:553-566 | however far the loop is, the device is right but for the block in the buffer |
| `GaugeCache.DeviceCopy` | package/bqtool/src/gauge.c:553-566 | of that block it holds what was right before the last run of parameters there |
| `GaugeCache.LostExact` | package/bqtool/src/gauge.c:523-524 | stopping at a refused value loses nothing if and only if that run changed nothing |
| `GaugeCache.LostExample` | package/bqtool/src/gauge.c:523-524 | a value that is lost |
| `GaugeCache.EmptyExact` | package/bqtool/src/gauge.c:606 | without parameters the memory survives if and only if its first block is in the buffer by chance |
| `GaugeCache.TogetherExact` | package/bqtool/src/gauge.c:534-543 | every parameter is written over the right bytes if and only if none finds an older copy of the block in the buffer behind its end |
| `GaugeCache.SequencedFinished` | package/bqtool/src/gauge.c:522-606 | in sequence that is so, and only the last write can go wrong |
| `GaugeCache.RunsIntoExample` | package/bqtool/src/gauge.c:534-543 | a parameter that undoes the one before it |
| `GaugeCache.MisplacedExact` | package/bqtool/src/gauge.c:606 | when the last write is harmless for a straddling last parameter |
| `GaugeCache.MisplacedExample` | package/bqtool/src/gauge.c:606 | a case where it is not |
| `GaugeCache.ReadParamsBlock` | package/bqtool/src/gauge.c:393-507 | in any order, the parameters read are the bytes at their addresses; a device that never fails is read |

## Left out

- Terminal dialogs, prompting, message printing and translation: no logic beyond interaction.
- Files, devices and clocks: a file is a sequence of bytes, the gauge a memory whose accesses may fail.
- malloc and free: allocation does not fail, and released memory is not tracked elsewhere either.
- ExprHeap.Nodes.EliminateEq: freed nodes stay in memory, unused; there is no list of free nodes. That a freed operand is out of the tree is stated where slots are overwritten (`ExprHeapDups.JoinPair`).
- The tokenizer of bqtool's expressions, strtod and its silent stop at an unknown character: the parser starts from tokens.
- Operand arithmetic in bqtool: values are of any type and the five operators uninterpreted, so rounding is not captured.
- The uninitialised operator of a left parenthesis in bqtool's parser: the model follows the algorithm described above it, in which a left parenthesis stops popping.
- ShuntingYard.EvaluateExpr: an empty operand stack, which the original dereferences, is an outcome of its own.
- Md5Block.Body: its 64 steps are a loop over the step number, which the original writes out line by line.
- ExprCanonical.EliminateEq1Leaves: operands with y or n inside them, which the original folds away on the way.
- ExprCanonical.ExprEqExact: the same; `NormalEqExact` has no such condition on what went through the transformation.
- ExprTransform.TransformValue: one condition under which the value is kept; the exact one is in `TransformExact`.
- Submenu.TransCompareValue: one condition under which the form is right; the exact one is in `CompareExact`. The target m, which Kconfig itself never passes here, is not modelled.
- Submenu.NegationExact: only where what stands under the NOT reads right itself; `CompareExact` has no such condition.
- Submenu.PulledOnlyWhenVisible: conditions whose plain symbols are boolean or tristate, or y, m or n, and where the entry's comparison is right; `CompareExact` says that it can be wrong elsewhere.
- MenuForest.FinalizePreorder: what is pulled is decided by an arbitrary rule rather than by `Submenu.MayPull`; the propagation of dependencies into properties and the warnings are not modelled.
- DepCheck.Checker.CheckAll: choices and choice values in the dependency search are not modelled.
- ChoiceGroup.Choice.SetValue: everything is calculated again at once, while the original only marks it as not valid; two settings without a calculation between them, the second judged by old values, are not covered. The same for `ChoiceGroup.Choice.SetChoice`.
- ChoiceGroup.InEveryState: one prompt for the choice and for each value; no value has a default or is selected; changed flags are not modelled.
- StringEscape.SaveAndLoad: the line reader around it, which a newline in the value would break, is not modelled.
- GaugeCache.Device.WriteBlock: a failed try leaves noise in its own block only; the original goes on writing after it failed to select the block, and could hit another one.
- GaugeCache.WriteParamsBlock: byte order and the X float format; a parameter carries the bytes that go to the device. Checksum and timing of a transfer are one failure that any access may have.
- Md5Stream.HashFile: the 64 constants of the table stand as in the original; that they are sines is not derived.
- Crc32.Accumulate: its table is the generated one, of which `CrcTables` shows that it is the constant one.
- The remaining firmware header writers, `imagetag_cmdline.c` and the download scripts: field filling and option parsing.
