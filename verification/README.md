# Verified models of OpenPEARL

This project models four parts of OpenPEARL and proves what they promise.

**The kconfig expression simplifier and its clients** (`expr.c`, `menu.c`, `symbol.c`,
`confdata.c`). Conditions are trees over a three-valued logic: AND is the minimum, OR the
maximum, NOT is 2 - x. `Expr` gives the meaning, and `ExprCompare` says what its comparisons
mean; `ExprEq`, `ExprJoin`, `ExprDups` and `ExprTransform` say what each rewriting makes of a
tree and prove that its value stays the same in every configuration. That the rewritings also do
their work is proved beside that: which trees the equality test accepts (`ExprSame`), that no
two operands that merge are left, that every negation is pushed down. `ExprNodes`, `ExprSlots`
and `ExprInPlace` run the same rewritings on linked nodes that are overwritten in place, the two
cursors of `expr_eliminate_dups1` into one tree included, and prove that the heap ends up
holding exactly the specified tree. `MenuDeps` and `MenuConditions` say how conditions are
handed down and what nesting an entry means, `MenuNesting` exactly which entries are nested,
`MenuForest` what becomes of the tree, `MenuSymbols` what the symbols get from it; `MenuTree`
does all of this in place on linked entries, and `ConfWrite` walks the result. `SymbolGraph` and
`SymbolCheck` treat the search for recursive dependencies, `SymbolValue` and `SymbolCache` the
memoised calculation of symbol values, `SymbolLaws` what these values say of prompts, defaults,
select and imply, `Escape` the quoting of strings.

**Bolts** (`Bolt.cc`, `PriorityQueue.cc`). `Bolts` is the protocol as a state machine whose
steps are the critical regions: simultaneous acquisition by readers and writers, a wait queue in
the order of priority, and the wake-up in two scans. `BoltLaws` says what the operations answer
in terms of holders and counters, and `WakeUps` exactly when the wake-up forgets somebody.
`TaskQueue` holds the linked queue and `BoltSystem` the loops of the code along it, and proves
that each operation is one step of the protocol.

**Loops in format and data lists** (`IOJob.cc`, `DationPG.cc`). `Loops` compares nested repeat
lists, their flat encoding and the explicit stack that walks the encoding, and `LoopLaws` says
what a nested list delivers round by round; `FormattedTransfer` is the transfer loop that pairs
data elements with formats.

**Bounded arithmetic** (`Fixed63.cc`, `Fixed.h`, `Array.cc`). `Fixed63Arithmetic`, `FixedPower`
and `ArrayOffset`: 64-bit products from 32-bit halves, powers by squaring, and the offset of an
array element for any number of dimensions.

`CheckedValues` puts the dependency check and the calculation of values together; `Wrappers` and
`Products` hold what several modules need. Every file is named after its module. `dafny verify
dfyconfig.toml` checks the project.

## How the code is read

- A valuation is valid when y, m, n have their own values and letters, a boolean is n or y, a
  tristate is m only with modules, and distinct constants are distinct texts. `SolutionValid`
  shows that calculated values satisfy this.
- The number parsing of the C library is a parameter of a valuation.
- Symbols are compared by identity; trees contain no `E_LIST` and no `E_RANGE`.
- The nesting decision is an arbitrary relation in `MenuForest`, so the result on the source
  order does not depend on it; `MenuConditions.NestsOf` is the decision of the code, and
  `MenuTree` makes it on the conditions that the entries have at that moment.
- Conditions in `MenuTree` are trees that are replaced, not nodes; `ExprInPlace` has the nodes.
- A critical region of `Bolt.cc` is one step. A scan ends with its first grant, because
  `PriorityQueue::remove` clears the link that `getNext` would follow. A queued task keeps its
  priority.
- A transfer records the formats it applies; what a format does to the device is not modelled,
  so `put` and `get` are one method.
- Errors are outcomes: a thrown signal becomes a value, together with the state it leaves.

## Where the code differs from what one would expect

- `expr_transform` negates an ordering by flipping its relation. The "Cannot compare" branch
  answers n for both, so there the value is not kept (`TransformNotCmpExact`, `TransformExact`).
- `expr_trans_bool` under a negation is wrong for a symbol that is m
  (`TransBoolOutsideNormalForm`); `menu_finalize` calls it on negation normal forms only.
- `menu_finalize` nests an entry that has the condition of the prompt as one conjunct among
  others, but can refuse one that has just that condition: the cancellation does not compare two
  trees that are no connectives (`SameConditionRefused`). `NestsIff` says exactly what is nested.
- `expr_trans_compare` treats what is under a negation as two-valued (`CompareNoUnderNot`).
- An implied y turns a value of m into y even where the prompt is visible as m only
  (`ValueLimits`).
- `sym_check_deps` does not follow `imply`, so symbols that imply each other in a circle pass
  it although their values depend on each other, and n and y are both right for them
  (`ImplyCircleUnchecked`, `ImplyCircleTwoSolutions`). `CircleFreeExact` and `PassedCheckExact`
  say exactly when that happens.
- A symbol with several entries gets the disjunction of their conditions as direct dependency,
  but `expr_alloc_or` drops an entry without a condition, which should make it y
  (`UnconditionalIgnored`, `DirectCoversExact`); implications are then ignored where the other
  conditions are n.
- `sym_check_deps` clears its result when it comes back to the symbol it started from, which
  at top level, without choices, is always: cycles are printed, but `conf_parse` never counts
  an error (`CheckAll`).
- `Fixed63::operator*=` signals for the smallest value even times 0 or 1 (`MulAssign`);
  therefore `pow` cannot give -2^63 for 63 bits (`Computable`), and for narrower types gives
  the smallest value as it should.
- The comment on `pow` promises plus or minus 1 for a base of size 1 and a negative exponent
  and a range signal for 0 to the power 0; the code gives 0 and 1 (`Power`).
- The comment on `LoopControl::enter` demands a count above 0; the code signals only below 0,
  and a count of 0 delivers the body once (`WalkExact`).
- A LEAVE or FREE wakes at most one RESERVE and at most one ENTER, since each scan ends with its
  first grant. So readers stay queued for a bolt that they could enter together, and a writer
  for bolts that are free (`SecondReaderLost`, `SecondWriterLost`). `WakeUpsExact` and
  `GiveBackExact` say exactly when nobody is forgotten; the forgotten are only looked at again
  after the next LEAVE or FREE, of which there is one to come as long as somebody holds a bolt
  (`NobodyStranded`).
- The flag for waiting writers covers only what the first scan met before its grant, so an
  ENTER can go on ahead of a RESERVE that waits (`ReadersPassExact`).
- A LEAVE or FREE that signals a wrong state keeps the earlier bolts given back and does not
  look at the queue (`LeaveOrFree`).

## Model

| member | source | states |
|---|---|---|
| `Expr.CompareWithStatic` | openpearl-code/configuration/kconfig/expr.c:917-995 | comparing a boolean or tristate symbol with y, m or n is decided by the two tristate values, although the code compares texts |
| `ExprCompare.StrcmpExact` | openpearl-code/configuration/kconfig/expr.c:963-977 | the comparison of texts is the order by the first differing character, a shorter beginning first |
| `ExprCompare.NumbersCompared` | openpearl-code/configuration/kconfig/expr.c:885-995 | two symbols whose texts read as numbers, in the base of their types: each relation holds exactly when it holds of the two signed numbers, or of the unsigned ones where one symbol is hexadecimal; the answer is never m |
| `ExprCompare.TextsCompared` | openpearl-code/configuration/kconfig/expr.c:885-995 | where one side is a boolean, a tristate or no readable number, each relation is that of the two texts in the order of StrcmpExact |
| `ExprCompare.OthersCompared` | openpearl-code/configuration/kconfig/expr.c:963-995 | a symbol of no such type can be compared with a number for equality alone, by its text |
| `ExprEq.EliminateYnKeepsValue` | openpearl-code/configuration/kconfig/expr.c:246-327 | dropping y and n operands keeps the value of every tree in every configuration |
| `ExprEq.CancelFactors` | openpearl-code/configuration/kconfig/expr.c:141-173 | common-factor invariant: after a pass of type AND (OR) both original trees are the two results, each joined by AND (OR) with one and the same tree |
| `ExprEq.CancelReflectsOrder` | openpearl-code/configuration/kconfig/expr.c:175-195 | through both passes, also with mixed heads, the order of the two results implies the order of the two originals, in both directions |
| `ExprEq.EliminateEqReflectsOrder` | openpearl-code/configuration/kconfig/expr.c:175-195 | the same for the whole of expr_eliminate_eq, with its final removal of y and n |
| `ExprEq.EliminateEqImplies` | openpearl-code/configuration/kconfig/expr.c:175-195 | when the second tree is reduced to y, its original value is never below that of the first tree |
| `ExprEq.SameSound` | openpearl-code/configuration/kconfig/expr.c:200-244 | the equality test, mutually recursive with the cancellation, answers 1 only on trees of equal value in every configuration |
| `ExprEq.CancelledUnits` | openpearl-code/configuration/kconfig/expr.c:141-173 | trans_count rises by exactly the number of operands that have become the unit, the same in both trees |
| `ExprSame.CancelLists` | openpearl-code/configuration/kconfig/expr.c:141-173 | a pass of the cancellation over two trees is the cancellation over the two lists of their operands: every operand of one meets every operand of the other, in order |
| `ExprSame.SameRefl` | openpearl-code/configuration/kconfig/expr.c:200-244 | every tree is equal to itself |
| `ExprSame.EliminateEqSelf` | openpearl-code/configuration/kconfig/expr.c:175-195 | a tree cancelled against itself leaves the same y or n on both sides if it is a connective, and both as they are if not |
| `ExprSame.SameExact` | openpearl-code/configuration/kconfig/expr.c:200-244 | on trees without y and n among their operands the test answers 1 if and only if the two are the same up to the order and the nesting of equal connectives |
| `ExprSame.EliminateYnClean` | openpearl-code/configuration/kconfig/expr.c:246-327 | on a tree with all negations on symbols expr_eliminate_yn leaves no y or n operand at any depth |
| `ExprJoin.OrRuleKeepsValue` | openpearl-code/configuration/kconfig/expr.c:361-423 | every rule of expr_join_or yields the maximum of the two operand values |
| `ExprJoin.AndRuleKeepsValue` | openpearl-code/configuration/kconfig/expr.c:425-517 | every rule of expr_join_and yields the minimum of the two operand values; distinct constants are distinct texts |
| `ExprJoin.JoinKeepsValue` | openpearl-code/configuration/kconfig/expr.c:361-517 | a merged operand, equal operands included, has the value of the two joined |
| `ExprJoin.OrRuleExact` | openpearl-code/configuration/kconfig/expr.c:361-423 | expr_join_or gives a result for exactly these pairs, and that result: a tristate equal to one of y, m, n beside the same equal to another, and a boolean beside its negation |
| `ExprJoin.AndRuleExact` | openpearl-code/configuration/kconfig/expr.c:425-517 | expr_join_and gives a result for exactly these pairs, and that result: a symbol with a comparison of it, a tristate that is one constant and not another, a tristate that is neither of two of y, m, n |
| `ExprJoin.JoinExact` | openpearl-code/configuration/kconfig/expr.c:361-517 | two operands merge if and only if they are equal or a rule applies; a tree merges with itself, into itself |
| `ExprDups.PutElsewhere` | openpearl-code/configuration/kconfig/expr.c:519-569 | overwriting one operand slot of the shared tree leaves every other operand slot alone |
| `ExprDups.Extract` | openpearl-code/configuration/kconfig/expr.c:519-569 | any operand of a tree, however deep among nodes of one connective, can be set apart: the value is that operand joined with the tree having the unit in its place |
| `ExprDups.MergeKeepsValue` | openpearl-code/configuration/kconfig/expr.c:545-565 | writing the unit into the first slot and the merged form into the second keeps the value of the whole tree |
| `ExprDups.MergeExact` | openpearl-code/configuration/kconfig/expr.c:545-565 | of two merging operands the first becomes the unit and the second the merged form, and every other operand stays |
| `ExprDups.Dups1KeepsValue` | openpearl-code/configuration/kconfig/expr.c:519-569 | a pass keeps the value of the one tree that both cursors walk and overwrite |
| `ExprDups.Dups1Normal` | openpearl-code/configuration/kconfig/expr.c:519-569 | a pass over a tree with all negations on symbols leaves such a tree |
| `ExprDups.EliminateYnShrinks` | openpearl-code/configuration/kconfig/expr.c:571-592 | why the loop of expr_eliminate_dups ends: a merge leaves a y or n operand behind, and then expr_eliminate_yn strictly reduces the node count |
| `ExprDups.EliminateDupsKeepsValue` | openpearl-code/configuration/kconfig/expr.c:571-592 | expr_eliminate_dups keeps the value of every tree in every configuration, and the negation normal form |
| `ExprDups.IdleExact` | openpearl-code/configuration/kconfig/expr.c:519-569 | a pass merges nothing if and only if no two different operands merge, at any depth of connectives: it looks at every pair |
| `ExprDups.EliminateDupsComplete` | openpearl-code/configuration/kconfig/expr.c:571-592 | expr_eliminate_dups leaves no two operands that merge, in the connective and in every operand headed by the other one; it leaves a tree alone if and only if there are none |
| `ExprNodes.Copy` | openpearl-code/configuration/kconfig/expr.c:65-104 | a copy holds the same tree in fresh nodes |
| `ExprNodes.EliminateYnAt` | openpearl-code/configuration/kconfig/expr.c:246-327 | the in-place version on linked nodes stores the simplified tree under the same top node, in nodes of the old tree |
| `ExprNodes.TransformCmpAt` | openpearl-code/configuration/kconfig/expr.c:615-659 | the rewriting of comparisons of a boolean with y, m, n, in place |
| `ExprNodes.TransformAt` | openpearl-code/configuration/kconfig/expr.c:594-749 | the in-place version on linked nodes stores the transformed tree, in old and new nodes, without sharing |
| `ExprNodes.NegateAt` | openpearl-code/configuration/kconfig/expr.c:660-744 | the in-place rules for a negation, De Morgan with its reused node included |
| `ExprNodes.TransBoolAt` | openpearl-code/configuration/kconfig/expr.c:332-356 | the in-place version stores the rewritten tree in the same nodes |
| `ExprSlots.StoredPath` | openpearl-code/configuration/kconfig/expr.c:519-569 | a slot reached through nodes of one connective holds the subtree at that path, and the tree falls apart into that subtree and disjoint surroundings |
| `ExprSlots.FillHole` | openpearl-code/configuration/kconfig/expr.c:519-569 | after a write to such a slot the whole tree is stored again, changed at that path only |
| `ExprSlots.Overwrite` | openpearl-code/configuration/kconfig/expr.c:519-569 | assigning through a cursor changes the shared tree at the path of the cursor and keeps every node of the connective in its place, so that the other cursor stays good |
| `ExprInPlace.Simplifier.CancelAt` | openpearl-code/configuration/kconfig/expr.c:141-173 | the in-place cancellation leaves exactly the two specified trees in the two slots, still without common nodes, and trans_count has counted the cancelled pairs |
| `ExprInPlace.Simplifier.CancelPair` | openpearl-code/configuration/kconfig/expr.c:153-172 | two operands: equal ones are replaced by two new nodes with the unit, which trans_count counts once; y with y and n with n stay |
| `ExprInPlace.Simplifier.EliminateEqAt` | openpearl-code/configuration/kconfig/expr.c:175-195 | expr_eliminate_eq in place, both passes and the removal of y and n, with the exact rise of trans_count |
| `ExprInPlace.Simplifier.Equal` | openpearl-code/configuration/kconfig/expr.c:200-244 | the equality test answers as specified, on copies, and puts trans_count back |
| `ExprInPlace.Simplifier.JoinAt` | openpearl-code/configuration/kconfig/expr.c:361-517 | the joining rules return a fresh tree, or null exactly when no rule applies |
| `ExprInPlace.Simplifier.MergeAt` | openpearl-code/configuration/kconfig/expr.c:545-565 | the two writes and the increment of trans_count for one pair of operands |
| `ExprInPlace.Simplifier.InnerAt` | openpearl-code/configuration/kconfig/expr.c:538-543 | the nested call on an operand headed by the other connective, both cursors starting at its slot |
| `ExprInPlace.Simplifier.Dups1At` | openpearl-code/configuration/kconfig/expr.c:519-569 | two cursors into one linked tree: the heap afterwards holds exactly the specified tree, and trans_count has counted the merges |
| `ExprInPlace.Simplifier.EliminateDupsAt` | openpearl-code/configuration/kconfig/expr.c:571-592 | the loop ends with the specified tree stored under the same top node and trans_count restored |
| `ExprTransform.Transform` | openpearl-code/configuration/kconfig/expr.c:594-749 | termination measure: comparison 2, connective sum plus 1, negation doubles; the transformed tree never weighs more |
| `ExprTransform.TransformNormal` | openpearl-code/configuration/kconfig/expr.c:594-749 | every negation of the result sits on a symbol other than y, m, n |
| `ExprTransform.TransformExact` | openpearl-code/configuration/kconfig/expr.c:594-749 | what expr_transform makes of the value of every tree in every configuration: an ordering that ends in the "Cannot compare" branch counts as n under an even and as y under an odd number of negations; hence the value is kept where no ordering under an odd number of negations ends there |
| `ExprTransform.TransformLowers` | openpearl-code/configuration/kconfig/expr.c:594-749 | expr_transform never raises the value of a tree, orderings that cannot be made included |
| `ExprTransform.TransformKeepsValue` | openpearl-code/configuration/kconfig/expr.c:594-749 | the value is kept on every tree none of whose orderings ends in the "Cannot compare" branch, and the result is such a tree again |
| `ExprTransform.TransformPush` | openpearl-code/configuration/kconfig/expr.c:594-749 | the result is the tree with every negation pushed down to its comparisons and symbols, connectives under an odd number of negations exchanged, orders and operands as they were |
| `ExprTransform.TransformFinished` | openpearl-code/configuration/kconfig/expr.c:594-749 | transforming a transformed tree changes nothing |
| `ExprTransform.OppositeNegates` | openpearl-code/configuration/kconfig/expr.c:670-693 | flipping a relation negates the comparison if and only if the comparison does not end in the "Cannot compare" branch |
| `ExprTransform.TransformNotCmpExact` | openpearl-code/configuration/kconfig/expr.c:670-693 | a negated ordering keeps its value if and only if it does not end in that branch |
| `ExprTransform.CannotCompare` | openpearl-code/configuration/kconfig/expr.c:670-693 | the failing input: a valid configuration in which an ordering and its opposite both are n, so that the negated ordering is y before and n after |
| `ExprTransform.TransBoolKeepsNo` | openpearl-code/configuration/kconfig/expr.c:332-356 | on a negation normal form, whether the value is n is kept, and the normal form |
| `ExprTransform.TransBoolOutsideNormalForm` | openpearl-code/configuration/kconfig/expr.c:332-356 | under a negation that is kept if and only if the symbol is not m; the value itself is kept if and only if the symbol is not m |
| `ExprTransform.TransBoolExact` | openpearl-code/configuration/kconfig/expr.c:332-356 | the result tests no tristate for not being n, and a tree is left alone if and only if it does not |
| `MenuDeps.HandDownValue` | openpearl-code/configuration/kconfig/menu.c:318-322 | a condition handed down has the minimum of the two values, for every condition, with the value that expr_transform leaves of it; that is its own value where no ordering under an odd number of negations fails; negation normal forms stay such |
| `MenuDeps.HandDownFinished` | openpearl-code/configuration/kconfig/menu.c:318-322 | there is a condition exactly where there is one above or an own one, and no two operands of it merge any more |
| `MenuDeps.PropertyVisibleValue` | openpearl-code/configuration/kconfig/menu.c:327-335 | a property is visible exactly when the condition above, that of its entry and its own are, each as expr_transform leaves it; for a tristate its value is the minimum of the three |
| `MenuDeps.CompareNoPolar` | openpearl-code/configuration/kconfig/expr.c:808-883 | what comparison with n makes of every condition in every configuration: symbols count by their text, negated parts as if they were y or n, orderings by the number of negations above them |
| `MenuDeps.CompareNoExact` | openpearl-code/configuration/kconfig/expr.c:808-883 | that is y or n, saying whether the condition is (not) n, where symbols have the text n exactly when they are n and no negated part is m |
| `MenuDeps.CompareNoUnderNot` | openpearl-code/configuration/kconfig/expr.c:839-840 | on a negated tristate symbol that is right if and only if the symbol is not m |
| `MenuDeps.TestFormValue` | openpearl-code/configuration/kconfig/menu.c:350-361 | both sides of the nesting test are y or n, for every condition, and say under that condition whether it is n |
| `MenuDeps.TestFormFinished` | openpearl-code/configuration/kconfig/menu.c:350-361 | no two operands of either side merge any more |
| `MenuDeps.TextOfNo` | openpearl-code/configuration/kconfig/expr.c:808-883 | booleans, tristates and y, m, n satisfy the condition on symbols: their text is n exactly when they are n |
| `MenuDeps.DependsSound` | openpearl-code/configuration/kconfig/expr.c:779-806 | a condition that depends on a symbol is n while the symbol is n |
| `MenuDeps.NestsExact` | openpearl-code/configuration/kconfig/menu.c:354-369 | for every pair of conditions an accepted entry depends on the symbol above or is, as the test reads conditions, shown only where the prompt is |
| `MenuDeps.NestsSound` | openpearl-code/configuration/kconfig/menu.c:354-369 | hence an entry is nested only where its visibility implies that the symbol above is set or its prompt visible |
| `MenuNesting.ContainsExact` | openpearl-code/configuration/kconfig/expr.c:751-777 | expr_contains_symbol answers 1 exactly for the symbols that the condition mentions, which are those that the search for recursive dependencies follows |
| `MenuNesting.DependsExact` | openpearl-code/configuration/kconfig/expr.c:779-806 | expr_depends_symbol answers true if and only if some conjunct, however nested, is the symbol itself or says that it is y, is m or is not n |
| `MenuNesting.NeedingNests` | openpearl-code/configuration/kconfig/menu.c:356-359 | an entry with such a conjunct is nested, whatever the condition of the prompt |
| `MenuNesting.SecondYes` | openpearl-code/configuration/kconfig/expr.c:175-195 | expr_eliminate_eq makes y of its second tree if and only if that is y, or the first is a conjunction with all its conjuncts, in any order and nesting |
| `MenuNesting.EliminateDupsClean` | openpearl-code/configuration/kconfig/expr.c:571-592 | merging operands leaves no y or n operand where there was none |
| `MenuNesting.NestsIff` | openpearl-code/configuration/kconfig/menu.c:354-369 | an entry is nested if and only if its condition mentions the symbol and has a conjunct that needs it, or the prompt shows always, or the simplified test of its condition is a conjunction with all conjuncts of the simplified test of the prompt |
| `MenuNesting.NestsUnconditional` | openpearl-code/configuration/kconfig/menu.c:349-369 | under a prompt without a condition every entry is nested that mentions the symbol |
| `MenuNesting.ConjunctNests` | openpearl-code/configuration/kconfig/menu.c:354-369 | an entry that mentions the symbol and has the condition of the prompt among its conjuncts is nested, where nothing in the two tests merges |
| `MenuNesting.SameConditionRefused` | openpearl-code/configuration/kconfig/menu.c:354-369 | that it is one conjunct among others is needed: an entry with the very condition of the prompt can be refused |
| `MenuForest.FinalizeFirst` | openpearl-code/configuration/kconfig/menu.c:286-433 | finalizing keeps the source order: the preorder of the forest is the same before and after, nothing lost and nothing twice |
| `MenuForest.Hoist` | openpearl-code/configuration/kconfig/menu.c:383-433 | hoisting the children of entries without a prompt text keeps the preorder |
| `MenuForest.Absorb` | openpearl-code/configuration/kconfig/menu.c:354-379 | the siblings that become children and those that stay are, in order, the siblings there were |
| `MenuForest.AbsorbRun` | openpearl-code/configuration/kconfig/menu.c:354-374 | the absorbed entries are the longest run of siblings that the nesting test accepts |
| `MenuForest.TakesSiblings` | openpearl-code/configuration/kconfig/menu.c:347-379 | only an entry of a symbol that has no children takes siblings: the next one, as first child, exactly if the test accepts it, and it does not stop before one that the test refuses |
| `MenuForest.HoistRow` | openpearl-code/configuration/kconfig/menu.c:423-432 | hoisting moves the children of an entry without a prompt text up by one row, directly behind it, and moves nothing else |
| `MenuForest.FinalizeAbove` | openpearl-code/configuration/kconfig/menu.c:286-433 | an entry comes to lie under another only along the old tree and the nesting test: every transitive relation that holds of both holds between parents and children of the new tree |
| `MenuForest.FinalizeFlat` | openpearl-code/configuration/kconfig/menu.c:423-432 | afterwards no entry without a prompt text, at any depth below, has children |
| `MenuConditions.VisibleExact` | openpearl-code/configuration/kconfig/menu.c:318-335 | over the whole tree: a property ends up visible exactly where its own condition, that of its entry and those of all entries above it in the source tree are, each as expr_transform reads it; and likewise the condition of each entry |
| `MenuConditions.MinimumExact` | openpearl-code/configuration/kconfig/menu.c:318-335 | below menus, comments and tristates the value of each property of such an entry is the minimum of all conditions on the way, m included |
| `MenuConditions.OthersUntested` | openpearl-code/configuration/kconfig/menu.c:333-334 | the conditions of the properties of any other symbol test no tristate for not being n |
| `MenuConditions.HandedValue` | openpearl-code/configuration/kconfig/menu.c:318-335 | one entry: its condition is the minimum of that above and its own, and what it hands down is visible where both are |
| `MenuConditions.FinalHanded` | openpearl-code/configuration/kconfig/menu.c:318-335 | every tree has final conditions, handed down from the root to each entry once |
| `MenuConditions.AbsorbedShown` | openpearl-code/configuration/kconfig/menu.c:354-374 | every absorbed sibling passes the nesting test on the final conditions: it depends on the symbol or is shown only where the prompt is |
| `MenuConditions.OwnPropertyCovers` | openpearl-code/configuration/kconfig/menu.c:318-335 | the property that every symbol entry has without a condition of its own ends up mentioning all that the condition of the entry mentions, n perhaps excepted |
| `MenuSymbols.SelectedExact` | openpearl-code/configuration/kconfig/menu.c:336-345 | the final rev_dep (implied) of a symbol is, in every configuration, the maximum over all properties that select (imply) it, of the selecting symbol limited by the final condition of the property |
| `MenuSymbols.DirectCoversExact` | openpearl-code/configuration/kconfig/menu.c:381 | dir_dep covers the conditions of all entries of a symbol if and only if no entry without a condition stands beside one with a condition, or the value is y anyway |
| `MenuSymbols.DirectWithin` | openpearl-code/configuration/kconfig/menu.c:381 | dir_dep never exceeds the conditions of all entries of the symbol |
| `MenuSymbols.UnconditionalIgnored` | openpearl-code/configuration/kconfig/expr.c:58-63 | the failing input: an entry without a condition and one with the condition n give the direct dependency n |
| `MenuSymbols.Symbols.Add` | openpearl-code/configuration/kconfig/menu.c:336-345 | the claim of one property is joined to the dependency of its target |
| `MenuSymbols.Symbols.AddDirect` | openpearl-code/configuration/kconfig/menu.c:381 | the condition of an entry is joined to the direct dependency of its symbol, if there is one |
| `MenuTree.MenuFinalize` | openpearl-code/configuration/kconfig/menu.c:286-433 | on the linked entries: next, list and parent of every entry are those of the finalized forest, whose nesting the final conditions decide; every finalized entry has its final conditions; each entry below is handed its conditions and each leaf noted in dir_dep, none left out |
| `MenuTree.FinalizeTree` | openpearl-code/configuration/kconfig/menu.c:286-433 | from the root: all entries have the conditions handed down from above them in the source tree, and rev_dep, implied and dir_dep are what these demand of all entries |
| `MenuTree.HandToChildren` | openpearl-code/configuration/kconfig/menu.c:318-346 | the loop that overwrites dep and visible.expr of the children |
| `MenuTree.HandToEntry` | openpearl-code/configuration/kconfig/menu.c:319-345 | one entry and the loop over its properties |
| `MenuTree.FinalizeChildren` | openpearl-code/configuration/kconfig/menu.c:347-348 | the loop over the children: their row is finalized, and so are all conditions below |
| `MenuTree.AbsorbSiblings` | openpearl-code/configuration/kconfig/menu.c:349-379 | the loop that absorbs siblings by the test on their conditions, and the relinking after it |
| `MenuTree.AbsorbOne` | openpearl-code/configuration/kconfig/menu.c:371-373 | one absorbed sibling: finalized among the siblings behind it, then under its new parent |
| `MenuTree.CloseRow` | openpearl-code/configuration/kconfig/menu.c:375-379 | the absorbed row becomes the list of the parent, whose next is the entry behind it |
| `MenuTree.HoistChildren` | openpearl-code/configuration/kconfig/menu.c:383-433 | the hoisting loop, which comes to the hoisted entries next |
| `MenuTree.HoistOne` | openpearl-code/configuration/kconfig/menu.c:423-432 | one entry hands its children to its parent, in place |
| `MenuTree.Adopt` | openpearl-code/configuration/kconfig/menu.c:424-429 | the parent links of a whole row, and the link of its last entry |
| `ConfWrite.FromSteps` | openpearl-code/configuration/kconfig/confdata.c:906-919 | the three ways on, into the list, along next and up, each continue the preorder |
| `ConfWrite.Climb` | openpearl-code/configuration/kconfig/confdata.c:913-918 | the parent loop ends, at the entry behind the nearest ancestor that has one |
| `ConfWrite.Walk` | openpearl-code/configuration/kconfig/confdata.c:886-919 | conf_write visits every entry below the root exactly once, in preorder |
| `ConfWrite.FinalizeAndWrite` | openpearl-code/configuration/kconfig/confdata.c:886-919 | menu_finalize, with the nesting that the conditions decide, followed by the walk visits the entries in the order of the source files |
| `SymbolGraph.AcyclicExact` | openpearl-code/configuration/kconfig/symbol.c:1223-1255 | the graph of dependencies has no cycle if and only if its symbols have an order with every dependency earlier |
| `SymbolGraph.OrderedAcyclic` | openpearl-code/configuration/kconfig/symbol.c:1223-1255 | an order of all symbols with every dependency earlier leaves no cycle |
| `SymbolGraph.DepsExact` | openpearl-code/configuration/kconfig/symbol.c:1223-1255 | the search goes on from a symbol to exactly those that its reverse dependency, the condition of a property other than a choice or a selection, or the value of a default mentions |
| `SymbolCheck.Search.PrintRecursive` | openpearl-code/configuration/kconfig/symbol.c:1114-1186 | a frame of the repeated symbol is always on the stack, so the "unexpected" branch is dead, and what is printed runs from that frame to the top |
| `SymbolCheck.Search.CheckExprDeps` | openpearl-code/configuration/kconfig/symbol.c:1188-1221 | without a report every symbol of the expression is finished; the stack is as before |
| `SymbolCheck.Search.CheckSymDeps` | openpearl-code/configuration/kconfig/symbol.c:1223-1255 | without a report every dependency of the symbol is finished |
| `SymbolCheck.Search.CheckDeps` | openpearl-code/configuration/kconfig/symbol.c:1294-1326 | the search ends and goes no further than it must: it returns a symbol exactly when the last report it added begins with a symbol that is still on the stack, and that symbol; no earlier one does |
| `SymbolCheck.AnswersBelow` | openpearl-code/configuration/kconfig/symbol.c:1322-1323 | a report that begins with the symbol whose check is over is not passed on |
| `SymbolCheck.Search.CheckAll` | openpearl-code/configuration/kconfig/zconf.y:526-529 | over all symbols nothing is reported if and only if the graph is acyclic, and then the finished symbols are an order with every dependency earlier; every report is a genuine cycle, and the error count stays 0 in any case |
| `SymbolValue.SolutionUnique` | openpearl-code/configuration/kconfig/symbol.c:336-488 | without a circle the equations of all symbols have at most one solution |
| `SymbolValue.RecursiveSolves` | openpearl-code/configuration/kconfig/symbol.c:336-488 | without a circle the uncached recursive values solve them |
| `SymbolValue.SolutionValid` | openpearl-code/configuration/kconfig/symbol.c:209-270 | calculated values are a valid configuration: a boolean is never m, a tristate m only with modules; everything about expressions applies to them |
| `SymbolValue.ValueLimits` | openpearl-code/configuration/kconfig/symbol.c:389-434 | a selecting symbol sets a lower limit; the visibility is an upper limit for the value set by the user if and only if it is not m met by an implied y |
| `SymbolLaws.PromptExact` | openpearl-code/configuration/kconfig/symbol.c:221-232 | the visibility reaches m (y) if and only if the condition of some prompt does |
| `SymbolLaws.StatusExact` | openpearl-code/configuration/kconfig/symbol.c:209-270 | visibility, selection and implication each reach m (y) if and only if what they stand for does, m counting as y where a symbol takes no m; nothing is implied while the direct dependency is n |
| `SymbolLaws.DefaultExact` | openpearl-code/configuration/kconfig/symbol.c:115-125 | the first default whose condition is not n counts, limited by that condition; without one it is n |
| `SymbolLaws.SetExact` | openpearl-code/configuration/kconfig/symbol.c:379-434 | in every solution a symbol is not n if and only if it is selected, or the user has set it and a prompt is visible, or, where the user does not decide, a default or an implication sets it |
| `SymbolLaws.YesExact` | openpearl-code/configuration/kconfig/symbol.c:379-434 | in every solution it is y if and only if one of these reaches y, or reaches m where the symbol takes no m or is implied as y |
| `SymbolLaws.NothingSets` | openpearl-code/configuration/kconfig/symbol.c:336-434 | a symbol whose prompts, defaults, selections and implications are all n is n, whatever the user has set |
| `SymbolLaws.ImpliedWithoutDirect` | openpearl-code/configuration/kconfig/symbol.c:259-266 | while the direct dependency is n it makes no difference what implies the symbol |
| `SymbolValue.CircleFreeExact` | openpearl-code/configuration/kconfig/symbol.c:1223-1255 | no value depends on itself if and only if the check would pass with the direct dependencies and implications added to what it follows |
| `SymbolValue.PassedCheckExact` | openpearl-code/configuration/kconfig/symbol.c:1223-1255 | a passed check leaves a circle of values if and only if a direct dependency or an implication that it does not follow closes one |
| `SymbolValue.PassedCheckImplications` | openpearl-code/configuration/kconfig/symbol.c:1223-1255 | where direct dependencies mention nothing unfollowed but n, only implications can close such a circle |
| `SymbolValue.CircleFreePasses` | openpearl-code/configuration/kconfig/symbol.c:1223-1255 | where no value depends on itself the check passes |
| `SymbolValue.ImplyCircleUnchecked` | openpearl-code/configuration/kconfig/symbol.c:1223-1255 | the failing input: two symbols that imply each other, with the properties such symbols have, pass the check and depend on each other |
| `SymbolValue.ImplyCircleTwoSolutions` | openpearl-code/configuration/kconfig/symbol.c:336-488 | in that circle both symbols may be n and both may be y |
| `SymbolCache.SymbolTable.ExprCalcValue` | openpearl-code/configuration/kconfig/expr.c:917-995 | the evaluation ends for every configuration and leaves valid symbols alone; without a circle it gives the value under the uncached values |
| `SymbolCache.SymbolTable.CompareValue` | openpearl-code/configuration/kconfig/expr.c:955-994 | the comparison of two symbols after both have been calculated |
| `SymbolCache.SymbolTable.CalcVisibility` | openpearl-code/configuration/kconfig/symbol.c:209-270 | without a circle the visibility and the three dependency values of a symbol are those of the uncached values |
| `SymbolCache.SymbolTable.CalcDefault` | openpearl-code/configuration/kconfig/symbol.c:115-125 | without a circle the value, limited by its condition, of the first default whose condition is not n |
| `SymbolCache.SymbolTable.CalcValue` | openpearl-code/configuration/kconfig/symbol.c:336-488 | the calculation ends for every configuration, circles included, and valid symbols stay as they are; without a circle the memoised value is the uncached one, and only symbols of lower rank become valid besides |
| `SymbolCache.SymbolTable.CalcTristate` | openpearl-code/configuration/kconfig/symbol.c:379-434 | the boolean and tristate case, with the provisional n that a recursive call would see |
| `SymbolCache.SymbolTable.Recalculate` | openpearl-code/configuration/kconfig/symbol.c:490-499 | after sym_clear_all_valid every query is answered; without a circle with the uncached value, in any order and from any cache contents |
| `CheckedValues.CheckThenCalculate` | openpearl-code/configuration/kconfig/zconf.y:526-529 | the check and the calculation together, for every configuration: all queries are answered, whatever was reported; where the added direct dependencies and implications close no cycle the check is clean, the equations have a solution, and the answers are the values of every solution |
| `Escape.RoundTrip` | openpearl-code/configuration/kconfig/symbol.c:948-989 | reading back an escaped string gives the string, whatever follows the closing quote |
| `Escape.QuotedInjective` | openpearl-code/configuration/kconfig/symbol.c:948-989 | no quoted string is the beginning of another quoted string with anything behind it |
| `Escape.EscapedSize` | openpearl-code/configuration/kconfig/symbol.c:955-967 | the counting pass gives the size of the quoted text with its terminator |
| `Escape.EscapedExact` | openpearl-code/configuration/kconfig/symbol.c:955-984 | characters are quoted one by one, and only quotes and backslashes get a backslash |
| `Escape.EscapeStringValue` | openpearl-code/configuration/kconfig/symbol.c:948-989 | the writing pass fills the counted buffer exactly with the quoted string and its terminator |
| `Escape.ReadQuoted` | openpearl-code/configuration/kconfig/confdata.c:166-180 | what was written is stored again |
| `Escape.SetStringValue` | openpearl-code/configuration/kconfig/confdata.c:166-187 | the in-place removal of backslashes stores the text between the quotes, and answers invalid exactly without a closing quote, a backslash at the very end included |
| `Escape.UnescapedExact` | openpearl-code/configuration/kconfig/confdata.c:171-179 | what is read is the text that was written with a backslash before every quote and backslash, and perhaps before others, up to its closing quote; and nothing else is read |
| `Escape.ReadExact` | openpearl-code/configuration/kconfig/confdata.c:166-187 | a text is stored if and only if it was written so after an opening quote |
| `Escape.SkipBackslash` | openpearl-code/configuration/kconfig/confdata.c:174 | one memmove of the loop takes the reading one place on |
| `Escape.ReadingMoved` | openpearl-code/configuration/kconfig/confdata.c:174 | and the text read so far and still to be read is the same after it |
| `Escape.WriteThenRead` | openpearl-code/configuration/kconfig/confdata.c:166-187 | sym_escape_string_value followed by conf_set_sym_val stores the string again, whatever it is |
| `Bolts.GrantExact` | openpearl-code/runtime/common/Bolt.cc:218-226 | a granted request gets each bolt as often as it names it, and nobody else changes hands |
| `Bolts.GrantConsistent` | openpearl-code/runtime/common/Bolt.cc:218-226 | granting a request that is not blocked keeps the books of every bolt |
| `Bolts.ReleaseConsistent` | openpearl-code/runtime/common/Bolt.cc:271-298 | giving back what one holds never meets a wrong state, keeps the books, and takes exactly that |
| `Bolts.PassGrants` | openpearl-code/runtime/common/Bolt.cc:303-341 | a scan that meets a request it can grant grants the first such and then ends, because its link is cleared: those bolts are taken, the books stay right, and the rest of the queue stays in order |
| `Bolts.PassMostUrgent` | openpearl-code/runtime/common/Bolt.cc:303-341 | the granted request is the most urgent of its kind among those that could go on |
| `Bolts.NobodyBlocks` | openpearl-code/runtime/common/Bolt.cc:107-141 | when nobody holds a bolt every queued request can go on |
| `Bolts.WakeInvariant` | openpearl-code/runtime/common/Bolt.cc:300-341 | the two scans keep the books and the order of the queue, and if anybody still waits then somebody holds a bolt |
| `Bolts.WakeUnblocksNobody` | openpearl-code/runtime/common/Bolt.cc:300-341 | the two scans let nobody go on who was blocked before |
| `Bolts.StepInvariant` | openpearl-code/runtime/common/Bolt.cc:175-341 | every operation keeps the invariant: RESERVED is exactly one reservation and no enter, ENTERED exactly a positive counter equal to the outstanding enters, FREE neither; the queue is in the order of priority; nobody waits while nobody holds a bolt |
| `Bolts.RunInvariant` | openpearl-code/runtime/common/Bolt.cc:175-341 | hence over every run in which LEAVE and FREE name held bolts |
| `Bolts.Exclusive` | openpearl-code/runtime/common/Bolt.cc:107-141 | a reserved bolt is held by one task alone |
| `Bolts.AllOrNothing` | openpearl-code/runtime/common/Bolt.cc:175-236 | a request gets all of its bolts, or nothing about any bolt changes |
| `BoltLaws.BlockedExact` | openpearl-code/runtime/common/Bolt.cc:107-141 | an ENTER waits exactly where some task has a bolt reserved, a RESERVE where some task has one in any way |
| `BoltLaws.AskExact` | openpearl-code/runtime/common/Bolt.cc:175-236 | a blocked request joins the queue behind all of the same or a more urgent priority and before all others; a RESERVE that names a bolt twice changes nothing |
| `BoltLaws.ReleaseExact` | openpearl-code/runtime/common/Bolt.cc:271-298 | giving back succeeds if and only if every bolt can be given back as often as it is named, by its holder or not; then counters and states are lowered by exactly that |
| `BoltLaws.WrongStateEnds` | openpearl-code/runtime/common/Bolt.cc:271-277 | otherwise the first bolt in a wrong state ends the operation: those before it stay given back, the others as they are, and nobody is woken |
| `Bolts.NobodyStranded` | openpearl-code/runtime/common/Bolt.cc:300-341 | over every run from free bolts: when no task holds a bolt, no task waits |
| `WakeUps.GrantBlocks` | openpearl-code/runtime/common/Bolt.cc:107-141 | a grant blocks exactly the requests that were blocked and those that share a bolt with it, unless both are ENTER |
| `WakeUps.EnterScan` | openpearl-code/runtime/common/Bolt.cc:323-341 | what the second scan leaves behind, stated on the queue and the bolts before both scans |
| `WakeUps.WakeUpsExact` | openpearl-code/runtime/common/Bolt.cc:300-341 | the two scans lose no wake-up if and only if the granted RESERVE, with the granted ENTER where the second scan runs, holds off every other RESERVE, and a RESERVE still waits or at most one ENTER can go on |
| `WakeUps.ReadersPassExact` | openpearl-code/runtime/common/Bolt.cc:322-341 | an ENTER goes on while a RESERVE waits if and only if a RESERVE was granted with none before it and another behind it, and the ENTER can go on beside it |
| `WakeUps.AskKeepsWakeUps` | openpearl-code/runtime/common/Bolt.cc:175-236 | ENTER and RESERVE lose no wake-up |
| `WakeUps.GiveBackExact` | openpearl-code/runtime/common/Bolt.cc:250-345 | a LEAVE or FREE of held bolts loses no wake-up if and only if the condition of WakeUpsExact holds of the bolts as it gives them back |
| `WakeUps.RunKeepsWakeUps` | openpearl-code/runtime/common/Bolt.cc:175-345 | hence no run loses a wake-up whose every LEAVE and FREE meets that condition |
| `WakeUps.SecondReaderLost` | openpearl-code/runtime/common/Bolt.cc:324-341 | the condition fails in a run of four steps: two ENTER wait for a reserved bolt, and its FREE lets in only the first |
| `WakeUps.SecondWriterLost` | openpearl-code/runtime/common/Bolt.cc:303-320 | and so for writers: two RESERVE wait for two bolts of one task, and the second still waits when its bolt is free |
| `TaskQueue.PriorityQueue.InsertTask` | openpearl-code/runtime/common/PriorityQueue.cc:40-60 | on the linked tasks: the new one stands behind all of the same or a more urgent priority and before all others |
| `TaskQueue.PriorityQueue.Remove` | openpearl-code/runtime/common/PriorityQueue.cc:62-79 | on the linked tasks: the task is taken out with its request, its own link is cleared, and false is answered exactly for a task that was not queued |
| `BoltSystem.System.HasDuplicate` | openpearl-code/runtime/common/Bolt.cc:112-122 | the search for a bolt named twice |
| `BoltSystem.System.WouldBlock` | openpearl-code/runtime/common/Bolt.cc:124-140 | true exactly when some bolt is RESERVED, or ENTERED for a RESERVE |
| `BoltSystem.System.TakeBolts` | openpearl-code/runtime/common/Bolt.cc:218-226 | the granting loop equals the granted request, and signals only at a full counter |
| `BoltSystem.System.EnterOrReserve` | openpearl-code/runtime/common/Bolt.cc:175-236 | the operation is the step of the protocol, the linked queue included; a duplicate is signalled exactly for a RESERVE naming a bolt twice |
| `BoltSystem.System.GiveBolts` | openpearl-code/runtime/common/Bolt.cc:271-298 | the releasing loop, up to the first bolt in a wrong state |
| `BoltSystem.System.ScanQueue` | openpearl-code/runtime/common/Bolt.cc:302-341 | the loop along the links of the queued tasks, which removes one of them on the way, is a scan that ends with its first grant |
| `BoltSystem.System.WakeUp` | openpearl-code/runtime/common/Bolt.cc:300-341 | the two loops with the flag between them are the two scans |
| `BoltSystem.System.LeaveOrFree` | openpearl-code/runtime/common/Bolt.cc:250-345 | the operation is the step of the protocol, the state signal included |
| `Loops.WalkExact` | openpearl-code/runtime/common/IOJob.cc:14-84 | the walk of an encoded nested list delivers exactly its nested meaning if and only if the depth is within MAX_LOOP_LEVEL and every count is positive; it signals if and only if the list is too deep or a count is negative |
| `Loops.EncodedUnrolls` | openpearl-code/runtime/common/IOJob.cc:14-84 | the flat encoding unrolls to the nested meaning, with offset iteration times sizeOfBody of the innermost open loop, a count of 0 acting as 1 |
| `LoopLaws.LoopExact` | openpearl-code/runtime/common/IOJob.cc:14-94 | a loop delivers its body as often as it says, the r-th round with the offset r times the size of the body |
| `LoopLaws.PlainExact` | openpearl-code/runtime/common/IOJob.cc:14-52 | entries without a loop are delivered in order, with the offset of the loop around them |
| `LoopLaws.MeaningAppend` | openpearl-code/runtime/common/IOJob.cc:14-52 | the parts of a list are delivered one after the other |
| `LoopLaws.ZeroOnce` | openpearl-code/runtime/common/IOJob.cc:54-84 | a loop with the count 0 is walked as one with the count 1 |
| `Loops.Refused` | openpearl-code/runtime/common/IOJob.cc:54-67 | a list that is too deep or has a negative count meets its signal |
| `Loops.NextFuture` | openpearl-code/runtime/common/IOJob.cc:14-52 | next moves to what is still to come, through several loops ending on one entry; at the end it starts over in a cyclic list and runs off any other |
| `Loops.EnterFuture` | openpearl-code/runtime/common/IOJob.cc:54-84 | entering a loop leaves what is still to come as it is |
| `Loops.LoopControl.Next` | openpearl-code/runtime/common/IOJob.cc:14-52 | the loop over the stack array computes the specified state |
| `Loops.LoopControl.Enter` | openpearl-code/runtime/common/IOJob.cc:54-84 | the new state, or one of the two signals under exactly its condition |
| `Loops.LoopControl.GetOffset` | openpearl-code/runtime/common/IOJob.cc:86-94 | the offset of the innermost open loop, 0 outside |
| `FormattedTransfer.FormatsInOrder` | openpearl-code/runtime/common/DationPG.cc:154-181 | the formats are applied in the order of the format list repeated for ever, none left out, a positioning format by itself and any other with a value |
| `FormattedTransfer.ValuesInOrder` | openpearl-code/runtime/common/DationPG.cc:204-241 | the values are transferred in order and each once; the transfer completes if and only if all of them were, and always without signals and empty slices |
| `FormattedTransfer.ExpandOne` | openpearl-code/runtime/common/DationPG.cc:204-241 | one data entry asks for its elements in the order of their indices, each once and with the offset of the entry, or for one refusal |
| `FormattedTransfer.ExpandAppend` | openpearl-code/runtime/common/DationPG.cc:183-241 | the data entries follow each other in the order of the data list |
| `FormattedTransfer.ValuesExact` | openpearl-code/runtime/common/DationPG.cc:224-230 | the elements of an array come from the first to the last |
| `FormattedTransfer.SignalExact` | openpearl-code/runtime/common/DationPG.cc:183-241 | why a transfer ends with a signal: the data list refuses what it asks for next, or the format list its next entry, or that is a data format and meets an empty slice |
| `FormattedTransfer.SearchEndsExact` | openpearl-code/runtime/common/DationPG.cc:154-181 | the search for a data format ends if and only if the format list holds an entry that is no positioning format |
| `FormattedTransfer.NextCyclic` | openpearl-code/runtime/common/DationPG.cc:156-163 | next and the loop starts after it deliver what the repeated list has next |
| `FormattedTransfer.DationPG.ApplyAllPositioningFormats` | openpearl-code/runtime/common/DationPG.cc:154-181 | every positioning format up to the next data format is applied, across the end of the list, and the search ends |
| `FormattedTransfer.DationPG.TransferValues` | openpearl-code/runtime/common/DationPG.cc:222-237 | the elements of an array, each with a format of its own |
| `FormattedTransfer.DationPG.TransferElement` | openpearl-code/runtime/common/DationPG.cc:204-241 | one data entry: loop starts, formats, the test for an empty slice, the values |
| `FormattedTransfer.DationPG.TransferAll` | openpearl-code/runtime/common/DationPG.cc:183-241 | the whole transfer equals the pairing of the unrolled data list with the repeated unrolled format list, up to the first signal, wherever the search for a format ends or the data list needs none |
| `Fixed63Arithmetic.RegMultiply` | openpearl-code/runtime/common/Fixed63.cc:170-234 | the exact unsigned product from 32-bit halves, or the overflow signal exactly when it does not fit 64 bits |
| `Fixed63Arithmetic.Fixed63.MulAssign` | openpearl-code/runtime/common/Fixed63.cc:236-289 | the exact product if and only if neither operand is MinInt and its size is at most MaxInt; otherwise a signal, never a wrapped value |
| `Fixed63Arithmetic.Fixed63.AddAssign` | openpearl-code/runtime/common/Fixed63.cc:59-82 | the exact sum, or the signal for the side on which it leaves the range |
| `Fixed63Arithmetic.Fixed63.SubAssign` | openpearl-code/runtime/common/Fixed63.cc:88-116 | the exact difference, or the signal for the side on which it leaves the range, although it is formed with wrap-around |
| `Fixed63Arithmetic.Fixed63.ModAssign` | openpearl-code/runtime/common/Fixed63.cc:151-158 | the remainder of truncating division, or the signal for a zero divisor |
| `Fixed63Arithmetic.RemainderRange` | openpearl-code/runtime/common/Fixed63.cc:151-158 | that remainder is smaller than the divisor in size and never of the opposite sign to the dividend |
| `FixedPower.LongerFits` | openpearl-code/runtime/common/Fixed.h:305-318 | a product of two values of at most 31 bits fits the next longer native type |
| `FixedPower.Multiply` | openpearl-code/runtime/common/Fixed.h:399-410 | both width regimes give the exact product or a signal, and a value exactly when it is in range (for 63 bits without MinInt) |
| `FixedPower.OutOfRangeStays` | openpearl-code/runtime/common/Fixed.h:660-710 | a power that has left the range never comes back with a higher exponent |
| `FixedPower.Power` | openpearl-code/runtime/common/Fixed.h:660-710 | for exponents from 0 on the exact power, or FixedRange exactly when it cannot be computed; no squaring signals too early; for negative exponents 0 or the division signal |
| `ArrayOffset.LinearInverse` | openpearl-code/runtime/common/Array.cc:48-72 | an index vector in bounds lies below the total and is recovered from its offset |
| `ArrayOffset.DigitsInverse` | openpearl-code/runtime/common/Array.cc:48-72 | every offset below the total belongs to an index vector in bounds |
| `ArrayOffset.LinearInjective` | openpearl-code/runtime/common/Array.cc:48-72 | different vectors in bounds have different offsets |
| `ArrayOffset.LinearOrder` | openpearl-code/runtime/common/Array.cc:48-72 | the elements lie row by row: at the first index in which two vectors differ, the smaller index has the smaller offset |
| `ArrayOffset.SummandsFit` | openpearl-code/runtime/common/Array.cc:64-65 | no summand exceeds the offset, so nothing leaves the C type when the total fits it |
| `ArrayOffset.TotalPositive` | openpearl-code/runtime/common/Array.h:230-233 | the number of elements of non-empty dimensions is positive |
| `ArrayOffset.ElementOffset` | openpearl-code/runtime/common/Array.cc:48-72 | the loop signals exactly when some index is out of bounds, at the first such dimension, and otherwise gives the offset |

## Left out

- Choices: choice groups, choice values, `sym_check_choice_deps`, `sym_calc_choice` and the choice parts of `menu_finalize`.
- INT, HEX and STRING symbols in `sym_calc_value`, range checks, and the flags `SYMBOL_WRITE`, `SYMBOL_CHANGED` and `SYMBOL_AUTO`; `modules_val` is fixed during a calculation.
- Warnings, printing and the file formats around the walk of `conf_write`.
- SymbolCache.SymbolTable.CalcValue: for values that depend on themselves says only that the calculation ends and leaves finished symbols alone, because the values then depend on the order in which symbols are asked for.
- MenuDeps.NestsSound: asks that symbols in the conditions have the text n exactly when they are n, which holds of booleans, tristates and y, m, n (`TextOfNo`) but not of a string or number with another text; that no negated part is m; and that no ordering turned around by `expr_transform` fails. `NestsExact` has no such condition.
- MenuNesting.NestsIff: asks that no condition compares a boolean with m, which `expr_transform` makes n. `ConjunctNests` asks that nothing merges in the two tests, since merged operands need not be those of the prompt any more.
- The flags and warnings that `menu_finalize` sets, and `menu_check_dep`, which prepares the conditions while they are read.
- `expr_free` and the reuse of freed nodes: a node that is no longer part of a tree is simply not mentioned any more.
- BoltSystem.System.LeaveOrFree: when an ENTER counter is full, says only that the signal is raised and the queue stays linked; the code throws in the middle of a grant.
- Bolts.StepInvariant: covers LEAVE and FREE of held bolts only; a LEAVE of bolts entered by others is not detected by the code.
- `Bolt::addToWaitQueue`, `removeFromWaitQueue` and `updateWaitQueue`: a continued ENTER is granted without counting it, removing a waiting RESERVE does not look at the queue again, and a change of priority moves a queued task; so the priority of a task is fixed while it waits.
- Deadlock detection, logging, blocking of threads and the mutex.
- FormattedTransfer.DationPG.TransferAll: demands non-empty loop bodies, and a format that takes a value whenever the data list comes to need one; otherwise the code repeats the positioning formats without end, as `SearchEndsExact` shows.
- The formats after the last data element (`DationPG.cc:243-269`), which bypass `LoopControl::next`, and the signals raised inside single formats.
- Overflow of `int` and `size_t` in `LoopControl`: counts, indices and offsets are unbounded.
- Division in `Fixed63` and `Fixed`, addition and subtraction in `Fixed`, `lwb` and `upb` of arrays: single guards around one native operation.
- ArrayOffset.ElementOffset: takes the limits as well formed, each size the product of the later extents, as the compiler emits them.
- User interfaces, the generated scanner, floating point, device drivers and bit strings.
