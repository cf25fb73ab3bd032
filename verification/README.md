# Kconfig and mkhash: a verified model

This project models two parts of the OpenWrt build scripts and proves what they
are for.

* The Kconfig engine (`openwrt/openwrt/scripts/config`): three-valued dependency
  expressions and their rewriters (`expr.c`), the evaluation of bool and tristate
  symbols and the search for recursive dependencies (`symbol.c`), the finalization
  of the menu tree (`menu.c`), macro expansion (`preprocess.c`), and the writer and
  reader of configuration files (`confdata.c`).
* The streaming hashes of `openwrt/openwrt/scripts/mkhash.c`: SHA-256 (FIPS 180-4)
  and MD5 (RFC 1321).

## How it is laid out

Each part has its meaning as functions and lemmas, and the code as methods that
are proved to compute those functions. The modules `...Laws`, `ExprTables` and
`MenuShape` say what those functions come to in other terms: by the parts of a
tree, the properties of a symbol, the form of a line or the bits of a word. The
modules `...Example` evaluate them on one input.

| part | meaning and laws | code that changes state |
|---|---|---|
| expressions | `Exprs`, `ExprSimplify`, `ExprEq`, `ExprAc`, `ExprSuperset`, `ExprJoin`, `ExprDups`, `ExprTables`, `ExprLaws` | `ExprNodes`, `ExprRewrite`, `ExprCancel`, `ExprLinks`, `ExprJoinNodes`, `ExprDedup` |
| symbols | `Kconfig`, `Graphs`, `SymbolValues`, `SymbolLaws`, `CompareLaws` | `SymbolTable`, `DepCheck` |
| menus | `MenuConds`, `Submenus`, `MenuLinks`, `MenuMoves`, `Menus`, `MenuShape`, `MenuSymbols`, `MenuLaws` | `MenuFinalize` |
| macros | `Expansion`, `ExpansionLaws`, `ReferenceLaws` | `Preprocess` |
| configuration files | `ConfText`, `ConfLines`, `ConfLaws`, `ConfWalk`, `ConfFile`, `ConfExample` | `ConfEscape`, `ConfWrite`, `ConfRead`, `ConfTrip` |
| hashes | `HashBytes`, `Sha256`, `Md5` (first halves), `Sha256Laws`, `Sha256Example`, `Md5Example` | `Sha256`, `Md5` (second halves), `Sha256Stream`, `Md5Stream` |

The tristate `n < m < y` is 0, 1, 2. A *valuation* gives every symbol a tristate
and every pair of symbols the outcome of comparing their string values; it is
*consistent* when bool symbols are never m, the symbols y, m and n have their
values, and a bool or tristate symbol equals one of them exactly when its tristate
does. `Exprs.StringsAreConsistent` proves that the comparison of `expr_calc_value`
is of this kind.

In memory, an expression is made of `Node` objects; a `Shape` records which node
is linked where. A `struct expr **` is a link: the root variable or a field of a
node. In the menu tree, the pointers `next`, `list` and `parent` are maps from
nodes to nodes, with no entry for NULL. Machine words are 32-bit vectors; the
64-bit bit count of SHA-256 and the split counter of MD5 are integers with their
wrap-around written out. Variables of the preprocessor are objects with an
expansion counter. The line buffer of the configuration reader is an array with
a NUL at the end of the text.

## What turned out

* `expr_join_and` turns `(a = b) && (a != c)` into `a = b` for any two different
  quoted constants b and c. Constants are compared as numbers where they parse, so
  different constants can be equal: for a tristate symbol A that is y,
  `A = y && A != "2"` is n, and is rewritten to `A = y`. The rewriting keeps the
  value in every state of the symbols exactly when no tristate is spelled by both
  constants (`ExprJoin.JoinAndAlwaysKeepsValue`, counterexample
  `ExprJoin.QuotedNumberIsJoinedWrongly`); so it does when right-hand constants are
  y, m and n and others that no tristate is spelled by, and then all of
  `expr_eliminate_dups` keeps the value (`ExprDups.EliminateDupsKeepsValue`).
  Through this rule a prompt can lose its dependency
  (`MenuConds.QuotedDependencyIsLost`).
* The test for automatic submenus takes an entry for dependent on a symbol's prompt
  although the entry can be visible while symbol and prompt are n. One way is a
  negated tristate symbol: `!A` is tested as `A = n`, but is m when A is
  (`Submenus.NegatedSymbolIsTakenWrongly`). Another is an undeclared symbol, which
  is n but is tested by its name (`Submenus.UndeclaredSymbolIsTakenWrongly`). What is
  tested of a condition is the condition with each negated symbol that is not bool
  replaced by its comparison with n, and each symbol that is not logical likewise
  (`Submenus.Tested`). The test of an entry is right, for every prompt whose own test
  is honest, if and only if it is no conjunction or, wherever the symbol is n and the
  entry is not, the tested condition of the entry is not n
  (`Submenus.SubmenuTestIsExact` for one valuation, `Submenus.SubmenuTestIsRight` for
  all). An honest test does not hold where the prompt is n, as for every prompt of
  logical symbols.
* A value accepted by `sym_set_tristate_value` is what the symbol evaluates to
  next, except for a symbol that is selected while its own dependency is n
  (`SymbolValues.ChangeSticks`, both directions; reached in
  `SymbolValues.SelectedChangeIsLost`). That takes two definitions, one without any
  condition: it leaves no trace in the direct dependency
  (`MenuSymbols.UnconditionalIsLost`). Where all definitions of a symbol have a
  condition, or none has, a change always sticks (`MenuSymbols.ChangeSticksInMenus`),
  and so it does for every symbol with one definition
  (`MenuSymbols.OneChangeSticks`).
* A menu text of the form `CONFIG_FOO is not set` is written as a comment that the
  reader takes for a setting (`ConfFile.MenuTextReadAsSetting`); a comment is
  harmless exactly when it does not say so of a known bool or tristate symbol
  (`ConfFile.CommentsThatCount`).
* `eval_clause` tests the number of arguments one too late: a clause with exactly
  sixteen commas outside parentheses passes, and its seventeenth part is stored
  beyond the array (`ExpansionLaws.TooManyExactly`, for the reference
  `$(,,,,,,,,,,,,,,,,)` in `ExpansionLaws.SixteenCommas`).

## Model

| member | source | states |
|---|---|---|
| Exprs.StringsAreConsistent | openwrt/openwrt/scripts/config/expr.c:1030-1102 | comparing symbols by their string values, as numbers where they parse, never confuses y, m and n with each other or with the value of a bool or tristate symbol |
| Exprs.AllocAndMeans | openwrt/openwrt/scripts/config/expr.c:52-57 | a NULL operand is the unit of && |
| Exprs.EvalLocal | openwrt/openwrt/scripts/config/expr.c:1030-1102 | an expression's value depends on the symbols it mentions only |
| ExprSimplify.EliminateYnKeepsValue | openwrt/openwrt/scripts/config/expr.c:316-397 | removing constant operands keeps the tristate value |
| ExprSimplify.EliminateYnRemoves | openwrt/openwrt/scripts/config/expr.c:316-397 | no operand y or n of an operator is left, the tree shrinks if there was one and is the same if not |
| ExprSimplify.TransformKeepsValue | openwrt/openwrt/scripts/config/expr.c:694-849 | the tristate value is the same under every consistent valuation |
| ExprSimplify.TransformIsNormal | openwrt/openwrt/scripts/config/expr.c:694-849 | afterwards NOT stands only on a symbol other than y, m and n, and no bool symbol is compared with them |
| ExprSimplify.TransformFixesNormal | openwrt/openwrt/scripts/config/expr.c:694-849 | exactly the normal trees are left alone, so a second call changes nothing |
| ExprSimplify.Transform | openwrt/openwrt/scripts/config/expr.c:694-849 | the rewriter, which runs again on its own De Morgan output, ends: the weight in which NOT doubles and comparisons count two never grows |
| ExprSimplify.DeMorgan | openwrt/openwrt/scripts/config/expr.c:794-811 | pushing NOT over && or keeps the value and makes the tree lighter |
| ExprSimplify.TransBoolKeepsPromotedValue | openwrt/openwrt/scripts/config/expr.c:402-426 | on normal trees the relaxed condition is n exactly when the original is, and never above it, so the visibility of a symbol that is not tristate stays the same |
| ExprSimplify.TransCompareBounds | openwrt/openwrt/scripts/config/expr.c:922-985 | on normal trees the test for inequality never claims more than the truth and the one for equality never less; both are exact unless a negated symbol is m |
| ExprSimplify.TransCompareExactOnLiteral | openwrt/openwrt/scripts/config/expr.c:922-985 | for a negated symbol the test is exact if and only if the symbol is not m |
| ExprLaws.TransformLeavesNone | openwrt/openwrt/scripts/config/expr.c:694-849 | no part of the result is a NOT on anything but an allocated symbol, or a bool symbol compared for equality with y, m or n |
| ExprLaws.TransBoolRemoves | openwrt/openwrt/scripts/config/expr.c:402-426 | no part of the result tests a tristate symbol for being other than n, and a tree without such a test is left alone |
| ExprLaws.SymsAreMentioned | openwrt/openwrt/scripts/config/symbol.c:1105-1137 | the symbols of an expression are those that stand in one of its parts, alone or on either side of a comparison |
| ExprEq.EliminateEq1 | openwrt/openwrt/scripts/config/expr.c:150-190 | cancelling ends although it calls expr_eq on the operands: neither tree grows |
| ExprEq.CancellingFactors | openwrt/openwrt/scripts/config/expr.c:150-190 | what cancelling removes is one value that both trees have as an operand |
| ExprEq.EqualIsSound | openwrt/openwrt/scripts/config/expr.c:252-303 | trees that expr_eq calls equal have the same value under every consistent valuation |
| ExprEq.EliminateEqReflectsOrder | openwrt/openwrt/scripts/config/expr.c:221-241 | if what is left of the first tree is not above what is left of the second, neither is the first above the second, also after the second pass for the other operator |
| ExprEq.SupersetTestIsSound | openwrt/openwrt/scripts/config/menu.c:479-490 | if cancelling leaves y of the second condition, the first is never above the second |
| ExprAc.CancellingIsDifference | openwrt/openwrt/scripts/config/expr.c:150-190 | greedy pairwise cancelling leaves exactly the difference of the two multisets of operands |
| ExprAc.EqualIsCanonEquality | openwrt/openwrt/scripts/config/expr.c:252-303 | without y and n, expr_eq holds if and only if the trees are the same up to grouping and order of operands |
| ExprAc.EqualIsEquivalence | openwrt/openwrt/scripts/config/expr.c:252-303 | it is reflexive, symmetric and transitive there |
| ExprAc.OrderAndGroupingIgnored | openwrt/openwrt/scripts/config/expr.c:252-303 | operands may be swapped and regrouped |
| ExprLaws.DecidedStays | openwrt/openwrt/scripts/config/expr.c:165-171 | y and n are not cancelled: a tree decided by one of them stays decided, whatever it is compared with |
| ExprLaws.SecondPassCancels | openwrt/openwrt/scripts/config/expr.c:221-241 | in the second pass a tree that is an operand of the other one's operator is cancelled there once, and nothing else is |
| ExprLaws.NullIsYes | openwrt/openwrt/scripts/config/expr.c:258-261 | NULL is equal to NULL and to the symbol y only |
| ExprSuperset.OnlyConjunctionsPass | openwrt/openwrt/scripts/config/menu.c:479-490 | if the first test is no conjunction, the superset test passes only if the second one is y |
| ExprSuperset.ConjunctionPasses | openwrt/openwrt/scripts/config/menu.c:479-490 | a conjunction passes the superset test against itself |
| ExprJoin.JoinOrKeepsValue | openwrt/openwrt/scripts/config/expr.c:431-493 | every rule for two operands of || keeps the value of their disjunction |
| ExprJoin.JoinAndKeepsValue | openwrt/openwrt/scripts/config/expr.c:495-587 | under one valuation, a rule for two operands of && keeps the value of their conjunction if and only if the tested symbol does not equal both of two different constants |
| ExprJoin.JoinAndAlwaysKeepsValue | openwrt/openwrt/scripts/config/expr.c:495-587 | a rule for two operands of && keeps the value in every state of the symbols if and only if it is not the rule for two constants, or no tristate is spelled by both of them |
| ExprJoin.QuotedNumberIsJoinedWrongly | openwrt/openwrt/scripts/config/expr.c:540-553 | a valuation from string values for which joining changes the value |
| ExprJoin.JoinKeepsValue | openwrt/openwrt/scripts/config/expr.c:431-587 | if tristate symbols are compared with y, m and n and with constants that no tristate is spelled by, every rule keeps the value |
| ExprJoin.StatesRead | openwrt/openwrt/scripts/config/expr.c:1030-1102 | in every state of the symbols, a tristate symbol equals a constant only if its value spells it |
| ExprDups.Dups1 | openwrt/openwrt/scripts/config/expr.c:596-651 | the helper ends with both links pointing into one tree, replaces operands only, and the tree does not grow |
| ExprDups.Dups1KeepsValue | openwrt/openwrt/scripts/config/expr.c:596-651 | one pass, with any two links into the tree, keeps the value of the whole tree if its tristate symbols are compared with y, m and n and with constants that no tristate is spelled by, and keeps it so |
| ExprDups.Dups1Progress | openwrt/openwrt/scripts/config/expr.c:596-651 | a pass that counts a join leaves an operand y or n behind; one that counts none leaves the tree alone |
| ExprDups.PassProgress | openwrt/openwrt/scripts/config/expr.c:664-686 | a counted pass followed by expr_eliminate_yn makes the tree strictly smaller, so the loop ends |
| ExprDups.EliminateDupsKeepsValue | openwrt/openwrt/scripts/config/expr.c:664-686 | the result has the value of the tree under every consistent valuation, if its tristate symbols are compared with y, m and n and with constants that no tristate is spelled by; it stays normal where it was |
| ExprDups.EliminateDupsIsIdempotent | openwrt/openwrt/scripts/config/expr.c:664-686 | in the result nothing can be joined any more |
| ExprTables.NoDuplicatesLeft | openwrt/openwrt/scripts/config/expr.c:664-686 | in the result no two operands of a level can be joined, at any depth |
| ExprTables.NoEqualOperands | openwrt/openwrt/scripts/config/expr.c:664-686 | so no two operands of a level are equal |
| ExprTables.TestsAreJoined | openwrt/openwrt/scripts/config/expr.c:455-586 | which two tests of a tristate symbol against different ones of y, m and n become which test, and which stay |
| ExprTables.OppositesAreJoined | openwrt/openwrt/scripts/config/expr.c:540-553 | a test and its opposite become n in a conjunction and stay in a disjunction |
| ExprTables.SymbolsAreJoined | openwrt/openwrt/scripts/config/expr.c:519-535 | which tests of a bool or tristate symbol are joined with the symbol itself |
| ExprTables.NegationsAreJoined | openwrt/openwrt/scripts/config/expr.c:478-484 | a bool symbol or its negation is y; all other pairs of a symbol and its negation stay |
| ExprTables.OthersStay | openwrt/openwrt/scripts/config/expr.c:431-587 | operands about different symbols stay unless they are equal |
| ExprRewrite.EliminateYnInPlace | openwrt/openwrt/scripts/config/expr.c:316-397 | overwriting nodes computes the function of that name and uses the nodes of the tree only |
| ExprRewrite.TransBoolInPlace | openwrt/openwrt/scripts/config/expr.c:402-426 | comparisons with n become symbols in their nodes; no node moves |
| ExprRewrite.TransformInPlace | openwrt/openwrt/scripts/config/expr.c:694-849 | the tree returned, made of old and new nodes without sharing, is the transformed expression |
| ExprRewrite.NegateInPlace | openwrt/openwrt/scripts/config/expr.c:760-843 | the cases below NOT: nodes are reused, and the case for && and || runs the rewriter again |
| ExprCancel.Copy | openwrt/openwrt/scripts/config/expr.c:66-105 | the copy is the same expression in new nodes |
| ExprCancel.Canceller.EliminateEq1 | openwrt/openwrt/scripts/config/expr.c:150-190 | both trees are cancelled in place and stay apart; the counter grows by the number of pairs cancelled |
| ExprCancel.CancelledOperands | openwrt/openwrt/scripts/config/expr.c:150-190 | each tree loses exactly as many operands as pairs are counted |
| ExprCancel.Canceller.EliminateEq | openwrt/openwrt/scripts/config/expr.c:221-241 | both passes and the removal of constants, in place, with the growth of the counter |
| ExprCancel.EliminateEqOrNull | openwrt/openwrt/scripts/config/expr.c:221-241 | where an operand is NULL, the nodes of the other one, both links and the counter are as before; otherwise the counter grows as above |
| ExprCancel.Canceller.Equal | openwrt/openwrt/scripts/config/expr.c:252-303 | the verdict is that of the function; both trees and the global counter are as before |
| ExprCancel.EqualOrNull | openwrt/openwrt/scripts/config/expr.c:252-303 | a NULL operand is equal to NULL and to y, and to nothing else |
| ExprDedup.JoinNodes | openwrt/openwrt/scripts/config/expr.c:431-587 | the new operand, or NULL, as the join functions say; the global counter stays |
| ExprJoinNodes.JoinOrNodes | openwrt/openwrt/scripts/config/expr.c:431-493 | the tests on the fields of two nodes select the rule for their disjunction, whose result is new |
| ExprJoinNodes.JoinAndNodes | openwrt/openwrt/scripts/config/expr.c:495-587 | the same for their conjunction |
| ExprDedup.Dups1InPlace | openwrt/openwrt/scripts/config/expr.c:596-651 | through two links into one tree the nodes become the tree of the function, the operator nodes stay in place, and the global counter grows by the number of joins |
| ExprDedup.EliminateDupsInPlace | openwrt/openwrt/scripts/config/expr.c:664-686 | the loop on the global counter computes the joined expression at the same top node and restores the counter |
| ExprLinks.PutInPlace | openwrt/openwrt/scripts/config/expr.c:634-645 | redirecting one field of an operator node puts another operand in the tree and changes nothing else |
| SymbolValues.ValueSolves | openwrt/openwrt/scripts/config/symbol.c:299-440 | in an acyclic configuration the plain recursive definition gives every symbol what its declaration asks for |
| SymbolValues.SolutionsAgree | openwrt/openwrt/scripts/config/symbol.c:299-440 | no other values do, and a symbol's value depends only on user values at or below it |
| SymbolValues.SolutionIsValue | openwrt/openwrt/scripts/config/symbol.c:299-440 | the values are those of the recursive definition, for any ranking of the symbols |
| SymbolValues.SolutionIsConsistent | openwrt/openwrt/scripts/config/symbol.c:299-440 | bool symbols are never m, nor is any symbol while modules are off |
| SymbolLaws.BoundsOf | openwrt/openwrt/scripts/config/symbol.c:172-233 | the visibility is the highest condition of the prompts, the other bounds are the three dependencies, n where the last two are missing; an implied dependency counts only where the direct one is met |
| SymbolLaws.SetSymbolGets | openwrt/openwrt/scripts/config/symbol.c:334-386 | a visible symbol with a user value gets it as far as it is visible, raised to its selects; n if it is selected against its dependency |
| SymbolLaws.UnsetSymbolGets | openwrt/openwrt/scripts/config/symbol.c:338-386 | any other symbol gets the first default whose condition is not n, as far as that condition goes, or what implies it if that is higher; without such a default what implies it; and when it is written |
| SymbolLaws.RangeIsExact | openwrt/openwrt/scripts/config/symbol.c:453-471 | the range test accepts exactly the values, up to the visibility, that selects and implies leave alone, of symbols visible beyond what selects them |
| CompareLaws.SignedCompare | openwrt/openwrt/scripts/config/expr.c:1063-1101 | by their string values, two symbols that parse as signed numbers are related as integers, for each of the six relations |
| CompareLaws.UnsignedCompare | openwrt/openwrt/scripts/config/expr.c:1063-1101 | where one number is unsigned, they are related as unsigned numbers of 64 bits |
| CompareLaws.TextsCompare | openwrt/openwrt/scripts/config/expr.c:1060-1101 | where one is no number, or both are string symbols, they are related by their first different characters |
| CompareLaws.StringEqualsConstant | openwrt/openwrt/scripts/config/expr.c:1060-1101 | a string symbol equals a constant that is no number if and only if its value is the text of the constant |
| SymbolValues.RankedIsAcyclic | openwrt/openwrt/scripts/config/symbol.c:1225-1257 | the order in which the search finishes symbols ranks them below their dependents |
| SymbolValues.DependenciesAreHard | openwrt/openwrt/scripts/config/symbol.c:351-386 | a symbol whose direct dependency is n evaluates to n, whatever user value, defaults, selects and implies say |
| SymbolValues.ChangeSticks | openwrt/openwrt/scripts/config/symbol.c:453-508 | a value within range is what the symbol has at the next evaluation if and only if it is not selected against an unmet dependency |
| SymbolValues.SelectedChangeIsLost | openwrt/openwrt/scripts/config/symbol.c:453-508 | a configuration in which y is within the range of a symbol, is set, and the symbol is n at the next evaluation |
| SymbolValues.GuardedChangeSticks | openwrt/openwrt/scripts/config/symbol.c:453-508 | where prompts and defaults are guarded by the dependency, it always is |
| SymbolValues.SameValueSticks | openwrt/openwrt/scripts/config/symbol.c:474-508 | exactly when setting the value a symbol already has leaves it with that value |
| SymbolTable.Table.ExprCalcValue | openwrt/openwrt/scripts/config/expr.c:1030-1102 | evaluation over cached and uncached symbols gives the value of the expression and keeps the cache right |
| SymbolTable.Table.SymCalcVisibility | openwrt/openwrt/scripts/config/symbol.c:172-233 | the four bounds stored are those of the declaration |
| SymbolTable.Table.SymCalcValue | openwrt/openwrt/scripts/config/symbol.c:299-440 | the symbol gets its value; valid symbols and those above are not touched |
| SymbolTable.Table.SymGetDefaultProp | openwrt/openwrt/scripts/config/symbol.c:78-88 | the first default whose condition is not n, with the value of that condition |
| SymbolTable.Table.Evaluate | openwrt/openwrt/scripts/config/symbol.c:299-440 | from any right cache, whatever is valid already, the symbol gets the value of the recursive definition |
| SymbolTable.Table.EvaluateAll | openwrt/openwrt/scripts/config/confdata.c:531-532 | evaluating any list of symbols in any order gives all of them their values |
| SymbolTable.Table.ClearAllValid | openwrt/openwrt/scripts/config/symbol.c:442-451 | no symbol is valid afterwards |
| SymbolTable.Table.SetTristateValue | openwrt/openwrt/scripts/config/symbol.c:474-508 | accepted exactly if the value is the old one or within range; a refusal changes nothing, and a new value is what every later evaluation gives unless the symbol is selected against an unmet dependency |
| DepCheck.Checker.PrintRecursive | openwrt/openwrt/scripts/config/symbol.c:1016-1103 | the stack entries printed, from the symbol met again, form a cycle |
| DepCheck.Checker.CheckDeps | openwrt/openwrt/scripts/config/symbol.c:1225-1257 | the three-colour invariant: finished symbols depend on earlier finished ones only, grey ones are the path on the stack |
| DepCheck.Checker.CheckExprDeps | openwrt/openwrt/scripts/config/symbol.c:1105-1137 | every symbol of the expression is visited unless a cycle is reported |
| DepCheck.Checker.CheckPropsDeps | openwrt/openwrt/scripts/config/symbol.c:1165-1180 | every symbol of the conditions and defaults is visited; choices, selects and implies are passed over |
| DepCheck.Checker.CheckAll | openwrt/openwrt/scripts/config/parser.y:514-517 | a cycle is reported if and only if the dependency graph has one |
| DepCheck.ConfParseCheck | openwrt/openwrt/scripts/config/parser.y:514-519 | with recursive_is_error the error count is zero exactly for acyclic configurations, without it always; an acyclic one is left with a ranking |
| MenuLaws.EdgesExactly | openwrt/openwrt/scripts/config/symbol.c:1140-1190 | a symbol depends on exactly the symbols mentioned in its three dependencies, in the conditions of its properties and in the values of its defaults; choices, selects and implies do not count |
| MenuConds.RewriteMMeans | openwrt/openwrt/scripts/config/menu.c:81-104 | a condition with m replaced by m && MODULES has the value it had with m read as n while modules are off |
| MenuConds.PropagatedCondMeans | openwrt/openwrt/scripts/config/menu.c:355-359 | a node's condition is that of its parent and its own, whatever symbols it mentions, if tristate symbols are compared with y, m and n and with constants that no tristate is spelled by |
| MenuConds.PropagatedPropMeans | openwrt/openwrt/scripts/config/menu.c:399-405 | a property's condition is that of its node and its own, relaxed only so far that promoted visibility stays |
| MenuLaws.ParentComesFirst | openwrt/openwrt/scripts/config/menu.c:355-359 | two symbols become a conjunction with that of the parent first, and a missing condition adds nothing |
| MenuConds.QuotedDependencyIsLost | openwrt/openwrt/scripts/config/menu.c:399-405 | a dependency and a prompt condition with such constants, whose propagated condition is y although the dependency is n |
| Submenus.DependsIsHard | openwrt/openwrt/scripts/config/expr.c:879-906 | an expression that depends on a symbol is n whenever the symbol is |
| Submenus.TestedTestsAlike | openwrt/openwrt/scripts/config/expr.c:922-985 | comparing a condition with n and simplifying gives the same test as for its tested form |
| Submenus.NotNoTestMeans | openwrt/openwrt/scripts/config/menu.c:455-484 | the simplified test holds if and only if the tested form of the condition is not n |
| Submenus.JoinedEntries | openwrt/openwrt/scripts/config/menu.c:459-490 | for all conditions, an entry taken as superset has a tested form that is n whenever that of the prompt is |
| Submenus.SubmenuTestIsExact | openwrt/openwrt/scripts/config/menu.c:455-490 | under a valuation, no prompt with an honest test takes the entry wrongly if and only if the test of the entry is no conjunction or, with the symbol n and the entry not, its tested form is not n |
| Submenus.SubmenuTestIsRight | openwrt/openwrt/scripts/config/menu.c:455-490 | the same over all valuations |
| Submenus.SubmenuEntriesDepend | openwrt/openwrt/scripts/config/menu.c:455-490 | an entry accepted by expr_depends_symbol is invisible whenever the symbol is n; another one, of logical symbols, whenever the symbol and its prompt are n, if it negates bool symbols only or no symbol it negates is m |
| Submenus.NegatedSymbolIsTakenWrongly | openwrt/openwrt/scripts/config/menu.c:455-490 | a prompt, an entry and a valuation for which the superset test succeeds and the entry is visible although symbol and prompt are n |
| Submenus.UndeclaredSymbolIsTakenWrongly | openwrt/openwrt/scripts/config/menu.c:455-490 | the same with an undeclared symbol in place of a negated one |
| MenuLaws.JoinsExactly | openwrt/openwrt/scripts/config/menu.c:455-490 | an entry passes the test exactly if its condition (of the prompt if it has one) mentions the symbol, and has a conjunct that requires it or is a superset of the condition of the symbol's prompt |
| MenuLinks.ParentsAgree | openwrt/openwrt/scripts/config/menu.c:305-612 | in a tree represented by the pointers, at any depth, each node's parent pointer is the node whose list holds it |
| MenuMoves.CloseChain | openwrt/openwrt/scripts/config/menu.c:497-501 | the pointer updates after the loop make the entries found the list of the symbol |
| MenuMoves.SplicedChain | openwrt/openwrt/scripts/config/menu.c:574-583 | the pointer updates put a list behind its node |
| MenuMoves.SpliceKeepsPreorder | openwrt/openwrt/scripts/config/menu.c:574-583 | flattening keeps the preorder |
| MenuShape.FlatIsQuiet | openwrt/openwrt/scripts/config/menu.c:574-583 | after flattening no node of the list has a list without having a prompt, and none is lost |
| MenuShape.FlatMeans | openwrt/openwrt/scripts/config/menu.c:574-583 | a node with a prompt keeps exactly its list, and one without gives it up to the list it is in |
| MenuShape.FlatOfTopped | openwrt/openwrt/scripts/config/menu.c:505-584 | flattening one list after all those inside it flattens at every depth |
| MenuShape.HoistHasNoIdleLists | openwrt/openwrt/scripts/config/menu.c:574-583 | at no depth a list without a prompt is left |
| MenuShape.PromptedKeeps | openwrt/openwrt/scripts/config/menu.c:574-583 | a child of a node with a prompt stays its child |
| MenuShape.PromptlessGivesUp | openwrt/openwrt/scripts/config/menu.c:574-583 | a child of a node without prompt ends up beside that node |
| MenuShape.FirstParents | openwrt/openwrt/scripts/config/menu.c:432-501 | grouping leaves each node below its parsed parent, or puts it below a symbol whose test it passes |
| MenuShape.FirstIsWhole | openwrt/openwrt/scripts/config/menu.c:459-496 | no symbol takes fewer entries than it could: the entry that follows it does not pass its test, at any depth |
| MenuShape.FirstKeepsPreorder | openwrt/openwrt/scripts/config/menu.c:432-501 | grouping keeps the preorder |
| MenuShape.FinishedLists | openwrt/openwrt/scripts/config/menu.c:574-583 | in the final pointers a node without prompt has no list |
| MenuShape.FinishedParents | openwrt/openwrt/scripts/config/menu.c:432-583 | a node grouped below z has z as its parent if z has a prompt or is the root, and otherwise the parent of z |
| MenuFinalize.MenuTree.PropagateProps | openwrt/openwrt/scripts/config/menu.c:366-420 | each property of the node gets its condition, and each select or imply enters the target's reverse dependency once |
| MenuFinalize.MenuTree.PropagateNode | openwrt/openwrt/scripts/config/menu.c:355-420 | the node and its properties are settled, nothing else changes |
| MenuFinalize.MenuTree.Propagate | openwrt/openwrt/scripts/config/menu.c:350-421 | all children are settled, from their parent's condition, and their selects and implies are entered once |
| MenuFinalize.MenuTree.TakeEntries | openwrt/openwrt/scripts/config/menu.c:459-495 | exactly the following entries that pass the test, up to the first that does not, are finalized and become children |
| MenuFinalize.MenuTree.CreateSubmenu | openwrt/openwrt/scripts/config/menu.c:432-501 | the pointers represent the symbol with the entries below it, the preorder stays, every entry taken is finalized once |
| MenuFinalize.MenuTree.Flatten | openwrt/openwrt/scripts/config/menu.c:505-584 | the list becomes the flat one: lists of nodes without prompt are moved behind them, all others stay; the preorder stays and parent pointers agree with lists |
| MenuFinalize.MenuTree.AddDefinition | openwrt/openwrt/scripts/config/menu.c:503 | the direct dependency of the symbol is the disjunction over its definitions so far |
| MenuFinalize.MenuTree.MenuFinalize | openwrt/openwrt/scripts/config/menu.c:305-612 | the tree becomes that of the grouped entries with the lists of nodes without prompt given up; calls are made on each node once, in preorder, which the pointers keep; all conditions are settled, all definitions, selects and implies entered |
| MenuFinalize.MenuTree.FinalizeRoot | openwrt/openwrt/scripts/config/parser.y:513 | from the root: the pointers are those of the finished tree, with the same preorder, one call a node, all conditions settled, every definition in its symbol's dependency, every select and imply in its target's reverse dependency |
| MenuSymbols.FinalizedGuards | openwrt/openwrt/scripts/config/menu.c:344-421 | after menu_finalize a node's condition is its parent's and its own, and no property is visible without it, if in the conditions of the node and of its ancestors tristate symbols are compared with y, m and n and with constants that no tristate is spelled by |
| MenuLaws.SettledExactly | openwrt/openwrt/scripts/config/menu.c:350-405 | for every node below the root: its condition, and that of each property that belongs to it; for symbols that are not tristate no test for being other than n is left |
| MenuSymbols.DirDepMeans | openwrt/openwrt/scripts/config/menu.c:503 | the direct dependency of a symbol has the value of the disjunction over its definitions that have a condition, and is NULL only if none has |
| MenuSymbols.UnconditionalIsLost | openwrt/openwrt/scripts/config/menu.c:503 | a definition without condition does not count beside another one |
| MenuSymbols.InOrderOfDefinitions | openwrt/openwrt/scripts/config/menu.c:503 | the conditions of two definitions are joined in the order of the definitions |
| MenuSymbols.InOrderOfSelects | openwrt/openwrt/scripts/config/menu.c:410-419 | so are two selects, each symbol with its condition behind it |
| MenuSymbols.ReverseDepMeans | openwrt/openwrt/scripts/config/menu.c:407-420 | the reverse dependency has the value of the disjunction over all selects of the symbol in the settled tree, each with the selecting symbol and its condition; likewise for implies |
| MenuSymbols.AfterFinalizeRoot | openwrt/openwrt/scripts/config/parser.y:513 | what menu_finalize leaves behind meets the hypotheses of the statements below, for every symbol defined below the root |
| MenuSymbols.FinalizedDecl | openwrt/openwrt/scripts/config/menu.c:344-503 | the direct dependency of a symbol is n exactly if those of all its definitions with a condition, with their parents, are; where all definitions have a condition or none has, prompts and defaults are n then; at its definitions and above them, tests of tristate symbols are as for FinalizedGuards |
| MenuSymbols.DependenciesAreHardInMenus | openwrt/openwrt/scripts/config/menu.c:349-421 | a symbol with any number of definitions is invisible and evaluates to n when the dependency of each, or of a parent of each, is n, whatever else is configured; at its definitions and above them, tests of tristate symbols are as for FinalizedGuards |
| MenuSymbols.ChangeSticksInMenus | openwrt/openwrt/scripts/config/symbol.c:453-508 | where all definitions of a symbol have a condition or none has, a value within range is what it has at the next evaluation; at its definitions and above them, tests of tristate symbols are as for FinalizedGuards |
| MenuSymbols.OneChangeSticks | openwrt/openwrt/scripts/config/symbol.c:453-508 | so a change of a symbol with one definition always sticks; at its definitions and above them, tests of tristate symbols are as for FinalizedGuards |
| MenuSymbols.SelectsHold | openwrt/openwrt/scripts/config/symbol.c:351-386 | a selected symbol is at least as high as each selecting symbol under the condition of its select, unless its own dependency is n: then it is n |
| Expansion.EnteringCosts | openwrt/openwrt/scripts/config/preprocess.c:263-270 | entering a variable that passes the test on its counter uses up budget |
| Expansion.ExpandUntil | openwrt/openwrt/scripts/config/preprocess.c:495-537 | expansion is defined for all variables, counters and text: it ends with a result or an error, and what is left is no longer than the text |
| Expansion.Tokens | openwrt/openwrt/scripts/config/preprocess.c:384-399 | a clause always has a part, and no part is longer than the clause |
| ExpansionLaws.CountsOnlyGuard | openwrt/openwrt/scripts/config/preprocess.c:251-277 | a successful expansion has the same result with smaller counters: they have no effect but to stop |
| ExpansionLaws.PlainText | openwrt/openwrt/scripts/config/preprocess.c:495-537 | text without references is copied, up to the first end character |
| ExpansionLaws.ClosesExactly | openwrt/openwrt/scripts/config/preprocess.c:469-482 | a reference ends at the first parenthesis that closes it |
| ExpansionLaws.TokensJoin | openwrt/openwrt/scripts/config/preprocess.c:384-399 | the parts joined by commas are the clause |
| ExpansionLaws.TokensAreMinimal | openwrt/openwrt/scripts/config/preprocess.c:384-399 | every comma within a part is inside parentheses |
| ExpansionLaws.TooManyExactly | openwrt/openwrt/scripts/config/preprocess.c:384-399 | a clause that is not an argument number is refused if it has more than sixteen commas outside parentheses, and is stored beyond the array exactly if it has sixteen |
| ExpansionLaws.SixteenCommas | openwrt/openwrt/scripts/config/preprocess.c:384-399 | expanding a reference to sixteen commas is not refused and stores beyond the array |
| ReferenceLaws.CallTokens | openwrt/openwrt/scripts/config/preprocess.c:372-411 | the parts of a clause whose parentheses are balanced are its name and its arguments |
| ReferenceLaws.TextAround | openwrt/openwrt/scripts/config/preprocess.c:495-537 | the text before a reference is kept, then comes what the reference yields, then what the rest expands to; the first error wins |
| ReferenceLaws.DollarAlone | openwrt/openwrt/scripts/config/preprocess.c:453-467 | a dollar sign without parenthesis stands for itself |
| ReferenceLaws.ArgumentReference | openwrt/openwrt/scripts/config/preprocess.c:352-365 | $(i) is the i-th argument of the call that the text is part of |
| ReferenceLaws.VariableReference | openwrt/openwrt/scripts/config/preprocess.c:251-277 | a reference to a simple variable is its value, to a recursive one the expansion of its value with the arguments of the reference; and when it is an error |
| ReferenceLaws.BuiltInReference | openwrt/openwrt/scripts/config/preprocess.c:202-236 | without such a variable: the built-in functions with their numbers of arguments, otherwise the environment if there are no arguments, otherwise the empty string |
| Preprocess.Preprocessor.VariableExpand | openwrt/openwrt/scripts/config/preprocess.c:251-277 | the result is that of the function; the call ends, and unless it reports an error all counters are restored |
| Preprocess.Preprocessor.EvalClause | openwrt/openwrt/scripts/config/preprocess.c:346-439 | the same for a clause, whose argument array is shifted and expanded in place |
| Preprocess.Preprocessor.ExpandArguments | openwrt/openwrt/scripts/config/preprocess.c:407-411 | the shifted array holds the expanded arguments, or the first error is returned |
| Preprocess.Preprocessor.ExpandDollar | openwrt/openwrt/scripts/config/preprocess.c:453-488 | the same for a reference |
| Preprocess.Preprocessor.ExpandStringUntil | openwrt/openwrt/scripts/config/preprocess.c:495-537 | the same for the copying loop, with either end test |
| Preprocess.SplitTokens | openwrt/openwrt/scripts/config/preprocess.c:384-399 | the loop cuts a clause into its parts, finds that there are too many, or stores beyond its sixteen places |
| Preprocess.FindClose | openwrt/openwrt/scripts/config/preprocess.c:469-482 | the loop finds the closing parenthesis, if there is one |
| ConfText.UnescapeUndoesEscape | openwrt/openwrt/scripts/config/symbol.c:850-891 | the text between the quotes unescapes to the value, whatever follows |
| ConfEscape.EscapeStringValue | openwrt/openwrt/scripts/config/symbol.c:850-891 | the buffer holds the escaped value and its length is exactly the one computed beforehand |
| ConfLines.LineRoundTrip | openwrt/openwrt/scripts/config/confdata.c:593-614 | a printed setting reads back as the value printed if that is writable; otherwise, unless a line break cuts a number, the line has no effect |
| ConfLines.QuotedRoundTrip | openwrt/openwrt/scripts/config/confdata.c:261-280 | a string value survives if and only if it has no newline |
| ConfLaws.EscapedCharacter | openwrt/openwrt/scripts/config/symbol.c:850-891 | only quotes and backslashes are escaped |
| ConfLaws.UnescapeIsExact | openwrt/openwrt/scripts/config/confdata.c:264-275 | what is read between quotes is what stands there, up to the first quote without a backslash |
| ConfLaws.IntegersAreValid | openwrt/openwrt/scripts/config/symbol.c:540-552 | the values of int symbols are the decimal integers without leading zeros |
| ConfLaws.HexadecimalsAreValid | openwrt/openwrt/scripts/config/symbol.c:553-561 | the values of hex symbols are hexadecimal digits, with or without 0x |
| ConfLaws.SettingsExactly | openwrt/openwrt/scripts/config/confdata.c:454-464 | the lines that set a symbol, and the text they set it to |
| ConfLaws.UnsetsExactly | openwrt/openwrt/scripts/config/confdata.c:425-433 | the comments that say that a symbol is not set |
| ConfLaws.LettersAreRead | openwrt/openwrt/scripts/config/confdata.c:238-260 | a bool or tristate symbol is set by the first letter, only a tristate one to m |
| ConfLaws.QuotesAreRead | openwrt/openwrt/scripts/config/confdata.c:261-280 | a string symbol is set to what stands between quotes; without an opening or a closing quote nothing is set |
| ConfLaws.NumbersAreRead | openwrt/openwrt/scripts/config/confdata.c:277-287 | an int or hex symbol is set to a valid number as it is spelled |
| ConfLaws.UnsetIsStored | openwrt/openwrt/scripts/config/confdata.c:425-453 | a comment that a known bool or tristate symbol is not set makes it n, whatever follows |
| ConfLaws.OthersAreIgnored | openwrt/openwrt/scripts/config/confdata.c:424-490 | lines about unknown symbols or symbols without type, and all other lines, have no effect |
| ConfRead.UnescapeInPlace | openwrt/openwrt/scripts/config/confdata.c:264-275 | shifting the buffer left over each backslash leaves the unescaped text, or finds no closing quote |
| ConfRead.Reader.ConfSetSymVal | openwrt/openwrt/scripts/config/confdata.c:234-293 | the value stored for a symbol, by its type |
| ConfRead.Reader.ReadOneLine | openwrt/openwrt/scripts/config/confdata.c:422-490 | one line, edited in its buffer, has the effect of the function |
| ConfRead.Reader.ReadFile | openwrt/openwrt/scripts/config/confdata.c:420-490 | after a reset, the effects of all lines in turn |
| ConfRead.GetLine | openwrt/openwrt/scripts/config/confdata.c:316-348 | the next line of the text, with its newline if it has one |
| ConfWrite.ConfWriteSymbol | openwrt/openwrt/scripts/config/confdata.c:716-734 | the line printed for a symbol, escaped for string symbols |
| ConfWrite.Writer.Climb | openwrt/openwrt/scripts/config/confdata.c:903-914 | going up from the end of a list announces the ends of the lists left, up to the next node or the root |
| ConfWrite.Writer.Walk | openwrt/openwrt/scripts/config/confdata.c:871-915 | the walk by pointers visits the tree in preorder, and the output is that of the visits |
| ConfWrite.Writer.Write | openwrt/openwrt/scripts/config/confdata.c:866-919 | the file is the heading and the items of the walk; the marks on symbols are removed |
| ConfWrite.Writer.PrintComment | openwrt/openwrt/scripts/config/confdata.c:616-634 | each line of the text becomes a comment line |
| ConfExample.ExampleText | openwrt/openwrt/scripts/config/confdata.c:866-919 | the file of a small menu tree, line by line: visible and invisible menus, a second entry of a symbol, a choice, an escaped string, empty lines after the end of a menu |
| ConfExample.HeadingFits | openwrt/openwrt/scripts/config/confdata.c:736-752 | the heading is cut to 255 characters |
| ConfFile.EnteredInPreorder | openwrt/openwrt/scripts/config/confdata.c:871-915 | the nodes visited are those of the tree in preorder |
| ConfFile.SettingsInPreorder | openwrt/openwrt/scripts/config/confdata.c:871-893 | the settings in the file are those of the symbols to be written, at their first node in preorder |
| ConfFile.FirstsAreAll | openwrt/openwrt/scripts/config/confdata.c:883-893 | every such symbol is among them |
| ConfFile.FirstsDiffer | openwrt/openwrt/scripts/config/confdata.c:883-893 | none of them twice |
| ConfFile.RoundTrip | openwrt/openwrt/scripts/config/confdata.c:420-490 | reading the file written restores exactly the values of the symbols written |
| ConfTrip.WriteAndRead | openwrt/openwrt/scripts/config/confdata.c:420-490 | conf_write followed by conf_read_simple on its output leaves exactly the values of the symbols written |
| ConfFile.CommentsThatCount | openwrt/openwrt/scripts/config/confdata.c:424-452 | a comment has no effect on any configuration if and only if it does not say that a known bool or tristate symbol is not set |
| ConfFile.MenuTextReadAsSetting | openwrt/openwrt/scripts/config/confdata.c:874-882 | a menu text that does say so changes the configuration read back |
| HashBytes.EncodingsMean | openwrt/openwrt/scripts/mkhash.c:98-134 | the four bytes of a word have its value and decode to it, in both byte orders |
| HashBytes.Be64Means | openwrt/openwrt/scripts/mkhash.c:110-117 | the eight bytes have the value of the number |
| HashBytes.ZeroCountIsSmallest | openwrt/openwrt/scripts/mkhash.c:577-595 | the zeros of the padding are the fewest that leave room for exactly the length |
| Sha256.FastFormsAreExact | openwrt/openwrt/scripts/mkhash.c:450-451 | the shortened forms of Ch and Maj are those of the standard |
| Sha256Laws.BigSigma0Bits | openwrt/openwrt/scripts/mkhash.c:484 | each bit is the exclusive or of the three bits that section 4.1.2 of FIPS 180-4 names |
| Sha256Laws.BigSigma1Bits | openwrt/openwrt/scripts/mkhash.c:485 | the same with its distances |
| Sha256Laws.SmallSigma0Bits | openwrt/openwrt/scripts/mkhash.c:486 | two such bits and one that is missing at the top |
| Sha256Laws.SmallSigma1Bits | openwrt/openwrt/scripts/mkhash.c:487 | the same with its distances |
| Sha256Laws.ChBits | openwrt/openwrt/scripts/mkhash.c:450 | each bit of the first word chooses between those of the other two |
| Sha256Laws.MajBits | openwrt/openwrt/scripts/mkhash.c:451 | each bit is the one that most of the three words have |
| Sha256Laws.ConstantIsRoot | openwrt/openwrt/scripts/mkhash.c:462-479 | constant t is the first 32 bits of the fraction of the cube root of the t-th prime |
| Sha256Laws.InitialIsRoots | openwrt/openwrt/scripts/mkhash.c:606-617 | the initial hash value is the same of the square roots of the first eight primes |
| Sha256Laws.NextHashValue | openwrt/openwrt/scripts/mkhash.c:560-562 | after each block the hash value is the sum of the one before and of the working variables that began with it |
| Sha256Example.DigestOfAbc | openwrt/openwrt/scripts/mkhash.c:458-675 | the digest of the message abc is the one published with the standard |
| Sha256.RndIsStep | openwrt/openwrt/scripts/mkhash.c:484-493 | the round macro computes one step of section 6.2.2 |
| Sha256.HoldsNext | openwrt/openwrt/scripts/mkhash.c:496-501 | not shifting the registers but rotating their places is the same step |
| Sha256.Rndr16 | openwrt/openwrt/scripts/mkhash.c:514-530 | sixteen steps on rotating places |
| Sha256.Msch16 | openwrt/openwrt/scripts/mkhash.c:504-549 | sixteen more words of the message schedule |
| Sha256.Transform | openwrt/openwrt/scripts/mkhash.c:458-563 | the state becomes that of section 6.2.2 of FIPS 180-4 after one more block, for every state and block |
| Sha256Stream.CountingIsExact | openwrt/openwrt/scripts/mkhash.c:628-634 | the bit count modulo 2^64 gives the number of buffered bytes, after any number of bytes |
| Sha256Stream.Context.Init | openwrt/openwrt/scripts/mkhash.c:602-618 | a context that has seen nothing |
| Sha256Stream.Context.Update | openwrt/openwrt/scripts/mkhash.c:621-658 | the context has seen the bytes before and the new ones: blocks hashed, the rest in the buffer |
| Sha256Stream.Context.Pad | openwrt/openwrt/scripts/mkhash.c:573-599 | the state is the fold over the message padded as in section 5.1.1 |
| Sha256Stream.Context.Final | openwrt/openwrt/scripts/mkhash.c:664-675 | the digest is that of all bytes seen, and the context is cleared |
| Sha256Stream.HashFile | openwrt/openwrt/scripts/mkhash.c:715-728 | however the file is cut into pieces, the digest is that of the whole |
| Sha256Stream.PaddingHoldsLength | openwrt/openwrt/scripts/mkhash.c:594-595 | the padding ends with the length in bits |
| Md5.StepIsNewValue | openwrt/openwrt/scripts/mkhash.c:160-163 | the step macro computes the operation of section 3.4 of RFC 1321 |
| Md5.RowF | openwrt/openwrt/scripts/mkhash.c:151-163 | four steps with the optimised F are a line of round 1 |
| Md5.RowG | openwrt/openwrt/scripts/mkhash.c:152-163 | the same for the optimised G and round 2 |
| Md5.RowH | openwrt/openwrt/scripts/mkhash.c:153-163 | the same for H and H2 in turn and round 3 |
| Md5.RowI | openwrt/openwrt/scripts/mkhash.c:155-163 | the same for round 4 |
| Md5.Round1 | openwrt/openwrt/scripts/mkhash.c:211-227 | the sixteen operations of round 1 |
| Md5.Round2 | openwrt/openwrt/scripts/mkhash.c:229-245 | those of round 2 |
| Md5.Round3 | openwrt/openwrt/scripts/mkhash.c:247-263 | those of round 3 |
| Md5.Round4 | openwrt/openwrt/scripts/mkhash.c:265-281 | those of round 4 |
| Md5.Body | openwrt/openwrt/scripts/mkhash.c:189-297 | the registers after any number of blocks, as in section 3.4 |
| Md5.FoldMore | openwrt/openwrt/scripts/mkhash.c:205-289 | blocks may be processed in several goes |
| Md5Example.NextRegisters | openwrt/openwrt/scripts/mkhash.c:205-289 | after each block the registers are the sum of those before and of what the operations make of them |
| Md5Example.DigestOfAbc | openwrt/openwrt/scripts/mkhash.c:150-396 | the digest of the message abc is the one of the test suite in RFC 1321 |
| Md5Stream.CountingIsExact | openwrt/openwrt/scripts/mkhash.c:316-321 | the split counter is the number of bytes modulo 2^61 after every call, for sizes of 2^29 and more too |
| Md5Stream.LengthBytes | openwrt/openwrt/scripts/mkhash.c:366-374 | the eight bytes written are the low 64 bits of the length in bits |
| Md5Stream.Context.Begin | openwrt/openwrt/scripts/mkhash.c:299-308 | a context that has seen nothing |
| Md5Stream.Context.Hash | openwrt/openwrt/scripts/mkhash.c:310-343 | the context has seen the bytes before and the new ones |
| Md5Stream.Context.Finish | openwrt/openwrt/scripts/mkhash.c:351-376 | the registers are the fold over the message padded as in sections 3.1 and 3.2 |
| Md5Stream.Context.End | openwrt/openwrt/scripts/mkhash.c:345-396 | the digest is that of all bytes seen, and the context is cleared |
| Md5Stream.HashFile | openwrt/openwrt/scripts/mkhash.c:700-713 | however the file is cut into pieces, the digest is that of the whole |
| Md5Stream.PaddingHoldsLength | openwrt/openwrt/scripts/mkhash.c:366-374 | the padding ends with the length in bits modulo 2^64 |

## Left out

Expressions:

- E_LIST, E_RANGE and E_NONE nodes do not occur inside dependencies and are not part of the model.
- NULL operands of the rewriters of single trees: they are the functions on `ExprPtr`; no method is modelled for them.
- expr_trans_compare with the constant m: no caller passes it.
- ExprDups.EliminateDupsKeepsValue: tests of a tristate symbol against a quoted constant that a tristate is spelled by, such as "2", are excluded, as the rule for two constants fails for pairs of them.
- strtoll, strtoull and the classification of strings as numbers are one parameter of the comparison; that single letters are not numbers is assumed.
- Printing of expressions and of reverse dependencies.

Symbols:

- Choice groups and choice values, range properties, and the values of int, hex and string symbols: string values are inputs of the evaluation, and `sym_calc_value` on such a symbol only marks it.
- SymbolTable.Table.ClearAllValid: the program then evaluates modules_sym; here the value of modules is fixed during an evaluation, so no symbol is valid.
- The fields `visible.tri` of properties and the flag SYMBOL_CHANGED, which nothing in the modelled part reads; SYMBOL_NO_WRITE.
- The choice branches of `sym_check_deps`, and all text that the report on a recursive dependency prints beside the symbols.
- MenuSymbols.ChangeSticksInMenus: symbols of which some definitions have a condition and others have none, for which it fails.
- MenuSymbols.FinalizedGuards: nodes that test a tristate symbol against such a constant, or stand below such a node, as it can fail there; so for FinalizedDecl and what follows from it.

Menus:

- MenuFinalize.MenuTree.MenuFinalize: the choice parts of `menu_finalize`, the reverse dependency it adds to choices, its warnings, and the stack of `visible if` conditions.
- Submenus.SubmenuTestIsExact: prompts whose own test holds although they are n, for which it fails as the undeclared symbol shows.

Macros:

- Adding, appending to and deleting variables; the list of environment variables written for dependency tracking.
- The built-in functions' effects outside (output, shell commands); their results are parameters, as are the conversion of a clause to a number and the environment.
- Preprocess.Preprocessor.EvalClause: after a store beyond the argument array nothing more is said of the program; the result is an error of its own.

Configuration files:

- Reading as S_DEF_AUTO, choice values, warnings and change counts; opening, renaming and comparing files.
- ConfRead.Reader.ReadFile: texts with NUL characters, and a last line that is a lone `#` without newline, for which the program compares bytes beyond the text.
- The values and the flag SYMBOL_WRITE that `sym_calc_value` computes during the walk, and the visibility of menus, are inputs of the writer.
- ConfFile.RoundTrip: strings with a newline, invalid numbers, bool symbols with the value m, and menu texts that read as settings are excluded, because for them it fails; so are names with blanks or equals signs, which the lexer does not deliver.
- The other printers (headers, defconfig, listnewconfig).

Hashes:

- A big-endian host and unaligned access; the conversion of digests to text and the command line.
- Sha256Stream.Context.Final: messages of 2^61 bytes and more, for which FIPS 180-4 defines no digest. `Update` is stated for all lengths.
- That the constants of MD5 are parts of sines: the table is the one printed in RFC 1321, and the digest of abc fixes each entry of it.

User interfaces, generated parsers, memory release and allocation failure are not part of the model. Calls of `free` appear as dropped references.
