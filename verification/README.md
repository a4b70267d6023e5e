# Verified models of OpenWrt and LuCI components

Dafny models of the imperative core of two build and runtime components, with proofs of what
they are for.

## What is modelled

**The Kconfig engine** (`openwrt/scripts/config`).  Values are n < m < y; a symbol is identified by
its constructor, an environment gives every configuration symbol a value and a text.

- `Expr.dfy` (KExpr): symbols, expression trees, the evaluator.
- `ExprEq.dfy` (KEliminateEq), `ExprDups.dfy` (KDups), `ExprTransform.dfy` (KTransform), `ExprImplies.dfy` (KImplies):
  the simplifiers as functions on trees, and what they preserve.
- `ExprHeap.dfy` (KExprHeap), `DupsHeap.dfy` (KDupsHeap): the same simplifiers in place on linked
  nodes, with the aliased slots of the source, each proved equal to its function.
- `SymbolCalc.dfy` (KSymbol): the lazily cached evaluator, over acyclic dependencies against its uncached
  recursive definition, and setting a value.  `Choice.dfy` (KChoice): one choice and its members.
  `SymbolCheck.dfy` (KCheck): the flag-based search for recursive dependencies.
- `Menu.dfy` (KMenu), `MenuHeap.dfy` (KMenuHeap): the restructuring of the menu tree, as values and on
  first-child/next-sibling/parent links.  `MenuWalk.dfy` (KMenuWalk): the walk without a stack.
- `Confdata.dfy` (KConfdata): the configuration file, written and read back.

**Hashing** (`openwrt/scripts/mkhash.c`).  `Bytes.dfy`: buffers and folding over blocks.  `Sha256.dfy`: the block
function in place, and `Sha256Constants.dfy` where its constants come from.  `Sha256Stream.dfy`,
`Md5Stream.dfy`: hashing piece by piece.

**Smaller components.**  `Cidr.dfy`: address arithmetic.  `TemplateUtf8.dfy`: UTF-8 and XML sanitising.
`Lmo.dfy`, `LmoKey.dfy`: translation archives and their keys.  `Crc32.dfy`, `NixioTable.dfy`: table-driven CRC-32.

Conventions.  A NULL expression is `None` and means y.  An assignment is well typed when booleans are n or
y, symbols that are neither boolean nor tristate are n, and the text of a boolean or tristate symbol
names its value; distinct constants have distinct names.
`strtoll`, `strtoull` and `sprintf` are parameters (`Env.number`, `Numbers`), as is the order in which `qsort`
leaves equal keys.  Bitwise tests of leading bits are written as quotients where that is the same;
`BitAnd` and `BitOr` in `Cidr.dfy` are bitwise.  Sizes are unbounded where the source's 32-bit sizes
cannot overflow for inputs that fit in memory; counters that wrap are written with their modulus.
`size_t` has 64 bits and hosts are little-endian.

## Findings

Properties one might expect of the code and that do not hold, each with the exact condition in the model:

- A value accepted by sym_set_tristate_value need not be what sym_calc_value then yields: setting a symbol
  visible as m whose default makes it y to y lowers it to m, and because the value did not change the
  cached y survives (`KSymbol.ReadBack`, `KSymbol.SetCanLowerAValue`).
- The outermost sym_check_deps always returns NULL, cycle or not (`KCheck.Checker.CheckDeps`).  The check
  follows neither the bounds of a range nor dir_dep (`KCheck.RangeBoundsEscape`, `KCheck.DirDepEscapes`), so a
  clean check means that the values are well defined exactly when none of these leads back
  (`KCheck.CleanCheckIsAcyclic`).  Evaluation ends all the same (`KSymbol.Kconfig.CalcValue`).
- The implication test of menu_finalize does not accept a lone condition against itself
  (`KImplies.SelfImplication`).  The test `!= n` is wrong about a negated symbol that is m and about a plain
  symbol that is undefined, a string or a number (`KImplies.NegatedSymbolTestExact`,
  `KImplies.PlainSymbolTestExact`), so an entry can be put under one that is not shown while it is
  (`KImplies.ShownWithoutBase`, `KImplies.ShownBelowUndefined`); exactly when that can happen is
  `KImplies.ImpliesBaseVisibleExact` and `KImplies.ImpliesBaseHiddenExact`.
- expr_trans_bool lowers a value where a symbol tested with `!= n` is m (`KTransform.TransBoolChangesValues`,
  `KTransform.TransBoolTestExact`, `KTransform.TransBoolKeepsValue`).
- A legal UTF-8 sequence followed by a stray continuation byte is replaced as a whole
  (`TemplateUtf8.CopiedExactly`); utf8 and pcdata differ on NUL (`TemplateUtf8.EscapedIsSanitized`); dropping the
  control bytes first joins what they separate (`TemplateUtf8.StrippingFirstAgrees`).
- A search in an archive without entries reads outside the file (`Lmo.FindEntry`, `Lmo.SearchEmpty`), and keys
  are stored under the hash of the raw text but looked up under that of its canonical form
  (`Lmo.StoredKeyAnswered`).

## Model

| member | source | states |
|---|---|---|
| KExpr.EvalIsFold | openwrt/scripts/config/expr.c:925-944 | The value of a tree is the value of its chain of AND (or OR) operands taken left to right, so nesting does not matter. |
| KExpr.FoldExtract | openwrt/scripts/config/expr.c:925-939 | Any one operand can be taken out of a chain and replaced by the neutral symbol without changing the value of the whole. |
| KExpr.EqualTriConst | openwrt/scripts/config/expr.c:952-988 | Under a well-typed assignment `s = c` and `s != c` for c one of y, m, n test exactly the tristate value of s, although the code compares texts. |
| KExpr.OperatorsMean | openwrt/scripts/config/expr.c:917-951 | AND is the smaller and OR the larger of the two values, NOT is 2 minus the value; n, m and y are 0, 1 and 2, and NULL is y. |
| KExpr.NumbersCompared | openwrt/scripts/config/expr.c:952-995 | When both operands read as numbers, all six comparisons are those of the numbers, of their unsigned 64-bit values if one operand is hexadecimal. |
| KExpr.TextsCompared | openwrt/scripts/config/expr.c:952-995 | When an operand is boolean, tristate or no number, or both are strings, the six comparisons are those of the texts: the smaller one is a proper prefix of the other or has the smaller character where they first differ. |
| KExpr.OthersUnordered | openwrt/scripts/config/expr.c:965-971 | An S_OTHER operand against a number is only told apart by text; all four order comparisons are n. |
| KEliminateEq.EliminateYnPreservesValue | openwrt/scripts/config/expr.c:246-327 | Removing y and n operands keeps the value under every assignment. |
| KEliminateEq.EliminateYnShrinks | openwrt/scripts/config/expr.c:246-327 | It shrinks the tree exactly when a y or n operand is there, changes nothing otherwise, and leaves none behind. |
| KEliminateEq.PairsFactor | openwrt/scripts/config/expr.c:141-173 | The cancelling pass takes one common term out of both trees: each input is the operator applied to what is left and that term, under every assignment. |
| KEliminateEq.PairsOnlyCancel | openwrt/scripts/config/expr.c:141-173 | Operands keep their places; each either stays or becomes the neutral symbol. |
| KEliminateEq.PairsExhaustive | openwrt/scripts/config/expr.c:141-173 | After the pass no operand left in one tree equals an operand left in the other, except constants that were there before. |
| KEliminateEq.EliminateEqIsOnePass | openwrt/scripts/config/expr.c:175-195 | Of the two passes (one by each root operator) at most one takes anything out. |
| KEliminateEq.EliminateEqFactors | openwrt/scripts/config/expr.c:175-195 | There are one operator and one common term with which both inputs are recovered from what expr_eliminate_eq leaves. |
| KEliminateEq.EliminateEqImplies | openwrt/scripts/config/menu.c:355-360 | If what is left of the base condition is y, the dependency is at most the base condition under every assignment. |
| KEliminateEq.ExprEqSound | openwrt/scripts/config/expr.c:200-244 | Trees that expr_eq calls equal have equal values under every assignment; the recursion through expr_eliminate_eq ends. |
| KEliminateEq.ExprEqReflexive | openwrt/scripts/config/expr.c:200-244 | expr_eq recognises every tree as equal to its copy. |
| KEliminateEq.CancelsItsCopy | openwrt/scripts/config/expr.c:141-173 | Cancelling a chain against a chain that contains it cancels exactly its own copy, left to right. |
| KDups.JoinSound | openwrt/scripts/config/expr.c:361-517 | Whatever expr_join_or or expr_join_and returns has the value of the two operands under the operator, for every well-typed assignment. |
| KDups.JoinTestsExactly | openwrt/scripts/config/expr.c:361-517 | Which pairs of = and != tests of one symbol are joined: a repetition always; of a tristate symbol, under AND a required and an excluded constant or two excluded values, under OR two required values. |
| KDups.JoinPlainExactly | openwrt/scripts/config/expr.c:361-517 | A plain boolean or tristate symbol is joined under AND exactly with a test for y or against n or m, on either side; under OR exactly a boolean one with its negation. |
| KDups.OnlyTestsAreJoined | openwrt/scripts/config/expr.c:361-517 | Apart from what expr_eq calls equal, only tests of the same boolean or tristate symbol are joined. |
| KDups.PassPreservesValue | openwrt/scripts/config/expr.c:519-569 | One pass over all pairs of operand positions keeps the value under every well-typed assignment. |
| KDups.PassCountsJoins | openwrt/scripts/config/expr.c:519-569 | trans_count stays at zero exactly when no two operands anywhere on a spine can be joined, and then the tree is untouched. |
| KDups.PassThenYnShrinks | openwrt/scripts/config/expr.c:577-589 | A pass that joined something leaves a neutral operand whose removal makes the tree strictly smaller: the loop ends. |
| KDups.EliminateDupsPreservesValue | openwrt/scripts/config/expr.c:571-592 | expr_eliminate_dups keeps the value under every well-typed assignment. |
| KDups.EliminateDupsSettles | openwrt/scripts/config/expr.c:571-592 | On exit no two operand positions can be joined, at any level, and the tree is no larger. |
| KDups.EliminateDupsFixpoints | openwrt/scripts/config/expr.c:571-592 | It changes a tree exactly when there is something to join, and running it twice is running it once. |
| KTransform.TransformIsNormal | openwrt/scripts/config/expr.c:594-749 | The result has NOT only over non-constant symbols and no comparison of a boolean symbol with y, m or n by = or !=. |
| KTransform.TransformFixpoints | openwrt/scripts/config/expr.c:594-749 | expr_transform changes exactly the trees that are not in that form and is idempotent; its recursion falls by a weight although De Morgan steps enlarge the tree. |
| KTransform.NegatedComparison | openwrt/scripts/config/expr.c:669-693 | Flipping a comparison under NOT is right if and only if it is = or != or the operands can be ordered. |
| KTransform.TransformPreservesValue | openwrt/scripts/config/expr.c:594-749 | expr_transform keeps the value under every well-typed assignment; only an order comparison under an odd number of negations must have operands that are not S_OTHER. |
| KTransform.NegatedTwice | openwrt/scripts/config/expr.c:612-722 | Negating a normal form twice gives it back. |
| KTransform.TransBoolKeepsVisibility | openwrt/scripts/config/expr.c:332-356 | On trees that negate only symbols, expr_trans_bool keeps "is not n" and never raises a value. |
| KTransform.TransBoolChangesValues | openwrt/scripts/config/expr.c:332-356 | It does not keep the value itself, and over a negated comparison not even "is not n": concrete inputs. |
| KTransform.TransBoolTestExact | openwrt/scripts/config/expr.c:332-356 | A single test `s != n` is replaced by a symbol of the same value if and only if s is not m. |
| KTransform.TransBoolKeepsValue | openwrt/scripts/config/expr.c:332-356 | Any tree keeps its value when no symbol it tests with `!= n` is m. |
| KTransform.EliminateDupsNegatesSymbols | openwrt/scripts/config/expr.c:361-592 | Duplicate elimination introduces no negation over anything but a symbol, so expr_trans_bool may follow it. |
| KTransform.PropagatedDepSound | openwrt/scripts/config/menu.c:314-331 | A propagated condition has the value of inherited AND own condition; for non-tristate symbols it keeps whether that is n. |
| KImplies.TransCompareMeaning | openwrt/scripts/config/expr.c:808-872 | For every expression and well-typed assignment, expr_trans_compare with n (y) tests the expression in which a plain boolean or tristate symbol that is m is read as y (n), and any other plain symbol as the test of its text against "n" ("y"). |
| KImplies.NotNoTestExact | openwrt/scripts/config/expr.c:839-840 | `e != n` as built is right about e if and only if reading plain symbols like that does not change whether e is n; when all of them are boolean or tristate, negations of operands that are never m suffice. |
| KImplies.PlainSymbolTestExact | openwrt/scripts/config/expr.c:863-864 | Of a plain symbol it is right if and only if the symbol is boolean, tristate or y, m, n, or its text is "n". |
| KImplies.NegatedSymbolTestExact | openwrt/scripts/config/expr.c:839-840 | Under a single negation it is right if and only if a symbol with a tristate value is not m, and any other has the text "n". |
| KImplies.ImpliesBaseSound | openwrt/scripts/config/menu.c:342-361 | When the implication test accepts, no well-typed assignment meets the entry condition without meeting the base condition, both with their plain symbols read as the tests read them. |
| KImplies.ImpliesBaseVisible | openwrt/scripts/config/menu.c:342-361 | By the values expr_calc_value computes, an accepted entry is not shown without its base condition, provided the `!= n` test built for the entry does not deny it when it is met and the one built for the base does not claim it when it is not. |
| KImplies.ImpliesBaseVisibleExact | openwrt/scripts/config/menu.c:342-361 | The first proviso is exact: for an entry accepted against itself, no accepted base without plain undefined, string or number symbols is n while the entry is met if and only if its test does not deny it. |
| KImplies.ImpliesBaseHiddenExact | openwrt/scripts/config/menu.c:342-361 | So is the second: for a base accepted against itself, no accepted entry that negates only booleans is met while the base is n if and only if the base's test does not claim it. |
| KImplies.TestsAreRight | openwrt/scripts/config/expr.c:839-864 | What is enough to see the provisos without values: the entry negates boolean symbols only; no undefined, string or number symbol stands plain and not negated in the base. |
| KImplies.SelfImplication | openwrt/scripts/config/menu.c:355-360 | Exactly when the test accepts a condition against itself: y, an AND without n, an OR with y; every other condition is refused. |
| KImplies.DependsSound | openwrt/scripts/config/expr.c:779-806 | A condition found to depend on a symbol is not n only when the text of the symbol is not "n" or its value is not n, whatever the condition negates; for a boolean or tristate symbol, only when its value is not n. |
| KImplies.DependsOnText | openwrt/scripts/config/expr.c:796-800 | For a string symbol S only the text counts: `S != n` is y while the value of S is n. |
| KImplies.DependsExactly | openwrt/scripts/config/expr.c:779-806 | A condition depends on a symbol directly if and only if the symbol itself, or that it is y or m, or that it is not n, is one of the conditions joined by AND. |
| KImplies.MentionsExactly | openwrt/scripts/config/expr.c:751-777 | A condition contains a symbol if and only if a plain symbol or a comparison of any kind in it names the symbol. |
| KImplies.BelongsUnderExactly | openwrt/scripts/config/menu.c:346-361 | An entry that depends on the symbol directly belongs under it whatever the base condition, and so does one that names it and passes the implication test; one that does not name it never does. |
| KImplies.BelongsUnderSound | openwrt/scripts/config/menu.c:346-365 | An entry taken in below a symbol is shown only when the symbol is set (by its text, if it has no tristate value) or its own base condition is met, under the two provisos; they hold when the entry negates boolean symbols only and every plain symbol of the base that is not negated has a tristate value. |
| KImplies.ShownWithoutBase | openwrt/scripts/config/menu.c:346-365 | Without the first proviso it fails: `A && !T && X != y` is taken in by X under `A && T = n`; at T = m, A = y, X = n it is m while the base condition and X are n. |
| KImplies.ShownBelowUndefined | openwrt/scripts/config/menu.c:346-365 | And without the second: for an undefined U, `A && U != n && X != y` is taken in by X under `A && U`; at A = y, X = n it is y while the base condition and X are n. |
| KExprHeap.EliminateYnInPlace | openwrt/scripts/config/expr.c:246-327 | In place, on linked nodes, the result is EliminateYn of the tree that was there. |
| KExprHeap.EliminatePairsInPlace | openwrt/scripts/config/expr.c:141-173 | In place on two disjoint trees, through the slots the code writes, the result is EliminatePairs of both. |
| KExprHeap.EliminateEqInPlace | openwrt/scripts/config/expr.c:175-195 | In place, the result is EliminateEq of both trees. |
| KExprHeap.TransBoolInPlace | openwrt/scripts/config/expr.c:332-356 | In place, the result is TransBool of the tree. |
| KExprHeap.TransformInPlace | openwrt/scripts/config/expr.c:594-749 | In place, with nodes reused and added, the result is Transform of the tree. |
| KDupsHeap.DupsInPlace | openwrt/scripts/config/expr.c:519-569 | expr_eliminate_dups1 with both slots in the same tree computes the pairwise pass over operand positions; the pointer test for equality is a test for the same position. |
| KDupsHeap.PassInPlace | openwrt/scripts/config/expr.c:582 | Called on one tree twice, it computes DupsPass and its count. |
| KDupsHeap.EliminateDupsInPlace | openwrt/scripts/config/expr.c:571-592 | The loop in place ends with EliminateDups of the tree. |
| KSymbol.FirstMet | openwrt/scripts/config/symbol.c:115-137 | The property returned is the first whose condition is not n, and none before it is met. |
| KSymbol.ValueLimits | openwrt/scripts/config/symbol.c:373-410 | Selects raise a value unless made against the dependencies; a user value is capped by visibility and selects; without visibility, select and default the value is n. |
| KSymbol.VisibilityExactly | openwrt/scripts/config/symbol.c:209-261 | A symbol is visible if and only if some prompt condition is not n, and as y if and only if one is y or m is no value for it; dir_dep and rev_dep by the values of their expressions. |
| KSymbol.SelectExactly | openwrt/scripts/config/symbol.c:252-258 | A select raises a symbol to at least the value of what selects it unless its own dependencies are n, and makes it n if they are; without met prompts and defaults the symbol is n if and only if nothing selects it. |
| KSymbol.ValueExactly | openwrt/scripts/config/symbol.c:373-410 | The whole value of a boolean or tristate symbol by the user value, the visibility, the first default whose condition is not n, selects and dependencies, in plain arithmetic. |
| KSymbol.TextExactly | openwrt/scripts/config/symbol.c:411-435 | The text of a string, integer or hexadecimal symbol: of the user if visible, else of the symbol the first met default names, else empty. |
| KSymbol.RangeExactly | openwrt/scripts/config/symbol.c:139-187 | With a met range a number below it becomes the lower bound, one above the upper, one inside keeps its text; integers in base 10, hexadecimal numbers in base 16, bounds by their own kinds. |
| KSymbol.WrittenExactly | openwrt/scripts/config/symbol.c:373-435 | When SYMBOL_WRITE is set, by visibility, selects and defaults. |
| KSymbol.ReadsCalculated | openwrt/scripts/config/expr.c:924-930 | Symbols that are read have the values and texts calculated for them. |
| KSymbol.ClampedIsInRange | openwrt/scripts/config/symbol.c:139-187 | A number outside its range becomes a number inside it, below the range the lower bound; a number inside is kept as it was written. |
| KSymbol.EnvIsWellTyped | openwrt/scripts/config/symbol.c:327-466 | Every environment the evaluator produces is well typed: booleans are never m, texts agree with values. |
| KSymbol.Kconfig.CalcExpr | openwrt/scripts/config/expr.c:917-995 | Evaluating an expression ends, calculates the symbols it needs and leaves valid symbols untouched; if dependencies do not go in circles it returns the uncached value. |
| KSymbol.Kconfig.CalcVisibility | openwrt/scripts/config/symbol.c:209-261 | visible, dir_dep.tri and rev_dep.tri become their uncached values, if dependencies do not go in circles. |
| KSymbol.Kconfig.ValidateRange | openwrt/scripts/config/symbol.c:139-187 | curr.val is replaced by the violated bound and otherwise kept. |
| KSymbol.Kconfig.CalcValue | openwrt/scripts/config/symbol.c:327-466 | sym_calc_value ends for all declarations, circular or not, because the number of symbols without SYMBOL_VALID falls; the symbol is valid afterwards and the ones valid before are untouched; if dependencies do not go in circles, every valid symbol holds its uncached recursive definition. |
| KSymbol.Kconfig.CalcTri | openwrt/scripts/config/symbol.c:373-410 | The boolean and tristate branch: user value capped by visibility or default, raised by selects, n against dependencies, m promoted. |
| KSymbol.Kconfig.CalcText | openwrt/scripts/config/symbol.c:411-435 | The string, int and hex branch: user value if visible, else the default symbol's value. |
| KSymbol.Kconfig.ClearAllValid | openwrt/scripts/config/symbol.c:468-477 | Nothing is valid afterwards; user values and current values stay. |
| KSymbol.Kconfig.CalcAll | openwrt/scripts/config/symbol.c:327-477 | Whatever was cached, in whatever order values are asked for, each is its uncached value, if dependencies do not go in circles. |
| KSymbol.CalcSame | openwrt/scripts/config/symbol.c:468-477 | Changing one symbol's user value changes no symbol of no higher rank, and none at all if the symbol's own value stays. |
| KSymbol.Kconfig.SetTristateValue | openwrt/scripts/config/symbol.c:479-532 | Accepts exactly the value the symbol has or one within range, by its fields as they are, calculated or not; refusing changes nothing; the cache is dropped if and only if the value differs from the old one; without circular dependencies what stays cached is right if and only if no cached value changes, for a valid symbol if and only if the value can be read back. |
| KSymbol.ReadBack | openwrt/scripts/config/symbol.c:479-532 | An accepted value is what recomputation yields if and only if the symbol is invisible, or the value is at most visibility or selects and not raised against the dependencies. |
| KSymbol.SetSame | openwrt/scripts/config/symbol.c:498-532 | Setting the value a symbol has, when it can be read back, changes no value of any symbol. |
| KSymbol.SetCanLowerAValue | openwrt/scripts/config/symbol.c:498-532 | A concrete symbol visible as m with default y accepts y, and is m after recomputation. |
| KSymbol.SettableExactly | openwrt/scripts/config/symbol.c:479-497 | Of a visible symbol whose selects are weaker than its visibility, exactly the values from the one to the other are accepted, m only for a tristate with modules on; stated over prompts and rev_dep. |
| KChoice.MemberVisibleCrisp | openwrt/scripts/config/symbol.c:217-233 | Under a choice that is y no member is visible as m. |
| KChoice.PickSound | openwrt/scripts/config/symbol.c:263-325 | A choice picks a visible member, and none exactly when none is visible. |
| KChoice.PickExactly | openwrt/scripts/config/symbol.c:269-325 | A visible member that the user chose is picked, or else the member of the first default whose condition is not n and whose member is visible, or else the first visible member. |
| KChoice.MemberVisibleExactly | openwrt/scripts/config/symbol.c:209-234 | A member is visible if some prompt condition is not n, but a tristate member below a choice that is y only if one is y. |
| KChoice.MemberValueExactly | openwrt/scripts/config/symbol.c:373-410 | A member visible as y is y if and only if picked; any other has the value of its user or of its first met default, capped by visibility and promoted. |
| KChoice.Choice.OwnTriExactly | openwrt/scripts/config/symbol.c:373-410 | The value of the choice in full: of its user, capped by its prompts, raised by selects, n against its dependencies, promoted; the defaults of a choice give it no value. |
| KChoice.Choice.CalcChoice | openwrt/scripts/config/symbol.c:297-325 | Visibilities are calculated; the member returned is the visible pick of the user, or of the first met default with a visible member, or the first visible one; the user flag stays only while every visible member has one. |
| KChoice.Choice.CalcValue | openwrt/scripts/config/symbol.c:327-466 | The choice's value and pick are those its own visibility, user value and selects give. |
| KChoice.Choice.CalcMember | openwrt/scripts/config/symbol.c:373-379 | A member's value becomes that of the choice's pick when visible as y, else its own value. |
| KChoice.Choice.ReadyIsExclusive | openwrt/scripts/config/symbol.c:376-379 | When the choice is y and all members are valid, exactly one visible member is y: the picked one. |
| KChoice.Choice.CalcMembersIn | openwrt/scripts/config/symbol.c:295-438 | The same for any cache state and any order of evaluation. |
| KChoice.Choice.SetMember | openwrt/scripts/config/symbol.c:498-532 | Setting a visible member to y marks it the user's pick, flags the choice and every visible member, and leaves no wrong cached value. |
| KChoice.Choice.PickMember | openwrt/scripts/config/symbol.c:498-532 | After that, recomputation in any order makes it the one visible member that is y. |
| KCheck.Checker.CheckDeps | openwrt/scripts/config/symbol.c:1266-1298 | Flags and stack are as before, the symbol is finished or its recursion reported, and a symbol returned is one still being checked: the outermost call always returns NULL, contrary to the comment at line 1194. |
| KCheck.Checker.SymbolOnCycle | openwrt/scripts/config/symbol.c:1271-1274 | A symbol met with SYMBOL_CHECK set depends on itself. |
| KCheck.Checker.CheckExpr | openwrt/scripts/config/symbol.c:1160-1192 | Unless something is reported, every symbol the expression mentions is finished. |
| KCheck.Checker.CheckSymDeps | openwrt/scripts/config/symbol.c:1195-1227 | Unless something is reported, everything the symbol's followed properties mention is finished; the stack is restored on early aborts too. |
| KCheck.Checker.CheckAll | openwrt/scripts/config/symbol.c:1266-1298 | Over all symbols: at the end no SYMBOL_CHECK flag is set and the stack is empty; something is reported if and only if the followed dependencies have a cycle, and only symbols on one. |
| KCheck.CycleHasNoRank | openwrt/scripts/config/symbol.c:1195-1227 | Dependencies with a cycle cannot be ranked, so the two sides of that equivalence exclude each other. |
| KCheck.ReadIsFollowedOrNot | openwrt/scripts/config/symbol.c:1207-1220 | What the evaluator reads of a symbol is exactly what the check follows, the bounds of ranges and dir_dep. |
| KCheck.AcyclicExactly | openwrt/scripts/config/symbol.c:327-466 | The recursive definition of the values is well founded if and only if no symbol leads back to itself through what the check follows, range bounds and dir_dep. |
| KCheck.CleanCheckIsAcyclic | openwrt/scripts/config/symbol.c:1195-1227 | After a check that reports nothing that definition is well founded if and only if no range bound and no symbol of dir_dep leads back to the symbol that reads it. |
| KCheck.RangeBoundsEscape | openwrt/scripts/config/symbol.c:1207-1220 | A symbol whose range starts at its own value passes the check though its value depends on itself. |
| KCheck.DirDepEscapes | openwrt/scripts/config/menu.c:373 | So does a symbol without properties whose dir_dep mentions itself. |
| KMenu.FinalizeKeepsOrder | openwrt/scripts/config/menu.c:282-425 | Absorbing siblings and hoisting children keeps every entry and the preorder of entries. |
| KMenu.ChildNeedsParent | openwrt/scripts/config/menu.c:307-331 | What an entry is shown under after propagation is not n if and only if the parent condition, its own dependency and its own prompt condition are all not n. |
| KMenu.FinalizeHandsDown | openwrt/scripts/config/menu.c:306-341 | Every entry has, in preorder, exactly the conditions that were handed down along the declared tree, wherever it ends up. |
| KMenu.FinalizeInherits | openwrt/scripts/config/menu.c:306-331 | After menu_finalize every entry declared below, at any depth, is shown if and only if its own conditions are met and what its declared parent hands down is not n: the choice symbol of a choice, else the condition of its prompt, else its dependency; dependencies and prompts of tristates keep their exact values. |
| KMenu.FinalizeTidies | openwrt/scripts/config/menu.c:415-424 | Afterwards no entry without a caption has children, at any depth. |
| KMenu.FinalizeTakesWhatBelongs | openwrt/scripts/config/menu.c:341-371 | An entry with a symbol and no children takes in the next sibling if and only if that one belongs, and leaves the first that does not; the conditions compared are written out. |
| KMenu.FinalizeKeepsBelow | openwrt/scripts/config/menu.c:282-425 | An entry with a caption keeps exactly the entries declared below it, at every depth, in order; only an entry that has a symbol and nothing below gets some. |
| KMenu.AbsorbTakesWhatBelongs | openwrt/scripts/config/menu.c:346-365 | Siblings are taken in as long as they belong, and the first one left does not. |
| KMenuHeap.PropagateAll | openwrt/scripts/config/menu.c:307-331 | Every child's condition and prompt condition become the propagated ones; nothing else changes. |
| KMenuHeap.HoistAll | openwrt/scripts/config/menu.c:373-425 | The hoisting loop on linked entries: links and parents stay consistent and the row is Hoist of the row. |
| KMenuHeap.TakeIn | openwrt/scripts/config/menu.c:346-371 | The absorbing loop on linked entries: absorbed siblings get the new parent, are cut out of the row, and are what Absorb says. |
| KMenuHeap.MenuFinalize | openwrt/scripts/config/menu.c:282-425 | menu_finalize on linked entries: links and parents are consistent, the preorder of the very same nodes is unchanged, and the arrangement is Finalize of what was there. |
| KMenuWalk.Walk | openwrt/scripts/config/confdata.c:793-826 | The walk by list, next and parent visits every descendant of the root exactly once, in preorder, and ends. |
| KMenuWalk.FinalizeRoot | openwrt/scripts/config/menu.c:282-425 | menu_finalize of the whole linked tree: the same entries in the same preorder, each shown exactly with its declared parent and its own conditions. |
| KMenuWalk.FinalizeThenWalk | openwrt/scripts/config/confdata.c:793-826 | Finalizing the tree and then walking it visits the entries in their original preorder. |
| Sha256.FastIsExact | openwrt/scripts/mkhash.c:442-443 | The optimised Ch and Maj are those of section 4.1.2 of FIPS 180-4. |
| Sha256.DecodedBlockWord | openwrt/scripts/mkhash.c:111-126 | Decoding four bytes by halves gives the big-endian word. |
| Sha256.PlusCounts | openwrt/scripts/mkhash.c:482-485 | The sum of words counts up from one operand as often as the other says, wrapping at 2^32. |
| Sha256.BigSigmaBits | openwrt/scripts/mkhash.c:475-476 | Each bit of S0 and S1 is the sum modulo 2 of the three bits that section 4.1.2 of FIPS 180-4 rotates to its place. |
| Sha256.SmallSigmaBits | openwrt/scripts/mkhash.c:477-478 | The same for s0 and s1, with zeros shifted in. |
| Sha256.MixedIsRound | openwrt/scripts/mkhash.c:482-485 | The three assignments of the round macro are the round of section 6.2.2. |
| Sha256.Rotated | openwrt/scripts/mkhash.c:488-493 | Storing into the rotated places d and h is renaming all eight variables for the next round. |
| Sha256.RoundAt | openwrt/scripts/mkhash.c:482-493 | One rotated round advances the standard's rounds by one. |
| Sha256.Mix | openwrt/scripts/mkhash.c:507-522 | Sixteen rotated rounds advance by sixteen and bring every variable back to its place. |
| Sha256.ScheduleGroup | openwrt/scripts/mkhash.c:496-541 | Sixteen schedule steps complete the next sixteen words of the standard's schedule. |
| Sha256.Transform | openwrt/scripts/mkhash.c:450-555 | SHA256_Transform in place computes the hash value of section 6.2.2 for every state and block. |
| Sha256Constants.RoundConstantsAreCubeRoots | openwrt/scripts/mkhash.c:452-470 | Each of the 64 round constants is the first 32 bits of the fractional part of the cube root of a prime, in order (section 4.2.2 of FIPS 180-4). |
| Sha256Constants.InitialIsSquareRoots | openwrt/scripts/mkhash.c:593-611 | The initial hash value is the first 32 bits of the fractional parts of the square roots of the first eight primes (section 5.3.3). |
| Sha256Stream.PaddingFillsBlocks | openwrt/scripts/mkhash.c:564-591 | Message and padding fill whole blocks. |
| Sha256Stream.PaddingIsShortest | openwrt/scripts/mkhash.c:564-591 | With no fewer zero bytes (section 5.1.1 of FIPS 180-4). |
| Sha256Stream.PaddingBytes | openwrt/scripts/mkhash.c:564-591 | The padding is 0x80, zero bytes, and the number of bits modulo 2^64, most significant byte first. |
| Sha256Stream.Be64Decodes | openwrt/scripts/mkhash.c:91-109 | The length field can be read back as a big-endian number. |
| Sha256Stream.Be32Decodes | openwrt/scripts/mkhash.c:91-126 | Encoding a word and decoding it again gives it back. |
| Sha256Stream.Context.Update | openwrt/scripts/mkhash.c:613-650 | The context after m becomes the context after m and the new bytes, whatever was buffered; count is 8 times the bytes modulo 2^64. |
| Sha256Stream.Context.Pad | openwrt/scripts/mkhash.c:564-591 | The state becomes the hash of the whole message padded at once. |
| Sha256Stream.Context.Final | openwrt/scripts/mkhash.c:652-667 | The digest is the encoded hash of the message, and the context is cleared. |
| Sha256Stream.HashPieces | openwrt/scripts/mkhash.c:593-667 | For every split into pieces the digest is that of the joined message. |
| Md5Stream.CounterCounts | openwrt/scripts/mkhash.c:308-310 | hi and lo keep counting the bytes modulo 2^61, carry included. |
| Md5Stream.LengthFieldIsBits | openwrt/scripts/mkhash.c:358-366 | The stored length field is 8 times the bytes modulo 2^64, least significant byte first (section 3.2 of RFC 1321). |
| Md5Stream.PaddingBytes | openwrt/scripts/mkhash.c:337-368 | The padding is 0x80, zero bytes, and the number of bits modulo 2^64, least significant byte first. |
| Md5Stream.Context.Body | openwrt/scripts/mkhash.c:181-289 | The loop over blocks folds the block function over them. |
| Md5Stream.Context.Hash | openwrt/scripts/mkhash.c:302-335 | The context after m becomes the context after m and the new bytes. |
| Md5Stream.Context.End | openwrt/scripts/mkhash.c:337-368 | The words become those of the whole message padded at once. |
| Md5Stream.HashPieces | openwrt/scripts/mkhash.c:291-368 | For every block function and every split into pieces the result is that of the joined message. |
| KConfdata.Escape | openwrt/scripts/config/symbol.c:920-961 | The quoted text is the escaped string and the computed buffer length is exact. |
| KConfdata.EscapeRoundTrip | openwrt/scripts/config/confdata.c:161-175 | Unescaping an escaped string gives it back, whatever follows the closing quote. |
| KConfdata.UnescapeInPlace | openwrt/scripts/config/confdata.c:161-175 | The in-place loop leaves the unescaped text with a terminator, or finds no closing quote; it stays at or before the terminator the text had, even when a backslash comes last. |
| KConfdata.UnescapedExactly | openwrt/scripts/config/confdata.c:161-175 | A string is closed if and only if it has a quote before which the number of backslashes is even. |
| KConfdata.QuotedRefusedExactly | openwrt/scripts/config/confdata.c:158-175 | A quoted value is refused if and only if it has no such quote, whatever it ends in. |
| KConfdata.StringValid | openwrt/scripts/config/symbol.c:557-598 | The character loop accepts exactly decimal numbers without leading zeros, hexadecimal digits with or without 0x, and any string. |
| KConfdata.ValidIntExactly | openwrt/scripts/config/symbol.c:564-576 | A text is a valid integer if and only if it is the decimal form of a whole number, with or without a minus sign. |
| KConfdata.ValidHexExactly | openwrt/scripts/config/symbol.c:577-585 | A text is a valid hexadecimal number if and only if it is a row of digits of either case, with or without 0x or 0X in front. |
| KConfdata.SetSymVal | openwrt/scripts/config/confdata.c:126-194 | What is stored for a value, or why it is refused, by kind of symbol. |
| KConfdata.UnsetLine | openwrt/scripts/config/confdata.c:326-354 | The line "is not set" reads back as n, whatever follows it and also without a newline. |
| KConfdata.AssignLine | openwrt/scripts/config/confdata.c:355-378 | An assignment line hands exactly the value to conf_set_sym_val. |
| KConfdata.TriLine | openwrt/scripts/config/confdata.c:131-153 | Assigned to a boolean or tristate symbol, a value counts by its first character: y and n are stored, m for tristates only, and everything else is refused. |
| KConfdata.LineEndings | openwrt/scripts/config/confdata.c:361-367 | The end of a line is removed with or without a carriage return; without a newline the value is kept as it is. |
| KConfdata.RoundTrip | openwrt/scripts/config/confdata.c:323-378 | Every boolean, tristate, valid int or hex and every string value written by conf_write_symbol is restored by reading the line; a string with a newline is always refused. |
| KConfdata.FileRoundTrip | openwrt/scripts/config/confdata.c:323-378 | Writing any list of symbols one after the other and reading the file line by line gives every symbol the value written for it last. |
| Cidr.AddThenSub | luci/libs/luci-lib-ip/src/ip.c:856-911 | An addition is undone by subtracting the same operand if and only if it did not overflow. |
| Cidr.CarryBytes | luci/libs/luci-lib-ip/src/ip.c:886-898 | The byte loop with carry or borrow is addition or subtraction of big-endian numbers of any width. |
| Cidr.AddSubBytes | luci/libs/luci-lib-ip/src/ip.c:884-906 | The byte branch is saturating arithmetic. |
| Cidr.AddSubWord | luci/libs/luci-lib-ip/src/ip.c:868-883 | The 32-bit branch is the same saturating arithmetic. |
| Cidr.Cidr.AddOrSub | luci/libs/luci-lib-ip/src/ip.c:856-928 | In place or not, the result is the saturated sum or difference, with success reported, and unchanged for other families. |
| Cidr.AndMask | luci/libs/luci-lib-ip/src/ip.c:654-660 | Masking with leading ones clears exactly the last bits. |
| Cidr.BitByBit | luci/libs/luci-lib-ip/src/ip.c:654-660 | The bitwise operations, bit by bit, at every width. |
| Cidr.MaskedBits | luci/libs/luci-lib-ip/src/ip.c:646-673 | Masking keeps the first bits and clears or sets every other one; more bits than the family has change nothing. |
| Cidr.IntervalExactly | luci/libs/luci-lib-ip/src/ip.c:834-851 | The interval of a prefix holds exactly the addresses that agree with it before the host bits. |
| Cidr.MaskBytesMasks | luci/libs/luci-lib-ip/src/ip.c:661-672 | Masking byte by byte masks the number. |
| Cidr.Cidr.ApplyMask | luci/libs/luci-lib-ip/src/ip.c:646-673 | Every branch of _apply_mask clears or sets exactly the bits behind the prefix. |
| Cidr.Inclusion | luci/libs/luci-lib-ip/src/ip.c:834-851 | Equal masked prefixes with a shorter or equal length are the same as inclusion of the address intervals. |
| Cidr.MutualInclusion | luci/libs/luci-lib-ip/src/ip.c:834-851 | Containment both ways means the same prefix length and network: a partial order up to masking. |
| Cidr.Cidr.Contains | luci/libs/luci-lib-ip/src/ip.c:834-851 | cidr_contains holds if and only if the families match and the other interval lies inside. |
| Cidr.Cidr.MinHost | luci/libs/luci-lib-ip/src/ip.c:940-973 | The network address plus one when there are host bits; the carry loop never carries out. |
| Cidr.DiffPrefix | luci/libs/luci-lib-ip/src/ip.c:1017-1049 | diff_prefix is true exactly when the address does not match the filter; the word form and the byte form compute the same containment. |
| TemplateUtf8.LegalMeans | luci/modules/luci-base/src/template_utils.c:145-203 | The byte tests accept exactly code points in shortest form that are no surrogate and not U+FFFE or U+FFFF. |
| TemplateUtf8.CopiedExactly | luci/modules/luci-base/src/template_utils.c:222-264 | A sequence is copied if and only if it is legal and not followed by one more continuation byte. |
| TemplateUtf8.ConsumedExactly | luci/modules/luci-base/src/template_utils.c:123-143 | How many bytes belong together by the range of the first one, at most one more than it announces; they are copied as a whole or replaced by one mark. |
| TemplateUtf8.SanitizedIsClean | luci/modules/luci-base/src/template_utils.c:280-310 | The output is ASCII without NUL and legal sequences only, for every input. |
| TemplateUtf8.CleanIsKept | luci/modules/luci-base/src/template_utils.c:280-310 | Such input is returned unchanged. |
| TemplateUtf8.EncodedIsKept | luci/modules/luci-base/src/template_utils.c:206-310 | Text encoded by section 3 of RFC 3629, of any code points but NUL, surrogates, U+FFFE and U+FFFF, is returned unchanged. |
| TemplateUtf8.Idempotent | luci/modules/luci-base/src/template_utils.c:280-310 | Sanitizing twice is sanitizing once. |
| TemplateUtf8.EscapedIsSanitized | luci/modules/luci-base/src/template_utils.c:312-369 | Undoing pcdata's references gives what utf8 makes of the input, less the control bytes, if and only if there is no NUL byte. |
| TemplateUtf8.StrippingFirstDiffers | luci/modules/luci-base/src/template_utils.c:312-369 | Dropping the control bytes before utf8 is not the same: a concrete input. |
| TemplateUtf8.StrippingFirstAgrees | luci/modules/luci-base/src/template_utils.c:312-369 | It is the same if and only if no dropped bytes separate a first byte, with at most as many bytes as it announces, from a further continuation byte. |
| TemplateUtf8.DroppedBeforeContinuation | luci/modules/luci-base/src/template_utils.c:312-369 | So the two can differ only where a dropped byte stands immediately before a continuation byte. |
| TemplateUtf8.Buffer.PutChar | luci/modules/luci-base/src/template_utils.c:75-86 | The buffer grows in time; its contents gain the character and stay terminated. |
| TemplateUtf8.Buffer.Append | luci/modules/luci-base/src/template_utils.c:88-104 | The buffer grows in time; its contents gain the text and stay terminated. |
| TemplateUtf8.Validate | luci/modules/luci-base/src/template_utils.c:206-278 | _validate_utf8 emits and consumes what its specification says. |
| TemplateUtf8.Utf8 | luci/modules/luci-base/src/template_utils.c:280-310 | The loop consumes the whole input and returns the sanitized text. |
| TemplateUtf8.OutputIsEscaped | luci/modules/luci-base/src/template_utils.c:326-350 | The output of pcdata holds no quotation mark, apostrophe, angle bracket or DEL and no control byte but tab, newline and carriage return, and every ampersand in it starts a reference to 34, 38, 39, 60 or 62. |
| TemplateUtf8.TextIsEscaped | luci/modules/luci-base/src/template_utils.c:312-369 | Of such text pcdata rewrites exactly the five markup characters, to references written out byte by byte, drops exactly the control characters but tab, newline and carriage return, and keeps every other character. |
| TemplateUtf8.Pcdata | luci/modules/luci-base/src/template_utils.c:312-369 | The loop gives the escaped text, which holds no markup. |
| Lmo.SliceIsValue | luci/modules/luci-base/src/po2lmo.c:204-219 | Every entry's offset and length cut out exactly its value, padding notwithstanding. |
| Lmo.Collect | luci/modules/luci-base/src/po2lmo.c:195-220 | The writing loop outputs the padded values and collects their entries with running offsets. |
| Lmo.Open | luci/modules/luci-base/src/template_lmo.c:100-152 | Which files are refused, and where the index starts and how long it is in the others. |
| Lmo.TrailerOf | luci/modules/luci-base/src/po2lmo.c:104-117 | In a written file the trailer gives the start of the index. |
| Lmo.EntryOf | luci/modules/luci-base/src/po2lmo.c:104-117 | Entry i of a written index reads back as it was. |
| Lmo.OpenedIsMapped | luci/modules/luci-base/src/template_lmo.c:126-136 | In every file lmo_open accepts, all entries it counts are inside; it counts one if and only if sixteen bytes and the trailer follow the start of the index. |
| Lmo.FindEntry | luci/modules/luci-base/src/template_lmo.c:244-278 | For every archive lmo_open makes, the unsigned binary search ends; it reads outside the file if and only if there are no entries; in a sorted index it finds an entry with the hash if and only if there is one. |
| Lmo.SearchEmpty | luci/modules/luci-base/src/template_lmo.c:126-136 | Two files of four bytes that lmo_open accepts, with 0 and with -1 entries, in which the search reads outside. |
| Lmo.Translate | luci/modules/luci-base/src/template_lmo.c:280-302 | From writing to lookup: a value is found if and only if some message has the hash, and it is such a message's value. |
| Lmo.TranslateKey | luci/modules/luci-base/src/template_lmo.c:280-302 | A key is answered with the value of some stored translation whose raw key hashes like the canonical form of the key asked for, and with none if and only if there is no such translation. |
| Lmo.StoredKeyAnswered | luci/modules/luci-base/src/po2lmo.c:195-203 | A stored key with single spaces only between words is answered; where the hash tells texts apart a key is answered if and only if its canonical form is a stored key. |
| LmoKey.Canonicalize | luci/modules/luci-base/src/template_lmo.c:72-98 | The whitespace scan leaves the trimmed, collapsed text in the buffer. |
| LmoKey.CanonicalIsJoined | luci/modules/luci-base/src/template_lmo.c:72-98 | That text is the words joined by single spaces. |
| LmoKey.SameWordsSameKey | luci/modules/luci-base/src/template_lmo.c:72-98 | Two keys have the same canonical form if and only if they consist of the same words; the form is idempotent. |
| LmoKey.CanonicalFixpoints | luci/modules/luci-base/src/template_lmo.c:72-98 | A key is in canonical form if and only if its only white space is single spaces between words. |
| LmoKey.CanonicalKeepsTheRest | luci/modules/luci-base/src/template_lmo.c:72-98 | The form holds no white space but the space, and every other byte is kept, in order. |
| Crc32.SerialIsShifts | openwrt/tools/firmware-utils/src/add_header.c:43-56 | Mixing a byte in at once and shifting is shifting it in bit by bit, up to the bits not used yet. |
| Crc32.SerialIsBits | openwrt/tools/firmware-utils/src/add_header.c:43-65 | A string passes through the register as its bits, eight for each byte, least significant first. |
| Crc32.ByteStep | openwrt/tools/firmware-utils/src/add_header.c:62-63 | One byte through the table is that byte bit by bit. |
| Crc32.InitCrc32 | openwrt/tools/firmware-utils/src/add_header.c:43-56 | The table holds the eight-fold shift of every byte. |
| Crc32.Crc32Buf | openwrt/tools/firmware-utils/src/add_header.c:58-65 | The table-driven loop computes the bit-serial reflected CRC of every byte string. |
| Crc32.NixioCrc32 | luci/libs/luci-lib-nixio/src/binary.c:97-109 | The seeded loop computes the same CRC, continued from the seed. |
| NixioTable.NixioTableIsComputed | luci/libs/luci-lib-nixio/src/binary.c:42-96 | Every one of the 256 literal entries is the eight-fold shift of its index. |
| NixioTable.Table | luci/libs/luci-lib-nixio/src/binary.c:42-96 | So the literal table is the one init_crc32 computes. |
| NixioTable.BinCrc32 | luci/libs/luci-lib-nixio/src/binary.c:97-109 | With its literal table the loop computes the bit-serial CRC, continued from the seed. |
| NixioTable.CheckValue | luci/libs/luci-lib-nixio/src/binary.c:97-109 | The CRC of the digits 1 to 9 is 0xCBF43926, the check value of CRC-32. |
| Crc32.CrcContinues | luci/libs/luci-lib-nixio/src/binary.c:97-109 | Continuing a CRC with a second string is the CRC of both strings in a row. |

## Left out

- KSymbol.Kconfig.CalcValue: environment symbols (SYMBOL_AUTO), choices, the bookkeeping flags SYMBOL_CHANGED and SYMBOL_WARNED, and changes of MODULES during evaluation are not modelled.
- KSymbol.Kconfig.ClearAllValid: does not recompute MODULES, whose value is fixed.
- KChoice.Choice.CalcChoice: one choice at a time, with the values outside it given; SYMBOL_WRITE of members and SYMBOL_NEED_SET_CHOICE_VALUES are not modelled.
- KChoice.Choice.CalcMembersIn: prompts of members do not mention other members; sym_check_choice_deps reports those that do.
- KCheck.Checker.CheckAll: covers symbols outside choices; sym_check_choice_deps and the printed chain are not modelled.
- KMenuHeap.MenuFinalize: of an entry's properties only the prompt is propagated; selects, dir_dep, rev_dep, the types and membership of choice values, and the warnings are left out.
- KMenuHeap.TakeIn: conditions are values, so expression trees shared between entries and symbols (dir_dep.expr takes parent->dep itself) are not seen.
- KMenuWalk.Walk: records the visited entries instead of printing; menu_is_visible is not modelled.
- KConfdata.SetSymVal: only the user's values; automatic defaults, symbols of type S_OTHER and the choice state kept while reading are left out.
- KConfdata.FileRoundTrip: the growing buffer of compat_getline and the heading comment are left out.
- KTransform.TransformPreservesValue: requires comparable operands where the operator of an order comparison is flipped, because symbols of type S_OTHER compare as n both ways (`KTransform.NegatedComparison`).
- Md5Stream.Context.Body: the four rounds of MD5 are an arbitrary block function; the 16 result bytes are left out.
- Sha256Stream.HashPieces: reading the file and the hexadecimal string are left out.
- Cidr.Cidr.AddOrSub: the Lua argument handling is left out; on a new object the source drops the success flag.
- Lmo.Open: refuses files of less than four bytes, where the source would read before the mapping.
- Lmo.Collect: takes messages instead of parsing PO lines; padding bytes are zero.
- Lmo.TranslateKey: sfh_hash is an arbitrary function.
- Lmo.Translate: one archive; the list of archives of a catalog is left out.
- LmoKey.Canonicalize: the limit of 4096 bytes is a property of the caller, Lmo.HashKey.
- TemplateUtf8.Buffer.Grow: allocation does not fail.
- expr_free is a no-op; expr_print, expr_simplify_unmet_dep and expr_compare_type are left out.
- randconfig, autoconf, header and tristate printers, split configuration files and the user interfaces.
- striptags, Lua string escaping, netlink dumps, address parsing and formatting, hexlify and base64.
