# A verified model of the emulator tool chain

This project models parts of a RISC-V emulator tool chain in Dafny and proves what they are for.
Each part is a group of modules, one file each.

- **kconfig dependency expressions** (`KconfigExpr`, `KconfigEq`, `KconfigTransform`, `KconfigJoin`,
  `KconfigDups`, `KconfigMenu`): the three-valued rewrites keep the value in every environment, end, and
  leave nothing that they are for. `expr_eliminate_dups1` works on one tree through two pointers into it;
  here these are two cursors into one value.
- **kconfig symbols** (`KconfigSymbol`, `KconfigCalc`, `KconfigDeps`): a configuration has one solution,
  in which user values, defaults, selects and implies decide as they should; the memoised evaluator finds
  it in any order of calls, a user's change takes effect, and the cycle check accepts exactly the
  configurations for which the solution is well defined. `KconfigString`: quoted values read back.
- **64-bit division from 32-bit words** (`Bits`, `Int64`): words are natural numbers; shifts and masks
  are defined on binary digits.
- **minirv** (`MiniRV`, `MiniRVLogic`, `MiniRVCompare`, `MiniRVShift`, `MiniRVLut`): the eight base
  instructions are methods of a machine with registers and byte memory; each macro is the sequence of
  its base instructions, proved to do what sections 2.4 to 2.6 of the RISC-V Unprivileged ISA ask of
  the instruction it replaces, with a frame condition.
- **x86 page tables** (`PageTable`, `PageTableFree`, `PageTableInit`, `PageTableConfig`): a radix tree in
  memory refines one finite map per address space; building the kernel's tables, creating and tearing
  down address spaces lose and share nothing.
- **the debugger's expression evaluator** (`SdbExpr`, `SdbRoundTrip`, `SdbArith`): evaluation is stated
  over any meaning of atoms and operators, the machine's arithmetic and the parse tree being two; the
  precedences are compared with the operator classes of C, given as a list.
- **the cache simulator** (`CacheSpec`, `CacheFifo`, `CacheSim`): lines replaced in place refine a map
  model, in which it is proved when LRU and FIFO caches are inclusive.
- **the trace pipeline** (`DecodePattern`, `TraceSim`, `RiscvTrace`): every executed access, branch and
  jump is reported once, at its place; the instructions are given by the values of their fields.
- **klib's formatted output** (`Stdio`, `StdioFormat`): the text does not depend on the buffer, and what
  is printed for a number reads back.

Some things the code does differ from what its comments or tests suggest. The model follows the code,
with a lemma for each and the exact condition under which the promise holds:

- joining `a='m' && a!='1'` is wrong because `'1'` compares as a number (`JoinCollision`,
  `JoinEqualUnequalExact`); `A || A!=n` is not joined (`OrAbsorbs`, `JoinOrExact`);
- the rewrites `FOO!=n -> FOO` and `!A -> A=n` are wrong for m below a negation
  (`TransBoolNeedsNormalForm`, `TransCompareNegation`);
- an entry can be visible below a symbol whose prompt is not (`VisibleWithoutPrompt`, `IsSubmenuEntry`);
- setting a symbol to the value it has can leave a cache that is no longer right (`KeptExactly`,
  `SetThenChanged`);
- `seqz s0, x` and `seq s0, x, y` lose their result (`Seqz`, `Seq`);
- a chain of unary operators is evaluated as its last one (`ChainsAreLost`, `DoubleMinus`); the debugger's
  syntax check accepts what cannot be evaluated (`EvaluableExactly`), and its parenthesis mismatch flag is
  never set (`CheckParentheses`);
- FIFO caches are not inclusive in general (`FifoInclusiveExactly`), and a number of cache sets that is no
  power of two makes different blocks look the same (`BlocksKeptApart`);
- a run whose length is a multiple of the batch size is reported with one state too many
  (`ReportedExactly`); a pattern of 64 characters is refused (`PatternDecode`).

Given as parameters: in the rewrites, the text comparison of symbols that are neither bool nor tristate;
the values of numbers, registers and memory in the debugger, the pages that the page allocator returns,
the execution of instructions other than loads, stores and jumps, the arguments of a formatted print, and
results that C leaves open (shifts by 32 or more).

`dafny verify dfyconfig.toml` checks the whole project.

## Model

| member | source | states |
|---|---|---|
| `KconfigExpr.EliminateYnCorrect` | nemu/tools/kconfig/expr.c:316-397 | folding y and n operands keeps the three-valued value in every environment |
| `KconfigExpr.EliminateYnComplete` | nemu/tools/kconfig/expr.c:316-397 | no y or n operand of a conjunction or disjunction is left, the tree shrinks exactly when there was one, and is untouched otherwise |
| `KconfigExpr.EliminateLeaves` | nemu/tools/kconfig/expr.c:150-219 | removing common operands never grows either side, which is what makes the mutual recursion with expr_eq end |
| `KconfigExpr.EliminateLeavesCommon` | nemu/tools/kconfig/expr.c:150-219 | both sides lose one and the same value c: x = x' op c and y = y' op c |
| `KconfigExpr.ExprEqSound` | nemu/tools/kconfig/expr.c:221-303 | what expr_eq calls equal has equal value in every environment |
| `KconfigExpr.ExprEqOptSound` | nemu/tools/kconfig/expr.c:252-268 | the same with NULL expressions, which mean y |
| `KconfigExpr.ExprEqReflexive` | nemu/tools/kconfig/expr.c:150-303 | every expression equals itself: every operand of a level meets its partner although matched operands are overwritten on the way |
| `KconfigExpr.EliminateEqSuperset` | nemu/tools/kconfig/expr.c:221-245 | if eliminating common operands reduces the second expression to y, the first is at most the second in every environment |
| `KconfigTransform.Transform` | nemu/tools/kconfig/expr.c:694-849 | re-transforming De Morgan results ends: the weight never grows |
| `KconfigTransform.TransformCorrect` | nemu/tools/kconfig/expr.c:694-849 | the transformed expression has the same value in every environment |
| `KconfigTransform.TransformNormal` | nemu/tools/kconfig/expr.c:694-849 | negation is left only directly above a symbol that is not y, m or n, and no bool symbol is compared with y, m or n |
| `KconfigTransform.TransformIdempotent` | nemu/tools/kconfig/expr.c:694-849 | transforming twice is transforming once |
| `KconfigTransform.TransBoolKeepsNo` | nemu/tools/kconfig/expr.c:402-426 | on a normal form the bool projection keeps whether the value differs from n |
| `KconfigTransform.TransBoolComplete` | nemu/tools/kconfig/expr.c:402-426 | no FOO!=n of a tristate symbol is left, and an expression without one is unchanged |
| `KconfigTransform.TransBoolNeedsNormalForm` | nemu/tools/kconfig/expr.c:402-426 | below a negation it is right if and only if the symbol is not m |
| `KconfigTransform.RewriteMCorrect` | nemu/tools/kconfig/menu.c:82-104 | rewriting m to m && MODULES is evaluation with m bounded by the value of MODULES |
| `KconfigTransform.TransCompareExact` | nemu/tools/kconfig/expr.c:922-988 | for every expression and environment the comparison with n is y or n and tells whether the expression is n with every negation read as "is n" |
| `KconfigTransform.TransCompareCorrect` | nemu/tools/kconfig/expr.c:922-988 | the comparison with n is y or n and decides whether the value is n, when no negated operand is m |
| `KconfigTransform.TransCompareNegation` | nemu/tools/kconfig/expr.c:922-988 | for a negated symbol the rewrite is right if and only if the symbol is not m |
| `KconfigJoin.JoinOrCorrect` | nemu/tools/kconfig/expr.c:431-493 | a joined pair of operands of a disjunction has the maximum of their values |
| `KconfigJoin.JoinAndCorrect` | nemu/tools/kconfig/expr.c:495-586 | a joined pair of operands of a conjunction has the minimum of their values, for constants of which no two equal the same tristate value |
| `KconfigJoin.JoinEqualUnequalExact` | nemu/tools/kconfig/expr.c:539-553 | joining a=b && a!=c is right in every environment if and only if b and c are the same or never equal the same value |
| `KconfigJoin.JoinCollision` | nemu/tools/kconfig/expr.c:539-553 | a='m' && a!='1' is joined to a='m', which differs when a is m |
| `KconfigJoin.YmnSeparated` | nemu/tools/kconfig/expr.c:495-586 | y, m and n are constants the joins are right for |
| `KconfigJoin.JoinShape` | nemu/tools/kconfig/expr.c:431-586 | a join is no larger than its left operand, keeps the normal form and brings in no new constants |
| `KconfigJoin.JoinAndComplete` | nemu/tools/kconfig/expr.c:495-586 | two tests of a tristate symbol (the symbol, or = or != with y, m or n) of which a single such test can stand for the conjunction are joined |
| `KconfigJoin.JoinOrExact` | nemu/tools/kconfig/expr.c:431-493 | two such tests of a disjunction are joined if and only if they are the same or both test for equality |
| `KconfigJoin.OrAbsorbs` | nemu/tools/kconfig/expr.c:431-493 | A or A!=n is not joined although it is A!=n in every environment |
| `KconfigJoin.JoinBoolComplete` | nemu/tools/kconfig/expr.c:431-586 | a bool symbol and its negation are joined below a disjunction only, equal operands always |
| `KconfigJoin.EqualUnequalJoined` | nemu/tools/kconfig/expr.c:539-553 | an equality and an inequality of one tristate symbol with constants are always joined below a conjunction |
| `KconfigDups.EliminateDups1` | nemu/tools/kconfig/expr.c:595-644 | with two cursors into one shared tree: the value, the shape of the level and the normal form are kept; the count grows only if a constant operand is left behind; without growth nothing changed and no two operands below the cursors can be joined |
| `KconfigDups.ProcessLeaves` | nemu/tools/kconfig/expr.c:617-642 | the same for two operands of a level, one of which may hold a level of its own |
| `KconfigDups.JoinKept` | nemu/tools/kconfig/expr.c:617-642 | replacing one operand by the neutral constant and the other by the join keeps the value and leaves a constant |
| `KconfigDups.EliminateDups` | nemu/tools/kconfig/expr.c:656-686 | the loop ends because every changing pass shrinks the tree; the result is equivalent; no level of it has two operands that are equal by expr_eq or are of the kinds the joins are for; a level whose leaves are all copies of one operand becomes that operand; the result is unchanged or smaller, and trans_count is restored |
| `KconfigDups.SettledIsReduced` | nemu/tools/kconfig/expr.c:431-644 | where no join applies no two operands of a level are equal, stand for a single test (conjunction), are two equalities of a tristate symbol or a bool symbol and its negation (disjunction) |
| `KconfigEq.CommonRemoved` | nemu/tools/kconfig/expr.c:150-219 | expr_eliminate_eq leaves on each side the multiset difference of the operands: each common one goes as often as it is on both sides |
| `KconfigEq.ExprEqExactly` | nemu/tools/kconfig/expr.c:221-303 | two levels of operands without levels of their own are equal if and only if they have the same operands equally often, in any order and grouping |
| `KconfigMenu.PreparedCorrect` | nemu/tools/kconfig/menu.c:400-401 | rewrite_m followed by expr_transform gives the value with m bounded by MODULES |
| `KconfigMenu.InheritDependency` | nemu/tools/kconfig/menu.c:350-360 | a child entry's dependency has exactly the value of the parent's dependency and its own |
| `KconfigMenu.PropertyCondition` | nemu/tools/kconfig/menu.c:395-406 | a property's condition gives the same visibility as the conjunction, for every symbol type, although its value may differ |
| `KconfigMenu.Comparison` | nemu/tools/kconfig/menu.c:456-458 | the prompt condition compared with n, simplified, tells that two-valued reading always, and whether the value is n where no negated operand is m |
| `KconfigMenu.DependsBounds` | nemu/tools/kconfig/expr.c:879-907 | an expression that depends on a bool or tristate symbol is n whenever the symbol is |
| `KconfigMenu.DependsIsConjunct` | nemu/tools/kconfig/expr.c:851-907 | an expression depends on a symbol if and only if the symbol, =y, =m or !=n of it is one of its conjuncts, and contains it if and only if it is among its symbols |
| `KconfigMenu.IsSuperset` | nemu/tools/kconfig/menu.c:480-489 | the superset test succeeds only if the entry is n whenever the prompt condition is |
| `KconfigMenu.IsSubmenuEntry` | nemu/tools/kconfig/menu.c:464-489 | an entry goes below a symbol only if it mentions it; always if it depends on it; then it is visible only while the symbol is not n, and otherwise only while the prompt is visible |
| `KconfigMenu.SubmenuEntries` | nemu/tools/kconfig/menu.c:460-497 | the loop takes the entries up to the first that does not go below, all of them visible only while the prompt is visible or the symbol is not n |
| `KconfigMenu.VisibleWithoutPrompt` | nemu/tools/kconfig/menu.c:467-469 | an entry that depends on a symbol selected behind an invisible prompt goes below it and is visible |
| `KconfigSymbol.SolutionUnique` | nemu/tools/kconfig/symbol.c:325-467 | an acyclic configuration has at most one assignment that meets every symbol's definition |
| `KconfigSymbol.SolutionExists` | nemu/tools/kconfig/symbol.c:325-467 | it has one |
| `KconfigSymbol.SolutionBounds` | nemu/tools/kconfig/symbol.c:366-414 | a symbol is never below what selects it, never m when it is bool or modules are off, and otherwise the user's value cut to the visibility |
| `KconfigSymbol.MaxPromptIs` | nemu/tools/kconfig/symbol.c:177-238 | the visibility is at least every prompt's condition and is one of them, or n |
| `KconfigSymbol.UserDecides` | nemu/tools/kconfig/symbol.c:366-414 | in every solution a symbol with a visible user value has that value cut to its visibility, or what selects it if that is more, and y for m if it is bool |
| `KconfigSymbol.DefaultDecides` | nemu/tools/kconfig/symbol.c:388-414 | in every solution a symbol neither set nor implied has the minimum of value and condition of the first default whose condition is not n, or n if there is none, raised by selects and for bool |
| `KconfigSymbol.ImplyDecides` | nemu/tools/kconfig/symbol.c:388-414 | an implied one has the maximum of that and of what implies it, cut to its direct dependency, raised by selects and for bool |
| `KconfigSymbol.SolutionIsValid` | nemu/tools/kconfig/symbol.c:325-467 | calculated values form an environment of the kind the rewrites are proved for |
| `KconfigCalc.SymbolTable.CalcValue` | nemu/tools/kconfig/symbol.c:325-467 | under the SYMBOL_VALID cache the value is that of the unique solution, whatever was calculated before, and a symbol still being calculated is never read |
| `KconfigCalc.SymbolTable.CalcWanted` | nemu/tools/kconfig/symbol.c:380-406 | the value before reverse dependencies |
| `KconfigCalc.SymbolTable.CalcVisibility` | nemu/tools/kconfig/symbol.c:177-238 | visibility and the three dependency values are those of the solution |
| `KconfigCalc.SymbolTable.CalcInOrder` | nemu/tools/kconfig/symbol.c:325-467 | calculating any list of symbols in any order gives each its value in the solution |
| `KconfigCalc.SymbolTable.SetTristateValue` | nemu/tools/kconfig/symbol.c:480-533 | a new user value is accepted exactly between what selects the symbol and its visibility, and the cache is then right for the solution of the changed configuration, whichever it is; setting the value that the symbol has is always accepted and keeps the cache |
| `KconfigCalc.SetTakesEffect` | nemu/tools/kconfig/symbol.c:499-533 | a value accepted as new is the value of the symbol in the solution of the changed configuration |
| `KconfigCalc.RangeExactly` | nemu/tools/kconfig/symbol.c:480-497 | a value is in range if and only if the symbol is visible above what selects it and would have that value in the solution of the changed configuration |
| `KconfigCalc.KeptExactly` | nemu/tools/kconfig/symbol.c:529-531 | the cache kept when the value does not change is right if and only if the symbol is invisible, its value is not above its visibility, or it is selected to that value |
| `KconfigCalc.SetThenChanged` | nemu/tools/kconfig/symbol.c:529-531 | a symbol with default y and a prompt that is m: set to the y that it has, it is m from the next clearing on |
| `KconfigDeps.Checker.CheckDeps` | nemu/tools/kconfig/symbol.c:1250-1279 | a symbol is returned only if it lies on a cycle; without an error everything entered is finished in dependency order |
| `KconfigDeps.Checker.CheckSymDeps` | nemu/tools/kconfig/symbol.c:1165-1211 | the same over all expressions of a symbol |
| `KconfigDeps.Checker.CheckExprDeps` | nemu/tools/kconfig/symbol.c:1130-1163 | the same over one expression |
| `KconfigDeps.CheckAll` | nemu/tools/kconfig/parser.y:514-517 | the loop over all symbols ends and counts an error if and only if the dependency graph has a cycle, that is, if and only if it cannot be ranked |
| `KconfigDeps.AcyclicHasNoCycle` | nemu/tools/kconfig/symbol.c:1130-1279 | a ranked graph has no cycle |
| `KconfigDeps.FinishedIsAcyclic` | nemu/tools/kconfig/symbol.c:1250-1279 | the order in which a search without errors finishes is a ranking, so the evaluator's assumption is what the check establishes |
| `KconfigString.EscapeStringValue` | nemu/tools/kconfig/symbol.c:875-914 | the escaped text, which fills the allocated size exactly |
| `KconfigString.ConfSetString` | nemu/tools/kconfig/confdata.c:261-275 | removing backslashes in place gives the text up to the closing quote, or finds that it is missing |
| `KconfigString.RoundTrip` | nemu/tools/kconfig/confdata.c:261-275 | what sym_escape_string_value wrote reads back, whatever follows the closing quote |
| `KconfigString.QuotedInjective` | nemu/tools/kconfig/symbol.c:875-914 | different values are written differently |
| `Int64.ClzSi2` | abstract-machine/klib/src/int64.c:626-655 | the number of leading zeros, through the four halving steps and the branch-free end |
| `Int64.CtzSi2` | abstract-machine/klib/src/int64.c:661-695 | the number of trailing zeros |
| `Int64.ClzDi2` | abstract-machine/klib/src/int64.c:711-717 | leading zeros of a double word |
| `Int64.CtzDi2` | abstract-machine/klib/src/int64.c:703-709 | trailing zeros of a double word |
| `Int64.Align` | abstract-machine/klib/src/int64.c:496-589 | the word shifts give n >> sr and n << (64 - sr) for sr below, at and above 32 |
| `Int64.LoopStep` | abstract-machine/klib/src/int64.c:598-615 | one round of the loop takes the next digit of n into the remainder and one digit into the quotient |
| `Int64.ShiftSubtract` | abstract-machine/klib/src/int64.c:597-619 | the four-word shift-subtract loop divides, also when the divisor has 64 digits and its sign trick is at its limit |
| `Int64.LongDivide` | abstract-machine/klib/src/int64.c:590-619 | the general case divides once the leading digits are aligned |
| `Int64.DivideByHigh` | abstract-machine/klib/src/int64.c:446-504 | the cases with a zero low divisor word |
| `Int64.DivideByLow` | abstract-machine/klib/src/int64.c:507-558 | the cases with a zero high divisor word |
| `Int64.DivideByBoth` | abstract-machine/klib/src/int64.c:559-589 | the case with both divisor words |
| `Int64.UDivMod` | abstract-machine/klib/src/int64.c:412-620 | a / b and a % b for all a and all b other than 0 |
| `Int64.DivDi3` | abstract-machine/klib/src/int64.c:355-366 | the signed quotient, truncated toward zero, modulo 2^64 |
| `Int64.ModDi3` | abstract-machine/klib/src/int64.c:379-391 | the remainder with the sign of the dividend |
| `Int64.DivModDi4` | abstract-machine/klib/src/int64.c:369-376 | both, the remainder being a - q*b modulo 2^64 |
| `Int64.TruncLaw` | abstract-machine/klib/src/int64.c:355-391 | (x/y)*y + x%y is x and the remainder is smaller than the divisor, as in section 6.5.5 of C11 |
| `Int64.WrappedRemainder` | abstract-machine/klib/src/int64.c:369-376 | a - q*b is the remainder even when the quotient overflows |
| `Bits.PowerOfTwoTest` | abstract-machine/klib/src/int64.c:477-477 | d & (d - 1) is 0 exactly for powers of two |
| `MiniRV.Machine.La` | abstract-machine/tools/minirv/inst-replace.h:605-608 | the two instructions load the address |
| `MiniRV.Machine.GetByte` | abstract-machine/tools/minirv/inst-replace.h:117-120 | the byte of a register, through a scratch word |
| `MiniRV.Machine.Msb` | abstract-machine/tools/minirv/inst-replace.h:122-126 | the sign bit |
| `MiniRV.Machine.Sh` | abstract-machine/tools/minirv/inst-replace.h:597-601 | the two low bytes are stored and only tp and the scratch words change otherwise |
| `MiniRV.Machine.Slli` | abstract-machine/tools/minirv/inst-replace.h:526-552 | the RV32I left shift for every amount; only rd, tp and scratch words change |
| `MiniRVLogic.Not` | abstract-machine/tools/minirv/inst-replace.h:629-657 | the complement, byte by byte through the xor table |
| `MiniRVLogic.Sub` | abstract-machine/tools/minirv/inst-replace.h:110-115 | the difference modulo 2^32 |
| `MiniRVLogic.BitwisePack` | abstract-machine/tools/minirv/inst-replace.h:165-200 | a bitwise operator on words is the operator on each byte |
| `MiniRVLogic.Logic` | abstract-machine/tools/minirv/inst-replace.h:165-212 | and, or and xor of two registers through the byte tables |
| `MiniRVCompare.Slt` | abstract-machine/tools/minirv/inst-replace.h:128-163 | slt and sltu for every pair of operands, s0 and s1 restored |
| `MiniRVCompare.Seq` | abstract-machine/tools/minirv/inst-replace.h:213-247 | the equality test through the writable array; lost when rd is s0 or s1, which are restored last |
| `MiniRVCompare.Seqz` | abstract-machine/tools/minirv/inst-replace.h:249-273 | the zero test for every rd other than s0; for s0 the result is lost |
| `MiniRVCompare.BranchResolve` | abstract-machine/tools/minirv/inst-replace.h:277-296 | the jump goes where tp says |
| `MiniRVCompare.Branch` | abstract-machine/tools/minirv/inst-replace.h:299-382 | beq, bne, blt, bge, bltu and bgeu, with their x0 special cases, jump to the target exactly when the RV32I condition holds; s0 and s1 are restored |
| `MiniRVShift.RightParts` | abstract-machine/tools/minirv/inst-replace.h:462-503 | the byte sums of a right shift never carry and are the shifted low 24 bits |
| `MiniRVShift.RightShift` | abstract-machine/tools/minirv/inst-replace.h:432-513 | srl and sra are the table entry of the top byte plus the shifted low 24 bits |
| `MiniRVShift.LeftShift` | abstract-machine/tools/minirv/inst-replace.h:399-430 | sll is the sum of its shifted bytes at their places |
| `MiniRVShift.SraRoundsDown` | abstract-machine/tools/minirv/inst-replace.h:520-523 | the arithmetic shift divides the signed value by a power of two, rounding down |
| `MiniRVShift.Sll` | abstract-machine/tools/minirv/inst-replace.h:399-430 | the RV32I shift for every operand and amount; only rd, gp, tp and scratch words change |
| `MiniRVShift.ShiftRight` | abstract-machine/tools/minirv/inst-replace.h:432-523 | srl and sra likewise |
| `MiniRVShift.ShiftRightImm` | abstract-machine/tools/minirv/inst-replace.h:432-562 | srli and srai likewise, with the fast path for 24 |
| `MiniRVShift.Lb` | abstract-machine/tools/minirv/inst-replace.h:570-576 | a sign-extended byte |
| `MiniRVShift.Lhu` | abstract-machine/tools/minirv/inst-replace.h:578-585 | a half-word from two bytes |
| `MiniRVShift.Lh` | abstract-machine/tools/minirv/inst-replace.h:587-595 | a sign-extended half-word |
| `MiniRVLut.GenLut` | abstract-machine/tools/minirv/gen-lut.c:6-29 | the file holds the six tables at the offsets and with the entries that the macros rely on |
| `PageTable.PathInjective` | abstract-machine/am/src/x86/qemu/vme.c:49-51 | different pages have different index paths |
| `PageTable.LookupSetOther` | abstract-machine/am/src/x86/qemu/vme.c:57-75 | writing an entry is seen only by walks whose path goes through it |
| `PageTable.LookupAddTable` | abstract-machine/am/src/x86/qemu/vme.c:66-69 | a cleared table hung into an absent entry changes no translation |
| `PageTable.Mmu.NextTable` | abstract-machine/am/src/x86/qemu/vme.c:66-72 | one level of the walk, allocating at most one page and only if the entry is absent |
| `PageTable.Mmu.Ptwalk` | abstract-machine/am/src/x86/qemu/vme.c:57-75 | the leaf entry of the address; every translation of every address space is kept, and nothing is allocated or written if the tables are there |
| `PageTable.Mmu.Map` | abstract-machine/am/src/x86/qemu/vme.c:141-156 | succeeds, given enough pages, exactly on aligned user pages that are absent (map) or present (unmap), and then changes the translation of that page of that address space and no other; memory that is no user table is untouched |
| `PageTable.RunMaps` | abstract-machine/am/src/x86/qemu/vme.c:141-156 | after any sequence of calls every user page of every address space translates to what the last call for it asked for, or as before, and the kernel as before |
| `PageTable.KernelViews` | abstract-machine/am/src/x86/qemu/vme.c:117-139 | what keeps memory outside the user tables keeps the kernel tables, and every address space sees every kernel address as before; RunMaps, Protect and Unprotect promise it |
| `PageTableInit.MapItself` | abstract-machine/am/src/x86/qemu/vme.c:104-105 | the page is mapped to itself, writable and not for users, and no other translation changes |
| `PageTableInit.MapArea` | abstract-machine/am/src/x86/qemu/vme.c:101-106 | the inner loop maps exactly the pages of the area, also when it ends at the top of memory and the counter wraps |
| `PageTableInit.VmeInit` | abstract-machine/am/src/x86/qemu/vme.c:89-115 | every kernel page is mapped to itself, no other page is mapped, and the tables are fit to be shared |
| `PageTableInit.KernelIdentity` | abstract-machine/am/src/x86/qemu/vme.c:89-139 | from then on, in every address space, every kernel page is mapped to itself, writable and closed to users |
| `PageTable.Mmu.CopyArea` | abstract-machine/am/src/x86/qemu/vme.c:122-130 | the inner loop copies exactly the slots of the area, also when the area ends at the top of memory and the counter wraps |
| `PageTable.Mmu.Protect` | abstract-machine/am/src/x86/qemu/vme.c:117-135 | a new root that shares the kernel's slots and maps no user page; other address spaces keep their translations |
| `PageTableFree.SomethingBelow` | abstract-machine/am/src/x86/qemu/vme.c:77-87 | a table exists below an entry only if the entry is present, so teardown misses none |
| `PageTableFree.Teardown` | abstract-machine/am/src/x86/qemu/vme.c:77-87 | frees every table at or below the given one exactly once and nothing else |
| `PageTableFree.Unprotect` | abstract-machine/am/src/x86/qemu/vme.c:137-139 | gives back exactly the tables of that address space, each once; no kernel table and no other memory is touched, other address spaces keep their translations, and the freed pages can be allocated again |
| `PageTableConfig.Paging32Fits` | abstract-machine/am/src/x86/qemu/vme.c:16-32 | the 32-bit levels cover the address bits without gap or overlap and the user area shares no root slot with the kernel's |
| `PageTableConfig.Paging64Fits` | abstract-machine/am/src/x86/qemu/vme.c:5-27 | the same for the four 64-bit levels |
| `SdbExpr.MatchUnaryTokens` | nemu/src/monitor/sdb/expr.c:229-236 | the tokens with - and * turned unary exactly where an operand is expected |
| `SdbExpr.CheckParentheses` | nemu/src/monitor/sdb/expr.c:238-261 | true exactly if the first parenthesis is closed by the last token; the mismatch flag is never set |
| `SdbExpr.FindDominantOperator` | nemu/src/monitor/sdb/expr.c:305-340 | the weakest operator outside parentheses, the rightmost of several, or none |
| `SdbExpr.Eval` | nemu/src/monitor/sdb/expr.c:342-470 | the recursion over index ranges computes the value function of the token slice |
| `SdbExpr.Expr` | nemu/src/monitor/sdb/expr.c:472-489 | match_unary_tokens followed by eval |
| `SdbExpr.SyntaxCheck` | nemu/src/monitor/sdb/expr.c:491-514 | the recursion over index ranges decides whether the slice is accepted |
| `SdbExpr.EvaluableIsAccepted` | nemu/src/monitor/sdb/expr.c:342-514 | for every token list and every meaning of atoms and operators, evaluation succeeds only on accepted lists |
| `SdbExpr.EvaluableExactly` | nemu/src/monitor/sdb/expr.c:342-514 | when atoms and operators have values, a token list evaluates if and only if it is accepted and every single token that the splitting ends at is a number or register, the test that syntax_check_impl lacks |
| `SdbExpr.AcceptedButNotEvaluable` | nemu/src/monitor/sdb/expr.c:491-496 | that test is needed: a lone parenthesis is accepted and has no value |
| `SdbRoundTrip.PrecIsClass` | nemu/src/monitor/sdb/expr.c:263-303 | the precedence of each operator is that of its class in the list of the ten operator classes of C, sections 6.5.5 to 6.5.14 of C11 |
| `SdbRoundTrip.MatchedTyped` | nemu/src/monitor/sdb/expr.c:229-236 | on a printed tree exactly the unary operators become unary |
| `SdbRoundTrip.CandidatesBind` | nemu/src/monitor/sdb/expr.c:263-340 | every operator outside parentheses binds at least as strongly as the tree's root |
| `SdbRoundTrip.BinaryDominant` | nemu/src/monitor/sdb/expr.c:305-340 | a printed binary tree is split at its root |
| `SdbRoundTrip.ValueOfTokens` | nemu/src/monitor/sdb/expr.c:342-470 | any printed tree evaluates to the tree with its unary chains collapsed |
| `SdbRoundTrip.PrintedIsAccepted` | nemu/src/monitor/sdb/expr.c:491-514 | every printed tree is accepted and meets that test |
| `SdbRoundTrip.RoundTrip` | nemu/src/monitor/sdb/expr.c:229-470 | any tree, printed with the parentheses it needs, evaluates to its strict value or fails with it |
| `SdbRoundTrip.BetweenTwo` | nemu/src/monitor/sdb/expr.c:263-340 | of two binary operators the one of the tighter class takes the operand between them, the left one of two of the same class |
| `SdbRoundTrip.UnaryFirst` | nemu/src/monitor/sdb/expr.c:263-340 | a unary operator takes its operand before a binary operator on either side |
| `SdbRoundTrip.ParenthesizedIsMinimal` | nemu/src/monitor/sdb/expr.c:263-303 | no parentheses are added to a tree that has those it needs |
| `SdbRoundTrip.ParsedExactly` | nemu/src/monitor/sdb/expr.c:342-470 | a printed tree is read back as that tree if and only if it has no unparenthesised unary chain |
| `SdbRoundTrip.ChainsAreLost` | nemu/src/monitor/sdb/expr.c:325-328 | it has the tree's value under every meaning if and only if it has no such chain |
| `SdbRoundTrip.DoubleMinus` | nemu/src/monitor/sdb/expr.c:325-328 | - - 5 is read as - 5 |
| `SdbArith.EvaluationFails` | nemu/src/monitor/sdb/expr.c:342-470 | on 32-bit words evaluation of a printed tree fails exactly if an atom has no value or a divisor is 0, wherever in the tree it stands |
| `SdbArith.DoubleMinusValue` | nemu/src/monitor/sdb/expr.c:325-328 | on 32-bit words - - 5 evaluates to -5 while the tree has value 5 |
| `CacheSpec.SameVictim` | npc/tracesim/cachesim/cachesim.cpp:63-73 | if the larger set drops a line of the smaller one, the smaller one drops it too |
| `CacheSpec.InclusionStep` | npc/tracesim/cachesim/cachesim.cpp:8-99 | one access keeps the smaller LRU set inside the larger one, with equal time stamps |
| `CacheSpec.LruInclusion` | npc/tracesim/cachesim/cachesim.cpp:8-99 | over every trace the lines of a k-way LRU cache are lines of the K-way one, k <= K, with the same time stamps, and the larger cache has at least as many hits |
| `CacheFifo.MatchingRun` | npc/tracesim/cachesim/cachesim.cpp:8-99 | over every trace a FIFO cache with one way, or with as many ways as the other, has only lines that the other has |
| `CacheFifo.RunReads` | npc/tracesim/cachesim/cachesim.cpp:46-98 | after reading n new blocks of one set, a FIFO set holds the last of them, as many as it has ways |
| `CacheFifo.FifoDiffers` | npc/tracesim/cachesim/cachesim.cpp:63-73 | for every two numbers of ways 1 < k < K: reading K blocks, the first again and a new one leaves the first in the k-way cache and not in the K-way one |
| `CacheFifo.FifoInclusiveExactly` | npc/tracesim/cachesim/cachesim.cpp:8-99 | FIFO is inclusive over every trace if and only if the smaller cache has one way or both have the same number |
| `CacheSpec.RunCounted` | npc/tracesim/cachesim/cachesim.cpp:8-99 | over every trace hits and misses add up, the counted writes are all writes, write-throughs are exactly the writes the policies send on, and with write-back every write-back and every dirty line has a write of its own |
| `CacheSpec.DirtyExactly` | npc/tracesim/cachesim/cachesim.cpp:8-99 | after an access the dirty lines are the earlier ones without the replaced one, plus the block if it was written and kept under write-back; a write-back is counted exactly if the replaced line was dirty |
| `CacheSpec.DirtyTouch` | npc/tracesim/cachesim/cachesim.cpp:76-98 | so a line stops being dirty only by being written back |
| `CacheSpec.BlocksKeptApart` | npc/tracesim/cachesim/cachesim.hpp:102-114 | index and tag tell every two blocks apart if and only if the number of sets is a power of two |
| `CacheSim.Log2` | npc/tracesim/cachesim/cachesim.hpp:85-90 | the rounded-down binary logarithm |
| `CacheSim.FindVictim` | npc/tracesim/cachesim/cachesim.cpp:49-73 | an empty line if there is one, else the line with the smallest time stamp |
| `CacheSim.OnHit` | npc/tracesim/cachesim/cachesim.cpp:17-35 | a hit does what the map model does, counters included |
| `CacheSim.OnMiss` | npc/tracesim/cachesim/cachesim.cpp:38-98 | a miss does what the map model does, counters included |
| `CacheSim.Simulator.constructor` | npc/tracesim/cachesim/cachesim.hpp:92-114 | an empty cache of the computed dimensions |
| `CacheSim.Simulator.Access` | npc/tracesim/cachesim/cachesim.cpp:8-99 | the access in place is one step of the map model |
| `CacheSim.Simulate` | npc/tracesim/cachesim/cachesim.cpp:8-99 | a whole trace in place is the run of the map model |
| `DecodePattern.PatternDecode` | nemu/include/cpu/decode.h:31-60 | key, mask and shift test exactly what the characters say, for every pattern of fewer than 64 characters; a pattern of 64 is refused |
| `DecodePattern.MaskedIsMatch` | nemu/include/cpu/decode.h:36-45 | masked bits equal the key exactly when every character matches its bit |
| `TraceSim.StreamsList` | nemu/src/cpu/difftest/ref.c:109-146 | each stream has as many entries as there are states with one, and the entry of a state stands at the number of the earlier ones |
| `TraceSim.Step` | nemu/src/cpu/difftest/ref.c:109-146 | a batch holds the streams of the executed instructions up to the batch size or the end: one entry for each instruction that has one, at the index that counts the earlier ones |
| `TraceSim.Drain` | npc/tracesim/common/trace.cpp:120-149 | the three consumers get the streams of the whole run, in order: the addresses index by index, each access and each branch once, at the index that counts the earlier ones |
| `TraceSim.ReportedExactly` | npc/tracesim/common/trace.cpp:146-147 | exactly the executed instructions are reported if and only if the run is no multiple of the batch size; otherwise the state after the end is reported too |
| `RiscvTrace.IsFields` | nemu/src/isa/riscv32/inst.c:219-249 | a pattern with function code and opcode tests those two fields |
| `RiscvTrace.KindExactly` | nemu/src/isa/riscv32/inst.c:219-249 | each instruction is executed if and only if opcode and funct3 have the values of its listing in the RISC-V Unprivileged ISA |
| `RiscvTrace.ImmediateI` | nemu/src/isa/riscv32/inst.c:46-49 | a signed 12-bit immediate placed as in the I format is decoded |
| `RiscvTrace.ImmediateS` | nemu/src/isa/riscv32/inst.c:54-57 | the same for the S format |
| `RiscvTrace.ImmediateB` | nemu/src/isa/riscv32/inst.c:58-61 | an even signed 13-bit offset placed as in the B format is decoded |
| `RiscvTrace.ImmediateJ` | nemu/src/isa/riscv32/inst.c:62-66 | an even signed 21-bit offset placed as in the J format is decoded |
| `RiscvTrace.BranchMeaning` | nemu/src/isa/riscv32/inst.c:227-232 | the six branches compare the two registers named in the instruction, equal, unequal, signed or unsigned, and lead to pc plus the B immediate |
| `RiscvTrace.JumpMeaning` | nemu/src/isa/riscv32/inst.c:221-226 | jal leads to pc plus the J immediate and jalr to the even part of register plus I immediate, modulo 2^32 |
| `RiscvTrace.NoJump` | nemu/src/isa/riscv32/inst.c:219-249 | no other opcode or function code jumps |
| `RiscvTrace.AccessMeaning` | nemu/src/isa/riscv32/inst.c:233-249 | exactly the loads and stores access memory, at register plus I or S immediate modulo 2^32 |
| `RiscvTrace.KindsAgree` | nemu/src/isa/riscv32/inst.c:219-364 | isa_decode_ldstr and isa_decode_branch find the instruction that decode_exec executes |
| `RiscvTrace.LdstrIsAccess` | nemu/src/isa/riscv32/inst.c:309-331 | the access entry is the access of the execution |
| `RiscvTrace.JumpDecoded` | nemu/src/isa/riscv32/inst.c:333-364 | the decoded entry is the branch or jump that execution makes, and execution goes to its target if taken and to pc + 4 otherwise |
| `RiscvTrace.DataEntries` | nemu/src/cpu/difftest/ref.c:117-125 | over every run the data entries are the memory accesses of the executed instructions, as many and each at the index that counts the earlier ones |
| `RiscvTrace.BranchEntries` | nemu/src/cpu/difftest/ref.c:127-136 | over every run the branch entries are in the same way the executed branches and jumps, and after each instruction comes the one that its entry leads to |
| `Stdio.Writer.Write` | abstract-machine/klib/src/stdio.c:58-61 | every character is counted and stored while there is room |
| `Stdio.HexDigits` | abstract-machine/klib/src/stdio.c:78-89 | the hexadecimal digits in reverse; the digit buffer is never full |
| `Stdio.DecimalDigits` | abstract-machine/klib/src/stdio.c:90-97 | the decimal digits in reverse; the digit buffer is never full |
| `Stdio.PrintInteger` | abstract-machine/klib/src/stdio.c:63-143 | sign, padding and digits in the order that the flags ask for |
| `Stdio.Convert` | abstract-machine/klib/src/stdio.c:204-261 | one integer conversion, or the two characters of an unknown one |
| `Stdio.Direct` | abstract-machine/klib/src/stdio.c:155-261 | one round of the format loop |
| `Stdio.Vsnprintf` | abstract-machine/klib/src/stdio.c:145-268 | for every format, arguments and n: the buffer gets the first n - 1 characters of one text that does not depend on n and a NUL, the rest is untouched, and the length of that text is returned |
| `Stdio.Atoi` | abstract-machine/klib/src/stdlib.c:23-31 | leading spaces are skipped and the digits read |
| `Stdio.AtoiReadsBack` | abstract-machine/klib/src/stdlib.c:23-31 | atoi reads back the padded digits of any non-negative number |
| `StdioFormat.Literal` | abstract-machine/klib/src/stdio.c:150-155 | characters other than % print themselves, whatever follows |
| `StdioFormat.Percent` | abstract-machine/klib/src/stdio.c:155-175 | %% prints % |
| `StdioFormat.Unknown` | abstract-machine/klib/src/stdio.c:258-261 | an unknown conversion prints itself |
| `StdioFormat.StringArgument` | abstract-machine/klib/src/stdio.c:155-212 | %s prints its argument, (null) for NULL, with any flag and width |
| `StdioFormat.PrintedNumber` | abstract-machine/klib/src/stdio.c:63-256 | for %d, %u, %x and %X with every flag, width, length modifier and argument: a reader of base 10, or of base 16 with letters of the one case, gives the argument back from the text; its length is the larger of the width and what digits and sign need; with the 0 flag and a width there are no spaces and the sign is first, without the flag no zeros in front |
| `StdioFormat.NumTextReads` | abstract-machine/klib/src/stdio.c:63-100 | the digits of a number read back as it, are as many as it needs and do not start with 0 |
| `StdioFormat.PrintedReadsBack` | abstract-machine/klib/src/stdlib.c:23-31 | atoi of what vsnprintf stored for %d with any flag and width is the number, if it is not negative and fits the buffer |

## Left out

- kconfig choices, int, hex and string symbols in `sym_calc_value`, ranges, warnings and the SYMBOL_WRITE and SYMBOL_CHANGED flags.
- The calculation of MODULES itself: its value is a parameter of the symbol table, as after the code has calculated it, also when a user's value changes.
- E_LIST and E_RANGE expressions, which dependency expressions do not contain.
- Freeing of expression nodes and identity of nodes: `expr_eliminate_yn`, `expr_transform`, the joins and `expr_trans_bool` rewrite nodes in place in the source and are functions on values here; only `expr_eliminate_dups1`, whose two arguments share a tree, is modelled with cursors.
- KconfigJoin.JoinAndCorrect: asks that no two constants compared with a tristate symbol equal the same value, because the join is wrong otherwise (`JoinEqualUnequalExact`).
- KconfigDups.EliminateDups: asks the same, and so do the members that call it.
- KconfigTransform.TransCompareCorrect: asks that no negated operand is m, because the rewrite of a negation is wrong otherwise.
- KconfigMenu.Comparison: asks the same for the statement about values.
- KconfigMenu.IsSubmenuEntry: asks the same where the superset test decides; the relinking of menu entries and the recursion into them are left out.
- The front ends, the file formats apart from quoted strings, the preprocessor and the parser of kconfig.
- minirv: the stack pointer is at least 28 and the tables and the array do not overlap the scratch words, as the header assumes; `jal`, `call`, `tail` and the immediate forms that load the immediate first, which are short; registers tp and gp as operands where the header excludes them.
- vme_init with 64-bit paging, where the kernel's tables come from the boot code.
- The present and user bits of an address space's root pointer, which are constant, and the page size field.
- PageTableFree.Unprotect: drops the address space from the model's table of roots, where the source leaves the pointer behind.
- The debugger's tokenizer: the model starts from the token list.
- SdbExpr.Eval: numbers, registers and memory reads are parameters, so `strtol` overflow and failing memory reads are not modelled.
- CacheFifo.FifoInclusiveExactly: addresses are unbounded numbers; with 32-bit addresses the failing trace needs one more block per set than the larger cache has ways.
- The RANDOM replacement policy, the floating-point reports and 64-bit wrap-around of the clock and the counters of the cache simulator.
- riscv32 instructions other than loads, stores, branches and jumps, which are easy one by one; csr and trap state.
- Stdio.Vsnprintf: widths and the returned length are unbounded numbers, without the overflow of int; `sprintf` into a buffer of unknown size is not modelled.
- Stdio.Atoi: reads unbounded numbers, without the overflow of int.
- Devices, timers, the native AbstractMachine, context switching, difftest sockets, breakpoints and the branch predictor.
