# Verified models of Mivon's algorithms

Mivon is a SystemVerilog simulator. This project models the parts of it whose correctness is not visible
from reading one function, and proves what they promise:

- **The function inliner** (`Syntax`, `CallGraph`, `Recursion`, `Semantics`, `SemanticsLaws`, `Running`,
  `InlineSpec`, `InlineRenaming`, `InlineMeaning`, `InlineGraph`, `InlineComplete`, `Deletion`, `DeletionExamples`,
  `Inliner`). A call is expanded into fresh temporaries and a preamble of assignments; functions on a call
  cycle are found by depth-first search and left alone, and the declarations of all others are deleted.
  `InlineSpec` is the transformation as a function, defined for every well-formed program with the depth guard
  as its measure; `Inliner` is the class that does it with a threaded counter and growing lists. A program's
  meaning is partial, as a call may diverge; `SemanticsLaws` relates statements to each other, `Running` shows
  that running the functions is a meaning, and `Deletion` says when the module that is left, run with the
  functions it keeps, does what the original did.
- **The constant evaluators** (`ConstSyntax`, `ConstEval`, `ConstArith`, `ConstConcat`, `ConstLaws` for the
  width-aware one, `ExtEval`, `ExtLaws` for the extended one, `ConstAgree` for both). They implement parts of
  IEEE 1800-2017: shifts (section 11.4.10), concatenation and replication (section 11.4.12), `let` (section
  11.12). `WordLaws` says what a word and its bits are; `ConstLaws` and `ExtLaws` say in those terms what every
  operator computes.
- **Package parameters and package functions** (`PackageStore`, `PackageParams`, `ConstFunc`, `FuncLaws`,
  `Interpreter`): a fixed-point iteration over hash tables, and an interpreter guarded by a call depth and a loop
  count. `PackageStore` says what stored values read back as, and `FuncLaws` relates the statements to each other.
- **The minimiser** (`Ddmin`): delta debugging by lines, then by characters.
- **The machine** (`Memory`, `HostRegion`, `Snapshot`, `Machine`): a step loop with cumulative counters over
  any deterministic core, and snapshots that move a run to another machine.
- **The ELF loader** (`ChunkedWrite`, `Elf`), **four-state vectors** (`LogicVec`), and **the text display**
  (`Display`, `Console`).
- `Words`, `Outcomes` and `Basics` hold 64-bit patterns, bytes, result types, and a few common definitions.

Where the program works step by step, the model has a class or a method with loops, proved against a
function on values; what the program promises is then proved about the function. Machine integers are
unbounded integers wrapped explicitly (`U64`, `I64`, `LowBits`).

## Where the program falls short of what one expects

Each is stated as a lemma or a contract, with the input that shows it or the exact condition.

- The recursion check does not look at initialisers of function locals. Expansion is acyclic exactly if it
  never leads back through one (`InlineGraph.DetectionStopsExpansion`); two functions that call each other in
  initialisers are not detected, and their expansion always runs into the depth guard
  (`InlineGraph.InitialiserRecursionEscapes`, `InlineGraph.CycleHitsGuardSs`).
- The renaming of an expansion also renames called functions, and a function's own name stands for its
  result: a call of itself in an initialiser becomes a call of the result temporary, which names nothing
  (`InlineGraph.SelfCallIsSpoiled`).
- An expansion assigns the caller's variable when the function assigns a formal and that plain variable was
  given for it (`InlineComplete.ExpansionAssignsIff`).
- Calls among the arguments of an unknown function are never inlined; `InlineComplete.CleanIffSs` says that
  nothing else is left over.
- The functions that are not recursive are deleted whether or not a call of them is left. The module that is
  left is self-contained and runs as the original exactly if none is left in its statements and no kept function
  that they call needs a deleted one (`Deletion.ModuleKeptIff`). It breaks
  for a call under a system function (`DeletionExamples.ShieldedIsLost`), for a call that the depth guard left
  (`DeletionExamples.GuardedIsLost`), and for a kept function with a helper (`DeletionExamples.HelperIsLost`).
  If calls of deleted functions fail, it never gives a wrong result (`Deletion.NeverWrong`).
- Package parameters get 256 rounds. Whether they are enough is decided by the laziest order of visits, in
  which each round stores only what had a value when the round began (`PackageParams.RoundsSufficeIff`); a chain
  of more than 256 parameters needs more (`PackageParams.BoundIsTight`).
- The line phase of the minimiser can return a text that no longer satisfies the predicate, because joining
  the lines adds a final newline and drops carriage returns before newlines. `Ddmin.LinePhaseKeepsIff` says for
  which sources no predicate is lost, and `Ddmin.JoiningCanFalsify` shows one that is. The final trim can lose
  a predicate that looks at blanks (`Ddmin.TrimCanFalsify`).
- The depth guard of package functions can change a value instead of failing, if an initialiser swallows its
  error (`ConstFunc.InitialiserHidesTheGuard`).
- The two evaluators disagree on `~^` as a reduction wherever its operand has a value
  (`ConstAgree.ReductionXnorDiffers`), and substituting `let` arguments under `~` keeps the value only under the
  condition in `ConstAgree.LetComplement`.
- The self-determined width of an expression does not bound its value under a unary minus, under `>>>`, and for
  literals that do not fit or are marked as signed; `ConstConcat.WidthSound` says exactly when it does.
- Where the width of the left operand is unknown, `>>>` fills a negative word with ones altogether: it is
  division rounding down exactly for words that are not negative or vanish but for their sign
  (`ConstLaws.WideShiftsAre`).
- `ceil_div` rounds up exactly where the operands' signs agree or nothing is left over (`ExtLaws.CeilDivIs`).
- A struct parameter that names a field twice is read by member as the first of them, and under the field's own
  key as the last (`PackageStore.StoredReadsBack`).
- In a package function a name just assigned is read as the package's constant of that name, if there is one:
  `FuncLaws.AssignThenRead` says exactly when the assigned value is read.
- A file of 16 to 19 bytes that starts like a little-endian ELF makes the parser abort instead of reporting
  an error (`Elf.ParseAborts`).
- Restoring a snapshot puts the core's state in before the regions are compared, so a snapshot that does not
  fit still changes the core (`Machine.RefusedSnapshotChangesCore`); `Machine.MismatchKeepsIff` says when it
  does not. A read-only region saved with a non-zero page cannot be restored (`Machine.SnapshotIsTransparent`).

## Model

| member | source | states |
|---|---|---|
| `Recursion.Detector.DfsReachesSelf` | crates/mivon-ast/src/inline_util.rs:44-64 | the visited-set search ends on every graph; what it finds, a non-empty path leads to; names it leaves are visited, with edges only to visited names and none to the target, so a search that starts with no name visited misses no path |
| `Recursion.Detector.DetectRecursive` | crates/mivon-ast/src/inline_util.rs:18-41 | a function is reported if and only if it lies on a cycle of the collected call graph, of whatever length |
| `InlineGraph.ChainsBoundedIffAcyclic` | crates/mivon-ast/src/inline.rs:2067-2101 | chains of expansions, each inside the one before, are bounded exactly if none leads back to a function in it; calls that the inliner never expands do not count |
| `InlineGraph.CycleHitsGuardSs` | crates/mivon-ast/src/inline.rs:2019-2101 | a statement that calls into an expansion cycle is left, at every depth and counter, with a call that could be expanded: the depth guard stopped it |
| `InlineGraph.DetectionStopsExpansion` | crates/mivon-ast/src/inline.rs:45-46 | leaving out the detected functions makes expansion acyclic if and only if no expansion leads back to a function through a call in one of its initialisers |
| `InlineGraph.InitialiserRecursionEscapes` | crates/mivon-ast/src/inline_util.rs:18-42 | two functions that call each other in initialisers are not detected, and expanding a call of one always runs into the guard |
| `InlineGraph.SelfCallIsSpoiled` | crates/mivon-ast/src/inline_util.rs:878-891 | the calls of an expanded body are the function's, but a call of the function itself has become one of the result temporary |
| `Running.RunSolves` | crates/mivon-ast/src/inline.rs:2143-2379 | running every function, with calls nested to any depth, is a meaning in the sense of the theorems below, so they are about something for every program |
| `InlineRenaming.ExpandedBodyValue` | crates/mivon-ast/src/inline.rs:2143-2379 | running the renamed body over fresh temporaries leaves in the result temporary what calling the function returns, and diverges if the call does |
| `InlineMeaning.InlineEPreserves` | crates/mivon-ast/src/inline.rs:2051-2421 | preamble, then rewritten expression: the value of the original expression, or divergence if it diverges, in every environment, nested and repeated calls included; the preamble changes no variable numbered below the counter |
| `InlineMeaning.InlineSPreserves` | crates/mivon-ast/src/inline.rs:535-603 | a rewritten statement ends if and only if the original does, and leaves every variable but its temporaries as the original does |
| `InlineMeaning.InliningPreservesMeaning` | crates/mivon-ast/src/inline.rs:55-140 | from every state and for every meaning that runs the inlinable functions, the rewritten statements end if and only if the original ones do, and give every original variable the same value; calls that are left mean what they meant |
| `InlineMeaning.RunsPreserved` | crates/mivon-ast/src/inline.rs:55-140 | so when calls are run with all of the original functions: wherever one ends with some depth of nested calls, so does the other, and no original variable tells the ends apart |
| `Deletion.SelfContainedIff` | crates/mivon-ast/src/inline.rs:141-175 | of a self-contained original, what is left after the deletion is self-contained if and only if no call of a deleted function is left and no kept function that is called needs, in any number of steps, a deleted one |
| `Deletion.ModulePreserved` | crates/mivon-ast/src/inline.rs:28-176 | under those two conditions the rewritten statements, run with the kept functions alone, end where the original ones with all functions end, and the other way round, whatever unknown names mean |
| `Deletion.ModuleKeptIff` | crates/mivon-ast/src/inline.rs:28-176 | so, of a self-contained original: what is left is self-contained and runs the same from every state, whatever unknown names mean, if and only if the two conditions hold |
| `Deletion.AcceptedIffClean` | crates/mivon-elaboration/src/elaborator/expr.rs:1682-1727 | the elaborator, which looks at the names in the statements, accepts what is left if and only if no call of a deleted function is left |
| `Deletion.NeverWrong` | crates/mivon-ast/src/inline.rs:141-175 | without any condition: if calls of deleted functions fail, what is left ends only where the original ends, and with the same original variables |
| `Deletion.FallbackIff` | crates/mivon-elaboration/src/elaborator/expr.rs:1701-1745 | whatever the names of deleted functions fall back to, a run of what is left ends the same, if and only if it ends when they fall back to nothing |
| `DeletionExamples.ShieldedIsLost` | crates/mivon-ast/src/inline.rs:141-175 | `y = $clog2(f(1))` is left as it is and `f` deleted: the original ends, what is left does not |
| `DeletionExamples.GuardedIsLost` | crates/mivon-ast/src/inline.rs:2067-2101 | the same for a call under 199 or more operators, which the depth guard leaves |
| `DeletionExamples.GuardStandsAt` | crates/mivon-ast/src/inline.rs:2067-2101 | a call under operators in a statement is expanded if and only if there are fewer than 199 of them |
| `DeletionExamples.HelperIsLost` | crates/mivon-simulator/src/simulator/engine/eval/ast.rs:749-770 | a recursive function is kept and its helper deleted: the original gives 1, what is left gives whatever the helper's name falls back to |
| `DeletionExamples.DeadCallIsHarmless` | crates/mivon-ast/src/inline.rs:141-175 | a kept function whose call of a deleted one is never run loses nothing, so the second condition, which looks at names only, is not necessary for a single run |
| `InlineComplete.CleanIffSs` | crates/mivon-ast/src/inline.rs:2067-2421 | in an acyclic program, below the depth limits, every call that could be expanded is, and a call of an inlinable function is left if and only if it stands under an unknown function somewhere in the expansion |
| `InlineComplete.DeclaresSs` | crates/mivon-ast/src/inline.rs:2104-2335 | the declared temporaries are distinct, fresh for the calls numbered, and include every variable the rewriting newly writes |
| `InlineComplete.ExampleIsInlined` | crates/mivon-ast/src/inline.rs:2051-2421 | a program with nested calls over original variables that is detected, well formed, acyclic and within the depth limit, and whose calls are all inlined |
| `InlineComplete.ExpansionAssignsIff` | crates/mivon-ast/src/inline.rs:2163-2170 | an expanded body assigns an original variable if and only if the function assigns a formal for which that plain variable was given, or the variable itself |
| `Inliner.Inliner.ReplaceCalls` | crates/mivon-ast/src/inline.rs:2019-2049 | expression rewriting with counter, preamble and temporaries in place is the specified transformation, and the depth counter is put back |
| `Inliner.Inliner.InlineStmt` | crates/mivon-ast/src/inline.rs:406-426 | the same for statements |
| `Inliner.InlineModule` | crates/mivon-ast/src/inline.rs:28-176 | detect, rewrite a whole module body, whatever the initialisers call, and delete: meaning and divergence kept by the rewriting; with the kept functions alone, under the two conditions of `Deletion.ModulePreserved`; temporaries declared; and, where expansion is acyclic and within the depth limit, no call left but shielded ones; only functions off every collected cycle need be well scoped |
| `ConstSyntax.EncodeString` | crates/mivon-ast/src/const_eval.rs:8-15 | the encoding loop gives the little-endian number of the first eight bytes |
| `ConstArith.ModPow` | crates/mivon-ast/src/const_eval.rs:391-422 | square and multiply returns the power modulo two to the width, for every base and every exponent read as 64 bits |
| `ConstArith.ExtendedPow` | crates/mivon-ast/src/const_eval_ext.rs:116-132 | the extended evaluator's loop returns the power modulo two to the 64 |
| `ConstArith.PowersAgree` | crates/mivon-ast/src/const_eval.rs:391-422 | the first power is the second one reduced to the result width |
| `ConstArith.ArithmeticShiftIsFloor` | crates/mivon-ast/src/const_eval.rs:605-638 | `>>>` at a width up to 63 is the signed value divided by a power of two, rounded down, for every amount |
| `ConstArith.LeftShiftIsMultiply` | crates/mivon-ast/src/const_eval.rs:556-580 | `<<` is multiplication by a power of two modulo the width, for every amount |
| `ConstArith.ShiftsEvaluate` | crates/mivon-ast/src/const_eval.rs:556-638 | the evaluator's shift results are those two |
| `ConstArith.LiteralDivision` | crates/mivon-ast/src/const_eval.rs:90-122 | division of literals at their shared width fails exactly if the divisor's pattern is zero; otherwise quotient times divisor plus remainder is the dividend, rounding toward zero |
| `ConstArith.Clog2IsLeast` | crates/mivon-ast/src/const_eval.rs:949-966 | `$clog2` is the least exponent whose power of two reaches the argument |
| `ConstConcat.PackConcat` | crates/mivon-ast/src/const_eval.rs:1094-1140 | the packing loop over accumulator and shift evaluates the concatenation |
| `ConstConcat.ConcatIs` | crates/mivon-ast/src/const_eval.rs:1094-1140 | up to 63 bits of sized elements the value is the elements side by side, and it fails exactly if an element fails |
| `ConstConcat.ConcatSplits` | crates/mivon-ast/src/const_eval.rs:1094-1140 | splitting a concatenation: high part times two to the low part's width, plus the low part |
| `ConstConcat.ConcatFlattens` | crates/mivon-ast/src/const_eval.rs:1094-1140 | a nested concatenation may be flattened, in value and in failure |
| `ConstConcat.EvaluateReplicate` | crates/mivon-ast/src/const_eval.rs:760-789 | the copying loop evaluates the replication; up to 63 bits it packs the copies side by side |
| `ConstConcat.ReplicateIsConcat` | crates/mivon-ast/src/const_eval.rs:760-789 | `{n{e}}` is the concatenation of n copies of e, in value and in failure |
| `ConstConcat.ReplicateNests` | crates/mivon-ast/src/const_eval.rs:760-789 | nested replication multiplies the counts |
| `ConstConcat.SelectsElement` | crates/mivon-ast/src/const_eval.rs:911-925 | selecting an element's position out of a concatenation gives the element modulo two to its width |
| `ConstConcat.WidthSound` | crates/mivon-ast/src/const_eval.rs:198-271 | a syntactic width from 1 to 63 bounds the value if and only if no node shows bits above it: an unfit or negative literal, a minus of anything but zero or a small negative number, a `>>>` by zero or more of a value whose top bit is set |
| `ConstConcat.MinusEscapesWidth` | crates/mivon-ast/src/const_eval.rs:198-271 | an instance: a unary minus keeps its operand's width and goes below zero |
| `ConstLaws.OrderIs` | crates/mivon-ast/src/const_eval.rs:170-197 | `<` is 1 if and only if the left value is less than the right one, if both operands are signed; otherwise if and only if the left value modulo two to its operand's width, 64 bits at most, is less than the right one modulo two to its own |
| `ConstLaws.WhatIsSigned` | crates/mivon-ast/src/const_eval.rs:148-167 | decimals are signed, and under parentheses, signs and `~` stay so; names and all other operators are not, so that a comparison with them is one of 64-bit patterns |
| `ConstLaws.LiteralOrder` | crates/mivon-ast/src/const_eval.rs:43-58 | literals of written widths are ordered by their numbers in two's complement if both are marked as signed, and by their patterns if not |
| `ConstLaws.OrdersAgree` | crates/mivon-ast/src/const_eval.rs:469-507 | `>`, `>=` and `<=` are `<` with operands exchanged or denied, in failure too |
| `ConstLaws.EqualityIs` | crates/mivon-ast/src/const_eval.rs:451-468 | the equalities, plain, case and wildcard, compare whole values |
| `ConstLaws.OrdersAlike` | crates/mivon-ast/src/const_eval_ext.rs:138-141 | on signed operands of the fragment on which the evaluators agree they order alike, and fail together |
| `ConstLaws.LiteralIs` | crates/mivon-ast/src/const_eval.rs:43-58 | a number written out in any radix is a literal of that number as a 64-bit word, of its two's complement if it is marked and has a width below 64, and an error from two to the 64 on |
| `ConstLaws.DigitSpellings` | crates/mivon-ast/src/const_eval.rs:30-34 | unknown digits count as 0, and digits above 9 may be written in capitals |
| `ConstLaws.LiteralWidthIs` | crates/mivon-ast/src/const_eval.rs:215-223 | the width counted from a literal's digits is that of as many digits: two to it is the radix to their number |
| `ConstLaws.ReplicateWidth` | crates/mivon-ast/src/const_eval.rs:206-212 | a replication is as wide as the concatenation it stands for |
| `ConstLaws.ArithmeticIs` | crates/mivon-ast/src/const_eval.rs:309-359 | sums, differences, products and negatives are the 64-bit words congruent to the numbers |
| `ConstLaws.PowerIs` | crates/mivon-ast/src/const_eval.rs:391-422 | a power is reduced to the larger known operand width, or is a 64-bit word if none is known |
| `ConstLaws.BitwiseIs` | crates/mivon-ast/src/const_eval.rs:527-555 | each bit of a bitwise result comes from the operands' bits at its place |
| `ConstLaws.ComplementIs` | crates/mivon-ast/src/const_eval.rs:317-332 | `~` turns every bit below the operand's width, and leaves none above unless the width is unknown |
| `ConstLaws.ReductionIs` | crates/mivon-ast/src/const_eval.rs:675-738 | a reduction is 1 or 0 as the operand's bits are all set, not all, some, none, an odd or an even number |
| `ConstLaws.DivisionIs` | crates/mivon-ast/src/const_eval.rs:360-390 | division of operands that are not both literals fails exactly for a zero divisor, rounds toward zero if both are signed, and divides the 64-bit patterns if not |
| `ConstLaws.WideLiteralDivision` | crates/mivon-ast/src/const_eval.rs:105-122 | two literals without a width below 64 are divided as 64-bit words, with 0 for the least one by -1 |
| `ConstLaws.RightShiftIs` | crates/mivon-ast/src/const_eval.rs:576-638 | `>>` at a width up to 63 divides the value by a power of two, rounding down, and then masks it; amounts of 64 and more give 0 |
| `ConstLaws.WideShiftsAre` | crates/mivon-ast/src/const_eval.rs:556-638 | the shifts of an operand of unknown width; `>>>` is division rounding down if and only if the word is not negative or gives -1 |
| `ConstLaws.SelectionsAre` | crates/mivon-ast/src/const_eval.rs:878-946 | a range, the part select of the same bits and the single bits are the value's bits at those places |
| `ConstLaws.NamesAre` | crates/mivon-ast/src/const_eval.rs:295-307 | where names, qualified names and elements are looked for, and in which order |
| `ConstLaws.IndexKeysDiffer` | crates/mivon-ast/src/const_eval.rs:878-905 | elements of different indices have different keys |
| `ConstLaws.UnsizedReplicateIs` | crates/mivon-ast/src/const_eval.rs:760-789 | replication without a known width gives 0 for a 0, copies of `1'b1` for a 1 and an error otherwise; with one, an error beyond 63 bits |
| `ConstLaws.UnsizedElementIs` | crates/mivon-ast/src/const_eval.rs:1094-1140 | a number without a width stands in a concatenation like its binary digits without leading zeros |
| `ExtEval.EvalMonotone` | crates/mivon-ast/src/const_eval_ext.rs:167-393 | an expression that has a value keeps it when more constants become known |
| `ExtLaws.ComparisonsAre` | crates/mivon-ast/src/const_eval_ext.rs:133-144 | orders compare signed values, equality whole ones, and the logical operators whether they are zero |
| `ExtLaws.OperatorIs` | crates/mivon-ast/src/const_eval_ext.rs:99-149 | arithmetic, power, bitwise and shift operators give the 64-bit word they should, as a number modulo two to the 64 or bit by bit |
| `ExtLaws.DivisionIs` | crates/mivon-ast/src/const_eval_ext.rs:104-115 | quotient times divisor plus remainder is the dividend, rounding toward zero; it fails exactly for a zero divisor and for the least word by -1 |
| `ExtLaws.UnaryIs` | crates/mivon-ast/src/const_eval_ext.rs:212-228 | minus is negation modulo two to the 64, and `~` turns every bit below a width of at least 32 |
| `ExtLaws.ConcatIs` | crates/mivon-ast/src/const_eval_ext.rs:328-334 | an array has its elements' values in order, and fails exactly if one of them does |
| `ExtLaws.ArraySelectionsAre` | crates/mivon-ast/src/const_eval_ext.rs:256-327 | elements and slices of arrays by position; outside them, an error |
| `ExtLaws.StructIs` | crates/mivon-ast/src/const_eval_ext.rs:348-387 | a member of a struct literal is the first of its name or else the first default, and an error without either |
| `ExtLaws.LiteralIs` | crates/mivon-ast/src/const_eval_ext.rs:65-73 | underscores, width and mark of a literal do not count: it is its number as a 64-bit word |
| `ExtLaws.CeilDivIs` | crates/mivon-ast/src/const_eval_ext.rs:441-448 | `ceil_div` is the least integer not below the fraction if and only if the signs agree or nothing is left over |
| `PackageStore.GridIsRowMajor` | crates/mivon-ast/src/const_eval_ext.rs:75-89 | an array of rows of scalars is kept row after row |
| `PackageStore.FlattenOpens` | crates/mivon-ast/src/const_eval_ext.rs:75-89 | an inner array may be opened up where it stands, and a struct counts as a 0 |
| `PackageStore.StoredReadsBack` | crates/mivon-ast/src/const_eval_ext.rs:860-931 | a stored scalar is read by the parameter's name; an array of scalars as a whole and by element; rows by element; a struct as a whole and by member; under a field's own key, of structs and of structs in arrays, its last scalar value is found, and nothing without one |
| `PackageParams.Round` | crates/mivon-ast/src/const_eval_ext.rs:832-940 | a round visits every parameter once, in any order, stores more parameters if it reports a change, and otherwise leaves none that could be stored |
| `PackageParams.EvalPackageConstants` | crates/mivon-ast/src/const_eval_ext.rs:822-982 | the tables returned come from a run, and each parameter stored reads back, scalar, element or member, as the value of its default in those tables; if 256 lazy rounds leave nothing to store, they are the lazy tables, and with at most 256 parameters that is so; whenever they are complete, every complete run ends in them |
| `PackageParams.RoundsSufficeIff` | crates/mivon-ast/src/const_eval_ext.rs:832-940 | every run of n rounds is complete if and only if n lazy rounds are, whether the order may change from round to round or stays the same |
| `PackageParams.SizeSuffices` | crates/mivon-ast/src/const_eval_ext.rs:832-833 | as many lazy rounds as parameters are enough |
| `PackageParams.IndependentNeedOneRound` | crates/mivon-ast/src/const_eval_ext.rs:832-940 | however many parameters there are, if each can be evaluated alone one round is enough |
| `PackageParams.VisitExplained` | crates/mivon-ast/src/const_eval_ext.rs:843-931 | storing a parameter keeps every entry equal to its default evaluated in the present tables, flattened, with the derived field entries, and so reading back as that default |
| `PackageParams.RunExplained` | crates/mivon-ast/src/const_eval_ext.rs:822-982 | so every table any order of visits reaches is explained by the defaults, and every parameter in it reads back as its default |
| `PackageParams.RunIsLeast` | crates/mivon-ast/src/const_eval_ext.rs:822-982 | whatever a run stores is in every explained and complete table |
| `PackageParams.OrderDoesNotMatter` | crates/mivon-ast/src/const_eval_ext.rs:822-982 | two runs that leave nothing to store end in equal tables, whatever their orders |
| `PackageParams.BoundIsTight` | crates/mivon-ast/src/const_eval_ext.rs:832-833 | n parameters may need n rounds: after any smaller number, a parameter that could be evaluated is missing |
| `ConstAgree.EvaluatorsAgree` | crates/mivon-ast/src/const_eval_ext.rs:167-255 | on names, decimals, unmarked literals, strings and operators that ignore widths both evaluators give the same value and fail together |
| `ConstAgree.ReductionXnorDiffers` | crates/mivon-ast/src/const_eval_ext.rs:232-236 | on the reduction `~^` of an operand of that fragment the evaluators agree if and only if the operand has no value |
| `ConstAgree.EvaluatorsDiffer` | crates/mivon-ast/src/const_eval_ext.rs:232-236 | an instance: `~^1` is 0 for one evaluator and 1 for the other |
| `ConstAgree.LetIsBinding` | crates/mivon-ast/src/inline_util.rs:963-1061 | evaluating the substituted body is evaluating the body with the parameters bound to the arguments' values, all at once |
| `ConstAgree.LetComplement` | crates/mivon-ast/src/inline_util.rs:997-1000 | under `~` that holds if and only if the argument's own width does not cut the complement |
| `ConstAgree.RenamingIsUndone` | crates/mivon-ast/src/inline_util.rs:963-1061 | substitution reaches every name but those in struct literals: renaming the parameters leaves none of them, and renaming back gives the body again |
| `Interpreter.Interpreter.CallFunction` | crates/mivon-ast/src/const_eval_ext.rs:602-622 | every call ends, whatever the functions do, gives the specified result, and puts the depth counter back on success and on error |
| `Interpreter.Interpreter.EvalExpr` | crates/mivon-ast/src/const_eval_ext.rs:167-393 | the same for expressions that call functions |
| `Interpreter.Interpreter.Run` | crates/mivon-ast/src/const_eval_ext.rs:685-819 | the same for statements |
| `Interpreter.Interpreter.RunLoop` | crates/mivon-ast/src/const_eval_ext.rs:726-774 | the same for loops, whose guard allows the limit's number of turns |
| `FuncLaws.IfReturnIsChoice` | crates/mivon-ast/src/const_eval_ext.rs:712-725 | `if (c) return a; else return b;` is `return c ? a : b;`, in value and in failure |
| `FuncLaws.SequenceIs` | crates/mivon-ast/src/const_eval_ext.rs:705-711 | a sequence runs its second part in the tables the first one leaves, unless that fails or returns |
| `FuncLaws.WhileUnrolls` | crates/mivon-ast/src/const_eval_ext.rs:757-774 | `if (c) { b; while (c) b }` is the loop with one more turn to go, and so the loop itself wherever that ends |
| `FuncLaws.MoreTurns` | crates/mivon-ast/src/const_eval_ext.rs:757-774 | a loop that ends within its turns does the same with one more |
| `FuncLaws.LoopEnds` | crates/mivon-ast/src/const_eval_ext.rs:726-774 | a loop that ends without a return ends where its condition is 0 |
| `FuncLaws.ForIsWhile` | crates/mivon-ast/src/const_eval_ext.rs:726-756 | `for (i; c; s) b` is `i; while (c) { b; s }`, if its header does not return |
| `FuncLaws.ForDefaults` | crates/mivon-ast/src/const_eval_ext.rs:726-756 | a missing part of a loop header does nothing, and a missing condition is 1 |
| `FuncLaws.HeaderReturnIgnored` | crates/mivon-ast/src/const_eval_ext.rs:726-756 | a return in a loop header is ignored |
| `FuncLaws.RepeatUnrolls` | crates/mivon-ast/src/const_eval_ext.rs:775-785 | `repeat (n) b` is `b; repeat (n - 1) b`, and nothing for a count that is not positive |
| `FuncLaws.AssignThenRead` | crates/mivon-ast/src/const_eval_ext.rs:786-796 | a name assigned and returned gives the assigned value if and only if the package has no other constant of that name |
| `FuncLaws.AssignElemIs` | crates/mivon-ast/src/const_eval_ext.rs:797-808 | an element assigned within a known array changes, the others keep their values, and elsewhere nothing happens |
| `FuncLaws.PortsAreBound` | crates/mivon-ast/src/const_eval_ext.rs:630-642 | each port holds the value of the argument at its place, evaluated in the caller's tables, and no other name changes |
| `FuncLaws.LocalsAre` | crates/mivon-ast/src/const_eval_ext.rs:643-670 | a local starts with its initialiser's value after the locals before it; one that fails leaves what the name held; an array starts empty |
| `FuncLaws.CallReturnsArgument` | crates/mivon-ast/src/const_eval_ext.rs:602-683 | a function that returns a port gives the argument's value up to the depth allowed, and fails beyond |
| `FuncLaws.CallPassesOn` | crates/mivon-ast/src/const_eval_ext.rs:602-683 | a function that returns a call of another gives what that call gives one level deeper |
| `ConstFunc.DepthOnlyFails` | crates/mivon-ast/src/const_eval_ext.rs:606-622 | a call that succeeds at some depth gives the same value at every smaller depth, if initialisers call no package function |
| `ConstFunc.InitialiserHidesTheGuard` | crates/mivon-ast/src/const_eval_ext.rs:643-666 | otherwise it may give another value |
| `ConstFunc.RecursionFails` | crates/mivon-ast/src/const_eval_ext.rs:606-622 | functions each of whose bodies has to call one of them, in an expression or statement it cannot get round, fail at every depth, whatever the arguments and tables |
| `ConstFunc.SelfCallFails` | crates/mivon-ast/src/const_eval_ext.rs:606-622 | an instance: a function that only returns a call of itself |
| `ConstFunc.EndlessLoopFails` | crates/mivon-ast/src/const_eval_ext.rs:726-774 | a `for` or `while` loop ends in an error if an invariant of the tables holds at its start, keeps its condition from being false, and is kept by every turn that succeeds, none of which returns |
| `Ddmin.TryChunks` | crates/mivon-fuzz/src/minimize.rs:26-42 | a sweep deletes a chunk whose deletion keeps the predicate; at chunk size one, finding none means that no single line can go |
| `Ddmin.FirstCutIs` | crates/mivon-fuzz/src/minimize.rs:29-42 | of the chunks that start at multiples of the chunk size the first that can be cut is, and nothing if none can |
| `Ddmin.LastLineStays` | crates/mivon-fuzz/src/minimize.rs:19-50 | for the predicate that accepts everything the line phase leaves the last line |
| `Ddmin.Schedule` | crates/mivon-fuzz/src/minimize.rs:24-48 | instances that fix the schedule: halves first, the granularity one less after a cut and doubled after a sweep without one |
| `Ddmin.PhaseLines` | crates/mivon-fuzz/src/minimize.rs:18-51 | for every predicate the line phase ends, returns the specified text, a subsequence of the lines, and with two or more left no single line can go |
| `Ddmin.LinePhaseKeepsIff` | crates/mivon-fuzz/src/minimize.rs:18-51 | every predicate true of the source is true of what the line phase returns if and only if there are fewer than two lines, or the source ends with a newline and has no carriage return before one |
| `Ddmin.UnlinesOfLines` | crates/mivon-fuzz/src/minimize.rs:19-50 | splitting and joining gives a text back if and only if it ends with a newline and has no carriage return before one; otherwise it grows by at most the final newline |
| `Ddmin.JoiningCanFalsify` | crates/mivon-fuzz/src/minimize.rs:50-50 | an instance: a source without a final newline and a predicate that the returned text does not satisfy |
| `Ddmin.SweepChars` | crates/mivon-fuzz/src/minimize.rs:57-68 | one pass gives a subsequence that still satisfies the predicate, and at granularity one, for an upward-closed predicate, one that can lose no character |
| `Ddmin.OnePassNotEnough` | crates/mivon-fuzz/src/minimize.rs:56-70 | without upward closure the single pass can stop too early |
| `Ddmin.LastCharacterStays` | crates/mivon-fuzz/src/minimize.rs:57-68 | a pass goes from the left: of a text that only must not become empty the last character is left |
| `Ddmin.CharacterSchedule` | crates/mivon-fuzz/src/minimize.rs:53-73 | instances of the whole minimiser that fix the character phase: chunks start at half the text, halve, and are passed by as a whole |
| `Ddmin.ShrinkChars` | crates/mivon-fuzz/src/minimize.rs:53-70 | the character phase before the trim keeps the predicate and, for upward-closed predicates and two characters or more, ends minimal |
| `Ddmin.Minimize` | crates/mivon-fuzz/src/minimize.rs:10-16 | the whole minimiser: a source that does not satisfy the predicate comes back unchanged; the text before the trim satisfies it if the line phase keeps every predicate of the source, and so does the result if the predicate does not mind trimming; the result grows by at most one character, and not at all if the source ends with a newline |
| `Ddmin.TrimCanFalsify` | crates/mivon-fuzz/src/minimize.rs:71-73 | an instance: a predicate on a leading blank that the result does not satisfy |
| `Ddmin.BlanksGo` | crates/mivon-fuzz/src/minimize.rs:71-71 | the characters trimmed are the 25 with the Unicode property White_Space |
| `Memory.AddKeepsValid` | crates/mivon-emu/src/mem.rs:315-335 | a region is added exactly if the regions stay disjoint |
| `Memory.WriteThenRead` | crates/mivon-emu/src/mem.rs:364-385 | what is written little-endian is read back modulo two to the bits written |
| `Memory.OrderIsInvisible` | crates/mivon-emu/src/mem.rs:337-341 | the order of disjoint regions cannot be seen through addresses |
| `Memory.PokeIsLocal` | crates/mivon-emu/src/mem.rs:374-385 | storing a byte changes that byte of the view and no other, and nothing in read-only memory |
| `HostRegion.RamRegion.Read` | crates/mivon-emu/src/mem.rs:153-171 | the shift-and-or loop reads the specified number, with the same failures |
| `HostRegion.RamRegion.Write` | crates/mivon-emu/src/mem.rs:173-196 | the in-place loop leaves the specified region, and nothing changed when it fails |
| `HostRegion.RamRegion.WriteSlice` | crates/mivon-emu/src/mem.rs:245-268 | copies a run of bytes, or changes nothing |
| `HostRegion.RamRegion.FillZero` | crates/mivon-emu/src/mem.rs:289-291 | clears every byte |
| `Snapshot.EncodePages` | crates/mivon-emu/src/snapshot.rs:140-148 | the loop collects exactly the non-zero pages with their numbers |
| `Snapshot.PagesAre` | crates/mivon-emu/src/snapshot.rs:140-148 | a page is kept if and only if it is not all zero, as the bytes from 4096 times its number on |
| `Snapshot.RegionRoundTrip` | crates/mivon-emu/src/machine.rs:219-241 | restoring a saved region succeeds unless it is read-only and was saved with a non-zero byte, and gives every byte back |
| `Snapshot.MatchRegions` | crates/mivon-emu/src/machine.rs:185-217 | the pairing check passes if and only if the saved regions are the map's regions, each once, in any order |
| `Snapshot.RestoreRoundTrip` | crates/mivon-emu/src/machine.rs:219-241 | restoring a saved memory into a permuted map succeeds exactly if no read-only region takes a non-zero byte, and then every region has the saved bytes |
| `Machine.LegsJoin` | crates/mivon-emu/src/machine.rs:92-151 | a run that stops early ignores a larger bound; one that reaches its bound goes on from there |
| `Machine.RunsJoin` | crates/mivon-emu/src/machine.rs:92-151 | n steps and then at most m are one run of at most n + m, counters and report included, exactly unless the second part faults after a non-empty first |
| `Machine.LooksAlikeRunsAlike` | crates/mivon-emu/src/machine.rs:92-151 | memories that look alike give the same run and look alike after it |
| `Machine.SnapshotIsTransparent` | crates/mivon-emu/src/machine.rs:153-245 | a snapshot restored on any machine with the same regions in any order, whatever its memory held, continues as the original would; and exactly when restoring succeeds |
| `Machine.SavedRunGoesOn` | crates/mivon-emu/src/machine.rs:92-245 | running, saving, restoring elsewhere and running on is one uninterrupted run |
| `Machine.Machine.Run` | crates/mivon-emu/src/machine.rs:92-151 | the loop consists of such steps, ends in the specified state and report, and leaves the counters as they were after a fault |
| `Machine.PokeAllStores` | crates/mivon-emu/src/machine.rs:92-97 | after some stores an address holds the last byte stored there, if it can be written, and else what it held |
| `Machine.RunHasSteps` | crates/mivon-emu/src/machine.rs:92-151 | every bounded run consists of steps of the core, each in the memory in which every address holds what the steps before stored there last; counters, stop, report and final memory are said of these steps |
| `Machine.Machine.Save` | crates/mivon-emu/src/machine.rs:156-177 | a snapshot holds the core, the counters and every region's non-zero pages |
| `Machine.Machine.Restore` | crates/mivon-emu/src/machine.rs:177-245 | says what is left in every case: a rejected core changes nothing, a region mismatch leaves memory and counters, a failing region leaves the ones before it restored |
| `Machine.MismatchKeepsIff` | crates/mivon-emu/src/machine.rs:183-217 | a snapshot of other regions is refused and leaves memory and counters; the machine is left as it was if and only if the core refuses the snapshot or is in the saved state already |
| `Machine.RefusedSnapshotChangesCore` | crates/mivon-emu/src/machine.rs:183-217 | an instance: a refused snapshot that changes the core |
| `ChunkedWrite.WriteSets` | crates/mivon-emu/src/mem.rs:374-385 | a successful write sets its bytes and no other, and keeps the regions |
| `ChunkedWrite.WriteChecked` | crates/mivon-emu/src/elf.rs:176-188 | the chunk loop |
| `ChunkedWrite.ChunksAreEights` | crates/mivon-emu/src/elf.rs:176-188 | the chunks of that condition are eight bytes each and a rest |
| `ChunkedWrite.ChunkedIsBytewise` | crates/mivon-emu/src/elf.rs:176-188 | writing in chunks succeeds if and only if writing byte by byte does and no chunk straddles the end of a region, and leaves the same memory |
| `Elf.Reads8` | crates/mivon-emu/src/elf.rs:45-56 | reading eight bytes is their little-endian number |
| `Elf.ParseIsExact` | crates/mivon-emu/src/elf.rs:63-148 | the parser gives a header and program headers if and only if the file holds them, each field at its offset and of its width, for both classes and any number of entries |
| `Elf.ParseElf` | crates/mivon-emu/src/elf.rs:63-148 | the parser, with its rejections and its aborts; what it gives is what the file holds, field by field |
| `Elf.ParseAborts` | crates/mivon-emu/src/elf.rs:63-120 | the parser aborts exactly on a file cut within its first 20 bytes or with its first program header beyond 64 bits |
| `Elf.LoadElf` | crates/mivon-emu/src/elf.rs:151-173 | the loader's loop over the segments |
| `Elf.LoadIsExact` | crates/mivon-emu/src/elf.rs:151-173 | after loading disjoint segments every address of a segment holds its byte of the file, or zero past the file's part |
| `Elf.LoadKeeps` | crates/mivon-emu/src/elf.rs:151-173 | an address no segment fills keeps its byte |
| `Elf.LoadsIff` | crates/mivon-emu/src/elf.rs:151-188 | a file loads if and only if it parses and every loadable segment lies within it and has only writable addresses, in chunks that stay inside one region each, in the memory given |
| `Elf.LoadedFile` | crates/mivon-emu/src/elf.rs:151-173 | a file that holds these headers, once loaded: the entry point is the header's, segments hold their bytes of the file and then zeros, and other addresses are as they were |
| `Elf.MakeElf` | crates/mivon-emu/examples/gen_elf.rs:7-39 | the built file parses to the fields it was built from, the size truncated to 32 bits, and ends with the payload |
| `Elf.MadeElfLoads` | crates/mivon-emu/examples/gen_elf.rs:7-39 | a built file loads if and only if the payload's addresses can be written in chunks; then the payload, up to its 32-bit size, is at its address, the program starts there and nothing else has changed |
| `Display.PixelsHaveDots` | crates/mivon-emu/src/display.rs:199-232 | at every scale each pixel of the framebuffer belongs to one dot of the picture |
| `Display.PaletteIs` | crates/mivon-emu/src/display.rs:388-405 | the sixteen colours are a bit each for red, green and blue and one for brightness, but for brown |
| `Display.VgaDisplay.WriteChar` | crates/mivon-emu/src/display.rs:160-169 | sets one cell, or nothing off the screen, and keeps the cache invariant |
| `Display.VgaDisplay.WriteByte` | crates/mivon-emu/src/display.rs:182-188 | sets one byte of the buffer and keeps the cache invariant |
| `Display.VgaDisplay.ScrollUp` | crates/mivon-emu/src/display.rs:317-334 | the in-place copy moves every row up whole and blanks the last |
| `Display.VgaDisplay.PaintDot` | crates/mivon-emu/src/display.rs:214-225 | paints the scale-by-scale square of one dot and no other pixel |
| `Display.VgaDisplay.Render` | crates/mivon-emu/src/display.rs:199-232 | every pixel of every cell shows its character's glyph, the highest bit leftmost, in the low half of the attribute where the bit is set and the high half where not, at any scale; a clean display is left as it is |
| `Console.ShowConsole` | src/main.rs:4513-4535 | whatever is typed, the screen shows the last 25 lines of a terminal that forgets none, and the window shows that screen |
| `Console.ControlsAre` | src/main.rs:4513-4530 | a return goes to the first column, so that what follows overwrites the line, and a tab to the next multiple of eight; neither writes |
| `Console.OpenConsole` | src/main.rs:4507-4537 | a new display with that text typed on it, starting from the blank screen |
| `Console.PrintableLines` | src/main.rs:4513-4535 | for printable text and line feeds those lines are the text's lines, each cut to 80 columns |
| `LogicVec.FromU64` | crates/mivon-core/src/logic.rs:127-150 | the loop spells the number's low bits |
| `LogicVec.ToU64` | crates/mivon-core/src/logic.rs:152-160 | the loop reads the value of the low 64 bits |
| `LogicVec.NumberIsValue` | crates/mivon-core/src/logic.rs:152-160 | the number read is the vector's value modulo two to the 64 |
| `LogicVec.SignedIsTwosComplement` | crates/mivon-core/src/logic.rs:162-174 | up to 64 bits the signed reading is two's complement |
| `LogicVec.ResizeIsModulo` | crates/mivon-core/src/logic.rs:199-228 | resizing to n bits takes the value modulo two to n |
| `LogicVec.ExtendIsConcatenation` | crates/mivon-core/src/logic.rs:230-246 | extending puts the other value above, modulo two to the 64 |
| `LogicVec.TruthIsOr` | crates/mivon-core/src/logic.rs:176-197 | the truth of a joined vector is the three-valued disjunction of its parts' truths, and that of a bit is its own, unknown for X and Z |
| `LogicVec.PrintThenParse` | crates/mivon-core/src/logic.rs:256-262 | parsing a printed vector gives it back if and only if it is not empty, fully known, below two to the 64, and within the width limit |
| `LogicVec.PrintedIs` | crates/mivon-core/src/logic.rs:367-385 | a text is a vector's printed form if and only if it has a character for each bit, the highest first, `0`, `1`, `x` or `z` |
| `LogicVec.FromString` | crates/mivon-core/src/logic.rs:264-293 | the nested loop spells the string's bytes, lowest bit first |
| `LogicVec.StringsAgree` | crates/mivon-core/src/logic.rs:264-293 | a string has the same 64-bit number at run time as at compile time |
| `LogicVec.CaseValEq` | crates/mivon-core/src/logic.rs:333-347 | the `case` comparison, bit by bit to the wider width |
| `LogicVec.CaseZEq` | crates/mivon-core/src/logic.rs:318-331 | the `casez` comparison, where a Z in the pattern accepts anything |
| `LogicVec.CaseXEq` | crates/mivon-core/src/logic.rs:303-316 | the `casex` comparison, where an X does too |
| `LogicVec.CaseIsExtendedEquality` | crates/mivon-core/src/logic.rs:333-347 | the `case` comparison is equality after zero extension to the wider width |
| `LogicVec.WildcardsAreFilled` | crates/mivon-core/src/logic.rs:303-331 | `casez` is `case` with the pattern's Zs filled in from the vector, `casex` with its Xs and Zs |
| `LogicVec.CasesNest` | crates/mivon-core/src/logic.rs:303-347 | `case` implies `casez`, which implies `casex`, and on a known pattern all three agree |

## Left out

Inliner:

- Default arguments, output ports, returns nested in `if`, missing arguments: a function is formals, initialised locals, statements and one final return, and calls supply every argument.
- Loop headers, case labels, calls on the left of an assignment, assertions, `fork` and `randsequence`: their preambles do not preserve meaning or skip the recursion check.
- Inliner.InlineModule: requires the scoping rules (`WellScoped`) of functions off every collected cycle. Legal functions break three of them: one that calls itself in an initialiser (`InlineGraph.SelfCallIsSpoiled`), one that assigns a formal or a module variable (`InlineComplete.ExpansionAssignsIff`), and one that uses its own name as the variable to return.
- Deletion.ModulePreserved: gives sufficient conditions; a run that never comes to a call of a deleted function is preserved without them (`DeletionExamples.DeadCallIsHarmless`, `Deletion.FallbackIff`).
- What the elaborator does with calls other than accepting or rejecting their names, and the run-time evaluator of kept functions, which leaves out the initialisers of automatic locals.
- Textual names of temporaries, widths and types of temporaries, and the line numbers of nodes: temporaries are structured fresh names.
- A call that is left alone (recursive or unknown) may give any value, or none, that depends on its arguments and the original variables; its side effects are not modelled. An operator needs the values of all its operands, so that an unselected arm of a conditional operator that diverges makes it diverge. Every operator form that the collector and the inliner walk through is one node with operands.
- The count expression of a replication is part of the operator, because the inliner does not rewrite it.

Constant evaluators:

- The named helper functions and tables of OpenTitan in the width-aware evaluator: data, not logic.
- Typedefs in `$bits`, enum members during the fixed point, and package items other than parameters.
- Textual keys: qualified and derived names are structured keys, so a name can not collide with a derived one.
- Error messages; a failure is one value. A leading `+` in a literal is not accepted. Dividing the least 64-bit integer by -1 aborts the extended evaluator and is a failure here.
- Shift amounts outside 0 to 63 in the extended evaluator are reduced modulo 64, as in a build without overflow checks.
- Element widths whose sum with the bits in use exceeds 32 bits.
- ConstConcat.WidthSound: requires that no literal standing directly in a concatenation has width zero, as section 5.7.1 of IEEE 1800-2017 demands.
- Concatenations of exactly 64 bits are evaluated as the code does, but no law is stated there.
- Decimals and table entries may be any integers here; laws for which it matters (`ConstLaws.DivisionIs`, `ConstLaws.ReductionIs`, `ExtLaws.OperatorIs`) take operands that are 64-bit words, as all of them are in the program.
- Interpreter.Interpreter.EvalExpr: does not model `$bits` of a type, which starts a depth of its own; a `do` loop runs as a `while` loop, as in the code.

Minimiser:

- Ddmin.Minimize: that the trimmed text still satisfies the predicate is promised for predicates that trimming keeps, a sufficient condition.
- Ddmin.ShrinkChars: says nothing about minimality for predicates that are not upward closed, where it fails (`Ddmin.OnePassNotEnough`).

Machine and loader:

- CPU interpreters: a core is any deterministic function of its state and the visible memory.
- Machine.Machine.Run: requires that no step asks for a device, which no core of the repository does; such a step is not counted and the loop might not end.
- 64-bit wrap-around of counters, addresses and page numbers; host allocation of regions; the file format of snapshots.
- The machine holds its regions as values; updates inside one region's host memory are modelled in `HostRegion`.
- Elf.ParseAborts: requires a file below two to the 63 bytes; offsets that overflow 64 bits abort, as in a build with overflow checks.

Vectors and display:

- Arena allocation and lazily zeroed memory of vectors. The signed reading of an empty vector.
- Display.VgaDisplay.Render: requires characters below 128, because the font has no glyph beyond and the program aborts.
- The font's bitmaps are a parameter. Windows, key input, titles, `clear`, `write_str` and handing out the buffer for writing (which marks the display dirty) are left out.

Everything else in the repository (parser, elaborator, simulation engine, command line, caches) is not part of this model.
