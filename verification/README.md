# A verified model of g88

g88 is GDB 3.x with a Motorola 88000 back end. This project models the four parts of it whose
behaviour is decided by code rather than by the operating system, and proves what they promise.

**The stack unwinder** (`m88k-dep.c`, `findvar.c`). `M88k` gives instruction words, classified by the
effect flags of the opcode table, a meaning as a relation between machine states. `StackPointer`,
`SavedRegister` and `FrameChain` model the analyses that run stack adjustments backwards, follow a
register's entry value through a function, and compose those answers over frames; each is proved
against the machine, and `FrameAnswers` joins them into the unwinder of real frames. `RegisterFound` says
when a register must be found, and for what causes alone it is given up. `RegisterCache` is the
write-through register cache with its made-up `$pc` and `$synthfp`.

**Expressions** (`expread.tab.c`, `eval.c`, `expprint.c`). `Expression` has the flat vector and the
trees it stands for. `ExpressionBuilder` emits a tree in suffix order, `Prefixify` turns the vector
round, `Evaluator` runs it with a moving cursor in three modes, and `ExpressionCommand` joins the
stages. `Evaluation` says what the modes mean on trees and relates them to C; `TermModel` says what each
operation computes, by a program that records it. `Notation`, `Printer`, `Reader` and `RoundTrip` print a
vector and read the tokens back by the grammar's own precedences, and `Written` spells out what is printed.
`TypeStack` builds types from abstract declarators. `Layout` finds the parts of an expression in a
vector.

**Breakpoints and run control** (`breakpoint.c`, `infrun.c`). `Breakpoints` has the chain, its
duplicate marks and the words it patches; `RunControl` the loop that resumes the inferior and decides
what each stop means. Stops are events from outside. One ghost copy of memory says what it would be had
nothing been inserted, another, changed only by the inferior's own stores, what it would be had the debugger
never written to it; a ghost log records each resumption as it was made. `Session` is the whole of it: any
alternation of breakpoint commands, runs and restarts.

**Symbols** (`dbxread.c`, `blockframe.c`). `BlockBuilder` makes blocks from scopes as they close, on a
linked list, up to the blockvector; `Blocks` has the tree and the search of the vector. `Scopes` says, of
the symbols and braces themselves, which block an address and a symbol are in. `LineTables` and
`MiscFunctions` are the line tables of merged source files and the sorted loader symbols.

The results are stated for all inputs and all runs. Where the code falls short of what it promises, the
exact condition is proved beside a concrete case:

- A copy of the register followed is followed too far in two places: into r0, which keeps nothing, and in the
  delay slot of a delayed call into a register that the callee may overwrite. Just those moves lose the
  value (`SavedRegister.MoveFollowedExactly`, with `SavedRegister.MoveIntoR0DefeatsIt` and
  `SavedRegister.ArgumentInDelaySlotDefeatsIt`).
- The estimate of the entry stack pointer leaves out the last instruction examined. Just after the
  epilogue's adjustment it is off by that much, and so are the slots reported for registers saved off r31,
  and no other answers (`SavedRegister.EntrySpAfterAdjustExact`, `SavedRegister.AnswerAfterAdjustExact`,
  `SavedRegister.EpilogueDefeatsIt`).
- Stack adjustments by 0x8000 or more are undone with the wrong sign
  (`StackPointer.PreviousSpInvertsExecution`, `StackPointer.WideFrameDefeatsIt`).
- An r1 that was not saved is looked for in the innermost frame, whichever frame left it there; that is right
  on every chain only for the innermost frame itself (`FrameChain.UnsavedR1IsNotChased`). Three frames whose
  outermost is given the wrong pc are in `FrameAnswers.UnsavedR1Misread`.
- String literals allocate in the program even where only a type is wanted. Without ?:, finding a type is
  free of effects exactly where there are none (`Evaluation.TypingKeepsStateExactly`), and evaluation is C's
  exactly where no operand of sizeof, and none guarded by && or ||, has one
  (`Evaluation.NormalRefinesCExactly`): `x && "s"` makes its string twice and `sizeof "s"` makes one
  (`Evaluation.GuardedStringIsMadeTwice`, `Evaluation.SizeofMakesItsString`). With ?: the same conditions are
  sufficient (`Evaluation.AvoidKeepsState`, `Evaluation.NormalIsCheckedC`) but not necessary
  (`Evaluation.ConditionsCanHideStrings`).
- Operands that C would not evaluate are looked over, and their failures, but no others, are added to C's
  (`Evaluation.NormalIsCheckedC`, `Evaluation.UnusedOperandCanFail`).
- `x & (y ^ z)`, and `@` under an arithmetic operator, are printed without parentheses they need; as tokens,
  exactly these do not read back (`RoundTrip.PrintedReadsBack`, `RoundTrip.CaretUnderAmpersand`). That a
  prefix operator is printed close up to the next one, so that `-(-x)` comes out like `--x`, is not seen in
  tokens.
- The step-resume breakpoint is removed at a stop even if it has not been inserted since it was set. Memory
  is restored exactly if the breakpoints were in, or the step-resume breakpoint is absent or left to another,
  or its shadow is the word already there (`RunControl.Controller.NormalStop`). It is set and not put in
  where stepping leaves its range right at a breakpoint that lets the program go on, be it by a signal, a call
  or into a prologue (`RunControl.Controller.ActOnStop`); a call, and then a signal, are run through in
  `RunControl.SetButNeverIn`.
- A temporary breakpoint that goes off leaves the others at its address uninserted, exactly if it stood for
  them (`Breakpoints.HitKeepsMarksExactly`, `Breakpoints.HitKeepsCoverExactly`,
  `Breakpoints.TemporaryHidesTheNext`).
- The search for a loader symbol compares by a signed difference. It ends rightly for every address in a
  sorted vector's range exactly if the first symbol probed is less than 2^31 above the lowest and at most
  2^31 below the highest (`MiscFunctions.SearchRightExactly`); with two symbols further apart it goes round
  for ever (`MiscFunctions.SearchNeverEnds`).
- An array size of 0xffffffff is taken for none, and sizes from 2^31 come out negative
  (`TypeStack.BuiltAsDenotedExactly`, `TypeStack.UnsizedBySize`).

Ghost parameters name the tree or forest that a vector or a list stands for; the code itself sees only
elements. What the code calls and the model does not have (value operations, symbol lookup, the
conditions of breakpoints, the inferior's own progress) is a parameter.

## Model

| member | source | states |
|---|---|---|
| StackPointer.SynthesizePreviousSp | m88k-dep.c:1128-1170 | The backward loop over a function's text undoes every immediate stack adjustment between two addresses |
| StackPointer.PreviousSpOffset | m88k-dep.c:1128-1170 | On any run of straight-line code whose only r31 writers are immediate addu/subu, going backwards from the final stack pointer gives the initial one, off by 64K for each unmatched wide adjustment |
| StackPointer.PreviousSpInvertsExecution | m88k-dep.c:1128-1170 | It inverts execution if and only if adjustments with immediates of 0x8000 and up cancel |
| StackPointer.WideFrameDefeatsIt | m88k-dep.c:1156-1161 | A run of one subu r31,r31,0x8000 that is not inverted |
| SavedRegister.FindRegVal | m88k-dep.c:1203-1240 | The scan for a constant load finds the last `or` from r0, or the last low half joined to the high half before it, and 0 for neither |
| SavedRegister.RegValIsLoaded | m88k-dep.c:1203-1240 | For a register loaded by either idiom and not written since, the scan returns what the register holds |
| SavedRegister.Examine | m88k-dep.c:940-1049 | One instruction of the forward scan: keep, follow, stop at a save, or lose the value |
| SavedRegister.SavedAt | m88k-dep.c:1016-1043 | The address a save writes the tracked register to, with the second word of a double store |
| SavedRegister.ScanForward | m88k-dep.c:912-1052 | The scan to the frame's pc with its limit of 5000 instructions and the delay slot taken for a trailing delayed call |
| SavedRegister.FindSingleSavedReg | m88k-dep.c:863-1052 | The whole lookup in one frame, with its special cases for r0, r31 and registers out of range |
| SavedRegister.StepSound | m88k-dep.c:940-1049 | Across one executed instruction, call or delay slot, the value stays where the scan says it went |
| SavedRegister.SaveSound | m88k-dep.c:1016-1043 | After a save at which the scan stops, the slot named holds the tracked value as long as it is not overwritten |
| SavedRegister.TrackSound | m88k-dep.c:926-1052 | Over any run of any length, the place the scan ends with holds the value tracked |
| SavedRegister.SingleSound | m88k-dep.c:863-1052 | A register number, address or value returned for a frame holds what the register held on entry to the frame's function |
| SavedRegister.EntrySpAfterAdjustExact | m88k-dep.c:920-928 | Right after an instruction that moves r31, in a delay slot or not, the estimate of the entry stack pointer is off by that amount, and right only if it is 0 |
| SavedRegister.TrackShifts | m88k-dep.c:926-1052 | A wrong estimate moves the slots reckoned from r31 by as much as it is wrong, and changes no other answer |
| SavedRegister.AnswerAfterAdjustExact | m88k-dep.c:863-1052 | Right after such an instruction a frame's answer is the one a right estimate gives if and only if the register was not saved off r31 or the amount is 0 |
| SavedRegister.EpilogueDefeatsIt | m88k-dep.c:920-928 | A frame stopped after its epilogue's addu, and its run: the slot reported for r14 is 8 above where it was saved and holds something else |
| SavedRegister.MoveFollowedExactly | m88k-dep.c:982-997 | Following a move is right, from every state, if and only if it is neither into r0 nor, in a call's delay slot, into a register callees may change |
| SavedRegister.MoveIntoR0DefeatsIt | m88k-dep.c:982-997 | A frame and a run of `or r0,r0,r14` where r14's entry value is reported in r0 |
| SavedRegister.DelayedCopyExact | m88k-dep.c:982-997 | A copy made in a call's delay slot survives every callee exactly if callees preserve the register copied into |
| SavedRegister.ArgumentInDelaySlotDefeatsIt | m88k-dep.c:940-997 | A frame and a run where the scan reports r14's entry value in r2, which holds something else |
| RegisterFound.FirstDecides | m88k-dep.c:926-1052 | Copies being followed, the first instruction that saves the register followed, copies it into one of r14 to r25, or changes it decides: it is in memory, saved there; in that register; or lost |
| RegisterFound.NoneDecides | m88k-dep.c:926-1052 | If no instruction does, it is in the register last followed |
| RegisterFound.SaveFound | m88k-dep.c:1016-1043 | A register that nothing changes or copies before its first save, off r30 or r31, is found in memory, saved there |
| RegisterFound.CopyFound | m88k-dep.c:982-997 | One that is copied into one of r14 to r25 is found there |
| RegisterFound.CopyFollowed | m88k-dep.c:982-997 | One that is copied into another register is whatever that one is from there on |
| RegisterFound.LeftAlone | m88k-dep.c:926-1052 | One that nothing happens to is where it was |
| RegisterFound.LostOnlyIfChanged | m88k-dep.c:940-1049 | A register is given up only at an instruction or call that may change the one then followed, or, following r31, where r31 is adjusted by a register |
| RegisterFound.FailsOnlyAtLimit | m88k-dep.c:912-1052 | The scan fails only at its limit, or at a register operand of the first instruction |
| RegisterFound.LimitReached | m88k-dep.c:930-933 | Past 5000 instructions that tell nothing it does fail |
| RegisterFound.ExaminedExactly | m88k-dep.c:913-952 | What is scanned: all before the pc of the current frame, and all before the call of a calling one, a delayed call's slot in its place |
| RegisterFound.SpecialRegisters | m88k-dep.c:880-911 | r0 is itself, r31 a value, and there are no others past it |
| RegisterFound.FrameDecides | m88k-dep.c:863-1052 | A whole frame's answer is decided by that first instruction: an address, a register, or none |
| RegisterFound.AnswerLostOnlyIf | m88k-dep.c:863-1052 | A frame gives no answer only for one of those causes, at a named instruction of the code examined |
| RegisterFound.FoundOffFramePointer | m88k-dep.c:1030-1043 | `st r14,r30,0` with r30 at 1008: r14 is found at 1008 |
| FrameChain.RegisterFinder.FindSavedRegister | findvar.c:30-69 | The recursive lookup, with its static recursion counter and its guard |
| FrameChain.RegisterFinder.FindSavedRegisterOnEntry | findvar.c:80-104 | The lookup of a value on entry to a frame |
| FrameChain.ChaseSound | findvar.c:30-69 | By induction inward over the frames, chasing a register finds what the frame's function was entered with, if the answers met on the way are sound; those off it do not matter |
| FrameChain.LookupSound | findvar.c:30-69 | Over a chain of any length the location returned now holds the register's value in the frame asked for |
| FrameChain.CallerPcIsReturnAddress | findvar.c:53-64 | The pc looked up in a calling frame is what its callee found in r1 |
| FrameChain.ParameterLookupSound | findvar.c:80-104 | Register numbers past the last name a register's value on entry to the frame itself |
| FrameChain.GuardNeverTrips | findvar.c:36-42 | Each call moves a frame inward, so with room for the chain's length the guard never reports an error |
| FrameChain.ChaseEnds | findvar.c:61-68 | With room for the chain a chase gives just the last answer on its way, the first that is no register to be looked for further in |
| FrameChain.NoAnswerLost | findvar.c:30-104 | If no frame on the way is without an answer, neither is the lookup, in a frame or on entry to one, of a register or of the pc |
| FrameChain.GuardTripsExactly | findvar.c:36-42 | Where every frame sends the chase on, it fails if and only if it goes past 500, and the counter is then 0 |
| FrameChain.UnsavedR1IsNotChased | findvar.c:61-64 | Where a frame answers that a register is in its r1, the lookup is right on every chain on which that answer holds if and only if the frame is the innermost |
| FrameAnswers.FrameAnswerSound | m88k-dep.c:1055-1070 | One real frame's answer is right, its caller's stack pointer being the cached one |
| FrameAnswers.RecordedPathSound | m88k-dep.c:1055-1070 | Frames that record their runs give sound answers all along a chase |
| FrameAnswers.UnwinderSound | findvar.c:30-69 | On a chain of real frames every general register lookup is right whose own chase goes through frames with recorded runs |
| RegisterFound.SavedIsFoundFromCaller | findvar.c:61-68 | What a real frame's function saved is found in memory from the frame that called it |
| RegisterFound.GivenUpOnlyIf | findvar.c:30-69 | On a chain of real frames a lookup is given up only because one on its way has one of the causes to |
| FrameAnswers.UnsavedR1Misread | findvar.c:61-64 | Three frames with their code and runs, the middle one with its r1 unsaved: the outermost's pc is taken from the innermost's r1, and wrong |
| RegisterCache.Cache.ForgetRegisters | m88k-dep.c:1756-1763 | Nothing is known afterwards |
| RegisterCache.Cache.Resume | infrun.c:301-331 | The inferior's registers may all change; what is known stays right because it is forgotten |
| RegisterCache.Cache.ReadHardRegister | m88k-dep.c:1765-1794 | The inferior's value, fetched once, or an error for registers a user process does not show |
| RegisterCache.Cache.WriteHardRegister | m88k-dep.c:1796-1830 | The value goes to the cache and the inferior; nothing else changes |
| RegisterCache.Cache.ReadRegister | m88k-dep.c:1832-1909 | Reading gives the register as the inferior has it now, $pc and $synthfp as worked out from it now, whatever was read, written or forgotten before |
| RegisterCache.RegistersRead | m88k-dep.c:1832-1909 | Which register each number shows, and which show none |
| RegisterCache.PcRead | m88k-dep.c:1848-1878 | $pc is snip if its valid bit is set, else sfip if that one's is, else four past it |
| RegisterCache.FramePointerRead | m88k-dep.c:1879-1904 | $synthfp is r30 where the code keeps a frame pointer, and worked out from r31 elsewhere |
| RegisterCache.Cache.ReadSynthFp | m88k-dep.c:1879-1904 | A known $synthfp equals what working it out again would give |
| RegisterCache.Cache.WriteRegister | m88k-dep.c:1911-1978 | The inferior's registers become what the write specifies and everything known stays right |
| RegisterCache.Cache.WritePc | m88k-dep.c:1928-1946 | SNIP and SFIP are set unless the address is where execution already is |
| RegisterCache.PcWritten | m88k-dep.c:1928-1946 | Snip becomes the address and sfip four further on, both valid, and nothing else changes |
| RegisterCache.WrittenPcReadsBack | m88k-dep.c:1928-1946 | Writing $pc and reading it gives the value with its low two bits cleared |
| RegisterCache.WrittenReadsBack | m88k-dep.c:1911-1978 | Any other register that can be written reads back as written, r0 staying 0 |
| RegisterCache.WrittenElsewhere | m88k-dep.c:1911-1978 | A write shows in no register but those that share its contents or are derived from it |
| Expression.CStringOfChunks | expread.tab.c:2810-2830 | A NUL-free string packed into elements reads back as itself |
| ExpressionBuilder.Builder.WriteExpElt | expread.tab.c:2727-2739 | One element is appended whether or not the vector had to grow, and none is lost |
| ExpressionBuilder.Builder.WriteExpString | expread.tab.c:2810-2830 | The string's elements and its length are appended, the vector growing as needed |
| ExpressionBuilder.Builder.StartArglist | expread.tab.c:2679-2691 | The outer call's count is put on the chain and a new one starts at 0 |
| ExpressionBuilder.Builder.EndArglist | expread.tab.c:2693-2705 | The count is returned and the outer call's restored |
| ExpressionBuilder.Builder.Reduce | expread.tab.c:1698-1720 | The action for a rule appends the operation's elements, a call's with the count of its own arguments |
| ExpressionBuilder.Builder.Parse | expread.tab.c:1698-1720 | For any tree, calls nested anyhow, the actions append its suffix form and leave chain and count as they were |
| Prefixify.LengthExact | expread.tab.c:3357-3440 | In any left context the length found is that of the subexpression that ends there, strings and calls included |
| Prefixify.ArgumentsExact | expread.tab.c:3433-3439 | Stepping back over a number of subexpressions measures just those |
| Prefixify.SuffixMeasuresItself | expread.tab.c:3340-3355 | A whole expression's length is its vector's |
| Prefixify.SuffixTells | expread.tab.c:3357-3440 | What ends at a place in a vector is the suffix form of one tree at most |
| Prefixify.OneTreePerVector | expread.tab.c:3340-3355 | No two expressions have the same suffix vector |
| Prefixify.MeasureArguments | expread.tab.c:3529-3539 | The argument lengths found from right to left are those of the arguments |
| Prefixify.PrefixifySubexp | expread.tab.c:3446-3553 | The output segment becomes the prefix form and nothing outside it changes |
| Prefixify.PrefixifyArguments | expread.tab.c:3541-3552 | Each argument goes, turned round, to the place after the ones before it |
| Prefixify.PrefixifyExpression | expread.tab.c:3340-3355 | The vector in suffix form becomes the same expression in prefix form |
| Evaluation.SkipKeepsState | eval.c:148-947 | Skipping any expression leaves the program's state alone |
| Evaluation.AvoidKeepsState | eval.c:148-947 | Finding the type of any expression without string literals leaves the state alone |
| Evaluation.TypingKeepsStateExactly | eval.c:148-947 | Finding the type of an expression without ?: leaves every program's state alone, from every state, if and only if the expression has no string literal |
| Evaluation.ConditionsCanHideStrings | eval.c:253-266 | With ?: the condition is not necessary: an expression with a string literal that no program, whatever its values, comes to |
| Evaluation.NormalIsCheckedC | eval.c:148-947 | Normal evaluation gives C's value and state, with the failures of C and of looking over the operands C leaves alone, and no others |
| Evaluation.NormalRefinesC | eval.c:148-947 | Whatever normal evaluation returns, value and final state, is C's, with && and \|\| and ?: short-circuited |
| Evaluation.NormalMakesMore | eval.c:597-647 | In a program that counts the strings it is asked for, normal evaluation asks for no fewer than C, and for more if a guarded operand or one of sizeof has one |
| Evaluation.NormalRefinesCExactly | eval.c:597-647 | Without ?:, normal evaluation agrees with C, which evaluates nothing under sizeof, for every program and state if and only if no operand of sizeof and none guarded by && or \|\| has a string literal |
| Evaluation.GuardedStringIsMadeTwice | eval.c:597-620 | `x && "s"` makes its string twice where C makes it once |
| Evaluation.SizeofMakesItsString | eval.c:1117-1123 | `sizeof "s"` makes a string where C makes none |
| Evaluation.UnusedOperandCanFail | eval.c:253-266 | An expression with a value in C on which evaluation reports an error |
| TermModel.EvaluatesToItself | eval.c:148-947 | In a program whose values are terms and whose state is the list of what was done, normal evaluation of any expression without && \|\| ?: and sizeof gives the term it stands for, ++ and op= as assignments, and does the subexpressions' work from left to right before its own |
| TermModel.CReadsTheSame | eval.c:148-947 | So does C's reading |
| TermModel.BareIsItself | eval.c:148-947 | Without ++ -- & comma and op= the term is the expression |
| TermModel.StepsAreAssignments | eval.c:865-893 | ++e and --e are e += 1 and e -= 1, in evaluation and in C, for every program |
| TermModel.PostfixStepsAfter | eval.c:895-925 | e++ and e-- leave the state that those leave and have the value that e had |
| TermModel.LogicalsAreConditionals | eval.c:597-647 | In C's reading a && b is a ? (b ? 1 : 0) : 0 and a \|\| b is a ? 1 : (b ? 1 : 0) |
| TermModel.ConditionPicks | eval.c:253-266 | A conditional is its third operand where the first is zero, else its second |
| TermModel.ArraysDecay | eval.c:1009-1077 | An array variable gives its address under + and - and in a subscript, and is fetched under other operators |
| TermModel.SizeofMeasures | eval.c:1083-1123 | sizeof measures a variable by its declaration, {T} e by T, * by the pointer's target, others by value |
| TermModel.SkipComputesNothing | eval.c:148-947 | Skipping is the same in programs that share no operation on values |
| TermModel.TypingFetchesNothing | eval.c:148-947 | Finding a type is the same in programs that differ in what they store, call, fetch and divide |
| Evaluator.Evaluator.EvaluateSubexp | eval.c:148-947 | The cursor moves on by exactly the expression's length and value and state are the tree's, in every mode |
| Evaluator.Evaluator.EvaluateOperand | eval.c:170-251 | The same for the cases without subexpressions |
| Evaluator.Evaluator.EvaluateCond | eval.c:253-266 | The same for ?:, one branch skipped |
| Evaluator.Evaluator.EvaluateCall | eval.c:268-429 | The same for calls of plain functions, function first and then the arguments |
| Evaluator.Evaluator.EvaluateArguments | eval.c:372-380 | The argument loop evaluates them in order, stopping at the first error |
| Evaluator.Evaluator.EvaluateField | eval.c:431-461 | The same for . and ->, the name read from the vector |
| Evaluator.Evaluator.EvaluateTyped | eval.c:847-863 | The same for casts and {T} e |
| Evaluator.Evaluator.EvaluateAssignModify | eval.c:507-522 | The same for op=, which stores only in normal mode |
| Evaluator.Evaluator.EvaluateBinary | eval.c:497-595 | The same for the binary operators, those on arrays without fetching the array |
| Evaluator.Evaluator.DecideLogical | eval.c:597-647 | && and \|\|: the right operand is looked over for its type, the cursor put back, and then evaluated or skipped |
| Evaluator.Evaluator.EvaluateUnary | eval.c:756-925 | The same for the unary operators, ++ and -- in both positions included |
| Evaluator.Evaluator.EvaluateForAddress | eval.c:946-1001 | The address of an expression, its operand not fetched |
| Evaluator.Evaluator.EvaluateCoerced | eval.c:1009-1077 | An array variable becomes a pointer without being fetched |
| Evaluator.Evaluator.EvaluateForSizeof | eval.c:1083-1123 | The size of an expression without evaluating it; at {T} e the cursor stops before the operand |
| ExpressionCommand.ParseC1 | expread.tab.c:3567-3607 | The vector handed on is the prefix form of the expression, cut to length |
| ExpressionCommand.EvaluateExpression | eval.c:118-126 | From reductions to a value: answer and final state are the tree's, hence C's where no operand that is guarded or under sizeof has strings |
| ExpressionCommand.PrintExpression | expprint.c:80-87 | The tokens printed for a parsed expression read back as it, exactly when the two precedence orders agree on it |
| Printer.FindOp | expprint.c:274-283 | The scan of the operator table finds the operator's spelling, precedence and associativity |
| Written.UnaryWritten | expprint.c:66-73 | The mark of each operator with one operand, and the side it is on |
| Written.TypedWritten | expprint.c:222-241 | A cast and {T} e as they are printed |
| Written.FieldWritten | expprint.c:201-214 | . and -> as they are printed |
| Written.InfixWritten | expprint.c:43-65 | A binary operator stands between its operands |
| Written.SubscriptWritten | expprint.c:215-221 | A subscript as it is printed |
| Written.OperandParens | expprint.c:285-314 | An operand of a binary operator is parenthesised if and only if its own is looser, in the printer's order, or as loose and on the side it does not associate to |
| Written.OperandDemand | expread.y:175-192 | The grammar needs parentheses there if and only if it is so in the grammar's order |
| Written.PartParens | expprint.c:162-214 | Parts of other operations: ?: parenthesises every binary operator in it, an argument only the comma |
| Printer.Printer.PrintSubexp | expprint.c:89-314 | The tokens printed are the expression's with parentheses where its precedence is below its surroundings', and the cursor moves past it |
| Printer.Printer.PrintCall | expprint.c:162-174 | A call: function, and arguments between commas |
| Printer.Printer.PrintCond | expprint.c:185-199 | ?:, with every binary operand parenthesised |
| Printer.Printer.PrintInfix | expprint.c:285-314 | A binary operator, one operand's surroundings raised by its associativity |
| Notation.PartPrintedAsDemanded | expprint.c:20-76 | A part gets the parentheses the grammar demands in its place, unless it is ^ under & or @ under an arithmetic operator |
| Notation.PrintedAsDemanded | expprint.c:94-314 | The parentheses printed for an expression are enough for the grammar if and only if no part of it clashes so |
| Reader.ReadsWhole | expread.y:175-192 | An expression written with the parentheses the precedences call for is read as itself, up to a token that does not bind to it |
| Reader.ReadExpSound | expread.y:197-470 | Whatever is read was written with those parentheses, and the reading stopped at a token that does not bind to it |
| RoundTrip.ReaderExact | expread.y:175-192 | A text reads as an expression exactly if it is that expression written with enough parentheses, so no text has two readings |
| RoundTrip.WritingsAgree | expread.y:175-192 | Two ways of writing an expression as the same tokens are equally good for the grammar |
| RoundTrip.PrintedReadsBack | expprint.c:94-314 | As tokens, printing and reading back gives the same expression if and only if no ^ stands directly under & and no @ directly under an arithmetic operator |
| RoundTrip.CaretUnderAmpersand | expprint.c:49-50 | x & (y ^ z) is printed so that it reads as (x & y) ^ z |
| TypeStack.Stack.PushType | expread.tab.c:3623-3634 | A piece is pushed, the stack doubling when full |
| TypeStack.Stack.PopType | expread.tab.c:3636-3642 | The top piece, or the end mark from an empty stack |
| TypeStack.Stack.ReduceDeclarator | expread.tab.c:2247-2293 | The actions for a declarator push its pieces, innermost first, each array's size under its mark |
| TypeStack.Stack.FollowType | expread.tab.c:2188-2244 | Popping builds the type that the stack's pieces spell |
| TypeStack.PiecesBuild | expread.tab.c:2188-2293 | Sizes and pieces are never taken for each other and the stack is left empty |
| TypeStack.BuiltAsDenotedExactly | expread.tab.c:2188-2293 | The type built is the one the declarator denotes if and only if every array size is below 2^31 |
| TypeStack.Stack.ParseType | expread.tab.c:2188-2293 | The same through the stack, which is empty again |
| TypeStack.UnsizedBySize | expread.tab.c:2213-2236 | An array of 0xffffffff elements comes out as a pointer |
| Breakpoints.FirstStandsForAll | breakpoint.c:672-686 | Each address with an enabled breakpoint has exactly one enabled non-duplicate, the first in the chain |
| Breakpoints.PatchesDisjoint | breakpoint.c:701-703 | In a chain that commands can make, breakpoints at different addresses patch words that do not overlap |
| Breakpoints.RescanMarks | breakpoint.c:668-686 | Rescanning an address makes the marks right everywhere if they were right elsewhere |
| Breakpoints.CommandMarks | breakpoint.c:688-725 | Setting, deleting, clearing, enabling and disabling each keep the marks right |
| Breakpoints.CommandsKeepMarks | breakpoint.c:1294-1371 | So does any sequence of commands |
| Breakpoints.SetDoes | breakpoint.c:693-800 | break and tbreak add one breakpoint, enabled or for one stop, with the next number, at the word of the address, and change no other |
| Breakpoints.SetMomentaryDoes | breakpoint.c:731-741 | A momentary one is numbered -3 and goes when it is hit |
| Breakpoints.DeleteDoes | breakpoint.c:1123-1154 | delete takes away the first breakpoint of the number and no other |
| Breakpoints.EnableDoes | breakpoint.c:1294-1371 | enable, disable and the rest give it the mode, and change nothing else of any breakpoint but duplicate marks |
| Breakpoints.ClearDoes | breakpoint.c:1027-1099 | clear leaves none at the address and all the others, in their order |
| Breakpoints.AutoDeleteDoes | breakpoint.c:1106-1121 | At a stop the one that stopped the program goes if its mode is delete, then the first momentary one if no commands wait, and no other |
| Breakpoints.CommandKeepsOk | breakpoint.c:688-725 | Each command, at an address the program has, keeps what a run requires: aligned and mapped addresses, usable numbers, no word for two non-duplicates, nothing inserted |
| Breakpoints.CommandsKeepOk | breakpoint.c:1294-1371 | So does any sequence of commands, with numbers given out as the code does |
| Breakpoints.ClearKeepsSynced | breakpoint.c:1123-1154 | Clearing an address while breakpoints are in puts back the words of those cleared and no others |
| Breakpoints.ClearEmpties | breakpoint.c:1027-1099 | No breakpoint is left at a cleared address |
| Breakpoints.AutoDeleteMarks | breakpoint.c:1106-1121 | So does the deletion of breakpoints at a stop |
| Breakpoints.CommandLasts | breakpoint.c:688-725 | Commands that set no breakpoint for a single stop keep the marks right and keep out temporary breakpoints, so that no hit can spoil the marks |
| Breakpoints.AutoDeleteLasts | breakpoint.c:1106-1121 | So does the deletion of breakpoints at a stop |
| Breakpoints.HitKeepsMarksExactly | breakpoint.c:514-515 | The hit of a breakpoint keeps the marks right if and only if it is not a temporary one standing for others at its address |
| Breakpoints.HitKeepsCoverExactly | breakpoint.c:514-515 | Under the same condition, and no other, every breakpoint still enabled after the hit will be inserted or has another inserted at its address |
| Breakpoints.HitKeepsOneFirst | breakpoint.c:514-515 | Even then no word is left to be patched twice |
| Breakpoints.TemporaryHidesTheNext | breakpoint.c:371-397 | A temporary breakpoint set, a lasting one set at the same address, the first hit: inserting leaves the word of the other, enabled as it is, unpatched |
| Breakpoints.GoingKeepsModes | breakpoint.c:472-540 | Where a stop is passed over no enable mode changes |
| Breakpoints.StatusOfNone | breakpoint.c:483-537 | Where no breakpoint stops the program each one there that passes uses up one of its ignore count, and the answer says only whether there was one |
| Breakpoints.StatusOfFirst | breakpoint.c:483-537 | The first that does goes off if it was for one stop, those after it are not looked at, and the answer is its number, coded if it is silent |
| Breakpoints.AllEnabledIn | breakpoint.c:371-397 | With marks right and the first of each address inserted, every enabled breakpoint's word is patched |
| Breakpoints.BreakpointTable.CheckDuplicates | breakpoint.c:672-686 | The marks at one address are made right and no others change |
| Breakpoints.BreakpointTable.SetRawBreakpoint | breakpoint.c:693-725 | The breakpoint goes to the end of the chain, at the address with its low bits cleared |
| Breakpoints.BreakpointTable.SetBreakpoint | breakpoint.c:759-800 | Setting, for one stop only if so asked |
| Breakpoints.BreakpointTable.SetMomentaryBreakpoint | breakpoint.c:731-741 | Setting a breakpoint deleted at the next stop |
| Breakpoints.BreakpointTable.DeleteBreakpoint | breakpoint.c:1123-1154 | The breakpoint goes, its word put back if it was inserted, and its address is rescanned |
| Breakpoints.BreakpointTable.ClearBreakpoints | breakpoint.c:1027-1099 | Every breakpoint at an address goes, inserted or not, its word put back if it was inserted |
| Breakpoints.BreakpointTable.Execute | breakpoint.c:1123-1154 | A command between runs does to the chain what it says, touches no word, and gives out numbers from 1 again once the chain is empty |
| Breakpoints.BreakpointTable.EnableCommand | breakpoint.c:1294-1371 | The mode of the breakpoint with a number changes and its address is rescanned |
| Breakpoints.BreakpointTable.BreakpointAutoDelete | breakpoint.c:1106-1121 | The one that stopped the program goes if set to, and a momentary one unless commands wait |
| Breakpoints.BreakpointTable.BreakpointHereP | breakpoint.c:441-453 | Whether an enabled breakpoint stands at an address |
| Breakpoints.BreakpointTable.InsertBreakpoints | breakpoint.c:371-397 | Every enabled breakpoint that stands for its address is patched in, its shadow the word as it would be, and no word twice |
| Breakpoints.BreakpointTable.RemoveBreakpoints | breakpoint.c:399-423 | Every inserted breakpoint's word is as it would be, and none is inserted |
| Breakpoints.BreakpointTable.BreakpointStopStatus | breakpoint.c:472-540 | Which breakpoint stops the program, if any, with ignore counts used up on the way |
| RunControl.Controller.InsertStepBreakpoint | infrun.c:1493-1504 | The step-resume breakpoint's word is saved and patched unless another breakpoint serves |
| RunControl.Controller.RemoveStepBreakpoint | infrun.c:1506-1512 | The shadow is written back; where the breakpoint has been in, that is what belongs there |
| RunControl.Controller.PreliminaryTrapHandler | infrun.c:615-852 | Which stops are the debugger's own, and whether a breakpoint asks to stop |
| RunControl.Controller.HandleBreakpoint | infrun.c:899-963 | Stop, or take out the step-resume breakpoint that has done its work, or take everything out to get past the instruction |
| RunControl.Controller.LeaveRange | infrun.c:1020-1132 | On leaving the range: run on to the interrupted instruction, the return address or the end of the prologue by a step-resume breakpoint, or stop |
| RunControl.Controller.HandleStepping | infrun.c:970-1135 | Nothing is done while a step-resume breakpoint waits. Outside the stepping range, by its two addresses, neither by a signal nor by a call, it stops; inside it goes on; from a call it runs on to the return address or the end of the prologue, or stops, and from a signal to the interrupted instruction |
| RunControl.Controller.KeepGoing | infrun.c:1288-1345 | Each way of resuming leaves the breakpoints in or out as the next stop needs; it is for start-up just while traps beyond one are expected, or on a SIGSEGV under the shell |
| RunControl.Controller.SafeToResume | infrun.c:1288-1345 | A resumption that is no single step meets every inserted breakpoint; one past an instruction meets none |
| RunControl.RunsIntoEveryBreakpoint | infrun.c:401-433 | With marks right, a program running freely after start-up meets a breakpoint instruction at every enabled breakpoint and at the step-resume address, whether or not another breakpoint serves there |
| RunControl.FreeRunsMeetEveryBreakpoint | infrun.c:401-433 | The same of every free resumption in a log that is safe and keeps the marks |
| RunControl.Controller.ActOnStop | infrun.c:1225-1266 | Stop or go on: at a breakpoint that asks to, or at an address out of the stepping range, it stops, within the range it goes on; what is known of the breakpoints in either case, when a signal stops, and in all three cases that a step-resume breakpoint set while the others are out has not been in |
| RunControl.Controller.TakeStop | infrun.c:1176-1346 | One stop, from its cause to the next resumption: a trap at a breakpoint that asks to stop or out of the stepping range ends the command and one within it does not; what the invariant of a running program keeps, how far start-up has come, and that a step-resume breakpoint just set is in memory if and only if no trap is awaited |
| RunControl.Controller.WaitForInferior | infrun.c:1153-1347 | Over any sequence of stops every resumption is safe and the marks stay right in each; outside start-up none counts as start-up, and start-up ends with the first trap after the first stop |
| RunControl.Controller.NormalStop | infrun.c:1359-1400 | With a live inferior memory is as it would be had nothing been inserted, if and only if breakpoints were in, or no step-resume breakpoint of its own is set, or its shadow is the word there; dead or alive, the chain is what is left after the deletions at a stop |
| RunControl.Controller.ClearProceedStatus | infrun.c:271-285 | The last command's stepping is forgotten, and a momentary breakpoint deleted |
| RunControl.Controller.Proceed | infrun.c:345-440 | A whole command, over any sequence of stops: every resumption safe, none of them for start-up unless the shell had been left running, marks kept, and memory clean at the end but for the one word |
| RunControl.Controller.StartInferior | infrun.c:447-502 | The same for starting the program under its shell, where the second trap, or the first after any stop, ends start-up |
| RunControl.Controller.StartRemote | infrun.c:506-519 | A target that stands waiting is taken on as it is |
| RunControl.Controller.GoOn | infrun.c:345-440 | From one command to the next: what Proceed requires holds again after any stop, and at most the step-resume word is spoiled, and only by stepping |
| RunControl.Controller.Act | infrun.c:345-519 | One breakpoint command, run or restart keeps what the next one requires |
| RunControl.Controller.Session | infrun.c:345-519 | Over any sequence of breakpoint commands, runs and restarts: every resumption is safe; every word but those spoiled is as if the debugger had never written to the program, and without stepping none is spoiled; without temporary breakpoints every free resumption meets every enabled breakpoint and the step-resume address |
| RunControl.SetButNeverIn | infrun.c:1506-1512 | From a breakpoint command through a step, two stops and normal_stop: the word at the return address is overwritten |
| Blocks.PreorderAscends | dbxread.c:1016-1022 | In preorder nested blocks have ascending starting addresses |
| Blocks.InnermostIsLast | blockframe.c:404-430 | The innermost block containing an address is the last in preorder to contain it |
| Blocks.InnermostIsSmallest | blockframe.c:360-361 | It lies within every block containing the address |
| Blocks.SearchBlocks | blockframe.c:404-430 | The binary search and the backward scan end, at the innermost block |
| Blocks.BlockForPc | blockframe.c:365-431 | The search over all files, by the first that has the address |
| Blocks.NoneAnywhere | blockframe.c:375-402 | It finds nothing if and only if no block contains the address |
| BlockBuilder.AddSymbolToList | dbxread.c:843-865 | The symbol is added, a new link made when the newest is full |
| BlockBuilder.CopySymbols | dbxread.c:923-940 | A block's symbols are those on the list in the order they were added |
| BlockBuilder.Scanner.AdoptSince | dbxread.c:967-977 | Blocks made since the scope opened get the new block for a superblock if they have none, and no others do |
| BlockBuilder.Scanner.PutAfter | dbxread.c:979-998 | The new block is linked in after the blocks made since the scope opened |
| BlockBuilder.Scanner.FinishBlock | dbxread.c:905-999 | Both together |
| BlockBuilder.ScopeClosed | dbxread.c:967-998 | The block made for a scope stands over just the scope's blocks, at the place where they begin |
| BlockBuilder.Scanner.DefineSymbol | dbxread.c:3680-3840 | A symbol goes on the local, the file's or the global list, and the others stay |
| BlockBuilder.Scanner.OpenBrace | dbxread.c:3042-3062 | N_LBRAC |
| BlockBuilder.Scanner.CloseBrace | dbxread.c:3064-3113 | N_RBRAC: a block of the symbols before the opening brace unless there are none or it is the outermost, and an error if the depths differ |
| BlockBuilder.Scanner.StartFunction | dbxread.c:3002-3040 | N_FUN: the function before ends, the function is listed as its linkage says, and a new scope opens |
| BlockBuilder.Scanner.ReadNested | dbxread.c:3042-3112 | For any nesting of braces the blocks listed are those the source has, braces without local symbols left out, and what belongs to the file has gone to the file |
| BlockBuilder.Scanner.ReadFunctions | dbxread.c:3006-3112 | For any sequence of functions, each with its own blocks under it |
| BlockBuilder.Scanner.MakeBlockvector | dbxread.c:1001-1039 | The vector is the list reversed |
| BlockBuilder.Scanner.ReadFile | dbxread.c:1199-1220 | The blockvector of any file is its blocks in preorder under the global and the file's own block, which gather their symbols from the whole file in order |
| BlockBuilder.VectorIsPreorder | dbxread.c:967-1024 | Each block's superblock is where the block it is directly inside is listed |
| BlockBuilder.FileVector | dbxread.c:1199-1220 | The same for a whole file, the block of globals alone having none |
| BlockBuilder.FileNests | dbxread.c:3042-3105 | Functions and braces in the order of their addresses make nested blocks |
| BlockBuilder.ReadAndFind | blockframe.c:371-430 | From a file's symbols to the block for an address: the innermost one of the source |
| Scopes.BraceScopeFound | dbxread.c:3042-3112 | The innermost block at an address is that of the last braces to open around it that have local symbols ahead |
| Scopes.FuncScopeFound | dbxread.c:3006-3112 | Else that of the last function to start at or before it, with the symbols outside its inner braces |
| Scopes.FileScopeFound | dbxread.c:1199-1220 | Else the file's own, with its static symbols; name, symbols and addresses included |
| Scopes.ReadAndLookUp | blockframe.c:371-430 | From a file's symbols to the scope of an address |
| Scopes.FileKeeps | dbxread.c:905-999 | Every symbol of a file is in exactly one of its blocks, but for locals before the first function and those between a pair's last inner braces and its end, which are in none |
| LineTables.LineRecorder.StartSubfile | dbxread.c:1124-1173 | The current table is put away, and the named one brought out or begun |
| LineTables.LineRecorder.RecordLine | dbxread.c:1043-1068 | The line is added to the current table, moved if it was nearly full; the dummy number is ignored |
| LineTables.LineRecorder.EndInclude | dbxread.c:3150-3158 | The end of an include goes back to the file it interrupted |
| LineTables.TablesAreLines | dbxread.c:1044-1173 | The tables kept in step with the symbols are the lines recorded while each file was current |
| LineTables.LineRecorder.EndSymtab | dbxread.c:1222-1247 | Each file's final table is the lines recorded while it was current, for any interleaving, and every file has one |
| MiscFunctions.Recorder.RecordMiscFunction | dbxread.c:1344-1370 | The symbol is recorded, in a new bunch when the last is full |
| MiscFunctions.StripLeaves | dbxread.c:1426-1450 | One leading underscore of a name goes, and nothing else |
| MiscFunctions.Recorder.CondenseMiscBunches | dbxread.c:1400-1457 | The vector is a permutation of everything recorded, and of what was there before an incremental link, sorted by address |
| MiscFunctions.QSortSorts | dbxread.c:1452-1456 | The sort that stands for qsort sorts and permutes |
| MiscFunctions.FindPcMiscFunction | blockframe.c:525-562 | Where the halves are narrow the search ends at a symbol at or below the address with none between, the last symbol's own address excepted, and in no more turns than there are symbols and one |
| MiscFunctions.ProbeRightExactly | blockframe.c:550-557 | A probe turns the right way exactly if the two addresses are less than 2^31 apart, or the one sought just that much above |
| MiscFunctions.SearchRightExactly | blockframe.c:525-562 | The search ends rightly for every address in a sorted vector's range if and only if the lower half spans less than 2^31 and the upper half at most that |
| MiscFunctions.SearchNeverEnds | blockframe.c:549-558 | Two symbols further apart and an address for which no number of turns ends the search |

## Left out

- StackPointer.SynthesizePreviousSp: the register form of stack adjustments is excluded, since it reads a bound that is not set.
- SavedRegister.SingleSound: runs whose stack pointer is adjusted by a register are excluded for the same reason; saves relative to r30 are covered where r30 is the frame pointer.
- The limit of 5000 instructions in synthesize_previous_sp, which applies only to remote targets.
- Machine instructions are abstracted to the effect flags of the opcode table; the table's own rows, decoding, and memory faults are not modelled.
- Register lookups return a register number, an address or a value; the source returns them in one address word and tells them apart by size.
- RegisterCache.Cache.ReadSynthFp: the search of the code for a frame pointer is a parameter, a function of the stack pointer and the address.
- The register cache is that of a user process; remote targets, the simulator and core files are left out, as are failing ptrace calls.
- Evaluator.Evaluator.EvaluateSubexp: method calls and pointers to members, & of a scope and sizeof of {T} e are excluded, since the cursor is not moved over all of them; expected types and user-defined operators are left out.
- Evaluation.NormalRefinesCExactly: for expressions with ?: only the sufficient direction is stated; which branch is reached depends on the values of conditions, as for Evaluation.TypingKeepsStateExactly.
- Value operations (arithmetic, fields, assignment, calls in the inferior) are parameters that may fail; floating point stays inside them.
- Strings in a vector are the elements that hold them; bytes left over in the last element are not modelled.
- RoundTrip.PrintedReadsBack: expressions are printed and read as tokens; the spelling of constants, the spaces between tokens and the lexer are left out, and so - - x and -- x, or & & x and && x, are different here though printed alike.
- ExpressionCommand.PrintExpression: the same.
- Printer.Printer.PrintSubexp: op= (which falls into the case for `this`), sizeof, scopes and the operators missing from the table are excluded.
- Reader.ReadArgs: the grammar also lets the first argument of a call be missing before a comma.
- The generated parser's tables: Reader follows the grammar's declared precedences instead, and ExpressionBuilder takes the rules in bottom-up order.
- Breakpoint conditions and frames are a set of the numbers that pass, given with each stop; conditions that call functions, watchpoints and command text beyond `silent` are left out.
- Clearing the breakpoints of a source line rather than an address, and ignore counts, conditions and command lists given by commands.
- Memory holds words; reads and writes of text succeed, no text is at address 0, and the inferior leaves alone the words that breakpoints concern.
- Attaching, detaching, terminals, signal tables beyond stop or not, and printing at a stop.
- RunControl.Controller.StartInferior: memory is taken to be the program's throughout; that exec replaces it is not modelled.
- MiscFunctions.FindPcMiscFunction: for vectors with a wider half its method, which must end, is not given; SearchRightExactly covers those.
- BlockBuilder.Scanner.DefineSymbol: the list a symbol belongs on is given, not read from its type string.
- Symbol definitions from type strings, within_function, types of compilation other than the one with declarations before braces, and the other reader's lists without links of a fixed size.
- BlockBuilder.Scanner.CloseBrace: local symbols between the last inner brace and the closing one are dropped, as in the source.
- Several source files share one list of symtabs; partial symbol tables are left out.
- LineTables.LineRecorder.EndSymtab: tables are returned in the order of the subfiles; building symtabs from them is left out.
- Types of loader symbols.
- TypeStack.Stack.ParseType: reference declarators have no rule in the grammar; Fortran arrays are left out.
