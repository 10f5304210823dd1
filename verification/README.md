# Hawk: proofs about a model of the phase retrieval program

Hawk reconstructs images from diffraction patterns. This project models the parts of it that are
algorithms in their own right and proves what they compute, with Dafny 4.11. `dafny verify dfyconfig.toml`
checks the whole project.

The centre is the calculator for image expressions such as `(A - B) / abs(C)` (`src/math_parser.c`). It is a
small compiler: a tokenizer that has no parenthesis tokens and shifts precedences by 1000 instead, a
conversion to postfix with an operator stack, and a stack machine that overwrites image buffers in place.
The model follows the three stages on heap buffers, and the main results are about every string and every
expression:

* every expression that is printed with its operands in parentheses evaluates to its meaning, and every
  token list comes out of the operator stack as the postorder of one definite tree;
* an expression without those parentheses is reordered as it is written exactly when it is `Readable`, a
  condition on neighbouring operators; `A ^ -B` and `abs -A` are not, and the model shows what they give;
* what each of the operators gives at every pixel is stated on the numbers of its operands, from the text it is
  written in; operators group by tiers written out as sets; numerals are the numbers of their digits;
* no string makes the program abort, and the stack is read below its bottom exactly when evaluation comes to
  `^` or `set_mask` with one value on the stack, the two rows of the table that declare one operand and pop two;
* the caller's images are never changed, and every operand token has a buffer of its own.

Around it:

* the undo log of an image, with a full copy every ten entries (`src/HawkGUI/imageitem.cpp`). The redo stack
  is never cleared, and two laws say what follows. Over every session, the checkpoints of both stacks stand at
  every tenth entry and are right exactly when each fresh edit is made where it fits. Over every session, the
  image is the original with the edits on the undo stack, with right checkpoints there, exactly when no redo
  passes a checkpoint that holds anything but the image; one such redo is shown to take an edit out of the
  image that the undo stack still holds. No session whatsoever makes undo abort;
* the schedule curve (`src/configuration.c`): the closed form is the one real root of the cubic;
* the difference map, RAAR and the area constrained support (`src/algorithms.c`, `src/support.c`): the
  optimised loops compute the operator formulas, and the support has the requested area;
* image names (`src/HawkGUI/imageview.cpp`), the batched run loop (`src/uwrapc.c`) and the directory watcher
  beside it (`src/HawkGUI/outputwatcher.cpp`);
* averaging about a point (`src/process_image.c`): the averaged image is symmetric, whatever the image was,
  exactly when the centre fits the axes, or no pixel has a partner, or only two have one and both the same;
  and an exact condition for averaging again to change nothing.

## Files

| file | what it holds |
|---|---|
| Common.dfy, Complex.dfy, Operators.dfy | optional values; complex numbers over the reals; the operator table |
| Tokenizer.dfy, ShuntingYard.dfy, Machine.dfy | the three stages on values |
| Expressions.dfy, Compiler.dfy, Calculator.dfy | expressions, their printing and meaning; correctness and safety |
| OperatorLaws.dfy, WrittenOperators.dfy, Grouping.dfy | what each operator gives, from the string on; how operators group |
| Decimals.dfy, Numerals.dfy | numbers as digits; which scalars numerals are |
| Pixelwise.dfy | evaluation seen at one pixel |
| ImageBuffers.dfy, StackEvaluation.dfy, MathParser.dfy | the three stages on the heap, in place |
| Names.dfy | capital-letter names as numbers |
| EditLog.dfy, EditReplay.dfy, EditFields.dfy | undo and redo; the image and its fields against the undo stack |
| Bezier.dfy, PhaseIterations.dfy, SupportArea.dfy | schedule curve, difference map and RAAR, support |
| Schedule.dfy, FileNames.dfy, OutputWatcher.dfy | when files are written, their names, the watcher |
| PointSymmetry.dfy, SymmetryCondition.dfy, IdempotenceCondition.dfy | averaging with the mirror image; when the result is symmetric, and when averaging again changes nothing |

Stages of the calculator appear twice: as functions, about which the laws are proved, and as methods with
loops over arrays, which are proved to compute those functions. Numbers are exact reals, and `sqrt`, the cube
root, the transforms, the blur and the complex library functions are parameters that satisfy stated laws or
none at all.

## Where the code and its comments differ

* The comment at `src/math_parser.c:6-10` says that variable AA follows Z. The code reads names as base 26
  numerals with A as zero, so AA is A again and BA follows Z (`Tokenizer.NameResolves` and `Names.NextId`).
* The table says that `^` and `set_mask` take one operand; their functions pop two.
* The watcher ends a poll when the newest file is the one it has just looked from. With an output period of 1
  the first poll looks from the name of the first file, and so stops there (`OutputWatching.FirstPollStopsShort`).
* The batched loop sets the iteration before it logs, so its lines carry one number more than those of the
  one-step loop (`Schedule.BatchedLogNumbers`).
* The scalar `arg` keeps the imaginary part, and scalar division inverts real and imaginary parts separately;
  on images both act as expected. The exact conditions are in `Pixelwise`.

## Model

| member | source | states |
|---|---|---|
| Operators.FirstIsLongest | src/math_parser.c:1220-1260 | Scanning the table in order and taking the first identifier that starts the text finds the longest such identifier, for every text. |
| Tokenizer.AcceptedIsClean | src/math_parser.c:1156-1283 | An accepted string has no error token among its tokens: the error token is only ever returned alone. |
| Tokenizer.LexOperator | src/math_parser.c:1217-1256 | A spelled operator is read as itself with its table precedence plus the current shift; `+` and `-` are binary exactly after an operand, a closing parenthesis or a postfix `i`. |
| Tokenizer.LexNumeral | src/math_parser.c:1167-1184 | A numeral followed by a blank becomes one scalar token of its value and reading goes on behind it. |
| Tokenizer.LexTab | src/math_parser.c:1157-1158 | A tab is passed over like a blank. |
| Tokenizer.UnknownIsRefused | src/math_parser.c:1261-1270 | A text that starts with no identifier and nothing else known is refused with the error that quotes it. |
| Numerals.DecimalIsRead | src/math_parser.c:1167-1184 | For every number, its decimal digits, with any zeros in front, are read as the one scalar of that number. |
| Numerals.PointedDecimalIsRead | src/math_parser.c:1167-1184 | For every number n and every place of a point in its digits, either side of which may be empty: with k digits behind the point they are read as n over ten to the k, a one and k zeros. |
| Decimals.TenDigits | src/math_parser.c:1167-1184 | The ten digits in place: 1234567890 is written and read as itself. |
| Numerals.TrailingZeros | src/math_parser.c:1167-1184 | Zeros behind the point change nothing. |
| Numerals.PointNeverEnds | src/math_parser.c:1167-1178 | A point that no digit follows is never passed. |
| Tokenizer.LexVariable | src/math_parser.c:1185-1215 | A name followed by a blank becomes a token with that image, or the reading ends in the error of a name without an image. |
| Expressions.LexPrint | src/math_parser.c:1145-1283 | Print and read back: tokenizing any printed expression, at any nesting depth and in front of any text, gives the tokens of its labelled tree, every operator with its table precedence plus 1000 per level and every sign read as binary exactly where the tree is, or the error of the first variable without an image. |
| ShuntingYard.SplitAtDominant | src/math_parser.c:1109-1130 | An operator that evicts everything before it and is evicted by nothing behind it is emitted after the conversions of its two sides. |
| ShuntingYard.RootPosition | src/math_parser.c:1114-1122 | The root is an operator of lowest precedence: the last of these if they associate to the left, the first otherwise. |
| ShuntingYard.RootIsUnique | src/math_parser.c:1114-1122 | No token list has two operators that dominate it, so the tree it is split into is determined. |
| ShuntingYard.ParseIsPostorder | src/math_parser.c:1102-1133 | For every token list whatsoever the output is the postorder of the tree obtained by splitting at the root again and again. |
| ShuntingYard.ReadBackExactlyWhenLayered | src/math_parser.c:1102-1133 | A tree is recovered from its infix tokens exactly when each operator dominates its two sides. |
| ShuntingYard.NothingLost | src/math_parser.c:1102-1133 | The output is a permutation of the input, of the same length, with the operands in their original order. |
| ShuntingYard.AlwaysSorted | src/math_parser.c:1113-1123 | After every token of every input the operator stack does not decrease in precedence toward its top. |
| ShuntingYard.ParseNatural | src/math_parser.c:1109-1131 | The reordering does not depend on what the operands are. |
| ShuntingYard.ParseTokens | src/math_parser.c:1102-1133 | The stack loops fill exactly the allotted slots and compute the conversion whose laws are above. |
| Machine.NeverAborts | src/math_parser.c:1066-1100 | From a stack and tokens without errors no operator ever meets an error token and abort is not reached. |
| Machine.UnderflowsExactlyWhenStarved | src/math_parser.c:1066-1100 | The stack is read below its bottom exactly when evaluation comes to `^` or `set_mask` with a single value. |
| Machine.NeverUnderflows | src/math_parser.c:1066-1100 | Without those two operators evaluation always ends with a value or an error. |
| Machine.CountingForetells | src/math_parser.c:1066-1100 | Unless an operator refuses its operands, evaluation of any postfix list on any stack ends as counting the stack entries foretells. |
| Machine.DeclaredAgainstPopped | src/math_parser.c:756-1057 | The declared operand count is smaller than what the operator pops for `^` and `set_mask` and for no other row. |
| Compiler.ReadableIsLayered | src/math_parser.c:1102-1133 | The condition on neighbouring operators of an expression is equivalent to every operator of its labelled tree dominating its two sides, at any depth. |
| Compiler.ReorderedExactlyWhenReadable | src/math_parser.c:1102-1283 | A printed expression is converted to the postorder of its own tree exactly when it is readable. |
| Compiler.SubtractionIsDifference | src/math_parser.c:184-195 | Negating the second operand and adding is pixelwise subtraction, for images and scalars in any combination, in the buffer and with the mask of the second image. |
| Compiler.RunTree | src/math_parser.c:1066-1100 | Running the postorder of any expression on any stack pushes exactly what the expression means, or stops with the first error met from left to right. |
| Calculator.CalculatesMeaning | src/math_parser.c:1288-1308 | A readable expression, printed, tokenized, reordered and run, evaluates to its recursive meaning or to the error that meaning has. |
| Calculator.ParenthesisedCalculatesMeaning | src/math_parser.c:1288-1308 | The same for every expression when the operands of its operators are parenthesised: signs, infix operators, functions of one to three arguments, postfix `i`. |
| Grouping.ThreeOperands | src/math_parser.c:1109-1130 | `x m y n z`, for all operators between operands and all operands that are single or in parentheses, means (x m y) n z or x m (y n z) by the tiers `^`, `*` `/`, `+` `-`, `<` `>`, `==`, `&&` `||`, each grouping to the left but the first. |
| Grouping.SignFirst | src/math_parser.c:1109-1130 | In `- x n y` the sign belongs to x, and to x n y when the operator is a power. |
| Grouping.SignSecond | src/math_parser.c:1224-1231 | In `x n - y`, for every operator but a power, the sign belongs to y. |
| Grouping.SignOfSign | src/math_parser.c:1224-1231 | Signs in a row apply from the last to the first. |
| Grouping.NamedFirst | src/math_parser.c:1109-1130 | In `f x n y` the named operator belongs to x, before a power as well. |
| Grouping.NamedSecond | src/math_parser.c:1109-1130 | In `x n f y` it belongs to y. |
| Grouping.OfNamed | src/math_parser.c:1109-1130 | A named operator or a sign in front of a named operator applies to its result. |
| Grouping.UnitFirst | src/math_parser.c:1035-1043 | In `x i n y`, for every operator but a power, the unit belongs to x. |
| Grouping.UnitLast | src/math_parser.c:1035-1043 | In `x n y i` the unit belongs to y, and to x n y when the operator is a power. |
| Grouping.UnitAfterPrefix | src/math_parser.c:1035-1043 | In `- x i` the sign applies to x i, in `f x i` the unit to f x. |
| Grouping.CommaBetween | src/math_parser.c:1044-1053 | In `f ( x m y , z n w )` the comma stands outside both operators. |
| WrittenOperators.BetweenOperands | src/math_parser.c:87-622 | `x op y` for the ten operators written between operands, as texts: at every pixel sum, difference, product, quotient, power, comparison of squared magnitudes, equality of both parts and the connectives are what these words say of the two numbers, with ones and zeros for truth; an image exactly when an operand is one, with the mask of the operand whose buffer it takes; a power refuses an image exponent. |
| WrittenOperators.InFrontOfOperand | src/math_parser.c:156-365 | `op x` for the signs, `abs`, `conj`, `re`, `im`, `arg`, `exp`, `log` and `sqrt`: what each makes of the number at every pixel, with the mask kept. |
| WrittenOperators.OnWholeImage | src/math_parser.c:265-316 | `fft`, `ifft`, `mask`, `posx`, `posy`, `posz` and `sum` of an image: pixel and mask of the result; all but `sum` refuse a scalar. |
| WrittenOperators.UnitBehindOperand | src/math_parser.c:355-365 | `x i` is x times the imaginary unit at every pixel. |
| WrittenOperators.UnitSquared | src/math_parser.c:113-136 | `i * i` is minus one. |
| WrittenOperators.WithTwoOperands | src/math_parser.c:367-462 | `min ( x , y )` and `max ( x , y )` bound both operands' parts by one of them; `set_mask ( x , y )` keeps the pixels of x and takes its mask from y. |
| WrittenOperators.WithThreeOperands | src/math_parser.c:703-754 | `if ( x , y , z )` takes every pixel from y or z as x is lit or not there, and a scalar x the one or the other as a whole. |
| WrittenOperators.LonelyPrefix | src/math_parser.c:1070-1077 | An operator in front of nothing is an error that asks for three operands for `if`, two for `min` and `max`, and one for every other. |
| WrittenOperators.LonelyInfix | src/math_parser.c:1070-1077 | An operator between operands, or a comma, with nothing behind it is an error that asks for two and has found one. |
| WrittenOperators.LonelyPower | src/math_parser.c:222-224 | A power with nothing behind it reads below the stack. |
| Calculator.ReadsBelowExactlyWhenStarved | src/math_parser.c:1288-1308 | For every string: the stack is read below its bottom exactly when the reordered tokens starve `^` or `set_mask`. |
| Calculator.NeverCallsAbort | src/math_parser.c:1066-1308 | No string makes evaluation call abort. |
| Calculator.ErrorsComeOut | src/math_parser.c:1195-1204 | An error of the tokenizer comes out of reordering and evaluation unchanged. |
| Calculator.SafeWithoutUnderstatedRows | src/math_parser.c:1066-1100 | A string without `^` and `set_mask` comes back with an image, a scalar or an error, unless the tokenizer comes to a point that starts no numeral, where its loop never ends. |
| Calculator.EndsAsCounted | src/math_parser.c:1066-1100 | For every accepted string: unless an operator refuses an operand (a power that is no scalar, an image that is no image), the kind of result, the operand count error with its numbers, the leftover count or the read below the stack is what counting stack entries over the reordered tokens gives, without evaluating anything. |
| Calculator.PowerOfSignUnderflows | src/math_parser.c:222-224 | `A ^ -B` and `A ^ +B`, for any two images, run the power with one value on the stack. |
| Calculator.FunctionOfSignFails | src/math_parser.c:1070-1077 | `f -A` and `f +A` fail with the operand count error, for every named operator f of one operand. |
| Calculator.UnitBeforePowerMovesBehind | src/math_parser.c:1112-1123 | `A i ^ x`, for every image and every single operand, evaluates to what `(A ^ x) i` means. |
| Pixelwise.EvaluateSeen | src/math_parser.c:87-136 | For every postfix list of liftable operators on images of one size, the result at a pixel is the result of the list with each image replaced by its value there and scalars kept. |
| Pixelwise.InfixSeen | src/math_parser.c:402-622 | The same for infix lists, through the reordering. |
| Pixelwise.ChooseSeen | src/math_parser.c:703-754 | The conditional chooses at every pixel as it does on scalars, whichever operand's buffer takes the result. |
| Pixelwise.ArgumentLiftsExactlyOnReals | src/math_parser.c:330-341 | `arg` agrees with its scalar version at a pixel exactly when the pixel is real. |
| Pixelwise.ScalarDivisionUndoneExactlyByReals | src/math_parser.c:138-154 | Dividing scalars is undone by multiplication exactly when the divisor is real. |
| ImageBuffers.UnaryInPlace | src/math_parser.c:156-365 | An operator of one operand leaves the value of the specification and writes to no other buffer: in place, or in a new buffer for the transforms, whose mask is all ones, and for the mask operator. |
| ImageBuffers.BinaryInPlace | src/math_parser.c:87-624 | The same for two operands; the result sits in one of their buffers. |
| ImageBuffers.ChooseInPlace | src/math_parser.c:703-754 | The same for the conditional, in the buffer the program chooses. |
| StackEvaluation.Execute | src/math_parser.c:71-85 | One operator takes its operands off the stack and leaves the specified value; buffers on the stack stay separate and nothing below the operands changes. |
| MathParser.ParseApart | src/math_parser.c:1102-1133 | Reordering tokens that own their buffers leaves tokens that own their buffers. |
| MathParser.EvaluatePostfix | src/math_parser.c:1066-1100 | The loop over tokens with buffers ends as the specification does on the values in them, and changes only those buffers. |
| MathParser.TokenizeString | src/math_parser.c:1145-1283 | The reading loop yields the specified tokens, each variable with a fresh copy, so that no two tokens share a buffer. |
| MathParser.EvaluateMathExpression | src/math_parser.c:1288-1308 | The result is what the specification calculates from the images as they were; nothing that existed before is modified and an image result is a new buffer. |
| Names.IndexFromVariableName | src/math_parser.c:1135-1143 | The loop from the last letter computes the base 26 number of the name. |
| Names.DecodeEncode | src/HawkGUI/imageview.cpp:604-609 | The spelled name of a number denotes that number. |
| Names.NextId | src/HawkGUI/imageview.cpp:595-610 | The next name denotes the next number, for every string of capitals. |
| Names.FirstNames | src/math_parser.c:1135-1143 | A, B and Z are 0, 1 and 25, BA is 26 and AA is 0. |
| Names.ImageItemIdentifier | src/HawkGUI/imageview.cpp:574-593 | The rescanning loop ends, with the least name that no item has. |
| Names.TakenRunIsShort | src/HawkGUI/imageview.cpp:581-591 | A run of taken names from the first on is no longer than the list of items, which is why the loop ends. |
| Tokenizer.NameResolves | src/math_parser.c:1185-1215 | The shortest name of n, as the view spells names, is tokenized on its own as the n-th image of any list, or refused when the list has none. |
| EditLog.RewoundIsReplay | src/HawkGUI/imageitem.cpp:520-547 | Going back to the last checkpoint and applying the edits behind it equals applying all edits to the original. |
| EditLog.UndoTakesBack | src/HawkGUI/imageitem.cpp:520-550 | On a log in order, going back to the checkpoint and forward again is what an undo is meant to do: the top moves to the redo stack, and an edit on top is taken back from the image. |
| EditLog.UndoAgrees | src/HawkGUI/imageitem.cpp:520-550 | An undo keeps the agreement with full replay, every checkpoint's contents and the timeline of entries. |
| EditLog.RedoAgrees | src/HawkGUI/imageitem.cpp:502-518 | So does a redo. |
| EditLog.EditAgreesExactlyWhenItFits | src/HawkGUI/imageitem.cpp:435-468 | A fresh edit keeps the log in order exactly when there is nothing to redo, or the undo stack and the redo stack lie within one block of ten: in order, that is, marks of both stacks in place and right, and the image right. |
| EditLog.EditOverUndoneMisplacesMark | src/HawkGUI/imageitem.cpp:435-468 | For any image and any two edits: one edit, two undos and the other edit leave a checkpoint out of its place. |
| EditLog.SessionAgreesExactlyWhenEditsFit | src/HawkGUI/imageitem.cpp:435-550 | Over every session of edits, undos and redos, the log is in order at every point (marks of both stacks exactly at multiples of ten and right, and the image right) exactly when each fresh edit fits. |
| EditReplay.EditStaysTruthful | src/HawkGUI/imageitem.cpp:435-468 | A fresh edit, fitting or not, keeps the image equal to the replay of the undo stack and the checkpoints on it right. |
| EditReplay.UndoStaysTruthful | src/HawkGUI/imageitem.cpp:520-550 | So does an undo, wherever the checkpoints stand. |
| EditReplay.RedoKeepsImageExactly | src/HawkGUI/imageitem.cpp:502-518 | A redo keeps the image equal to the replay of the undo stack exactly when its edit makes the same of what the last checkpoint on top of the redo stack holds as of the image. |
| EditReplay.RedoStaysTruthfulExactlyWhenMarksHold | src/HawkGUI/imageitem.cpp:502-518 | A redo keeps image and checkpoints right exactly when every checkpoint on top of the redo stack holds the image. |
| EditReplay.SessionTruthfulExactlyWhenRedosHold | src/HawkGUI/imageitem.cpp:435-550 | Over every session, fresh edits made anywhere: image and checkpoints of the undo stack are right at every point exactly when every redo passes only checkpoints that hold the image. |
| EditReplay.FittingEditsLetRedosHold | src/HawkGUI/imageitem.cpp:435-550 | Fresh edits that fit leave no wrong checkpoint for a redo to pass. |
| EditReplay.RedoSwallowsEdit | src/HawkGUI/imageitem.cpp:435-550 | Edit e, two undos, edit f and one redo: the undo stack holds f and e, the image is the original with e alone. |
| EditReplay.PhasedIsSwallowed | src/HawkGUI/imageitem.cpp:435-550 | With a wavelength for e and phased for f, on an image that is not phased, the image is not phased while the undo stack says that it is. |
| EditLog.UndoStaysSafe | src/HawkGUI/imageitem.cpp:520-550 | An undo, on logs in order or not, keeps a checkpoint at the bottom of the undo stack, an edit at the bottom of the redo stack, and something to redo under a checkpoint on top. |
| EditLog.RedoStaysSafe | src/HawkGUI/imageitem.cpp:502-518 | So does a redo. |
| EditLog.Session | src/HawkGUI/imageitem.cpp:435-550 | So does every session whatsoever, whether its edits fit or not; this is all that undo and redo need to find their stacks filled. |
| EditLog.RedoAfterUndo | src/HawkGUI/imageitem.cpp:502-550 | A redo restores image and stacks after an undo exactly when the undo took back an edit and not a lone checkpoint. |
| EditLog.LastMarkIsNear | src/HawkGUI/imageitem.cpp:436-445 | The last checkpoint is at most ten entries below the top. |
| EditLog.ImageItem.Set | src/HawkGUI/imageitem.cpp:296-426 | A setter records a checkpoint when due and the edit, touches no checkpoint, and changes the image in place: each of the ten fields holds the edit's argument when the edit is of its kind and what it held before otherwise; a resize moves the data to the new size. |
| EditLog.MarksEveryTen | src/HawkGUI/imageitem.cpp:436-445 | A fresh edit brings a full copy exactly when the undo stack's size is a multiple of ten. |
| EditFields.LatestIsLast | src/HawkGUI/imageitem.cpp:470-494 | The latest argument of a kind is that of an edit behind which there is no other of the kind. |
| EditFields.ReplaySetsFields | src/HawkGUI/imageitem.cpp:470-494 | Replaying a list of edits gives every field the argument of the last edit of its kind, or the original value, and takes the data through every resize in order. |
| EditFields.SessionSetsFields | src/HawkGUI/imageitem.cpp:296-550 | So every session whose redos pass only checkpoints that hold the image leaves each field with the argument of the last edit of its kind on the undo stack. |
| EditLog.ImageItem.RollBack | src/HawkGUI/imageitem.cpp:524-538 | The first loop of undo moves entries up to and with the last checkpoint, and never runs dry. |
| EditLog.BackIsRolled | src/HawkGUI/imageitem.cpp:524-538 | What it moved is on the redo stack in reverse order, from the last checkpoint on. |
| EditLog.ImageItem.UndoEditSteps | src/HawkGUI/imageitem.cpp:520-550 | In every log that a session can reach, undo does not abort and gives the specified log and image; in a log in order it replays at most eight edits. |
| EditLog.ImageItem.RedoEditSteps | src/HawkGUI/imageitem.cpp:502-518 | In every log that a session can reach, redo never takes from an empty stack and gives the specified log and image. |
| Bezier.ClosedFormIsTheRoot | src/configuration.c:657-677 | Cardano's expression is a parameter of the abscissa x, the only real one, and lies in [0, 1] exactly when x lies on the segment. |
| Bezier.ClosedFormDefined | src/configuration.c:662-677 | The square root is of something nonnegative and the cube root of something positive, for every x. |
| Bezier.BezierMapInterpolation | src/configuration.c:642-680 | The scan and the formula give a point of the curve: between two knots the ordinate at every parameter whose abscissa is x, outside the value of the end. |
| Bezier.ScheduleOnCurve | src/configuration.c:657-679 | The schedule lies on the curve. |
| Bezier.SegmentIsBezier | src/configuration.c:657-679 | The two polynomials are the coordinates that repeated mixing of the control points (a, y0), (mid, y0), (mid, y3) and (b, y3) gives. |
| Bezier.QuarterOfTheWay | src/configuration.c:657-679 | From 0 to 1 in one segment, the schedule is 5/32 at 19/64. |
| Bezier.ThroughKnots | src/configuration.c:645-679 | The schedule has the knot's value at every knot. |
| Bezier.ClampedOutside | src/configuration.c:651-656 | Before the first and behind the last knot it keeps their values. |
| Bezier.MonotoneBetweenKnots | src/configuration.c:658-679 | Between two knots it runs monotonically from one value to the other and stays between them. |
| Bezier.RisingScheduleRises | src/configuration.c:642-680 | With rising values the schedule rises everywhere. |
| PhaseIterations.F2WithoutTransform | src/algorithms.c:1020-1030 | With a linear inverse that undoes the transform up to the pixel count, the Fourier estimate needs no second inverse transform. |
| PhaseIterations.OptimisedIsReference | src/algorithms.c:1035-1090 | At every pixel the optimised step is that of the reference implementation x + beta (P1 f2 x - P2 f1 x). |
| PhaseIterations.RestsExactlyWhenEstimatesAgree | src/algorithms.c:1035-1069 | The difference map leaves an image alone exactly when its two estimates agree. |
| PhaseIterations.F1IsRelaxedProjection | src/algorithms.c:1001-1014 | The real space estimate is (1 + gamma1) P1 - gamma1 I, with P1 the projection onto the support. |
| PhaseIterations.OntoSupportKeeps | src/algorithms.c:1001-1014 | P1 keeps the pixels whose support value is not zero and clears the others. |
| PhaseIterations.SerialDifferenceMapF1 | src/algorithms.c:1001-1014 | Its loop over a copy of the image computes it. |
| PhaseIterations.HybridInputOutput | src/algorithms.c:1035-1069 | With beta 1, gamma1 -1 and gamma2 1 the difference map gives the amplitudes' projection inside the support and the image less that projection outside. |
| PhaseIterations.StepScales | src/algorithms.c:1035-1069 | The step is proportional to beta. |
| PhaseIterations.ConstraintsAct | src/algorithms.c:1105-1120 | Reality takes imaginary parts away and positivity makes both parts nonnegative without changing their size, inside the support only. |
| PhaseIterations.SerialDifferenceMapIteration | src/algorithms.c:1074-1127 | The optimised iteration computes the reference image followed by the reality and positivity constraints inside the support. |
| PhaseIterations.ConstrainInPlace | src/algorithms.c:1105-1120 | The two optional loops constrain exactly the pixels inside the support. |
| PhaseIterations.RaarPixel | src/algorithms.c:209-222 | 1/2 beta (Rs Rm + I) + (1 - beta) Pm is Pm inside the support and (1 - 2 beta) Pm + beta I outside. |
| PhaseIterations.RaarUpdate | src/algorithms.c:208-226 | The loop turns Pm x into the RAAR formula. |
| SupportArea.SortingKeepsCount | src/support.c:347-349 | Sorting changes no count of magnitudes at or above a cut. |
| SupportArea.KeepsRequestedArea | src/support.c:341-364 | Cutting at entry k of the sorted magnitudes keeps at least k + 1 pixels, at most k of them above the cut, and exactly k + 1 exactly when the next magnitude does not tie. |
| SupportArea.DistinctMagnitudesAreExact | src/support.c:341-364 | With distinct magnitudes the area is exactly k + 1. |
| SupportArea.LargerAreaKeepsMore | src/support.c:349-361 | A larger area keeps every pixel that a smaller one keeps. |
| SupportArea.KeepsTheBrightest | src/support.c:35-41 | No pixel left out is as bright as one kept. |
| SupportArea.AreaIndexCuts | src/support.c:349-361 | The index is the area in pixels, cut to an integer. |
| SupportArea.PhasesAreIgnored | src/support.c:343-356 | Only the complex algorithm sees the phases of its input. |
| SupportArea.PhasesAreBlurred | src/support.c:343-356 | The complex algorithm blurs its input as it is, the others blur its magnitudes. |
| SupportArea.LevelPositiveExactlyWhenEnoughLit | src/uwrapc.c:484-495 | The level is positive, so that the run goes on, exactly when more than k pixels are lit. |
| SupportArea.MaskUnites | src/support.c:44-51 | With a nonnegative fixed mask the support is the union of the kept pixels and the mask. |
| SupportArea.GetUpdatedSupport | src/support.c:12-53 | Running maximum, threshold, mask and flattening give the specified support in a new image. |
| SupportArea.UpdateSupport | src/uwrapc.c:484-495 | Level and threshold together: nothing, where the program aborts, exactly when no more pixels are lit than the area's index; otherwise the cut at the entry that the area selects, which without a fixed mask leaves a support larger than the area asked for. |
| Schedule.BatchesWriteWhatStepsWrite | src/uwrapc.c:279-296 | After any number of batches the image files written are those that the one-step loop writes in as many iterations, in order and once each; a line has been logged for each iteration that is due in that loop; and every batch advances. |
| Schedule.BatchedLogNumbers | src/uwrapc.c:287-290 | The batched log lines carry the multiples of the log period: the k-th, counted from zero, carries (k + 1) log, one more than the iteration at which the one-step loop logs. |
| Schedule.IndicesAreMultiples | src/uwrapc.c:516-535 | The numbers written are the multiples of the period less one, one for each multiple. |
| Schedule.SameFilesExactlyWhenNoLateOutput | src/uwrapc.c:279-297 | A batched run with a maximum writes all files of the one-step run, and no others exactly when the maximum is a multiple of the output period or the log period stops the run first. |
| Schedule.CompleteReconstructionClean | src/uwrapc.c:279-316 | The batched loop, with or without a maximum, makes the batches of the two laws above; with one it stops at the first multiple of either period that reaches it, less than the smaller period beyond. |
| Schedule.CompleteReconstruction | src/uwrapc.c:421-535 | The one-step loop, until it is finished, at its maximum, or hopeless at a support update, writes an image exactly at the iterations one short of a multiple of the output period, and logs at those of the log period: a line of its own, one before it for each error reduction when the support is updated, and one in front of the loop when the log period is 1. |
| Schedule.LoggedIterations | src/algorithms.c:579-581 | The iterations that appear in the one-step log are exactly those one short of a multiple of the log period. |
| Schedule.LoggedOnceExactly | src/uwrapc.c:467-474 | Each of them appears exactly once exactly when the log period is not 1 and no support update with error reductions falls on one of them. |
| Schedule.LinesOfIteration | src/uwrapc.c:467-474 | How often each iteration appears: once for itself and once for each error reduction when the support is updated after it. |
| Schedule.UpdatesAtMultiples | src/uwrapc.c:467 | The support is updated after the iterations that complete a multiple of its period. |
| FileNames.NumberingParts | src/HawkGUI/outputwatcher.cpp:223-237 | A numbered name is taken apart into the prefix, number and suffix it was made of. |
| FileNames.IncrementsAddExactlyAboveZero | src/HawkGUI/outputwatcher.cpp:223-237 | Incrementing by j and then k is incrementing by j + k exactly when the number plus j is not negative or k is negative, for every file name. |
| FileNames.NothingBelowZero | src/HawkGUI/outputwatcher.cpp:229-231 | There is no name exactly when the number would be negative. |
| FileNames.NineteenIsPadded | src/uwrapc.c:292 | The file of number 19 is real_space-0000019.h5. |
| OutputWatching.RealSpaceIsLawful | src/HawkGUI/outputwatcher.cpp:54-58 | The names of real space files are told apart by their numbers, and incrementing a name increments its number. |
| OutputWatching.LookAtRun | src/HawkGUI/outputwatcher.cpp:46-77 | One pass of the loop announces the next real space file of the run when it is there, and otherwise changes nothing; image files older than the run count as absent. |
| OutputWatching.WatcherFollowsWriter | src/HawkGUI/outputwatcher.cpp:42-118 | Over any interleaving of batches of the reconstruction and passes of the watcher, the announced files are, in order, without gaps or repeats, the beginning of the files written. |
| OutputWatching.OutputWatcher.ProcessFile | src/HawkGUI/outputwatcher.cpp:80-118 | A real space file is announced exactly when it is there, not older than the run and not older than the newest one. |
| OutputWatching.OutputWatcher.CheckForNewFiles | src/HawkGUI/outputwatcher.cpp:42-78 | A poll ends, with every real space file announced that has been written and nothing else, exactly when it is not a first poll that finds two files or more with an output period of 1; such a poll announces file 0 only. |
| OutputWatching.PollAnnouncesAllExactly | src/HawkGUI/outputwatcher.cpp:46-64 | The same of the passes of a poll, as a law of its own: with a period of 1 the name looked from is that of the first file, and the poll takes it for a repetition. |
| OutputWatching.FirstPollStopsShort | src/HawkGUI/outputwatcher.cpp:49-61 | Files 0, 1 and 2 on the disk, a period of 1 and a first poll: file 1 is there and is not announced. |
| PointSymmetry.MirrorUndoneExactlyWhenCentreFits | src/process_image.c:58-67 | Mirroring within an axis undoes itself exactly when twice the centre is integral or negative, or the first coordinate beyond it is outside the axis. Otherwise that coordinate, cut toward zero, is paired with 0 as well. |
| PointSymmetry.AverageIsSymmetric | src/process_image.c:49-98 | When the centre fits the axes, the averaged image and mask agree at every pixel and its mirror point. |
| PointSymmetry.AverageKeepsTheRest | src/process_image.c:57-69 | Pixels whose mirror point is outside keep value and mask. |
| PointSymmetry.AverageOfMeasured | src/process_image.c:74-92 | A pair becomes the mean of its magnitudes when both are measured, the one magnitude when one is, zero when neither is, and is measured exactly when either was. |
| PointSymmetry.IndexOfNeighbours | src/process_image.c:70-73 | Neighbouring pixels are one, a row and a plane apart in the flat array. |
| PointSymmetry.AverageIsIdempotent | src/process_image.c:49-98 | When the centre fits the axes, averaging again changes no pixel. |
| PointSymmetry.CentrosymetryAverage | src/process_image.c:49-98 | For every centre, the triple loop leaves what the visits in its order leave, the original unchanged. |
| PointSymmetry.DoneIsAverage | src/process_image.c:57-93 | When the centre fits the axes, writing each pair twice does no harm: every pixel ends as the average of its original pair, or as it was. |
| PointSymmetry.LaterPairWins | src/process_image.c:57-93 | When the last two pixels of a line share a mirror point, the later visit wins: it holds the average with the last pixel, its other partner the average of the other pair. |
| SymmetryCondition.PartnersAreAnInterval | src/process_image.c:58-67 | The coordinates of an axis with a partner in range are those between two bounds given by the centre and the size. |
| SymmetryCondition.LastPairStays | src/process_image.c:57-93 | The last pixel with a partner is paired with the first, and both end with the average of that pair, for every centre. |
| SymmetryCondition.SymmetricExactlyWhenKept | src/process_image.c:49-98 | For every shape: the averaged image agrees at every pixel and its partner, for every image, exactly when no pixel has a partner, or the centre fits, or one axis pairs 0 and 1 with 0 and the two others pair a single coordinate with itself. |
| SymmetryCondition.OtherwiseNotSymmetric | src/process_image.c:49-98 | For every other shape there is an image, with a single bright pixel, whose average is not symmetric. |
| SymmetryCondition.LineIsNotSymmetric | src/process_image.c:49-98 | Three pixels 0, 1, 0 in a line with the centre at 3/4: the averages at the first pixel and at its partner differ. |
| IdempotenceCondition.LastVisitStays | src/process_image.c:57-93 | For every centre, a pixel ends with the average of the original pair of the last visit that writes to it. |
| IdempotenceCondition.AgainIsOnceExactlyWhenKept | src/process_image.c:49-98 | For every shape: averaging the averaged image gives the same image, for every image, exactly when no pixel has a partner, or the centre fits, or a single axis does not fit, pairs 0 and 1 with 0, and every loop outside its own has a single coordinate to pair. |
| IdempotenceCondition.IdempotentExactlyWhenKept | src/process_image.c:49-98 | The same pixel by pixel. |
| IdempotenceCondition.OtherwiseNotIdempotent | src/process_image.c:49-98 | For every other shape there is an image, with a single bright pixel, that averaging again changes. |
| IdempotenceCondition.SymmetricIsIdempotent | src/process_image.c:49-98 | Shapes whose averages are symmetric are among those whose averages are kept. |
| IdempotenceCondition.LineIsHalvedTwice | src/process_image.c:49-98 | Pixels 0, 1, 0 in a line with the centre at 3/4: the middle one becomes a half, and averaged again a quarter. |
| PointSymmetry.LineIsCrowded | src/process_image.c:58-59 | Three pixels in a line with the centre at 3/4 are such a case, and their centre does not fit. |
| PointSymmetry.IndexInjective | src/process_image.c:70-73 | Different points have different places in the flat array. |

## Left out

- Floating point: all numbers are exact reals, so rounding, overflow and the exponents -0.333 and 0.333 in place of a cube root are not modelled.
- libspimage, FFTW, Qt, HDF5: their functions are parameters. `abs`, `arg` of one number, `exp`, `log`, `pow`, inversion of one complex pixel, `integrate`, the pixels of the two transforms, the coordinates of a pixel and the image of a mask are uninterpreted.
- Machine integers: indices, names and iteration numbers do not overflow.
- The stack limit of 100 entries and the token limit of 1000: both are unbounded here.
- `strtod`: numerals are digits with an optional point; exponents, hexadecimal, infinities and locale are not read.
- A point that starts no numeral: the program's loop does not advance there and never returns, and the model reports that outcome.
- Allocation of tokens and operators: these are values; only image buffers and the stack live on the heap. An operator token carries the length of the text from where it was read, in place of its address.
- The input string is cut short in memory when a variable has no image; the model leaves the string alone.
- Image sizes: images of one expression have one size, as the program's loops assume.
- Error operands: an operator that meets an error token is taken to abort, although some operators of the program would push an error instead; evaluation never gives an operator such a token.
- The text of error messages: errors are data with the parts that the messages print.
- ImageBuffers.UnaryInPlace: the coordinates that the position operators write depend on the three dimensions of the image, of which the model has the number of pixels only.
- Undo of convolutions and mask edits: the program does not replay or does not record them. Undo and redo by more than one step are never called.
- EditLog.ImageItem.Set: the signals to the view and the clearing of the cached display image are left out, and so is the check that an image is loaded.
- Bezier.BezierMapInterpolation: an empty schedule, on which the program reads before the start of its lists, is excluded.
- SupportArea.GetSupportLevel: an area of one or more, which reads past the image, and an image of zeros, which divides zero by zero, are excluded; the other support algorithms have no area to guarantee.
- Sorting in the C library: it is modelled by an insertion sort on the magnitudes.
- Schedule.CompleteReconstructionClean: zero periods divide by zero in the program and are excluded; a run without a maximum does not end and is followed for any number of batches.
- Schedule.CompleteReconstruction: the flag of the stop button and the automatic stop are arbitrary functions of the iteration; zero output and log periods are excluded, and so is the end of the program on a support level of zero.
- FileNames.IncrementFilename: directories are left out, and a base name without a number is taken to have no prefix and number zero.
- OutputWatching.OutputWatcher.CheckForNewFiles: the files of other categories, the list of all files and locking are left out, and creation times do not go backwards during a run.
- OutputWatching.OutputWatcher.ProcessFile: every file is a real space file; the keys of other categories and the code for files without a category are left out.
- Plots, dialogs, network, decoders, option files, log statistics and the other phasing algorithms: input and output, or no law of their own.
