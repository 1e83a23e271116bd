# Wry evaluator and scope stack, in Dafny

This project models the tree-walking evaluator of the Wry language
(`org.wrylang.interpreter.Scope`) and the typed built-ins of
`WryIntrinsics` that back operator dispatch on strings, tuples and
numbers.

Every runtime datum of Wry is an object with named members, each bound
to a value and flagged mutable or immutable:

- Frames, records and class instances are plain objects.
- Numbers, strings, booleans, tuples and callables are objects that
  also carry a payload.

Objects are shared by reference and updated in place. The model
therefore keeps:

- a heap of objects, indexed by address (`Values`);
- the interpreter's mutable stack of frames. Index 0 is the innermost
  frame, where Java's `ArrayDeque.push` puts it; the last entry is the
  global frame.

The model has two layers:

- `Semantics` is a pure reference semantics. It has one function per
  `visit` overload, mapping an expression and a configuration (heap and
  stack) to an outcome and the configuration left behind. Its
  properties are stated on those functions and in lemmas about them.
- `Evaluator.Scope` is the interpreter itself: a class whose fields are
  the heap and the stack, with one method per `visit` overload that
  updates them in place. Every method is proved to compute exactly what
  its `Semantics` function gives from the state before the call.

Every evaluation keeps three facts (`Semantics.Evolves`):

- the heap only grows;
- no object changes its kind or loses a member;
- the stack is the old stack with zero or more frames left on top.

A frame is popped only on the success path, exactly as the Java code
does.

Files:

- `ast.dfy`: the expression forms.
- `values.dfy`: objects, the heap, and the member operations `addField`, `setField`, `getField` and `equals`.
- `intrinsics.dfy`: `stringPlus`, `tupleGet`, `numberCompare` and `throw`.
- `frames.dfy`: resolution, binding and stack-suffix specifications, and the arity finding.
- `semantics.dfy`: the reference semantics.
- `scope.dfy`: the evaluator class.

Paths below are relative to the repository root. `Scope.java` means
`src/main/java/org/wrylang/interpreter/Scope.java` and `WryIntrinsics.java` means
`src/main/java/org/wrylang/interpreter/WryIntrinsics.java`.

## Model

`Semantics.SemOperator`, `Semantics.SemDeclaration` and `Semantics.SemCompound` (and the
evaluator's `EvalOperator`, `EvalDeclaration` and `EvalCompound`) only route a form to its own
member, by the form's constructor, so that each group of forms has its own termination measure.
They carry no property beyond the one `Semantics.Sem` states and have no row.

| member | source | states |
|---|---|---|
| `Frames.FindFrame` | src/main/java/org/wrylang/interpreter/Scope.java:69-73 | The frame picked for a name holds the name, and no frame nearer the top holds it. No frame is picked only when no frame holds the name. |
| `Frames.Lookup` | src/main/java/org/wrylang/interpreter/Scope.java:68-77 | Resolution succeeds exactly when some frame holds the name, and yields the member of the innermost such frame. Otherwise it fails with "Symbol not found". |
| `Frames.FindFrameDependsOnNames` | src/main/java/org/wrylang/interpreter/Scope.java:45-49 | Resolution depends only on which names each frame holds. Rebinding an existing member never changes which frame a name resolves to. |
| `Frames.LookupAfterAssign` | src/main/java/org/wrylang/interpreter/Scope.java:45-50 | After the innermost binding of a name is overwritten, the name resolves to the same frame and yields the assigned value. |
| `Frames.LookupAfterDeclare` | src/main/java/org/wrylang/interpreter/Scope.java:102-117 | A declaration in the top frame is found first, whatever outer frames hold, so shadowing an outer name succeeds. |
| `Frames.LookupThroughEmptyFrame` | src/main/java/org/wrylang/interpreter/Scope.java:173-175 | Pushing a fresh empty frame changes no name's resolution. |
| `Frames.SuffixOfPush` | src/main/java/org/wrylang/interpreter/Scope.java:173-177 | A stack grown from "frame f on top of s" still has `s` at its bottom and `f` directly above it. This is the frame a failed block or call leaves behind. |
| `Frames.BindingsNames` | src/main/java/org/wrylang/interpreter/Scope.java:199-205 | Binding the first `n` arguments creates members for exactly the first `n` parameter names, all immutable. |
| `Frames.BindingsPositional` | src/main/java/org/wrylang/interpreter/Scope.java:199-205 | With distinct parameter names, parameter `i` is bound to argument `i`. |
| `Frames.BoundCount` | src/main/java/org/wrylang/interpreter/Scope.java:199-205 | The binding loop binds every argument exactly when there is no surplus argument, and never more than there are parameters. |
| `Frames.BindFailureAsWritten` | src/main/java/org/wrylang/interpreter/Scope.java:199-205 | The binding loop as written fails exactly when there are more arguments than parameters. |
| `Frames.AsWrittenFailsByIndex` | src/main/java/org/wrylang/interpreter/Scope.java:199-205 | As written, any call with more arguments than parameters fails with an index error. The "Too many arguments" error is unreachable. |
| `Frames.AsWrittenCounterexample` | src/main/java/org/wrylang/interpreter/Scope.java:200-204 | One parameter and three arguments: the as-written binding loop reports an index error, not too many arguments. |
| `Values.Allocate` | src/main/java/org/wrylang/interpreter/Scope.java:173 | A new object goes at a fresh address. Every existing object is unchanged, and the heap stays closed under references. |
| `Values.AddField` | src/main/java/org/wrylang/interpreter/Scope.java:117 | `addField` makes the name a member with the given value and flag, overwriting a same-named member. Every other member and object is unchanged, and closure is kept. |
| `Values.SetField` | src/main/java/org/wrylang/interpreter/Scope.java:48 | `setField` rebinds an existing member and keeps its mutability flag. No object gains or loses a member name, and nothing else changes. |
| `Values.GetMember` | src/main/java/org/wrylang/interpreter/Scope.java:18-19 | `getField` yields the receiver's own member when it has one, otherwise the entry of its kind's operation table. It fails exactly when neither exists (unbound member) or the receiver is null (null dereference). |
| `Values.Equals` | src/main/java/org/wrylang/interpreter/Scope.java:30-34 | `equals` fails exactly on a null receiver, and any object equals itself. |
| `Values.EqualsSymmetric` | src/main/java/org/wrylang/interpreter/Scope.java:29-34 | Between two objects, `==` does not depend on operand order. |
| `Intrinsics.JavaInt` | src/main/java/org/wrylang/interpreter/WryIntrinsics.java:77 | `intValue` yields a 32-bit value. That value is the number itself when it fits, and is congruent to it modulo 2^32 otherwise. |
| `Intrinsics.Compare` | src/main/java/org/wrylang/interpreter/WryIntrinsics.java:80-83 | `numberCompare` is zero iff the numbers are equal, negative iff `self < other`, and positive iff `self > other`. |
| `Intrinsics.CompareAntisymmetric` | src/main/java/org/wrylang/interpreter/WryIntrinsics.java:80-83 | Swapping the operands flips the sign of the comparison. |
| `Intrinsics.TupleItem` | src/main/java/org/wrylang/interpreter/WryIntrinsics.java:75-78 | `tupleGet` succeeds iff the narrowed index is in range, and then yields exactly that item. The index is narrowed to 32 bits first, so an index in -2^31..-1 fails with IndexOutOfBounds, while one outside the 32-bit range wraps (-2^32 narrows to 0 and gives item 0). |
| `Intrinsics.Concat` | src/main/java/org/wrylang/interpreter/WryIntrinsics.java:70-73 | The string sum is the receiver's characters followed by the operand's text. |
| `Intrinsics.Digits` | src/main/java/org/wrylang/interpreter/WryIntrinsics.java:72 | The decimal digits of a natural number read back as that number. |
| `Intrinsics.Decimal` | src/main/java/org/wrylang/interpreter/WryIntrinsics.java:72 | A number's rendering has a minus sign exactly when it is negative, followed by digits, and reads back as the number. |
| `Intrinsics.Text` | src/main/java/org/wrylang/interpreter/WryIntrinsics.java:72 | `toString` of a string, number or boolean: a string's own characters, a number's decimal rendering, and `true` or `false` for a boolean. A Java null renders as `null`, as string concatenation does (`WryIntrinsics.java:72`). |
| `Intrinsics.CallNative` | src/main/java/org/wrylang/interpreter/WryIntrinsics.java:23-83 | `throw` never returns normally and raises the argument's text; a null argument raises NullPointer, as `toString` on null does (`:25`). String `plus` on one argument always returns a fresh string holding the concatenation. Tuple `get` returns the indexed existing item or raises the index error. Number `compareTo` on two numbers always returns a fresh number holding the comparison. |
| `Ast.BinaryMember` | src/main/java/org/wrylang/interpreter/Scope.java:16-40 | Exactly the arithmetic and logical operators dispatch through a member: `+` calls `plus`, `-` calls `minus`, `*` calls `times`, `/` calls `divide`, `&&` calls `and` and `\|\|` calls `or`. |
| `Ast.PrefixMember` | src/main/java/org/wrylang/interpreter/Scope.java:86-92 | Prefix `+`, `-` and `!` dispatch to `plus`, `minus` and `not`, one member each. |
| `Semantics.Sem` | src/main/java/org/wrylang/interpreter/Scope.java:14-283 | Any evaluation keeps the configuration well-formed. The heap only grows, and no object changes kind or loses a member. The stack keeps the old stack at its bottom. On success the stack is restored and the value refers into the heap. |
| `Semantics.SemLeaf` | src/main/java/org/wrylang/interpreter/Scope.java:67-83 | A number, string or boolean literal allocates exactly one new object of its kind. `null` is the shared null object, with no state change. A name evaluates to `Frames.Lookup`, with no state change. A lambda allocates one callable holding its parameters and body. |
| `Semantics.SemBinary` | src/main/java/org/wrylang/interpreter/Scope.java:41-63 | Assignment to anything but a name or member path fails as unsupported, before anything is evaluated. |
| `Semantics.SemDispatch` | src/main/java/org/wrylang/interpreter/Scope.java:17-40 | Operator dispatch keeps the configuration well-formed, only grows the heap, and restores the stack on success. |
| `Semantics.DispatchSteps` | src/main/java/org/wrylang/interpreter/Scope.java:17-40 | The operand is evaluated first, and its failure is the result. A missing member fails after it. Otherwise the argument is evaluated whatever the operand's value (`&&` and `\|\|` do not short-circuit), and its failure is the result. |
| `Semantics.SemEquality` | src/main/java/org/wrylang/interpreter/Scope.java:29-34 | `==` and `!=` keep the configuration well-formed and restore the stack on success. |
| `Semantics.EqualitySteps` | src/main/java/org/wrylang/interpreter/Scope.java:29-34 | The left operand is evaluated, then the right operand where the left left off. Either failure is the result. A null left operand fails. Otherwise the result is one new boolean holding `equals` of the two values, negated for `!=`. |
| `Semantics.EqualityComplementary` | src/main/java/org/wrylang/interpreter/Scope.java:29-34 | On the same operands and state, `==` and `!=` have the same outcome kind and the same state up to the one new boolean, and their booleans are complementary. |
| `Semantics.SemAssignName` | src/main/java/org/wrylang/interpreter/Scope.java:41-54 | If no frame holds the name, the assignment fails with no state change and the right side is never evaluated. On success the frame that held the name before the right side ran now holds the result. Nothing else changes: the heap after the assignment is the right side's heap with only that one member rebound. |
| `Semantics.AssignNameSteps` | src/main/java/org/wrylang/interpreter/Scope.java:45-50 | When a frame holds the name, the assignment's outcome is the right side's outcome. A failing right side is the result, with its effects. Otherwise the state is the right side's, with only the member of the frame found before the right side ran rebound to its value; no binding is added anywhere and the stack is unchanged. |
| `Semantics.SemAssignMember` | src/main/java/org/wrylang/interpreter/Scope.java:55-58 | Member-path assignment keeps the configuration well-formed and restores the stack on success. |
| `Semantics.AssignMemberSteps` | src/main/java/org/wrylang/interpreter/Scope.java:55-58 | The right side is evaluated first, and its failure is the result. Then the path is resolved where it left off, and its failure is the result. Otherwise the member the path names holds the right side's value, which is the result. Nothing else changes: the state is the path's state with only that one member rebound. |
| `Semantics.SemPlace` | src/main/java/org/wrylang/interpreter/Scope.java:121-147 | A handle always names an existing member. For a bare name it is the member of the frame that resolution picks, with no state change, and otherwise "Symbol not found". Any other form is an invalid target. |
| `Semantics.PlaceSteps` | src/main/java/org/wrylang/interpreter/Scope.java:122-131 | For a path `a.b`, `a` is evaluated. A handle exists exactly when its value is an object that has `b`, and then names that member. A null value fails. |
| `Semantics.SemSelect` | src/main/java/org/wrylang/interpreter/Scope.java:150-153 | A member read keeps the configuration well-formed, and on success yields a reference into the heap with the stack restored. |
| `Semantics.SelectSteps` | src/main/java/org/wrylang/interpreter/Scope.java:150-153 | A member read yields exactly the value of the receiver's existing member. A failing receiver, a null receiver and a missing member are its three failures. |
| `Semantics.Declare` | src/main/java/org/wrylang/interpreter/Scope.java:112-117 | A name the object already has fails with Redefinition, with no state change and the initializer not evaluated. Success yields the null object. |
| `Semantics.DeclareSteps` | src/main/java/org/wrylang/interpreter/Scope.java:112-117 | Without a redefinition, the declaration succeeds exactly when the initializer does. It then adds exactly the new member, with the initializer's value and the declared flag, and changes no other object. |
| `Semantics.SemVar` | src/main/java/org/wrylang/interpreter/Scope.java:99-118 | A bare name already in the top frame fails with Redefinition and no state change. A target that is neither a name nor a path is invalid. Success yields the null object and restores the stack. |
| `Semantics.VarSteps` | src/main/java/org/wrylang/interpreter/Scope.java:102-117 | A bare name is declared on the top frame, whatever outer frames hold. A successful `var name = init` added `name`, absent before, to the top frame, bound to the initializer's value with the declared flag. A path target is declared as `Semantics.SemVarMember` says. |
| `Semantics.SemVarMember` | src/main/java/org/wrylang/interpreter/Scope.java:105-118 | `var a.m = init` keeps the configuration well-formed, and success yields the null object. |
| `Semantics.VarMemberSteps` | src/main/java/org/wrylang/interpreter/Scope.java:105-117 | The path's failure is the result. A null holder fails. A holder that already has `m` fails with Redefinition. On success `m`, absent before, is on the holder, bound to the initializer's value with the declared flag. |
| `Semantics.VarMemberDeclares` | src/main/java/org/wrylang/interpreter/Scope.java:105-117 | Once the path resolves to a non-null holder, `m` is declared on that holder exactly as a bare name is declared on the top frame: the same redefinition check, initializer and new binding. |
| `Semantics.SemDef` | src/main/java/org/wrylang/interpreter/Scope.java:155-167 | A name already in the top frame fails with Redefinition and nothing changes. Otherwise the top frame gains exactly that name, bound immutably to a new lambda. Every other object is unchanged and the result is the null object. |
| `Semantics.SemClass` | src/main/java/org/wrylang/interpreter/Scope.java:266-283 | The top frame gains the name, bound immutably to a new constructor, with no redefinition check. Every other object is unchanged and the result is the null object. |
| `Semantics.SemLines` | src/main/java/org/wrylang/interpreter/Scope.java:174-176 | Evaluating lines keeps the configuration well-formed and restores the stack on success. |
| `Semantics.SemLinesStops` | src/main/java/org/wrylang/interpreter/Scope.java:174-176 | A failing line ends the evaluation: later lines are never evaluated. |
| `Semantics.SemBlock` | src/main/java/org/wrylang/interpreter/Scope.java:170-180 | On success the stack is the prior stack. An empty block yields the null object. On failure the block's own frame stays directly above the prior stack. |
| `Semantics.BlockSteps` | src/main/java/org/wrylang/interpreter/Scope.java:170-180 | A block's outcome is that of its lines run in a fresh frame. A failure is the result with that frame left on the stack; success pops it. A non-empty block's value is its last line's, evaluated in the block's frame after the earlier lines succeeded. |
| `Semantics.SemAll` | src/main/java/org/wrylang/interpreter/Scope.java:218-221 | Evaluating a list yields one value per expression on success, each inside the heap, with the stack restored. |
| `Semantics.SemAllStops` | src/main/java/org/wrylang/interpreter/Scope.java:218-221 | A failing expression ends the list: later expressions are never evaluated. |
| `Semantics.SemAllItem` | src/main/java/org/wrylang/interpreter/Scope.java:218-221 | Values come left to right: value `i` is expression `i`'s, evaluated where the first `i` expressions left off. |
| `Semantics.SemAllFailure` | src/main/java/org/wrylang/interpreter/Scope.java:218-221 | A list fails with the failure of its first failing expression, every earlier one having succeeded, and leaves that expression's state. |
| `Semantics.SemTuple` | src/main/java/org/wrylang/interpreter/Scope.java:183-193 | Unless there is exactly one item, success yields a new tuple with one value per item. |
| `Semantics.TupleSteps` | src/main/java/org/wrylang/interpreter/Scope.java:183-193 | One item yields that item's own outcome. Otherwise the tuple succeeds exactly when every item does, and the new tuple holds exactly the items' values in order. |
| `Semantics.SemCall` | src/main/java/org/wrylang/interpreter/Scope.java:214-225 | A call keeps the configuration well-formed and restores the stack on success. |
| `Semantics.CallSteps` | src/main/java/org/wrylang/interpreter/Scope.java:214-225 | The arguments are evaluated before the callee expression, and a failing argument ends the call. The callee expression is evaluated where the arguments left off. A null callee fails. |
| `Semantics.SemGet` | src/main/java/org/wrylang/interpreter/Scope.java:243-254 | A successful indexing expression yields Java `null`, whatever `get` returned. |
| `Semantics.GetSteps` | src/main/java/org/wrylang/interpreter/Scope.java:243-254 | The indices are evaluated before the receiver, and a failing index ends it. The receiver is evaluated where they left off. A null receiver fails. |
| `Semantics.SemFields` | src/main/java/org/wrylang/interpreter/Scope.java:259-261 | Evaluating the initializers keeps the configuration well-formed and restores the stack on success. |
| `Semantics.SemFieldsKeys` | src/main/java/org/wrylang/interpreter/Scope.java:259-261 | The members built from the fields are exactly the field names. |
| `Semantics.SemFieldsSlots` | src/main/java/org/wrylang/interpreter/Scope.java:260 | Every member built from the fields is mutable and refers into the heap. |
| `Semantics.SemFieldsStops` | src/main/java/org/wrylang/interpreter/Scope.java:259-261 | A failing initializer ends the record: later initializers are never evaluated. |
| `Semantics.SemFieldsValues` | src/main/java/org/wrylang/interpreter/Scope.java:259-261 | Field `j`, when no later field has its name, is bound to a mutable slot holding its initializer's value, evaluated where the fields before it left off. |
| `Semantics.SemRecord` | src/main/java/org/wrylang/interpreter/Scope.java:257-263 | A record succeeds exactly when its initializers do. It is then a new plain object whose members are exactly those the initializers built: one per declared field name, each mutable. |
| `Semantics.RecordSteps` | src/main/java/org/wrylang/interpreter/Scope.java:257-263 | A record succeeds exactly when its initializers do, and their failure is its failure. Otherwise the heap is theirs plus one new plain object holding exactly the members they built, which is the result; the stack is theirs. |
| `Semantics.SemInvoke` | src/main/java/org/wrylang/interpreter/Scope.java:224 | Invoking `null` is a null dereference, and invoking a non-callable fails. Both leave the state unchanged. |
| `Semantics.CallFrame` | src/main/java/org/wrylang/interpreter/Scope.java:198-205 | A call's frame is one new plain object pushed on top of the stack, holding the parameters bound to the arguments that have a parameter. |
| `Semantics.SemLambda` | src/main/java/org/wrylang/interpreter/Scope.java:196-211 | As written, a surplus argument fails with IndexOutOfBounds and leaves the pushed frame on the stack, holding every parameter binding. Success implies no surplus argument and a restored stack. |
| `Semantics.LambdaSteps` | src/main/java/org/wrylang/interpreter/Scope.java:198-209 | Without a surplus argument, a lambda call's outcome is its body's, evaluated in a new frame holding each parameter bound to its argument, on top of the caller's stack. A failing body leaves that frame on the stack; success pops it. |
| `Semantics.SemConstructor` | src/main/java/org/wrylang/interpreter/Scope.java:267-281 | Success returns the freshly allocated frame as the instance: a plain object at an address no earlier object had, still holding every parameter name, with the stack restored. A surplus argument fails with IndexOutOfBounds, as for lambdas. |
| `Semantics.ConstructorSteps` | src/main/java/org/wrylang/interpreter/Scope.java:267-281 | Without a surplus argument, a constructor call runs every body line, in order, in a new frame holding the parameters on top of the caller's stack. A failing line is the call's failure, with that frame left on the stack. Otherwise that same frame, with every member the lines declared, is popped and returned as the instance. |
| `Semantics.SemNative` | src/main/java/org/wrylang/interpreter/WryIntrinsics.java:23-83 | After a native call, the state is what `Intrinsics.CallNative` decides: one new object, the returned existing object, or the raised error with the heap unchanged. |
| `Evaluator.Scope.constructor` | src/main/java/org/wrylang/interpreter/Scope.java:10-12 | The stack starts as the single global frame, where `throw` resolves to the throw native. |
| `Evaluator.Scope.FindScope` | src/main/java/org/wrylang/interpreter/Scope.java:136-140 | The frame walk returns exactly the frame that `Frames.FindFrame` specifies. |
| `Evaluator.Scope.LookupName` | src/main/java/org/wrylang/interpreter/Scope.java:68-77 | A name evaluates to `Frames.Lookup` of the current stack. |
| `Evaluator.Scope.Eval` | src/main/java/org/wrylang/interpreter/Scope.java:14-283 | Evaluation yields exactly the outcome and the state that `Semantics.Sem` gives from the state before it. |
| `Evaluator.Scope.EvalLeaf` | src/main/java/org/wrylang/interpreter/Scope.java:67-83 | Computes exactly the outcome and new state that `Semantics.SemLeaf` gives from the state before the call. |
| `Evaluator.Scope.EvalBinary` | src/main/java/org/wrylang/interpreter/Scope.java:15-65 | Computes exactly the outcome and new state that `Semantics.SemBinary` gives from the state before the call. |
| `Evaluator.Scope.EvalDispatch` | src/main/java/org/wrylang/interpreter/Scope.java:17-40 | Computes exactly the outcome and new state that `Semantics.SemDispatch` gives from the state before the call; prefix operators use it with no argument. |
| `Evaluator.Scope.EvalEquality` | src/main/java/org/wrylang/interpreter/Scope.java:29-34 | Computes exactly the outcome and new state that `Semantics.SemEquality` gives from the state before the call. |
| `Evaluator.Scope.AssignName` | src/main/java/org/wrylang/interpreter/Scope.java:41-54 | Computes exactly the outcome and new state that `Semantics.SemAssignName` gives from the state before the call. |
| `Evaluator.Scope.AssignMember` | src/main/java/org/wrylang/interpreter/Scope.java:55-58 | Computes exactly the outcome and new state that `Semantics.SemAssignMember` gives from the state before the call. |
| `Evaluator.Scope.ResolvePlace` | src/main/java/org/wrylang/interpreter/Scope.java:121-147 | Computes exactly the outcome and new state that `Semantics.SemPlace` gives from the state before the call. |
| `Evaluator.Scope.EvalSelect` | src/main/java/org/wrylang/interpreter/Scope.java:150-153 | Computes exactly the outcome and new state that `Semantics.SemSelect` gives from the state before the call. |
| `Evaluator.Scope.DeclareMember` | src/main/java/org/wrylang/interpreter/Scope.java:112-117 | Computes exactly the outcome and new state that `Semantics.Declare` gives from the state before the call. |
| `Evaluator.Scope.EvalVar` | src/main/java/org/wrylang/interpreter/Scope.java:99-118 | Computes exactly the outcome and new state that `Semantics.SemVar` gives from the state before the call. |
| `Evaluator.Scope.EvalVarMember` | src/main/java/org/wrylang/interpreter/Scope.java:105-117 | Computes exactly the outcome and new state that `Semantics.SemVarMember` gives from the state before the call. |
| `Evaluator.Scope.EvalDef` | src/main/java/org/wrylang/interpreter/Scope.java:155-167 | Computes exactly the outcome and new state that `Semantics.SemDef` gives from the state before the call. |
| `Evaluator.Scope.EvalClass` | src/main/java/org/wrylang/interpreter/Scope.java:266-283 | Computes exactly the outcome and new state that `Semantics.SemClass` gives from the state before the call. |
| `Evaluator.Scope.EvalBlock` | src/main/java/org/wrylang/interpreter/Scope.java:170-180 | Computes exactly the outcome and new state that `Semantics.SemBlock` gives from the state before the call. |
| `Evaluator.Scope.EvalLines` | src/main/java/org/wrylang/interpreter/Scope.java:174-176 | The loop over the lines equals `Semantics.SemLines` of all the lines. |
| `Evaluator.Scope.EvalTuple` | src/main/java/org/wrylang/interpreter/Scope.java:183-193 | Computes exactly the outcome and new state that `Semantics.SemTuple` gives from the state before the call. |
| `Evaluator.Scope.EvalAll` | src/main/java/org/wrylang/interpreter/Scope.java:218-221 | The loop over the expressions equals `Semantics.SemAll` of all of them. |
| `Evaluator.Scope.EvalNext` | src/main/java/org/wrylang/interpreter/Scope.java:219-220 | One round of the loop equals `Semantics.SemAll` of one more expression; a failure already equals it for the whole list. |
| `Evaluator.Scope.EvalCall` | src/main/java/org/wrylang/interpreter/Scope.java:214-225 | Computes exactly the outcome and new state that `Semantics.SemCall` gives from the state before the call. |
| `Evaluator.Scope.EvalGet` | src/main/java/org/wrylang/interpreter/Scope.java:243-254 | Computes exactly the outcome and new state that `Semantics.SemGet` gives from the state before the call. |
| `Evaluator.Scope.EvalRecord` | src/main/java/org/wrylang/interpreter/Scope.java:257-263 | Computes exactly the outcome and new state that `Semantics.SemRecord` gives from the state before the call. |
| `Evaluator.Scope.EvalFields` | src/main/java/org/wrylang/interpreter/Scope.java:259-261 | The loop over the fields equals `Semantics.SemFields` of all of them. |
| `Evaluator.Scope.EvalField` | src/main/java/org/wrylang/interpreter/Scope.java:260 | One round of the loop equals `Semantics.SemFields` of one more field; a failure already equals it for the whole list. |
| `Evaluator.Scope.Invoke` | src/main/java/org/wrylang/interpreter/Scope.java:224 | Computes exactly the outcome and new state that `Semantics.SemInvoke` gives from the state before the call. |
| `Evaluator.Scope.BindParams` | src/main/java/org/wrylang/interpreter/Scope.java:199-205 | The binding loop as written: its failure is `Frames.BindFailureAsWritten`, which is IndexOutOfBounds exactly when there is a surplus argument. The frame gains exactly the bindings of the arguments that have a parameter, and the stack is unchanged. |
| `Evaluator.Scope.BindParamsIntended` | src/main/java/org/wrylang/interpreter/Scope.java:199-205 | The corrected loop (`i >= size`): binding fails exactly when there are more arguments than parameters, and then with TooManyArguments. The frame gains the same bindings as in the loop as written. |
| `Evaluator.Scope.EnterCall` | src/main/java/org/wrylang/interpreter/Scope.java:198-205 | The new state is exactly `Semantics.CallFrame`, and the failure is the as-written one. |
| `Evaluator.Scope.InvokeLambda` | src/main/java/org/wrylang/interpreter/Scope.java:196-211 | Computes exactly the outcome and new state that `Semantics.SemLambda` gives from the state before the call. |
| `Evaluator.Scope.InvokeConstructor` | src/main/java/org/wrylang/interpreter/Scope.java:267-281 | Computes exactly the outcome and new state that `Semantics.SemConstructor` gives from the state before the call. |
| `Evaluator.Scope.InvokeNative` | src/main/java/org/wrylang/interpreter/WryIntrinsics.java:23-83 | Computes exactly the outcome and new state that `Semantics.SemNative` gives from the state before the call. |

## Left out

- Where the prose description of the language and the code differ, the model follows the code:
  - Record fields are added mutable (`Scope.java:260`).
  - A frame is popped only on success.
  - A surplus argument does not pass silently. It fails inside the parameter list access with an index error, however many surplus arguments there are (see Findings). The evaluator runs this as-written loop; the corrected loop is `Evaluator.Scope.BindParamsIntended`.
- `include`, `print`, `time` and `nanoTime` are not modelled: they read files, write the console or read the clock. The global frame therefore holds only `throw`.
- The `WryIntrinsics` constructor and the reflective registration of natives into the global frame and type tables are not modelled. The code for that registration is not part of this model. The start-up state is given instead:
  - one global frame;
  - the String, Tuple and Number tables, holding only `plus`, `get` and `compareTo`;
  - one shared null object.
- Number arithmetic members (`plus`, `minus` and so on) live in code that is not part of this model. In the model, `1 + 2` fails as an unbound member.
- There is no Boolean table either, and no number member for the prefix operators. In the model, `&&`, `||` and `!` on booleans and prefix `+` and `-` on numbers therefore fail as unbound members.
- The internals of `Obj`, `Lambda` and the value classes are not part of this model:
  - `addField` overwrites a same-named member.
  - `setField` does not enforce mutability.
  - `hasField` and `getFieldWrapper` see the object's own members only, while `getField` falls back to the kind's table.
  - `equals` is identity, or equal payloads for numbers, strings, booleans and null.
  - `toString` renders strings, numbers, booleans and null, and a fixed placeholder for everything else.
- Java exception classes, messages and source positions are collapsed into one error kind per failure.
- Values.Equals: it is an assumption of the model about `equals`, not a fact read from the source.
- Semantics.Sem: recursion is bounded by a fuel parameter, and the OutOfFuel error exists only in the model. The model does not state how much fuel an evaluation needs.
- Semantics.DispatchSteps: the last step, invoking the fetched member with the argument's value, is stated by the body of `Semantics.SemDispatch` and not repeated in the lemma.
- Semantics.CallSteps: the final invocation of the callee with the argument values is likewise left to the body of `Semantics.SemCall`.
- Semantics.GetSteps: the invocation of the receiver's `get` member is likewise left to the body of `Semantics.SemGet`.
- Semantics.SemRecord: a record object is allocated after its fields are evaluated rather than before. It is unreachable until then, so this is not observable.
  - Field order is the order of the declaration list. The order in which the source's map yields its entries is not part of this model.
- The "Unknown operator" default branches (`Scope.java:62-63`, `:93-94`) are not modelled: the model's operator types are closed.
- The `superObj` parameter of the typed natives is not represented, because none of them reads it.
- Numbers are unbounded integers. The 64-bit `long` range is not modelled; only the 32-bit narrowing of `intValue` in `tupleGet` is.

## Findings

| source | as written | input that shows it | evidently intended | confidence | as-written member | corrected member |
|---|---|---|---|---|---|---|
| src/main/java/org/wrylang/interpreter/Scope.java:200 | The binding loop tests `i > params.size()` before reading `params.get(i)`, so at `i == size` the list access fails first and the test never fires. The constructor loop at `:270` is the same. | A one-parameter lambda called with three arguments fails with an index error at `i = 1`, not with "Too many arguments". | `i >= params.size()`: every call with a surplus argument fails with "Too many arguments". | high; not executed | `Evaluator.Scope.BindParams` | `Evaluator.Scope.BindParamsIntended` |

The evaluator follows the code as written: `Evaluator.Scope.BindParams`, `Semantics.SemLambda` and
`Semantics.SemConstructor` fail with the index error. `Frames.AsWrittenFailsByIndex` and
`Frames.AsWrittenCounterexample` show that the "Too many arguments" branch is unreachable.
`Evaluator.Scope.BindParamsIntended` is the corrected loop, with its property proved.
