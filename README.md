# A verified model of the u_scheme_r eval/apply engine

`u_scheme_r.rb` and its smaller sibling `schemer.rb` are tiny Scheme
interpreters written in Ruby. A program is a Ruby value: integers,
symbols, and arrays standing for lists. `_eval(exp, env)` does one
of three things with it:
- an integer evaluates to itself;
- any other atom is a variable, looked up in the environment;
- an array is a special form or an application.

An environment is a Ruby `Array` of `Hash` frames, innermost first. Values are:
- integers;
- `true`/`false`;
- lists;
- primitives `[:prim, lambda]`;
- closures `[:closure, params, body, env]`, which hold a reference to the environment they were created in.

The two files differ in their special forms:
- `u_scheme_r.rb` has `lambda`, `let`, `letrec`, `if`, `cond`, `define` and `quote`;
- `schemer.rb` has only the first four.

In both files the program is evaluated against `$global_env`. This is one array of three frames:
- the list primitives and `nil`;
- the arithmetic and comparison primitives;
- the booleans.

This project models that engine in Dafny:

- **syntax.dfy**: expressions (`Expr`) and how a list is classified as a special form (`FormOf`, in the source's priority order, per `Dialect`). It also holds the source's syntactic rewrites: `let` as a lambda application, `cond` as nested `if`s, and the accessors of `define`.
- **values.dfy**: runtime values, errors, Ruby truth (only `false` and `nil` are false), and `quote` as a value.
- **environment.dfy**: the heap as an arena.
  - A frame id is the identity of a Ruby `Hash`; an `EnvRef` is the identity of a Ruby `Array`. Two closures share an environment exactly when they hold the same id.
  - It holds the environment operations as store transformers: lookup, `extend_env` (a fresh array), `extend_env!` (`unshift` into the same array), the in-place write of `define`, and the `set_extend_env!` fix-up of `letrec`.
  - Lemmas say what each operation does to every later lookup, through any array.
- **heap.dfy**: the same operations as the source performs them.
  - The hash-building loops, the frame scan of `lookup_var_ref`, the `unshift` and the element writes are methods of a `Heap` class that update its `frames` and `envs` fields.
  - Each method is proved to leave exactly the store the environment.dfy function describes.
- **primitives.dfy**: the primitive procedures and `$global_env`.
- **interp.dfy**: `_eval`, `eval_list`, `apply` and the special forms. They are one store-passing, fuel-bounded, mutually recursive evaluator, parameterised by the dialect.
- **growth.dfy**: evaluation never frees a frame or an array, never removes a binding, only adds frames at the front of an array, and keeps the store well-formed.
- **properties.dfy**: properties of the evaluator.
  - Evaluation order.
  - The meaning of `if`, `let`, `letrec`, `define`, `cond` and `quote`, stated without the desugaring.
  - Redefinition and first definition as seen through shared arrays.
  - The letrec knot.
  - Which forms the basic dialect lacks.
- **factorial.dfy**: the sample program at the end of `schemer.rb`. `letrec` binds `fact`, and `(fact 5)` is proved to evaluate to 120 in both dialects. More generally, `(fact k)` gives k! for every k, given enough fuel.

The model follows the code in these points:
- Closures do not check their arity. `zip` pads missing arguments with nil and drops surplus ones.
- `define` returns Ruby `nil`, not a separate unit value.
- The letrec placeholder is the symbol `:dummy`, an ordinary value, not an error.
- A `cond` without a matching clause fails as unbound, in one of two ways.
  - With clauses, `cond_to_if` ends the nested ifs in the empty string `''` as the else branch of the innermost `if`. When no test is true, `_eval('')` looks up the string `''` as a variable, which fails as unbound (`Err(Unbound(Str("")))`).
  - With no clauses at all, `(cond)` hands `''` itself to `eval_if`. `''[1]`, `''[2]` and `''[3]` are nil, so the test is `nil`, which is looked up and fails as unbound (`Err(Unbound(Nil))`).
- `nil` in `$list_env` is bound to the empty list, which is true in Ruby.

## Model

| member | source | states |
|---|---|---|
| Syntax.FormOf | u_scheme_r.rb:21-51 | a list is taken as special form k exactly when its head is k's keyword and the dialect has k; every other list is an application; the basic dialect (schemer.rb:19-40) has only lambda, let, letrec and if |
| Syntax.CondToIf | u_scheme_r.rb:263-274 | the rewrite of cond into nested ifs is defined exactly when every clause is an array |
| Values.DatumIsExpr | u_scheme_r.rb:280-282 | a quoted expression read back as an expression is the expression itself: quoting loses nothing |
| Primitives.ApplyPrim | u_scheme_r.rb:90-211 | an arity error arises exactly when a fixed-arity primitive (every binary operator, car, cdr, cons, null?) gets the wrong number of arguments; `==` is structural equality; cons prepends to a list; list returns its arguments as a list whatever their number; null? is true exactly of the empty list |
| Primitives.GlobalStore | u_scheme_r.rb:297-307 | the global environment is one well-formed array listing the list frame, the primitive frame and the boolean frame in that order |
| Environment.FindFrame | u_scheme_r.rb:250-252 | the index found is the first frame of the array that binds the name; when none is found, no frame binds it |
| Environment.LookupVarRef | u_scheme_r.rb:250-252 | a frame is returned exactly when some frame of the array binds the name, and it is the innermost such frame |
| Environment.LookupVar | u_scheme_r.rb:122-128 | a value is found exactly when some frame binds the name, and it is the innermost frame's binding |
| Environment.BindLookup | u_scheme_r.rb:130-135 | the zipped hash binds exactly the old keys plus the parameters; a parameter gets the argument at its last position (nil past the end of the arguments); other keys keep their values |
| Environment.ZipFrame | u_scheme_r.rb:130-135 | with distinct parameters the fresh frame's keys are the parameters and the i-th parameter is bound to the i-th argument or nil |
| Environment.ExtendEnvFrame | u_scheme_r.rb:130-135 | `[h] + env` allocates a new array listing the new frame in front of env's frames; no existing frame or array changes; well-formedness is kept |
| Environment.UnshiftFrame | u_scheme_r.rb:228-233 | unshift adds a frame at the front of that same array only; every other array lists the same frames as before; nothing is removed |
| Environment.WriteFrame | u_scheme_r.rb:221 | the in-place write changes that one frame's entry and no other frame or array |
| Environment.SetExtendEnv | u_scheme_r.rb:183-187 | the fix-up changes no array, removes no binding and keeps well-formedness |
| Environment.ExtendsLookup | u_scheme_r.rb:130-135 | allocating frames and arrays changes no lookup through an existing array |
| Environment.LookupAfterExtend | u_scheme_r.rb:130-135 | in the extended environment, a name the new frame binds is shadowed by it; every other name is looked up as in the old environment |
| Environment.LookupAfterExtendEnv | u_scheme_r.rb:160-164 | after `extend_env`, a parameter has the argument at its last position and every other name its binding in the captured environment |
| Environment.LookupAfterWrite | u_scheme_r.rb:219-221 | after the write, a lookup yields the new value exactly when it is the written name and the innermost frame binding it is the written frame |
| Environment.LookupAfterUnshift | u_scheme_r.rb:222-223 | after a first definition, the name has the new value in that array and every other name keeps its value |
| Environment.UnshiftLeavesOthers | u_scheme_r.rb:228-233 | unshifting into one array changes no lookup through any other array |
| Environment.LookupAfterFixup | u_scheme_r.rb:183-187 | after the fix-up, every letrec name resolves through that array to the value at its last position |
| Environment.FixupLeavesOthers | u_scheme_r.rb:183-187 | the fix-up changes no lookup of a name outside the parameter list, through any array |
| Interp.Eval | u_scheme_r.rb:3-19 | `_eval` itself; its meaning is stated by Properties.EvalAtom (atoms), Properties.ApplicationOrder (applications) and the special-form lemmas, and Growth.EvalEvolves states what it does to the store |
| Interp.EvalForm | u_scheme_r.rb:35-51 | `eval_special_form`; each branch is stated by one lemma: Properties.EvalLambdas, LetMeaning, LetrecMeaning, EvalIfForm, CondFirstMatch, DefineStep and QuoteReturnsDatum |
| Interp.EvalIf | u_scheme_r.rb:53-60 | `eval_if`; Properties.EvalIfForm states it: one evaluation of the test, then only the branch Ruby truth picks |
| Interp.EvalLetrec | u_scheme_r.rb:170-181 | `eval_letrec`; Properties.LetrecMeaning and Properties.LetrecFixup state it |
| Interp.EvalDefine | u_scheme_r.rb:213-226 | `eval_define`; Properties.DefineStep, DefineOverwrites and DefineUnshifts state it |
| Interp.EvalApplication | u_scheme_r.rb:13-17 | the application branch of `_eval`; Properties.ApplicationOrder states it |
| Interp.Apply | u_scheme_r.rb:74-80 | `apply` and `lambda_apply`; Properties.ApplyClosure states the closure case and Properties.ApplyDispatch the others |
| Syntax.LetParts | u_scheme_r.rb:143-145 | `let_to_parameters_args_body`; Properties.LetMeaning and LetrecMeaning state its use: names, initialisers and body as the let and letrec forms bind them |
| Syntax.LetApplication | u_scheme_r.rb:139-140 | the `[[:lambda, ps, body]] + args` rewrite; Properties.LetApplicationMeaning states its meaning |
| Syntax.DefineParts | u_scheme_r.rb:235-248 | the two `define` accessors; Properties.DefineSugar states that the procedure form means the same as the lambda form |
| Environment.Bind | u_scheme_r.rb:130-133 | the zip-then-store hash; Environment.BindLookup states its keys and values |
| Environment.ExtendEnv | u_scheme_r.rb:130-135 | `extend_env`; Environment.LookupAfterExtendEnv states every lookup through the new array and Heap.Heap.ExtendEnv the imperative version |
| Environment.Placeholders | u_scheme_r.rb:172-176 | the `:dummy` frame of `eval_letrec`; Heap.PlaceholderFrame and Properties.LetrecFixup state it |
| Interp.EvalList | u_scheme_r.rb:70-72 | a successful evaluation of the arguments gives exactly one value per expression |
| Growth.EvalEvolves | u_scheme_r.rb:3-19 | evaluating any expression, successfully or not, frees no frame or array, keeps every binding, only adds frames at array fronts, and keeps well-formedness |
| Growth.EvalFormEvolves | u_scheme_r.rb:35-51 | the same for every special form |
| Growth.EvalIfEvolves | u_scheme_r.rb:53-60 | the same for if |
| Growth.EvalLetrecEvolves | u_scheme_r.rb:170-181 | the same for letrec, including its placeholder frame and fix-up |
| Growth.EvalDefineEvolves | u_scheme_r.rb:213-226 | the same for define, whether it writes or unshifts |
| Growth.EvalApplicationEvolves | u_scheme_r.rb:13-17 | the same for an application |
| Growth.EvalListEvolves | u_scheme_r.rb:70-72 | the same for an argument list |
| Growth.ApplyEvolves | u_scheme_r.rb:74-80 | the same for applying a primitive or a closure |
| Properties.EvalAtom | u_scheme_r.rb:4-9 | a number evaluates to itself; any other atom is looked up and raises when unbound; the store is untouched |
| Properties.EvalListAppend | u_scheme_r.rb:70-72 | argument lists are evaluated left to right: the second part runs in the store the first left, and evaluation stops at the first failure |
| Properties.EvalListAt | u_scheme_r.rb:70-72 | in a successful argument list the i-th value is what the i-th expression gives in the store its predecessors left |
| Properties.ApplicationOrder | u_scheme_r.rb:13-17 | an application evaluates the head and then the arguments left to right, and applies the head's value to the arguments; a failing head stops everything |
| Properties.ApplyClosure | u_scheme_r.rb:160-164 | applying a closure runs its body in a fresh frame in front of the captured array; parameters see the arguments and other names the captured bindings (static scope) |
| Properties.ApplyDispatch | u_scheme_r.rb:74-80 | apply invokes a primitive on the arguments without touching the store, fails on a closure whose parameter list is not an array, and fails with NotAFunction on any value that is neither a primitive nor a closure |
| Properties.EvalIfForm | u_scheme_r.rb:53-60 | the test is evaluated once; then only the else branch runs when the test is false or nil, and only the then branch otherwise |
| Properties.LetMeaning | u_scheme_r.rb:137-145 | let evaluates its initialisers left to right in the outer environment, then the body in one fresh frame binding the names to those values |
| Properties.LetApplicationMeaning | u_scheme_r.rb:139-140 | the lambda application let rewrites to has that same meaning |
| Properties.EvalLambdas | u_scheme_r.rb:151-158 | evaluating lambda expressions never fails, leaves the store unchanged, and gives closures over the current array |
| Properties.LetrecFixup | u_scheme_r.rb:170-187 | in letrec the closures capture the extended array while the names are still `:dummy`; after the in-place fix-up each name is bound to its closure, so the closures see themselves |
| Properties.LetrecMeaning | u_scheme_r.rb:170-181 | letrec evaluates the initialisers in the placeholder array, fixes up its front frame, then evaluates the let application in that array, so the initialisers run a second time |
| Properties.DefineSugar | u_scheme_r.rb:235-244 | `(define (f ps...) body)` behaves exactly as `(define f (lambda (ps...) body))` |
| Properties.DefineStep | u_scheme_r.rb:213-226 | define looks the name up before evaluating the value; it then writes into the frame found or unshifts a new one, and returns nil |
| Properties.DefineOverwrites | u_scheme_r.rb:219-221 | redefinition returns nil; the new value is seen through every array whose innermost binding of the name is the written frame, and no other lookup changes |
| Properties.DefineUnshifts | u_scheme_r.rb:222-225 | a first definition returns nil; the name is seen through the same array afterwards; no other array changes, so arrays copied from it by extend_env do not see it |
| Properties.CondToIfMeaning | u_scheme_r.rb:258-274 | the rewritten cond means "the value of the first clause whose test is true (`else` counts as true), tests evaluated in order" |
| Properties.CondFirstMatch | u_scheme_r.rb:258-261 | evaluating a cond form gives that first-match meaning |
| Properties.QuoteReturnsDatum | u_scheme_r.rb:280-282 | quote returns its operand as data without evaluating it and leaves the store unchanged |
| Properties.BasicHasNoCondDefineQuote | schemer.rb:19-24 | in the basic dialect cond, define and quote are not special forms, so such a list is an application whose unbound head raises |
| Heap.ZipIntoHash | u_scheme_r.rb:130-133 | the hash-building loop binds exactly the parameters, each to the argument at its last position or nil |
| Heap.PlaceholderFrame | u_scheme_r.rb:172-175 | the letrec loop binds exactly the parameters, each to `:dummy` |
| Heap.Heap.Global | u_scheme_r.rb:307 | the heap starts as the global environment |
| Heap.Heap.FindRef | u_scheme_r.rb:250-252 | the scan returns the innermost frame binding the name, or none |
| Heap.Heap.Lookup | u_scheme_r.rb:122-128 | the lookup method returns what the lookup function specifies |
| Heap.Heap.ExtendEnv | u_scheme_r.rb:130-135 | the new heap is the fresh frame plus a fresh array in front of the old one, as specified |
| Heap.Heap.ExtendEnvBang | u_scheme_r.rb:228-233 | the new heap is the old one with a frame unshifted into the same array |
| Heap.Heap.SetExtendEnvBang | u_scheme_r.rb:183-187 | writing the values into the front frame, one element at a time, gives the specified fix-up |
| Heap.Heap.DefineWrite | u_scheme_r.rb:221 | the element write changes exactly that frame's entry |
| Factorial.FactCall | schemer.rb:217 | applying the fact closure to k gives k!; the store is only extended, and well-formedness is kept |
| Factorial.ProgramEval | schemer.rb:159-170 | the sample letrec reduces to the call `(fact k)` in the fixed-up array |
| Factorial.ProgramReady | schemer.rb:172-176 | after the fix-up, fact is bound to its closure and `<`, `*`, `-` still resolve to the primitives |
| Factorial.FactProgramResult | schemer.rb:214-218 | the sample program with any k evaluates to k!, in either dialect |
| Factorial.FactorialOfFive | schemer.rb:214-219 | the sample program evaluates to 120 in the global environment |

## Left out

- `parse`, `repl` and `pp` (u_scheme_r.rb:288-295, 309-361) are text input and output; the model starts from the parsed Ruby value.
- `puts` of the result (schemer.rb:219) is output; the model proves the value instead.
- Recursion depth: Ruby raises `SystemStackError` on deep recursion. The model uses fuel instead, and running out of it is the result `OutOfFuel`.
- Ruby exceptions become `Err` values: an unbound variable, a wrong primitive arity, a type mismatch, or applying a non-function. Ruby's message texts are not modelled.
- Host behaviour on values of the wrong type is reduced to a type-mismatch error. Applying arithmetic to lists (Ruby's `Array#+`), or `car`/`cdr` to a number (Ruby's `Integer#[]` reads bits), is in this class.
- Arrays that merely look like closures or primitives, such as a quoted `(closure ...)` list, are not applied as closures; applying one is an error.
- Numbers are unbounded integers. Floats and `/` are not in the primitive table and are not modelled.
- Ruby's `==` on closures compares the captured arrays deeply, frame by frame. The model compares the environment references, so two distinct but equal-looking environments make closures that Ruby calls equal and the model calls different.
- The evaluator is a pure function that passes the store along. The in-place updates are modelled by the `Heap` class, whose methods are proved equal to those store operations. `Eval` itself does not call the methods.
- Syntax.LetParts / Syntax.CondToIf: a `let`/`letrec` binding or a `cond` clause that is not an array is an error (`Err(Malformed)`). Ruby instead indexes numbers and symbols with `Integer#[]` and `Symbol#[]` and carries on with the garbage this produces. For example `(cond 5)` rewrites to `(if 1 0 '')` and gives 0, and `(let (5) 7)` gives 7.
- Primitives.ApplyPrim: the list primitives treat function values as non-lists. In Ruby a closure or primitive is an array, so `(cons 1 car)` gives `[1, :prim, λ]` and `(car car)` gives `:prim`. The model gives `Err(ConsNotList)` and a type mismatch instead.
- `$global_env` is passed to the evaluator explicitly as environment 0 of the initial store.
- Factorial.FactCall: proves k! only when the fuel is at least a linear bound in k, not for all fuel.
- Factorial.FactProgramResult: proves k! only when the fuel is at least a linear bound in k, not for all fuel.
