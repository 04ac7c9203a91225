/** Expressions as the engine receives them, and the purely syntactic parts of
    the engine: recognising special forms and taking them apart or rewriting
    them into other expressions (the let, letrec, define and cond desugarings). */
module Syntax {
  import opened Wrappers

  /** An already-parsed expression.  The source works on Ruby numbers, symbols
      and arrays; two more atoms appear because the engine creates them itself:
      `Nil` is Ruby's nil, which indexing past the end of an array yields
      (`exp[3]` of a two-armed `if`), and `Str` is a Ruby string, of which the
      engine creates exactly one, the `''` that ends a `cond` chain. */
  datatype Expr =
    | Num(n: int)
    | Sym(name: string)
    | Str(s: string)
    | Nil
    | List(items: seq<Expr>)

  /** `exp[i]` on a Ruby array: the element, or nil past the end. */
  function At(es: seq<Expr>, i: nat): Expr
  {
    if i < |es| then es[i] else Nil
  }

  /** Which variant of the engine runs: `Full` has all seven special forms of
      u_scheme_r.rb, `Basic` only the four of schemer.rb. */
  datatype Dialect = Full | Basic

  /** The special forms, in the order in which the engine tests for them. */
  datatype Form = Lambda | Let | Letrec | If | Cond | Define | Quote

  /** The head symbol that announces a form. */
  function Keyword(k: Form): string
  {
    match k
    case Lambda => "lambda"
    case Let => "let"
    case Letrec => "letrec"
    case If => "if"
    case Cond => "cond"
    case Define => "define"
    case Quote => "quote"
  }

  /** Whether a dialect treats the form as special at all. */
  predicate Enabled(d: Dialect, k: Form)
  {
    d == Full || k.Lambda? || k.Let? || k.Letrec? || k.If?
  }

  /** `special_form?` and the dispatch of `eval_special_form`: the form a list
      announces by its head symbol, or None when the list is an application. */
  function FormOf(d: Dialect, es: seq<Expr>): (r: Option<Form>)
    ensures forall k: Form :: r == Some(k) <==> Enabled(d, k) && At(es, 0) == Sym(Keyword(k))
  {
    var head := At(es, 0);
    if head == Sym("lambda") then Some(Lambda)
    else if head == Sym("let") then Some(Let)
    else if head == Sym("letrec") then Some(Letrec)
    else if head == Sym("if") then Some(If)
    else if d == Basic then None
    else if head == Sym("cond") then Some(Cond)
    else if head == Sym("define") then Some(Define)
    else if head == Sym("quote") then Some(Quote)
    else None
  }

  /** `let_to_parameters_args_body`, shared by `let` and `letrec`: the names,
      the initialisers and the body.  Ruby maps over `exp[1]` and indexes each
      binding.  The model takes only arrays: a list of bindings that is not an
      array, or a binding that is not one, gives None (an error), where Ruby
      would raise for some values and index a number or a symbol bitwise or
      by character for others. */
  function LetParts(es: seq<Expr>): Option<(seq<Expr>, seq<Expr>, Expr)>
  {
    match At(es, 1)
    case List(bs) =>
      if forall i :: 0 <= i < |bs| ==> bs[i].List? then
        Some((seq(|bs|, i requires 0 <= i < |bs| => At(bs[i].items, 0)),
              seq(|bs|, i requires 0 <= i < |bs| => At(bs[i].items, 1)),
              At(es, 2)))
      else None
    case _ => None
  }

  /** `[[:lambda, parameters, body]] + args`, the expression `let` and the last
      step of `letrec` evaluate. */
  function LetApplication(ps: seq<Expr>, inits: seq<Expr>, body: Expr): Expr
  {
    List([List([Sym("lambda"), List(ps), body])] + inits)
  }

  /** `ps[1..]` as Ruby's `list[1..-1]` computes it: nil for the empty array. */
  function Cdr(es: seq<Expr>): Expr
  {
    if |es| == 0 then Nil else List(es[1..])
  }

  /** `define_with_parameter_var_val` and `define_var_val`: the defined name
      and the expression for its value. `(define (f ps...) b)` becomes the name
      `f` with the value `(lambda (ps...) b)`. */
  function DefineParts(es: seq<Expr>): (Expr, Expr)
  {
    match At(es, 1)
    case List(sig) => (At(sig, 0), List([Sym("lambda"), Cdr(sig), At(es, 2)]))
    case _ => (At(es, 1), At(es, 2))
  }

  /** The test a cond clause contributes: `else` becomes the variable `true`. */
  function ClauseTest(clause: seq<Expr>): Expr
  {
    if At(clause, 0) == Sym("else") then Sym("true") else At(clause, 0)
  }

  /** `cond_to_if`: the clauses as nested ifs, ending in `''`.  Ruby indexes
      every clause before anything is evaluated.  The model takes only array
      clauses: any other clause makes the whole rewrite None (an error), where
      Ruby would index a number or a symbol and build an `if` from what that
      gives. */
  function CondToIf(clauses: seq<Expr>): (r: Option<Expr>)
    ensures r.Some? <==> forall i :: 0 <= i < |clauses| ==> clauses[i].List?
  {
    if |clauses| == 0 then Some(Str(""))
    else if !clauses[0].List? then None
    else
      match CondToIf(clauses[1..])
      case None => None
      case Some(rest) =>
        Some(List([Sym("if"), ClauseTest(clauses[0].items), At(clauses[0].items, 1), rest]))
  }

  /** `if_to_cond_true_false`: the test and the two branches.  Besides arrays
      it only ever receives the string `''`, for which Ruby's `String#[]`
      also answers nil at every index. */
  function IfParts(e: Expr): (Expr, Expr, Expr)
  {
    match e
    case List(es) => (At(es, 1), At(es, 2), At(es, 3))
    case _ => (Nil, Nil, Nil)
  }
}
