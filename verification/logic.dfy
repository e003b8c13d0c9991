/** The logic expressions the descriptors pass around (ILogicExpression) and
    the three-valued result of evaluating one against a document
    (LogicExpressionResult). Compiling and evaluating expression text is not
    part of this model: a compiled expression is opaque and its truth in a
    given context is supplied by the caller. */
module Logic {

  datatype LogicExpr =
    | Const(value: bool)                     // ConstantLogicExpression TRUE / FALSE
    | Compiled(text: string)                 // an expression compiled from text
    | Or(left: LogicExpr, right: LogicExpr)  // `left.or(right)`
    | AndNot(left: LogicExpr, right: LogicExpr) // `left.andNot(right)`

  const TRUE: LogicExpr := Const(true)
  const FALSE: LogicExpr := Const(false)

  predicate IsConstantTrue(e: LogicExpr) {
    e == TRUE
  }

  predicate IsConstantFalse(e: LogicExpr) {
    e == FALSE
  }

  /** The truth of an expression once every compiled expression's truth is known. */
  function Holds(e: LogicExpr, compiled: string -> bool): bool {
    match e
    case Const(b) => b
    case Compiled(t) => compiled(t)
    case Or(a, b) => Holds(a, compiled) || Holds(b, compiled)
    case AndNot(a, b) => Holds(a, compiled) && !Holds(b, compiled)
  }

  /** Three-valued verdict of `evaluateToResult` with ReturnNoResult: a
      missing variable gives no result rather than an exception. */
  datatype Verdict = Yes | No | NoResult

  /** LogicExpressionResult: a named constant or the verdict of an evaluation. */
  datatype LogicResult =
    | NamedConstant(name: string, value: bool)
    | Evaluated(verdict: Verdict)

  /** `LogicExpressionResult.isFalse()`: a definite false. */
  predicate IsFalse(r: LogicResult) {
    match r
    case NamedConstant(_, v) => !v
    case Evaluated(v) => v == No
  }
}
