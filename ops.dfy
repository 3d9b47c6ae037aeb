/** The operator kinds of the language (namespace op in lib/number.hpp). */
module Ops {
  datatype Binary =
    | Plus | Minus | Multiply | Divide | BoolAnd | BoolOr
    | Equal | NotEqual | Smaller | SmallerOrEqual | Greater | GreaterOrEqual

  datatype Unary = BoolNot
}
