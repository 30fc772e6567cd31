/** The structured applicability condition shared by the compiler and the matcher. */
module Conditions {
  import opened Options

  datatype Operator = Gt | Lt | Ge | Le | Eq | In | NotIn | Contains

  datatype ConditionType = Inclusion | Exclusion

  datatype Condition = Condition(
    param: Option<string>,
    op: Option<Operator>,
    vmin: Option<real>,
    vmax: Option<real>,
    venum: Option<seq<string>>,
    vbool: Option<bool>,
    unit: Option<string>,
    kind: ConditionType,
    structured: bool,
    rawText: string,
    reference: string,
    confidence: Option<real>
  )

  /** A product attribute, seen through the three coercions the matcher applies: bool, str and float. */
  datatype Value = Value(truthy: bool, text: string, number: Option<real>)

  type Attributes = map<string, Value>
}
