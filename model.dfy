/** The values the validator works on: an already-parsed JSON document, the
    schema with its five optional rule kinds, and the outcome of a check. */
module JsonModel {

  datatype Option<+T> = None | Some(value: T) {
    /** The encapsulated value, or `default` when there is none. */
    function GetOr(default: T): T {
      match this
      case Some(v) => v
      case None => default
    }
  }

  /** A parsed JSON value. Values are compared only with `==`, which is
      structural: no coercion between kinds, and numbers are integers. */
  datatype Value =
    | Null
    | Bool(b: bool)
    | Int(i: int)
    | Str(s: string)
    | Array(items: seq<Value>)
    | Object(members: map<string, Value>)

  /** The top-level JSON object being validated. */
  type Document = map<string, Value>

  /** The `{field1, field2}` object of the two pair rules; either key may be
      missing, which reads as `None`. */
  datatype FieldPair = FieldPair(field1: Option<string>, field2: Option<string>)

  /** One entry of `field_values`: a field name and its allowed values. The
      entries keep the order in which the schema object lists them. */
  type AllowedValues = (string, seq<Value>)

  /** The schema object. Each rule key may be absent (`None`). */
  datatype Schema = Schema(
    requiredFields: Option<seq<string>>,
    atLeastOneOf: Option<seq<string>>,
    eitherOneOrAnother: Option<FieldPair>,
    mutuallyExclusiveFields: Option<FieldPair>,
    fieldValues: Option<seq<AllowedValues>>)
  {
    /** `required_fields`, defaulting to the empty list. */
    function RequiredFields(): seq<string> { requiredFields.GetOr([]) }

    /** `at_least_one_of`, defaulting to the empty list. */
    function AtLeastOneOf(): seq<string> { atLeastOneOf.GetOr([]) }

    /** `either_one_or_another`, defaulting to the empty object. */
    function EitherOneOrAnother(): FieldPair { eitherOneOrAnother.GetOr(FieldPair(None, None)) }

    /** `mutually_exclusive_fields`, defaulting to the empty object. */
    function MutuallyExclusiveFields(): FieldPair { mutuallyExclusiveFields.GetOr(FieldPair(None, None)) }

    /** `field_values`, defaulting to the empty object. */
    function FieldValues(): seq<AllowedValues> { fieldValues.GetOr([]) }
  }

  /** A schema with none of the five rule keys. */
  const EmptySchema := Schema(None, None, None, None, None)

  /** The five rule kinds, in the order the validator runs them. */
  datatype Rule = RequiredFieldsRule | AtLeastOneOfRule | EitherOneOrAnotherRule
                | MutuallyExclusiveRule | FieldValuesRule
  {
    /** Position of the rule in the evaluation order. */
    function Rank(): nat {
      match this
      case RequiredFieldsRule => 0
      case AtLeastOneOfRule => 1
      case EitherOneOrAnotherRule => 2
      case MutuallyExclusiveRule => 3
      case FieldValuesRule => 4
    }
  }

  /** What a failed rule reports: the rule and the data its message names. */
  datatype Violation =
    | MissingRequired(field: string)
    | NoneOfPresent(fields: seq<string>)
    | BothOfEither(field1: string, field2: string)
    | BothOfExclusive(field1: string, field2: string)
    | InvalidValue(field: string, value: Value, allowed: seq<Value>)
  {
    /** The rule whose failure this is. */
    function Rule(): Rule {
      match this
      case MissingRequired(_) => RequiredFieldsRule
      case NoneOfPresent(_) => AtLeastOneOfRule
      case BothOfEither(_, _) => EitherOneOrAnotherRule
      case BothOfExclusive(_, _) => MutuallyExclusiveRule
      case InvalidValue(_, _, _) => FieldValuesRule
    }
  }

  /** Success, or the first rule violation (the raised `ValueError`). */
  datatype Outcome = Ok | Fail(violation: Violation) {
    /** Sequencing: run `next` only if this step passed. */
    function AndThen(next: Outcome): Outcome {
      if Ok? then next else this
    }
  }
}
