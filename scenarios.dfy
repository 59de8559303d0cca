/** Concrete documents and schemas, and the outcome `Validate` gives them. */
module Scenarios {
  import opened JsonModel
  import opened Rules
  import opened JsonValidator

  /** A document missing a required field is rejected by that field's name. */
  lemma MissingRequiredFieldIsNamed()
    ensures Validate(map[], EmptySchema.(requiredFields := Some(["a"])))
            == Fail(MissingRequired("a"))
  {
  }

  /** One listed name suffices for `at_least_one_of`; none present fails with
      the whole list. */
  lemma AtLeastOneOfScenario()
    ensures var s := EmptySchema.(atLeastOneOf := Some(["x", "y"]));
            Validate(map["x" := Int(1)], s) == Ok
            && Validate(map[], s) == Fail(NoneOfPresent(["x", "y"]))
  {
  }

  /** A schema holding only a field-values rule rejects even a document whose
      value is allowed, because its `at_least_one_of` is absent; once that
      list names the field, allowed values pass and others are reported with
      the allowed list. */
  lemma FieldValuesScenario()
    ensures var allowed := [Str("open"), Str("closed")];
            var only := EmptySchema.(fieldValues := Some([("status", allowed)]));
            var s := only.(atLeastOneOf := Some(["status"]));
            && Validate(map["status" := Str("open")], only) == Fail(NoneOfPresent([]))
            && Validate(map["status" := Str("open")], s) == Ok
            && Validate(map["status" := Str("pending")], s)
               == Fail(InvalidValue("status", Str("pending"), allowed))
  {
  }

  /** Both names of an `either_one_or_another` pair present is a violation;
      one or neither is not. */
  lemma EitherOneOrAnotherScenario()
    ensures var pair := FieldPair(Some("a"), Some("b"));
            var s := EmptySchema.(eitherOneOrAnother := Some(pair), atLeastOneOf := Some(["a", "c"]));
            && Validate(map["a" := Int(1), "b" := Int(2)], s) == Fail(BothOfEither("a", "b"))
            && Validate(map["a" := Int(1)], s) == Ok
            && Validate(map["c" := Null], s) == Ok
  {
  }

  /** Both names of a `mutually_exclusive_fields` pair present is a
      violation; one alone is not. */
  lemma MutuallyExclusiveScenario()
    ensures var pair := FieldPair(Some("a"), Some("b"));
            var s := EmptySchema.(mutuallyExclusiveFields := Some(pair), atLeastOneOf := Some(["a"]));
            && Validate(map["a" := Int(1), "b" := Int(1)], s) == Fail(BothOfExclusive("a", "b"))
            && Validate(map["a" := Int(1)], s) == Ok
  {
  }
}
