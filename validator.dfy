/** `JsonValidator.validate_schema` after loading: the five rules run in a
    fixed order, and the first one that fails decides the outcome. */
module JsonValidator {
  import opened JsonModel
  import opened Rules

  /** Runs required fields, at-least-one-of, either-one-or-another, mutually
      exclusive fields and field values, in that order. The document passes
      exactly when every rule passes; otherwise the earliest failing rule's
      violation is reported and no later rule has a say. */
  function Validate(doc: Document, schema: Schema): (r: Outcome)
    ensures r.Ok? <==> forall rule: Rule :: Check(rule, doc, schema).Ok?
    ensures r.Fail? ==> r == Check(r.violation.Rule(), doc, schema)
    ensures r.Fail? ==> forall rule: Rule ::
                          rule.Rank() < r.violation.Rule().Rank() ==> Check(rule, doc, schema).Ok?
  {
    var r := CheckRequiredFields(doc, schema)
      .AndThen(CheckAtLeastOneOf(doc, schema))
      .AndThen(CheckEitherOneOrAnother(doc, schema))
      .AndThen(CheckMutuallyExclusive(doc, schema))
      .AndThen(CheckFieldValues(doc, schema));
    assert Check(RequiredFieldsRule, doc, schema) == CheckRequiredFields(doc, schema);
    assert Check(AtLeastOneOfRule, doc, schema) == CheckAtLeastOneOf(doc, schema);
    assert Check(EitherOneOrAnotherRule, doc, schema) == CheckEitherOneOrAnother(doc, schema);
    assert Check(MutuallyExclusiveRule, doc, schema) == CheckMutuallyExclusive(doc, schema);
    assert Check(FieldValuesRule, doc, schema) == CheckFieldValues(doc, schema);
    r
  }

  /** An absent or empty `at_least_one_of` rejects every document: the
      failure is a missing required field or else the at-least-one-of rule
      itself, and the field-values rule is never reached. */
  lemma EmptyAtLeastOneOfRejectsEveryDocument(doc: Document, schema: Schema)
    requires schema.atLeastOneOf == None || schema.atLeastOneOf == Some([])
    ensures Validate(doc, schema).Fail?
    ensures Validate(doc, schema).violation.Rule().Rank() <= AtLeastOneOfRule.Rank()
    ensures CheckRequiredFields(doc, schema).Ok? ==> Validate(doc, schema) == Fail(NoneOfPresent([]))
  {
  }

  /** The schema with no rule keys at all accepts no document. */
  lemma EmptySchemaRejectsEveryDocument(doc: Document)
    ensures Validate(doc, EmptySchema) == Fail(NoneOfPresent([]))
  {
  }

  /** A document that passes has at least one of the `at_least_one_of` names. */
  lemma PassingDocumentHasOneOf(doc: Document, schema: Schema)
    requires Validate(doc, schema).Ok?
    ensures exists f :: f in schema.AtLeastOneOf() && f in doc
  {
  }

  /** Once a rule fails, the rules after it are not consulted: a schema that
      agrees on that rule and every earlier one, whatever it says about the
      later ones, gives the same outcome. */
  lemma LaterRulesNotConsulted(doc: Document, s1: Schema, s2: Schema)
    requires Validate(doc, s1).Fail?
    requires forall rule: Rule :: rule.Rank() <= Validate(doc, s1).violation.Rule().Rank()
                                  ==> SameRuleSpec(rule, s1, s2)
    ensures Validate(doc, s2) == Validate(doc, s1)
  {
  }

  /** Validation reads only the document keys the schema names, and reads
      them without changing them: documents that agree there get the same
      outcome. */
  lemma ValidateIsLocal(d1: Document, d2: Document, schema: Schema)
    requires AgreeOn(d1, d2, NamedFields(schema))
    ensures Validate(d1, schema) == Validate(d2, schema)
  {
    CheckIsLocal(RequiredFieldsRule, d1, d2, schema);
    CheckIsLocal(AtLeastOneOfRule, d1, d2, schema);
    CheckIsLocal(EitherOneOrAnotherRule, d1, d2, schema);
    CheckIsLocal(MutuallyExclusiveRule, d1, d2, schema);
    CheckIsLocal(FieldValuesRule, d1, d2, schema);
  }

  /** Reordering the names in `required_fields` or `at_least_one_of`, or the
      entries of `field_values`, does not change whether a document passes;
      it can only change which violation is reported. */
  lemma VerdictIgnoresListOrder(doc: Document, s1: Schema, s2: Schema)
    requires multiset(s1.RequiredFields()) == multiset(s2.RequiredFields())
    requires multiset(s1.AtLeastOneOf()) == multiset(s2.AtLeastOneOf())
    requires s1.EitherOneOrAnother() == s2.EitherOneOrAnother()
    requires s1.MutuallyExclusiveFields() == s2.MutuallyExclusiveFields()
    requires multiset(s1.FieldValues()) == multiset(s2.FieldValues())
    ensures Validate(doc, s1).Ok? <==> Validate(doc, s2).Ok?
  {
    RequiredFieldsOrderIrrelevant(doc, s1, s2);
    AtLeastOneOfOrderIrrelevant(doc, s1, s2);
    FieldValuesOrderIrrelevant(doc, s1, s2);
    assert Check(RequiredFieldsRule, doc, s1).Ok? <==> Check(RequiredFieldsRule, doc, s2).Ok?;
    assert Check(AtLeastOneOfRule, doc, s1).Ok? <==> Check(AtLeastOneOfRule, doc, s2).Ok?;
    assert Check(EitherOneOrAnotherRule, doc, s1) == Check(EitherOneOrAnotherRule, doc, s2);
    assert Check(MutuallyExclusiveRule, doc, s1) == Check(MutuallyExclusiveRule, doc, s2);
    assert Check(FieldValuesRule, doc, s1).Ok? <==> Check(FieldValuesRule, doc, s2).Ok?;
  }
}
