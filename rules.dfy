/** The five rule checks of `JsonValidator`, each a function from the
    document and the schema to an `Outcome`, with the searches they run. */
module Rules {
  import opened JsonModel

  /** An optional name is present when it is given and is a key of `doc`; a
      missing name (`None`) is never a key. */
  predicate PresentIn(doc: Document, name: Option<string>) {
    name.Some? && name.value in doc
  }

  /** An entry of `field_values` is met when its field is absent or holds one
      of the allowed values. */
  predicate Admits(doc: Document, entry: AllowedValues) {
    entry.0 in doc ==> doc[entry.0] in entry.1
  }

  /** `i` is the first position of `names` that is not a key of `doc`. */
  ghost predicate FirstMissingAt(doc: Document, names: seq<string>, i: int) {
    0 <= i < |names| && names[i] !in doc && forall j :: 0 <= j < i ==> names[j] in doc
  }

  /** `i` is the first entry of `entries` that `doc` does not meet. */
  ghost predicate FirstInvalidAt(doc: Document, entries: seq<AllowedValues>, i: int) {
    0 <= i < |entries| && !Admits(doc, entries[i])
    && forall j :: 0 <= j < i ==> Admits(doc, entries[j])
  }

  // ----- required_fields -----

  /** The loop over `required_fields`: the position of the first name that is
      not a key of the document, if any. */
  function FirstMissing(doc: Document, names: seq<string>): (r: Option<nat>)
    ensures r.None? <==> forall i :: 0 <= i < |names| ==> names[i] in doc
    ensures r.Some? ==> FirstMissingAt(doc, names, r.value)
  {
    if names == [] then None
    else if names[0] !in doc then Some(0)
    else match FirstMissing(doc, names[1..])
      case None => None
      case Some(i) => Some(i + 1)
  }

  /** Every required field must be a key of the document; the first missing
      one, in list order, is reported. An absent list requires nothing. */
  function CheckRequiredFields(doc: Document, schema: Schema): (r: Outcome)
    ensures r.Ok? <==> forall f :: f in schema.RequiredFields() ==> f in doc
    ensures r.Fail? ==> exists i :: FirstMissingAt(doc, schema.RequiredFields(), i)
                                    && r == Fail(MissingRequired(schema.RequiredFields()[i]))
  {
    var names := schema.RequiredFields();
    match FirstMissing(doc, names)
    case None => Ok
    case Some(i) => Fail(MissingRequired(names[i]))
  }

  // ----- at_least_one_of -----

  /** Whether some name of `names` is a key of `doc`. */
  function AnyPresent(doc: Document, names: seq<string>): (r: bool)
    ensures r <==> exists i :: 0 <= i < |names| && names[i] in doc
  {
    if names == [] then false
    else if names[0] in doc then true
    else
      var rest := AnyPresent(doc, names[1..]);
      assert forall i :: 0 <= i < |names| - 1 ==> names[1..][i] == names[i + 1];
      rest
  }

  /** Some listed name must be a key of the document. The list defaults to
      empty, and an empty list is never satisfied. */
  function CheckAtLeastOneOf(doc: Document, schema: Schema): (r: Outcome)
    ensures r.Ok? <==> exists f :: f in schema.AtLeastOneOf() && f in doc
    ensures r.Fail? ==> r == Fail(NoneOfPresent(schema.AtLeastOneOf()))
  {
    var names := schema.AtLeastOneOf();
    if AnyPresent(doc, names) then Ok else Fail(NoneOfPresent(names))
  }

  // ----- either_one_or_another and mutually_exclusive_fields -----

  /** Both names of `pair` are given and are keys of `doc`. */
  predicate BothPresent(doc: Document, pair: FieldPair) {
    PresentIn(doc, pair.field1) && PresentIn(doc, pair.field2)
  }

  /** Fails only when both names are given and both are keys of the document;
      neither being present is no violation. */
  function CheckEitherOneOrAnother(doc: Document, schema: Schema): (r: Outcome)
    ensures r.Fail? <==> exists f1, f2 :: schema.EitherOneOrAnother() == FieldPair(Some(f1), Some(f2))
                                           && f1 in doc && f2 in doc
    ensures r.Fail? ==> r == Fail(BothOfEither(schema.EitherOneOrAnother().field1.value,
                                               schema.EitherOneOrAnother().field2.value))
  {
    var pair := schema.EitherOneOrAnother();
    if BothPresent(doc, pair) then Fail(BothOfEither(pair.field1.value, pair.field2.value)) else Ok
  }

  /** The same test as `CheckEitherOneOrAnother`, on its own pair and with its
      own report. */
  function CheckMutuallyExclusive(doc: Document, schema: Schema): (r: Outcome)
    ensures r.Fail? <==> exists f1, f2 :: schema.MutuallyExclusiveFields() == FieldPair(Some(f1), Some(f2))
                                           && f1 in doc && f2 in doc
    ensures r.Fail? ==> r == Fail(BothOfExclusive(schema.MutuallyExclusiveFields().field1.value,
                                                  schema.MutuallyExclusiveFields().field2.value))
  {
    var pair := schema.MutuallyExclusiveFields();
    if BothPresent(doc, pair) then Fail(BothOfExclusive(pair.field1.value, pair.field2.value)) else Ok
  }

  // ----- field_values -----

  /** The loop over `field_values.items()`: the position of the first entry
      whose field is present with a value outside its allowed list. */
  function FirstInvalid(doc: Document, entries: seq<AllowedValues>): (r: Option<nat>)
    ensures r.None? <==> forall i :: 0 <= i < |entries| ==> Admits(doc, entries[i])
    ensures r.Some? ==> FirstInvalidAt(doc, entries, r.value)
  {
    if entries == [] then None
    else if !Admits(doc, entries[0]) then Some(0)
    else match FirstInvalid(doc, entries[1..])
      case None => None
      case Some(i) => Some(i + 1)
  }

  /** A listed field that is present must hold an allowed value; absent
      fields are ignored. The first offending entry is reported with the
      value found and the allowed list. */
  function CheckFieldValues(doc: Document, schema: Schema): (r: Outcome)
    ensures r.Ok? <==> forall e :: e in schema.FieldValues() ==> (e.0 in doc ==> doc[e.0] in e.1)
    ensures r.Fail? ==> exists i :: FirstInvalidAt(doc, schema.FieldValues(), i)
                                    && var (f, allowed) := schema.FieldValues()[i];
                                       r == Fail(InvalidValue(f, doc[f], allowed))
  {
    var entries := schema.FieldValues();
    match FirstInvalid(doc, entries)
    case None => Ok
    case Some(i) =>
      var (f, allowed) := entries[i];
      Fail(InvalidValue(f, doc[f], allowed))
  }

  /** The check for one rule kind. A failure is always tagged with the rule
      that produced it. */
  function Check(rule: Rule, doc: Document, schema: Schema): (r: Outcome)
    ensures r.Fail? ==> r.violation.Rule() == rule
  {
    match rule
    case RequiredFieldsRule => CheckRequiredFields(doc, schema)
    case AtLeastOneOfRule => CheckAtLeastOneOf(doc, schema)
    case EitherOneOrAnotherRule => CheckEitherOneOrAnother(doc, schema)
    case MutuallyExclusiveRule => CheckMutuallyExclusive(doc, schema)
    case FieldValuesRule => CheckFieldValues(doc, schema)
  }

  // ----- properties of the individual rules -----

  /** An absent or empty `at_least_one_of` list fails for every document:
      `any` over no names is false. */
  lemma EmptyAtLeastOneOfFails(doc: Document, schema: Schema)
    requires schema.atLeastOneOf == None || schema.atLeastOneOf == Some([])
    ensures CheckAtLeastOneOf(doc, schema) == Fail(NoneOfPresent([]))
  {
  }

  /** The two pair rules pass and fail together when given the same pair. */
  lemma PairRulesAgree(doc: Document, schema: Schema)
    requires schema.EitherOneOrAnother() == schema.MutuallyExclusiveFields()
    ensures CheckEitherOneOrAnother(doc, schema).Ok? <==> CheckMutuallyExclusive(doc, schema).Ok?
  {
  }

  /** Sequences with the same occurrences, in any order, have the same
      elements. */
  lemma SameElements<T>(a: seq<T>, b: seq<T>)
    requires multiset(a) == multiset(b)
    ensures forall x :: x in a <==> x in b
  {
    forall x | x in a ensures x in b {
      assert x in multiset(a);
    }
    forall x | x in b ensures x in a {
      assert x in multiset(b);
    }
  }

  /** Permuting `required_fields` keeps the pass/fail verdict; only which
      missing name is reported first may change. */
  lemma RequiredFieldsOrderIrrelevant(doc: Document, s1: Schema, s2: Schema)
    requires multiset(s1.RequiredFields()) == multiset(s2.RequiredFields())
    ensures CheckRequiredFields(doc, s1).Ok? <==> CheckRequiredFields(doc, s2).Ok?
  {
    SameElements(s1.RequiredFields(), s2.RequiredFields());
  }

  /** Permuting `at_least_one_of` keeps the pass/fail verdict. */
  lemma AtLeastOneOfOrderIrrelevant(doc: Document, s1: Schema, s2: Schema)
    requires multiset(s1.AtLeastOneOf()) == multiset(s2.AtLeastOneOf())
    ensures CheckAtLeastOneOf(doc, s1).Ok? <==> CheckAtLeastOneOf(doc, s2).Ok?
  {
    SameElements(s1.AtLeastOneOf(), s2.AtLeastOneOf());
  }

  /** Reordering the entries of `field_values` keeps the pass/fail verdict. */
  lemma FieldValuesOrderIrrelevant(doc: Document, s1: Schema, s2: Schema)
    requires multiset(s1.FieldValues()) == multiset(s2.FieldValues())
    ensures CheckFieldValues(doc, s1).Ok? <==> CheckFieldValues(doc, s2).Ok?
  {
    SameElements(s1.FieldValues(), s2.FieldValues());
  }

  /** Two documents that agree on the keys in `names`: the same ones are
      present, with the same values. */
  ghost predicate AgreeOn(d1: Document, d2: Document, names: set<string>) {
    forall f :: f in names ==> (f in d1 <==> f in d2) && (f in d1 ==> d1[f] == d2[f])
  }

  /** The search over `required_fields` only looks at the listed keys. */
  lemma FirstMissingIsLocal(d1: Document, d2: Document, names: seq<string>)
    requires AgreeOn(d1, d2, set f | f in names)
    ensures FirstMissing(d1, names) == FirstMissing(d2, names)
  {
  }

  /** The search over `field_values` only looks at the listed keys. */
  lemma FirstInvalidIsLocal(d1: Document, d2: Document, entries: seq<AllowedValues>)
    requires AgreeOn(d1, d2, set e | e in entries :: e.0)
    ensures FirstInvalid(d1, entries) == FirstInvalid(d2, entries)
  {
  }

  /** Every field name the schema mentions, in any rule. */
  ghost function NamedFields(schema: Schema): set<string> {
    (set f | f in schema.RequiredFields())
    + (set f | f in schema.AtLeastOneOf())
    + PairNames(schema.EitherOneOrAnother())
    + PairNames(schema.MutuallyExclusiveFields())
    + (set e | e in schema.FieldValues() :: e.0)
  }

  /** The names a pair gives. */
  ghost function PairNames(pair: FieldPair): set<string> {
    (if pair.field1.Some? then {pair.field1.value} else {})
    + (if pair.field2.Some? then {pair.field2.value} else {})
  }

  /** Two schemas give the same specification for `rule`. */
  predicate SameRuleSpec(rule: Rule, s1: Schema, s2: Schema) {
    match rule
    case RequiredFieldsRule => s1.RequiredFields() == s2.RequiredFields()
    case AtLeastOneOfRule => s1.AtLeastOneOf() == s2.AtLeastOneOf()
    case EitherOneOrAnotherRule => s1.EitherOneOrAnother() == s2.EitherOneOrAnother()
    case MutuallyExclusiveRule => s1.MutuallyExclusiveFields() == s2.MutuallyExclusiveFields()
    case FieldValuesRule => s1.FieldValues() == s2.FieldValues()
  }

  /** Each check reads only its own part of the schema. */
  lemma CheckReadsOwnSpec(rule: Rule, doc: Document, s1: Schema, s2: Schema)
    requires SameRuleSpec(rule, s1, s2)
    ensures Check(rule, doc, s1) == Check(rule, doc, s2)
  {
  }

  /** Each check reads only the document keys the schema names. */
  lemma CheckIsLocal(rule: Rule, d1: Document, d2: Document, schema: Schema)
    requires AgreeOn(d1, d2, NamedFields(schema))
    ensures Check(rule, d1, schema) == Check(rule, d2, schema)
  {
    match rule
    case RequiredFieldsRule =>
      FirstMissingIsLocal(d1, d2, schema.RequiredFields());
    case FieldValuesRule =>
      FirstInvalidIsLocal(d1, d2, schema.FieldValues());
    case _ =>
  }
}
