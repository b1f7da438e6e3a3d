/**
 * Validators/BikePartValidator.cs: five `RuleFor` rules over a `BikePartDTO`,
 * each evaluated on its own, their failures reported in declaration order.
 */
module BikePartValidator {
  import opened Models
  import opened Validation

  /** The validated properties, in the order their rules are declared. */
  datatype Field = PartType | Description | Manufacturer | Price | StockQuantity
  {
    function Rank(): nat {
      match this
      case PartType => 0
      case Description => 1
      case Manufacturer => 2
      case Price => 3
      case StockQuantity => 4
    }
  }

  /** The `WithMessage` text of each rule. */
  function Message(f: Field): string {
    match f
    case PartType => "Part type is required"
    case Description => "Description is required"
    case Manufacturer => "Manufacturer name is required"
    case Price => "Price must be a positive value"
    case StockQuantity => "Stock quantity cannot be negative"
  }

  /** Whether the rule declared for `f` accepts the DTO. */
  predicate Passes(f: Field, dto: BikePartDto) {
    match f
    case PartType => NotEmpty(dto.partType)
    case Description => NotEmpty(dto.description)
    case Manufacturer => NotEmpty(dto.manufacturer)
    case Price => dto.price > 0.0
    case StockQuantity => dto.stockQuantity >= 0
  }

  /** A bike-part DTO as the shop accepts it: the five conditions together. */
  predicate IsValid(dto: BikePartDto) {
    && NotEmpty(dto.partType)
    && NotEmpty(dto.description)
    && NotEmpty(dto.manufacturer)
    && dto.price > 0.0
    && dto.stockQuantity >= 0
  }

  /** The rules, in declaration order. */
  const Rules: seq<Field> := [PartType, Description, Manufacturer, Price, StockQuantity]

  lemma RulesListEveryFieldByRank()
    ensures |Rules| == 5
    ensures forall i | 0 <= i < |Rules| :: Rules[i].Rank() == i
    ensures forall f: Field :: f.Rank() < |Rules| && Rules[f.Rank()] == f
  {
  }

  lemma ValidIffEveryRulePasses(dto: BikePartDto)
    ensures IsValid(dto) <==> forall f: Field :: Passes(f, dto)
  {
    if IsValid(dto) {
      forall f: Field ensures Passes(f, dto) { }
    } else {
      assert !Passes(PartType, dto) || !Passes(Description, dto) || !Passes(Manufacturer, dto)
        || !Passes(Price, dto) || !Passes(StockQuantity, dto);
    }
  }

  /**
   * Runs the given rules in order, each on its own: `Collect` with this
   * validator's conditions and messages (`RunRulesIsCollect`), written out
   * first-order so that proofs about single rules stay small.
   */
  function RunRules(rules: seq<Field>, dto: BikePartDto): seq<ValidationError<Field>> {
    if rules == [] then []
    else
      var head := Check(Passes(rules[0], dto), rules[0], Message(rules[0]));
      head + RunRules(rules[1..], dto)
  }

  lemma {:induction false} RunRulesIsCollect(rules: seq<Field>, dto: BikePartDto)
    ensures RunRules(rules, dto) == Collect(rules, (f: Field) => Passes(f, dto), (f: Field) => Message(f))
  {
    if rules != [] {
      RunRulesIsCollect(rules[1..], dto);
    }
  }

  /** `Validate(dto)`. What the result holds is stated by the four `Validate...` lemmas below. */
  function Validate(dto: BikePartDto): seq<ValidationError<Field>> {
    RunRules(Rules, dto)
  }

  /** No entry at all iff the DTO meets all five conditions. */
  lemma ValidateEmptyIffValid(dto: BikePartDto)
    ensures Validate(dto) == [] <==> IsValid(dto)
  {
    RunRulesIsCollect(Rules, dto);
    RulesListEveryFieldByRank();
    ValidIffEveryRulePasses(dto);
    CollectEmptyIffAllPass(Rules, (f: Field) => Passes(f, dto), (f: Field) => Message(f));
  }

  /** Every entry is a rule that fails, with that rule's message. */
  lemma ValidateReportsOnlyFailures(dto: BikePartDto)
    ensures forall i | 0 <= i < |Validate(dto)| ::
      var e := Validate(dto)[i];
      !Passes(e.field, dto) && e.message == Message(e.field)
  {
    RunRulesIsCollect(Rules, dto);
    CollectReportsOnlyFailures(Rules, (f: Field) => Passes(f, dto), (f: Field) => Message(f));
  }

  /** Every rule that fails has its entry: one failure does not stop the others. */
  lemma ValidateReportsEveryFailure(dto: BikePartDto)
    ensures forall i | 0 <= i < |Rules| && !Passes(Rules[i], dto) ::
      ValidationError(Rules[i], Message(Rules[i])) in Validate(dto)
  {
    RunRulesIsCollect(Rules, dto);
    CollectReportsEveryFailure(Rules, (f: Field) => Passes(f, dto), (f: Field) => Message(f));
  }

  /** The entries follow the declaration order of the rules, strictly. */
  lemma ValidateInDeclarationOrder(dto: BikePartDto)
    ensures forall i, j | 0 <= i < j < |Validate(dto)| ::
      Validate(dto)[i].field.Rank() < Validate(dto)[j].field.Rank()
  {
    RunRulesIsCollect(Rules, dto);
    RulesListEveryFieldByRank();
    CollectInOrder(Rules, (f: Field) => Passes(f, dto), (f: Field) => Message(f), (f: Field) => f.Rank());
  }

  /** A property has an entry iff its rule fails. */
  lemma ErrorIffRuleFails(dto: BikePartDto, f: Field)
    ensures HasError(Validate(dto), f) <==> !Passes(f, dto)
  {
    var errors := Validate(dto);
    ValidateReportsOnlyFailures(dto);
    ValidateReportsEveryFailure(dto);
    RulesListEveryFieldByRank();
    if !Passes(f, dto) {
      assert Rules[f.Rank()] == f;
      var i :| 0 <= i < |errors| && errors[i] == ValidationError(f, Message(f));
    }
  }

  /** No property is reported twice. */
  lemma AtMostOneErrorPerField(dto: BikePartDto, i: nat, j: nat)
    requires i < j < |Validate(dto)|
    ensures Validate(dto)[i].field != Validate(dto)[j].field
  {
    ValidateInDeclarationOrder(dto);
  }

  /** The three `NotEmpty()` rules: a null, empty or blank string is reported, with its own message. */
  lemma RequiredStringRules(dto: BikePartDto)
    ensures var errors := Validate(dto);
      && (HasError(errors, PartType) <==> dto.partType.None? || IsBlank(dto.partType.value))
      && (HasError(errors, Description) <==> dto.description.None? || IsBlank(dto.description.value))
      && (HasError(errors, Manufacturer) <==> dto.manufacturer.None? || IsBlank(dto.manufacturer.value))
    ensures var errors := Validate(dto);
      && (!NotEmpty(dto.partType) ==> ValidationError(PartType, "Part type is required") in errors)
      && (!NotEmpty(dto.description) ==> ValidationError(Description, "Description is required") in errors)
      && (!NotEmpty(dto.manufacturer) ==> ValidationError(Manufacturer, "Manufacturer name is required") in errors)
  {
    var errors := Validate(dto);
    assert HasError(errors, PartType) <==> dto.partType.None? || IsBlank(dto.partType.value) by {
      ErrorIffRuleFails(dto, PartType);
      assert !Passes(PartType, dto) <==> dto.partType.None? || IsBlank(dto.partType.value);
    }
    assert HasError(errors, Description) <==> dto.description.None? || IsBlank(dto.description.value) by {
      ErrorIffRuleFails(dto, Description);
      assert !Passes(Description, dto) <==> dto.description.None? || IsBlank(dto.description.value);
    }
    assert HasError(errors, Manufacturer) <==> dto.manufacturer.None? || IsBlank(dto.manufacturer.value) by {
      ErrorIffRuleFails(dto, Manufacturer);
      assert !Passes(Manufacturer, dto) <==> dto.manufacturer.None? || IsBlank(dto.manufacturer.value);
    }
    ValidateReportsEveryFailure(dto);
    RulesListEveryFieldByRank();
    assert Rules[0] == PartType && Rules[1] == Description && Rules[2] == Manufacturer;
  }

  /** The price is accepted iff strictly positive, the stock quantity iff not negative (0 is fine). */
  lemma SignRules(dto: BikePartDto)
    ensures var errors := Validate(dto);
      && (HasError(errors, Price) <==> dto.price <= 0.0)
      && (HasError(errors, StockQuantity) <==> dto.stockQuantity < 0)
  {
    var errors := Validate(dto);
    assert HasError(errors, Price) <==> dto.price <= 0.0 by {
      ErrorIffRuleFails(dto, Price);
      assert !Passes(Price, dto) <==> dto.price <= 0.0;
    }
    assert HasError(errors, StockQuantity) <==> dto.stockQuantity < 0 by {
      ErrorIffRuleFails(dto, StockQuantity);
      assert !Passes(StockQuantity, dto) <==> dto.stockQuantity < 0;
    }
  }

  /** A DTO that breaks exactly one rule gets exactly that rule's entry. */
  lemma SingleViolation(dto: BikePartDto, f: Field)
    requires !Passes(f, dto)
    requires forall g: Field | g != f :: Passes(g, dto)
    ensures Validate(dto) == [ValidationError(f, Message(f))]
  {
    var errors := Validate(dto);
    ValidateReportsOnlyFailures(dto);
    ErrorIffRuleFails(dto, f);
    assert forall i | 0 <= i < |errors| :: errors[i].field == f;
    if |errors| > 1 {
      AtMostOneErrorPerField(dto, 0, 1);
      assert false;
    }
    assert errors[0] == ValidationError(f, Message(f));
  }
}
