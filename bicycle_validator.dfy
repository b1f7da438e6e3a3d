/**
 * Validators/BicycleValidator.cs: seven `RuleFor` rules over a `BicycleDTO`,
 * each evaluated on its own, their failures reported in declaration order.
 * `DateTime.Now.Year`, read when the validator is built, is the parameter
 * `currentYear`.
 */
module BicycleValidator {
  import opened Wrappers
  import opened Models
  import opened Validation

  /** The validated properties, in the order their rules are declared. */
  datatype Field = Model | Type | Manufacturer | ReleaseYear | Weight | Price | StockQuantity
  {
    function Rank(): nat {
      match this
      case Model => 0
      case Type => 1
      case Manufacturer => 2
      case ReleaseYear => 3
      case Weight => 4
      case Price => 5
      case StockQuantity => 6
    }
  }

  const MinReleaseYear: int := 2005

  /** The `WithMessage` text of each rule. */
  function Message(f: Field, currentYear: int): string {
    match f
    case Model => "Model name is required"
    case Type => "Type is required"
    case Manufacturer => "Manufacturer name is required"
    case ReleaseYear => "Release year must be between 2005 and " + IntToDecimal(currentYear)
    case Weight => "Weight must be a positive value"
    case Price => "Price must be a positive value"
    case StockQuantity => "Stock quantity cannot be negative"
  }

  /** Whether the rule declared for `f` accepts the DTO. */
  predicate Passes(f: Field, dto: BicycleDto, currentYear: int) {
    match f
    case Model => NotEmpty(dto.model)
    case Type => NotEmpty(dto.bikeType)
    case Manufacturer => NotEmpty(dto.manufacturer)
    case ReleaseYear => MinReleaseYear <= dto.releaseYear <= currentYear
    case Weight => dto.weight > 0.0
    case Price => dto.price > 0.0
    case StockQuantity => dto.stockQuantity >= 0
  }

  /** A bicycle DTO as the shop accepts it: the seven conditions together. */
  predicate IsValid(dto: BicycleDto, currentYear: int) {
    && NotEmpty(dto.model)
    && NotEmpty(dto.bikeType)
    && NotEmpty(dto.manufacturer)
    && 2005 <= dto.releaseYear <= currentYear
    && dto.weight > 0.0
    && dto.price > 0.0
    && dto.stockQuantity >= 0
  }

  /** The rules, in declaration order. */
  const Rules: seq<Field> := [Model, Type, Manufacturer, ReleaseYear, Weight, Price, StockQuantity]

  lemma RulesListEveryFieldByRank()
    ensures |Rules| == 7
    ensures forall i | 0 <= i < |Rules| :: Rules[i].Rank() == i
    ensures forall f: Field :: f.Rank() < |Rules| && Rules[f.Rank()] == f
  {
  }

  lemma ValidIffEveryRulePasses(dto: BicycleDto, currentYear: int)
    ensures IsValid(dto, currentYear) <==> forall f: Field :: Passes(f, dto, currentYear)
  {
    if IsValid(dto, currentYear) {
      forall f: Field ensures Passes(f, dto, currentYear) { }
    } else {
      assert !Passes(Model, dto, currentYear) || !Passes(Type, dto, currentYear)
        || !Passes(Manufacturer, dto, currentYear) || !Passes(ReleaseYear, dto, currentYear)
        || !Passes(Weight, dto, currentYear) || !Passes(Price, dto, currentYear)
        || !Passes(StockQuantity, dto, currentYear);
    }
  }

  /**
   * Runs the given rules in order, each on its own: `Collect` with this
   * validator's conditions and messages (`RunRulesIsCollect`), written out
   * first-order so that proofs about single rules stay small.
   */
  function RunRules(rules: seq<Field>, dto: BicycleDto, currentYear: int): seq<ValidationError<Field>> {
    if rules == [] then []
    else
      var head := Check(Passes(rules[0], dto, currentYear), rules[0], Message(rules[0], currentYear));
      head + RunRules(rules[1..], dto, currentYear)
  }

  lemma {:induction false} RunRulesIsCollect(rules: seq<Field>, dto: BicycleDto, currentYear: int)
    ensures RunRules(rules, dto, currentYear)
         == Collect(rules, (f: Field) => Passes(f, dto, currentYear), (f: Field) => Message(f, currentYear))
  {
    if rules != [] {
      RunRulesIsCollect(rules[1..], dto, currentYear);
    }
  }

  /**
   * `Validate(dto)` of the validator built in `currentYear`. FluentValidation's
   * `InclusiveBetween(2005, DateTime.Now.Year)` refuses an empty range, so no
   * validator exists before 2005. What the result holds is stated by the four
   * `Validate...` lemmas below.
   */
  function Validate(dto: BicycleDto, currentYear: int): seq<ValidationError<Field>>
    requires MinReleaseYear <= currentYear
  {
    RunRules(Rules, dto, currentYear)
  }

  /** No entry at all iff the DTO meets all seven conditions. */
  lemma ValidateEmptyIffValid(dto: BicycleDto, currentYear: int)
    requires MinReleaseYear <= currentYear
    ensures Validate(dto, currentYear) == [] <==> IsValid(dto, currentYear)
  {
    RunRulesIsCollect(Rules, dto, currentYear);
    RulesListEveryFieldByRank();
    ValidIffEveryRulePasses(dto, currentYear);
    CollectEmptyIffAllPass(Rules, (f: Field) => Passes(f, dto, currentYear), (f: Field) => Message(f, currentYear));
  }

  /** Every entry is a rule that fails, with that rule's message. */
  lemma ValidateReportsOnlyFailures(dto: BicycleDto, currentYear: int)
    requires MinReleaseYear <= currentYear
    ensures forall i | 0 <= i < |Validate(dto, currentYear)| ::
      var e := Validate(dto, currentYear)[i];
      !Passes(e.field, dto, currentYear) && e.message == Message(e.field, currentYear)
  {
    RunRulesIsCollect(Rules, dto, currentYear);
    CollectReportsOnlyFailures(Rules, (f: Field) => Passes(f, dto, currentYear), (f: Field) => Message(f, currentYear));
  }

  /** Every rule that fails has its entry: one failure does not stop the others. */
  lemma ValidateReportsEveryFailure(dto: BicycleDto, currentYear: int)
    requires MinReleaseYear <= currentYear
    ensures forall i | 0 <= i < |Rules| && !Passes(Rules[i], dto, currentYear) ::
      ValidationError(Rules[i], Message(Rules[i], currentYear)) in Validate(dto, currentYear)
  {
    RunRulesIsCollect(Rules, dto, currentYear);
    CollectReportsEveryFailure(Rules, (f: Field) => Passes(f, dto, currentYear), (f: Field) => Message(f, currentYear));
  }

  /** The entries follow the declaration order of the rules, strictly. */
  lemma ValidateInDeclarationOrder(dto: BicycleDto, currentYear: int)
    requires MinReleaseYear <= currentYear
    ensures forall i, j | 0 <= i < j < |Validate(dto, currentYear)| ::
      Validate(dto, currentYear)[i].field.Rank() < Validate(dto, currentYear)[j].field.Rank()
  {
    RunRulesIsCollect(Rules, dto, currentYear);
    RulesListEveryFieldByRank();
    CollectInOrder(Rules, (f: Field) => Passes(f, dto, currentYear), (f: Field) => Message(f, currentYear), (f: Field) => f.Rank());
  }

  /** A property has an entry iff its rule fails. */
  lemma ErrorIffRuleFails(dto: BicycleDto, currentYear: int, f: Field)
    requires MinReleaseYear <= currentYear
    ensures HasError(Validate(dto, currentYear), f) <==> !Passes(f, dto, currentYear)
  {
    var errors := Validate(dto, currentYear);
    ValidateReportsOnlyFailures(dto, currentYear);
    ValidateReportsEveryFailure(dto, currentYear);
    RulesListEveryFieldByRank();
    if !Passes(f, dto, currentYear) {
      assert Rules[f.Rank()] == f;
      var i :| 0 <= i < |errors| && errors[i] == ValidationError(f, Message(f, currentYear));
    }
  }

  /** No property is reported twice. */
  lemma AtMostOneErrorPerField(dto: BicycleDto, currentYear: int, i: nat, j: nat)
    requires MinReleaseYear <= currentYear
    requires i < j < |Validate(dto, currentYear)|
    ensures Validate(dto, currentYear)[i].field != Validate(dto, currentYear)[j].field
  {
    ValidateInDeclarationOrder(dto, currentYear);
  }

  /** The three `NotEmpty()` rules: a null, empty or blank string is reported. */
  lemma RequiredStringRules(dto: BicycleDto, currentYear: int)
    requires MinReleaseYear <= currentYear
    ensures var errors := Validate(dto, currentYear);
      && (HasError(errors, Model) <==> dto.model.None? || IsBlank(dto.model.value))
      && (HasError(errors, Type) <==> dto.bikeType.None? || IsBlank(dto.bikeType.value))
      && (HasError(errors, Manufacturer) <==> dto.manufacturer.None? || IsBlank(dto.manufacturer.value))
  {
    var errors := Validate(dto, currentYear);
    assert HasError(errors, Model) <==> dto.model.None? || IsBlank(dto.model.value) by {
      ErrorIffRuleFails(dto, currentYear, Model);
      assert !Passes(Model, dto, currentYear) <==> dto.model.None? || IsBlank(dto.model.value);
    }
    assert HasError(errors, Type) <==> dto.bikeType.None? || IsBlank(dto.bikeType.value) by {
      ErrorIffRuleFails(dto, currentYear, Type);
      assert !Passes(Type, dto, currentYear) <==> dto.bikeType.None? || IsBlank(dto.bikeType.value);
    }
    assert HasError(errors, Manufacturer) <==> dto.manufacturer.None? || IsBlank(dto.manufacturer.value) by {
      ErrorIffRuleFails(dto, currentYear, Manufacturer);
      assert !Passes(Manufacturer, dto, currentYear) <==> dto.manufacturer.None? || IsBlank(dto.manufacturer.value);
    }
  }

  /** Weight and price are accepted iff strictly positive, the stock quantity iff not negative. */
  lemma SignRules(dto: BicycleDto, currentYear: int)
    requires MinReleaseYear <= currentYear
    ensures var errors := Validate(dto, currentYear);
      && (HasError(errors, Weight) <==> dto.weight <= 0.0)
      && (HasError(errors, Price) <==> dto.price <= 0.0)
      && (HasError(errors, StockQuantity) <==> dto.stockQuantity < 0)
  {
    var errors := Validate(dto, currentYear);
    assert HasError(errors, Weight) <==> dto.weight <= 0.0 by {
      ErrorIffRuleFails(dto, currentYear, Weight);
      assert !Passes(Weight, dto, currentYear) <==> dto.weight <= 0.0;
    }
    assert HasError(errors, Price) <==> dto.price <= 0.0 by {
      ErrorIffRuleFails(dto, currentYear, Price);
      assert !Passes(Price, dto, currentYear) <==> dto.price <= 0.0;
    }
    assert HasError(errors, StockQuantity) <==> dto.stockQuantity < 0 by {
      ErrorIffRuleFails(dto, currentYear, StockQuantity);
      assert !Passes(StockQuantity, dto, currentYear) <==> dto.stockQuantity < 0;
    }
  }

  /** A DTO that breaks exactly one rule gets exactly that rule's entry. */
  lemma SingleViolation(dto: BicycleDto, currentYear: int, f: Field)
    requires MinReleaseYear <= currentYear
    requires !Passes(f, dto, currentYear)
    requires forall g: Field | g != f :: Passes(g, dto, currentYear)
    ensures Validate(dto, currentYear) == [ValidationError(f, Message(f, currentYear))]
  {
    var errors := Validate(dto, currentYear);
    ValidateReportsOnlyFailures(dto, currentYear);
    ErrorIffRuleFails(dto, currentYear, f);
    assert forall i | 0 <= i < |errors| :: errors[i].field == f;
    if |errors| > 1 {
      AtMostOneErrorPerField(dto, currentYear, 0, 1);
      assert false;
    }
    assert errors[0] == ValidationError(f, Message(f, currentYear));
  }

  /** A missing (null, empty or blank) model, type or manufacturer is reported with its own message. */
  lemma RequiredFieldMessages(dto: BicycleDto, currentYear: int)
    requires MinReleaseYear <= currentYear
    ensures var errors := Validate(dto, currentYear);
      && (!NotEmpty(dto.model) ==> ValidationError(Model, "Model name is required") in errors)
      && (!NotEmpty(dto.bikeType) ==> ValidationError(Type, "Type is required") in errors)
      && (!NotEmpty(dto.manufacturer) ==> ValidationError(Manufacturer, "Manufacturer name is required") in errors)
  {
    ValidateReportsEveryFailure(dto, currentYear);
    RulesListEveryFieldByRank();
    assert Rules[0] == Model && Rules[1] == Type && Rules[2] == Manufacturer;
  }

  /** The release year is accepted iff 2005 <= year <= currentYear: both ends are inside. */
  lemma ReleaseYearRule(dto: BicycleDto, currentYear: int)
    requires MinReleaseYear <= currentYear
    ensures HasError(Validate(dto, currentYear), ReleaseYear)
        <==> dto.releaseYear < 2005 || dto.releaseYear > currentYear
    ensures !HasError(Validate(dto.(releaseYear := 2005), currentYear), ReleaseYear)
    ensures !HasError(Validate(dto.(releaseYear := currentYear), currentYear), ReleaseYear)
  {
    ErrorIffRuleFails(dto, currentYear, ReleaseYear);
    assert !Passes(ReleaseYear, dto, currentYear) <==> dto.releaseYear < 2005 || dto.releaseYear > currentYear;
    var low, high := dto.(releaseYear := 2005), dto.(releaseYear := currentYear);
    assert !HasError(Validate(low, currentYear), ReleaseYear) by {
      ErrorIffRuleFails(low, currentYear, ReleaseYear);
      assert Passes(ReleaseYear, low, currentYear);
    }
    assert !HasError(Validate(high, currentYear), ReleaseYear) by {
      ErrorIffRuleFails(high, currentYear, ReleaseYear);
      assert Passes(ReleaseYear, high, currentYear);
    }
  }

  /** The interpolated message names the current year in plain decimal, e.g. in 2024. */
  lemma ReleaseYearMessageIn2024()
    ensures Message(ReleaseYear, 2024) == "Release year must be between 2005 and 2024"
  {
  }
}
