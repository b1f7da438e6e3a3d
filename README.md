# Bike shop API — a verified model of its validators, mappings and controllers

The bike shop API (`web_rest_hudz_kp21`) serves two catalogues over HTTP:
bicycles (`api/Bicycle`) and bike parts (`api/BikePart`). This project
models three parts of it in Dafny:

- **The two FluentValidation validators.** `BicycleValidator` has seven rules and
  `BikePartValidator` has five. Each is a pure function from a DTO to an
  ordered list of `(field, message)` entries. Every rule is checked on its own,
  so the list holds one entry per failing rule, in declaration order.
  `DateTime.Now.Year` is a parameter, `currentYear`.
- **The AutoMapper profile.** It covers DTO → entity and entity → summary for
  both entity types. It also covers the "map onto an existing entity" form that
  the update actions use, which overwrites every field except `Id`.
- **The two controllers.** Each is a class that owns the rows of its
  repository as a `map<int, Entity>`, plus the store's identity counter.
  Each of the five actions (list, get by id, add, update, delete) is a method
  that returns an `ActionResult`: `Ok`, `Created`, `NotFound` or `NoContent`.
  The controllers do not call the validators. `AddBicycle`, `UpdateBicycle`,
  `AddBikePart` and `UpdateBikePart` store whatever DTO they receive, so
  nothing in the model says that an invalid DTO is rejected.

Files:

- `wrappers.dfy` has `Option`.
- `models.dfy` has the entities, DTOs and summaries.
- `mapping_profile.dfy` has the maps.
- `validation.dfy` has what the validators share:
  - `NotEmpty`, with .NET white space;
  - the generic in-order rule runner `Collect` and its lemmas;
  - decimal rendering of an `int`.
- `bicycle_validator.dfy` and `bike_part_validator.dfy` hold the validators.
- `responses.dfy` has `ActionResult` and key enumerations.
- `bicycle_controller.dfy` and `bike_part_controller.dfy` hold the controller classes.

## Model

| member | source | states |
|---|---|---|
| Validation.NatToDecimal | Validators/BicycleValidator.cs:18 | the year is rendered as its shortest decimal numeral: digits only, denoting exactly `n`, with no leading zero |
| Validation.IntToDecimal | Validators/BicycleValidator.cs:18 | `int` formatting: the shortest numeral of `n`, with no leading zero and a leading `-` when `n` is negative |
| Validation.CollectEmptyIffAllPass | Validators/BicycleValidator.cs:10-24 | running the rules independently yields no entry iff every rule passes |
| Validation.CollectReportsOnlyFailures | Validators/BicycleValidator.cs:10-24 | every entry names a rule that fails, and carries that rule's message |
| Validation.CollectReportsEveryFailure | Validators/BicycleValidator.cs:10-24 | every failing rule contributes its entry; later rules still run after a failure |
| Validation.CollectRanksAtLeast | Validators/BicycleValidator.cs:10-24 | entries only come from the rules given, so a rank bound on the rules bounds every entry |
| Validation.CollectInOrder | Validators/BicycleValidator.cs:10-24 | when the rules are listed in declaration order, the entries follow that order strictly (one per rule at most) |
| BicycleValidator.RulesListEveryFieldByRank | Validators/BicycleValidator.cs:10-24 | the seven rules are Model, Type, Manufacturer, ReleaseYear, Weight, Price and StockQuantity, each once, in source order |
| BicycleValidator.ValidIffEveryRulePasses | Validators/BicycleValidator.cs:10-24 | the seven-way conjunction of the rule conditions holds iff every individual rule passes |
| BicycleValidator.RunRulesIsCollect | Validators/BicycleValidator.cs:10-24 | the validator's rule runner is the generic in-order runner applied to its rules and messages |
| BicycleValidator.ValidateEmptyIffValid | Validators/BicycleValidator.cs:8-25 | `Validate` gives no entry iff the DTO meets all seven conditions |
| BicycleValidator.ValidateReportsOnlyFailures | Validators/BicycleValidator.cs:8-25 | each entry of `Validate` is a rule that fails, carrying that rule's message |
| BicycleValidator.ValidateReportsEveryFailure | Validators/BicycleValidator.cs:8-25 | every failing rule has its entry in `Validate`, whatever else fails |
| BicycleValidator.ValidateInDeclarationOrder | Validators/BicycleValidator.cs:8-25 | the entries of `Validate` follow the declaration order of the rules strictly |
| BicycleValidator.ErrorIffRuleFails | Validators/BicycleValidator.cs:10-24 | a property has an entry iff its own rule fails |
| BicycleValidator.AtMostOneErrorPerField | Validators/BicycleValidator.cs:10-24 | no property is reported twice |
| BicycleValidator.SingleViolation | Validators/BicycleValidator.cs:10-24 | a DTO that breaks exactly one rule gets exactly one entry, for that rule, with its message |
| BicycleValidator.RequiredStringRules | Validators/BicycleValidator.cs:10-15 | Model, Type and Manufacturer are each reported iff null, empty or white space only |
| BicycleValidator.RequiredFieldMessages | Validators/BicycleValidator.cs:10-15 | a missing Model, Type or Manufacturer produces "Model name is required", "Type is required" or "Manufacturer name is required" |
| BicycleValidator.ReleaseYearRule | Validators/BicycleValidator.cs:16-18 | for a clock at 2005 or later, the release year is reported iff it lies outside 2005..currentYear; both 2005 and currentYear are accepted |
| BicycleValidator.ReleaseYearMessageIn2024 | Validators/BicycleValidator.cs:18 | in 2024 the release-year message reads "Release year must be between 2005 and 2024" |
| BicycleValidator.SignRules | Validators/BicycleValidator.cs:19-24 | weight and price are reported iff not strictly positive; the stock quantity iff negative, so 0 is accepted |
| BikePartValidator.RulesListEveryFieldByRank | Validators/BikePartValidator.cs:11-20 | the five rules are PartType, Description, Manufacturer, Price and StockQuantity, each once, in source order |
| BikePartValidator.ValidIffEveryRulePasses | Validators/BikePartValidator.cs:11-20 | the five-way conjunction of the rule conditions holds iff every rule passes |
| BikePartValidator.RunRulesIsCollect | Validators/BikePartValidator.cs:11-20 | the validator's rule runner is the generic in-order runner applied to its rules and messages |
| BikePartValidator.ValidateEmptyIffValid | Validators/BikePartValidator.cs:9-21 | `Validate` gives no entry iff the DTO meets all five conditions |
| BikePartValidator.ValidateReportsOnlyFailures | Validators/BikePartValidator.cs:9-21 | each entry of `Validate` is a rule that fails, carrying that rule's message |
| BikePartValidator.ValidateReportsEveryFailure | Validators/BikePartValidator.cs:9-21 | every failing rule has its entry in `Validate`, whatever else fails |
| BikePartValidator.ValidateInDeclarationOrder | Validators/BikePartValidator.cs:9-21 | the entries of `Validate` follow the declaration order of the rules strictly |
| BikePartValidator.ErrorIffRuleFails | Validators/BikePartValidator.cs:11-20 | a property has an entry iff its own rule fails |
| BikePartValidator.AtMostOneErrorPerField | Validators/BikePartValidator.cs:11-20 | no property is reported twice |
| BikePartValidator.SingleViolation | Validators/BikePartValidator.cs:11-20 | a DTO that breaks exactly one rule gets exactly that rule's entry |
| BikePartValidator.RequiredStringRules | Validators/BikePartValidator.cs:11-16 | PartType, Description and Manufacturer are reported iff null, empty or white space only, each with its own message |
| BikePartValidator.SignRules | Validators/BikePartValidator.cs:17-20 | the price is reported iff not strictly positive; the stock quantity iff negative, so 0 is accepted |
| MappingProfile.ToBicycle | Models/MappingProfile.cs:10 | the new bicycle carries every field of the DTO and the default id 0 |
| MappingProfile.ToBicycleSummary | Models/MappingProfile.cs:11 | the summary shows every non-key field of the bicycle |
| MappingProfile.MergeBicycle | Controllers/BicycleController.cs:107 | mapping a DTO onto a stored bicycle keeps its id and overwrites every other field with the DTO's |
| MappingProfile.BicycleSummaryRoundTrip | Models/MappingProfile.cs:10-11 | summarising the bicycle created from a DTO shows exactly the DTO's fields |
| MappingProfile.MergeBicycleIsFullReplace | Controllers/BicycleController.cs:107 | a merge equals the fresh mapping under the old id, ignores the old field values, and is the identity on the entity's own fields |
| MappingProfile.ToBikePart | Models/MappingProfile.cs:12 | the new part carries every field of the DTO and the default id 0 |
| MappingProfile.ToBikePartSummary | Models/MappingProfile.cs:13 | the summary shows every non-key field of the part |
| MappingProfile.MergeBikePart | Controllers/BikePartController.cs:111 | mapping a DTO onto a stored part keeps its id and overwrites every other field with the DTO's |
| MappingProfile.BikePartSummaryRoundTrip | Models/MappingProfile.cs:12-13 | summarising the part created from a DTO shows exactly the DTO's fields |
| MappingProfile.MergeBikePartIsFullReplace | Controllers/BikePartController.cs:111 | a merge equals the fresh mapping under the old id, ignores the old field values, and is the identity on the entity's own fields |
| Responses.EnumerationHasSetSize | Controllers/BicycleController.cs:36-37 | listing every stored key once gives as many entries as there are rows |
| BicycleApi.BicycleController.constructor | Controllers/BicycleController.cs:18-25 | the controller starts over the repository's existing rows, each stored under its own id |
| BicycleApi.BicycleController.GetAllBicycles | Controllers/BicycleController.cs:34-38 | Ok with exactly one summary per stored bicycle, listed in some enumeration of the keys; the store is only read |
| BicycleApi.BicycleController.GetBicycleById | Controllers/BicycleController.cs:52-60 | NotFound iff the id is absent; otherwise Ok with exactly the stored bicycle, whose id is the one asked for |
| BicycleApi.BicycleController.AddBicycle | Controllers/BicycleController.cs:73-82 | the DTO, unvalidated, is stored under a fresh id; only that row is added; the result is Created with that id and the original DTO |
| BicycleApi.BicycleController.UpdateBicycle | Controllers/BicycleController.cs:99-110 | an absent id gives NotFound and no change; otherwise the row is replaced by the merge under the same id, the result is Ok with it, and no other row or key changes |
| BicycleApi.BicycleController.DeleteBicycle | Controllers/BicycleController.cs:124-134 | an absent id gives NotFound and no change; otherwise exactly that row is removed, one fewer row remains, and the result is NoContent |
| BicycleApi.AddThenGet | Controllers/BicycleController.cs:73-82 | reading back the id that Add returned gives a bicycle with that id and exactly the DTO's fields |
| BicycleApi.DeleteThenGet | Controllers/BicycleController.cs:124-134 | after deleting a stored bicycle, getting that id gives NotFound |
| BikePartApi.BikePartController.constructor | Controllers/BikePartController.cs:18-24 | the controller starts over the repository's existing rows, each stored under its own id |
| BikePartApi.BikePartController.GetAllBikeParts | Controllers/BikePartController.cs:36-40 | Ok with exactly one summary per stored part, listed in some enumeration of the keys; the store is only read |
| BikePartApi.BikePartController.GetBikePartById | Controllers/BikePartController.cs:56-64 | NotFound iff the id is absent; otherwise Ok with the stored part unchanged |
| BikePartApi.BikePartController.AddBikePart | Controllers/BikePartController.cs:77-87 | the DTO, unvalidated, is stored under an id not previously in the store; the result is Created with that id and the DTO |
| BikePartApi.BikePartController.UpdateBikePart | Controllers/BikePartController.cs:104-114 | an absent id gives NotFound and no change; otherwise every non-key field is overwritten from the DTO under the same id, and the result is Ok, not 204 |
| BikePartApi.BikePartController.DeleteBikePart | Controllers/BikePartController.cs:128-138 | an absent id gives NotFound and no change; otherwise exactly that entry is removed, all others stay, and the result is NoContent |
| BikePartApi.AddThenGet | Controllers/BikePartController.cs:77-87 | reading back the id that Add returned gives a part with that id and exactly the DTO's fields |
| BikePartApi.DeleteThenGet | Controllers/BikePartController.cs:128-138 | after deleting a stored part, getting that id gives NotFound |

## Left out

- The generic repository (`GenericRepository<T>`, Entity Framework Core, `ApplicationContext`) is not part of this model.
  - The repository's rows are the controller's `table`.
  - Its identity generation is the counter `nextId`.
  - The model only relies on three behaviours: `Add` takes a fresh key, `Update` overwrites by key, and `Remove` deletes by key.
  - Saving to a database, and database failures, are not modelled.
- The clock: `DateTime.Now.Year` is the parameter `currentYear`. It is read once per call, not once per validator construction.
- Numeric widths:
  - C# `float` (`Weight`, `Price`) is modelled as `real`, so NaN and infinities are not modelled.
  - C# `int` is unbounded here.
  - Only comparisons with 0 and copying occur, so no arithmetic is affected.
- HTTP: routing, model binding, status-code objects and the location URL built by `CreatedAtAction` become the plain `ActionResult` datatype.
- `Program.cs` (host, Swagger, authorization) is not part of this model. Neither is AutoMapper's and FluentValidation's reflection machinery; the model keeps only the observable field copies and rules.
- The validators are modelled as functions that nothing in the model calls. `BicycleValidator` and `BikePartValidator` exist, but `Program.cs` registers no FluentValidation and no controller action calls them. So `AddBicycle` and `UpdateBicycle` store a DTO whose ReleaseYear is 1999, and the model does the same.
- Dependency injection: `Program.cs` registers no `IRepository<Bicycle>`, no `IRepository<BikePart>`, no `IMapper` and no `ApplicationContext`, so as shown the controllers could not be constructed. The model assumes that a repository and a mapper are injected; each controller's constructor takes the repository's current rows.
- BicycleValidator.Validate: requires `2005 <= currentYear`. FluentValidation's `InclusiveBetween(2005, DateTime.Now.Year)` throws `ArgumentOutOfRangeException` when building an empty range, so before 2005 no validator exists. That exception is not modelled; the model has no result for such a clock.
- Update status codes: the documentation of both update actions announces 204. The code answers `Ok` (200) with the updated entity, and the model follows the code.
- GetAllBicycles, GetAllBikeParts: do not fix the order of the list, since the repository's enumeration order is not specified. The contract promises only "some enumeration of the stored keys, each once".
- Concurrent requests, and the configuration toggles (in-stock filtering, full versus summary output) that exist in other versions of this API, are not modelled. The controllers shown here have neither.
- The DTO and summary DTO classes are not part of the sources modelled. Both are assumed to carry exactly the entity's fields except `Id`.
