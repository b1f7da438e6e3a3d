/**
 * The four AutoMapper maps of Models/MappingProfile.cs, written out field by
 * field, plus the "map onto an existing object" form the controllers use for
 * updates.  AutoMapper copies same-named members; the DTOs have no `Id`, so a
 * freshly mapped entity keeps the default `Id` 0 and a merged one keeps its own.
 */
module MappingProfile {
  import opened Models

  /** `CreateMap<BicycleDTO, Bicycle>()`, used as `_mapper.Map<Bicycle>(dto)`. */
  function ToBicycle(dto: BicycleDto): (b: Bicycle)
    ensures b.id == 0
    ensures BicycleFields(b) == dto
  {
    Bicycle(0, dto.model, dto.bikeType, dto.manufacturer, dto.releaseYear, dto.weight, dto.price, dto.stockQuantity)
  }

  /** `_mapper.Map(dto, existing)`: every field of `existing` but the key is overwritten. */
  function MergeBicycle(dto: BicycleDto, existing: Bicycle): (b: Bicycle)
    ensures b.id == existing.id
    ensures BicycleFields(b) == dto
  {
    existing.(model := dto.model, bikeType := dto.bikeType, manufacturer := dto.manufacturer,
              releaseYear := dto.releaseYear, weight := dto.weight, price := dto.price,
              stockQuantity := dto.stockQuantity)
  }

  /** `CreateMap<Bicycle, BicycleSummaryDTO>()`: the summary shows the entity's non-key fields. */
  function ToBicycleSummary(b: Bicycle): (s: BicycleSummary)
    ensures BicycleSummaryShows(s, BicycleFields(b))
  {
    BicycleSummary(b.model, b.bikeType, b.manufacturer, b.releaseYear, b.weight, b.price, b.stockQuantity)
  }

  /** `CreateMap<BikePartDTO, BikePart>()`. */
  function ToBikePart(dto: BikePartDto): (p: BikePart)
    ensures p.id == 0
    ensures BikePartFields(p) == dto
  {
    BikePart(0, dto.partType, dto.description, dto.manufacturer, dto.price, dto.stockQuantity)
  }

  function MergeBikePart(dto: BikePartDto, existing: BikePart): (p: BikePart)
    ensures p.id == existing.id
    ensures BikePartFields(p) == dto
  {
    existing.(partType := dto.partType, description := dto.description,
              manufacturer := dto.manufacturer, price := dto.price, stockQuantity := dto.stockQuantity)
  }

  /** `CreateMap<BikePart, BikePartSummaryDTO>()`. */
  function ToBikePartSummary(p: BikePart): (s: BikePartSummary)
    ensures BikePartSummaryShows(s, BikePartFields(p))
  {
    BikePartSummary(p.partType, p.description, p.manufacturer, p.price, p.stockQuantity)
  }

  /** Creating then summarising a bicycle shows the DTO it came from. */
  lemma BicycleSummaryRoundTrip(dto: BicycleDto)
    ensures BicycleSummaryShows(ToBicycleSummary(ToBicycle(dto)), dto)
  {
  }

  lemma BikePartSummaryRoundTrip(dto: BikePartDto)
    ensures BikePartSummaryShows(ToBikePartSummary(ToBikePart(dto)), dto)
  {
  }

  /**
   * An update is a full replace: the merged entity is the freshly mapped one
   * under the old key, it does not depend on the old field values, and
   * merging an entity's own fields gives the entity back.
   */
  lemma MergeBicycleIsFullReplace(dto: BicycleDto, existing: Bicycle, other: Bicycle)
    ensures MergeBicycle(dto, existing) == ToBicycle(dto).(id := existing.id)
    ensures other.id == existing.id ==> MergeBicycle(dto, other) == MergeBicycle(dto, existing)
    ensures MergeBicycle(BicycleFields(existing), existing) == existing
  {
  }

  lemma MergeBikePartIsFullReplace(dto: BikePartDto, existing: BikePart, other: BikePart)
    ensures MergeBikePart(dto, existing) == ToBikePart(dto).(id := existing.id)
    ensures other.id == existing.id ==> MergeBikePart(dto, other) == MergeBikePart(dto, existing)
    ensures MergeBikePart(BikePartFields(existing), existing) == existing
  {
  }
}
