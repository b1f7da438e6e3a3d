/**
 * The persisted entities (Models/Bicycle.cs, Models/BikePart.cs) and the wire
 * shapes that travel with them.  A `string?` property is an `Option<string>`;
 * a C# `float` is a `real` (only copied and compared with 0 here).  The DTO of
 * an entity has the entity's fields minus `Id`; the summary DTO used by the
 * list endpoints has the same fields as the DTO.
 */
module Models {
  import opened Wrappers

  datatype Bicycle = Bicycle(
    id: int,
    model: Option<string>,
    bikeType: Option<string>,     // `Type` in the source
    manufacturer: Option<string>,
    releaseYear: int,
    weight: real,
    price: real,
    stockQuantity: int)

  datatype BicycleDto = BicycleDto(
    model: Option<string>,
    bikeType: Option<string>,
    manufacturer: Option<string>,
    releaseYear: int,
    weight: real,
    price: real,
    stockQuantity: int)

  datatype BicycleSummary = BicycleSummary(
    model: Option<string>,
    bikeType: Option<string>,
    manufacturer: Option<string>,
    releaseYear: int,
    weight: real,
    price: real,
    stockQuantity: int)

  datatype BikePart = BikePart(
    id: int,
    partType: Option<string>,
    description: Option<string>,
    manufacturer: Option<string>,
    price: real,
    stockQuantity: int)

  datatype BikePartDto = BikePartDto(
    partType: Option<string>,
    description: Option<string>,
    manufacturer: Option<string>,
    price: real,
    stockQuantity: int)

  datatype BikePartSummary = BikePartSummary(
    partType: Option<string>,
    description: Option<string>,
    manufacturer: Option<string>,
    price: real,
    stockQuantity: int)

  /** The mutable (non-key) fields of a bicycle, viewed as the DTO that carries them. */
  function BicycleFields(b: Bicycle): BicycleDto {
    BicycleDto(b.model, b.bikeType, b.manufacturer, b.releaseYear, b.weight, b.price, b.stockQuantity)
  }

  /** The mutable (non-key) fields of a bike part, viewed as the DTO that carries them. */
  function BikePartFields(p: BikePart): BikePartDto {
    BikePartDto(p.partType, p.description, p.manufacturer, p.price, p.stockQuantity)
  }

  /** A summary shows exactly the fields of the given DTO. */
  predicate BicycleSummaryShows(s: BicycleSummary, dto: BicycleDto) {
    && s.model == dto.model && s.bikeType == dto.bikeType && s.manufacturer == dto.manufacturer
    && s.releaseYear == dto.releaseYear && s.weight == dto.weight && s.price == dto.price
    && s.stockQuantity == dto.stockQuantity
  }

  predicate BikePartSummaryShows(s: BikePartSummary, dto: BikePartDto) {
    && s.partType == dto.partType && s.description == dto.description
    && s.manufacturer == dto.manufacturer && s.price == dto.price
    && s.stockQuantity == dto.stockQuantity
  }
}
