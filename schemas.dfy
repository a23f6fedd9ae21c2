/**
 * The request and response shapes of the catalog (`ProductIn`, `Product`) and
 * the field constraints checked on every create and update body.
 */
module Schemas {
  import opened Wrappers
  import opened Decimals

  const NameMaxLength: nat := 255
  const DescriptionMaxLength: nat := 5000
  const CategoryMaxLength: nat := 100

  /** A create or update body (`ProductIn`); strings count code points. */
  datatype ProductIn = ProductIn(name: string, description: Option<string>, price: Decimal, category: string)

  /** A product row as the service returns it (`Product`): the body fields plus the id. */
  datatype Product = Product(id: int, name: string, description: Option<string>, price: Decimal, category: string)

  /** The four data fields, in declaration order. */
  datatype Field = Name | Description | Price | Category

  predicate NameOk(name: string)
  {
    1 <= |name| <= NameMaxLength
  }

  predicate DescriptionOk(description: Option<string>)
  {
    description.None? || |description.value| <= DescriptionMaxLength
  }

  predicate CategoryOk(category: string)
  {
    1 <= |category| <= CategoryMaxLength
  }

  /** The constraint on one field of a body. */
  predicate FieldOk(payload: ProductIn, f: Field)
  {
    match f
    case Name => NameOk(payload.name)
    case Description => DescriptionOk(payload.description)
    case Price => PriceOk(payload.price)
    case Category => CategoryOk(payload.category)
  }

  /** A body the validator accepts. */
  predicate IsValid(payload: ProductIn)
  {
    NameOk(payload.name) && DescriptionOk(payload.description) &&
    PriceOk(payload.price) && CategoryOk(payload.category)
  }

  /** The fields a validation error names, in declaration order. */
  function Violations(payload: ProductIn): (fields: seq<Field>)
    ensures forall f :: f in fields <==> !FieldOk(payload, f)
    ensures fields == [] <==> IsValid(payload)
    ensures forall i, j :: 0 <= i < j < |fields| ==> fields[i] != fields[j]
  {
    (if NameOk(payload.name) then [] else [Name]) +
    (if DescriptionOk(payload.description) then [] else [Description]) +
    (if PriceOk(payload.price) then [] else [Price]) +
    (if CategoryOk(payload.category) then [] else [Category])
  }

  lemma Pow10Of10()
    ensures Pow10(MaxDigits) == 10_000_000_000
  {
    assert Pow10(2) == 100;
    assert Pow10(4) == 10_000;
    assert Pow10(6) == 1_000_000;
    assert Pow10(8) == 100_000_000;
  }

  /** A body is valid exactly when the name has 1 to 255 characters, the
      description is absent or has at most 5000, the price is a whole number of
      hundredths from 0 to 99999999.99, and the category has 1 to 100 characters. */
  lemma ValidIffConstraints(payload: ProductIn)
    ensures IsValid(payload) <==>
      && 1 <= |payload.name| <= 255
      && (payload.description.None? || |payload.description.value| <= 5000)
      && Cents(payload.price).Some? && 0 <= Cents(payload.price).value < 10_000_000_000
      && 1 <= |payload.category| <= 100
  {
    PriceOkIffCentsInRange(payload.price);
    Pow10Of10();
  }

  /** The row the store holds after a valid body is written under `id` and the
      row is read back: the price comes back from the `Numeric(10, 2)` column. */
  function Stored(id: int, payload: ProductIn): (p: Product)
    requires IsValid(payload)
    ensures p.id == id
    ensures p.name == payload.name && p.description == payload.description && p.category == payload.category
    ensures Cents(p.price) == Cents(payload.price)
    ensures IsValid(Data(p))
  {
    Product(id, payload.name, payload.description, Quantize(payload.price), payload.category)
  }

  /** The body fields of a product row. */
  function Data(p: Product): ProductIn
  {
    ProductIn(p.name, p.description, p.price, p.category)
  }

  /** A field value as `model_dump()` yields it. */
  datatype Value = Text(text: string) | OptionalText(maybe: Option<string>) | Amount(amount: Decimal)

  /** The value kind that fits each field. */
  predicate Fits(f: Field, v: Value)
  {
    match f
    case Name => v.Text?
    case Description => v.OptionalText?
    case Price => v.Amount?
    case Category => v.Text?
  }

  /** The field names in declaration order, the order `model_dump()` keeps. */
  const Fields: seq<Field> := [Name, Description, Price, Category]

  lemma EveryFieldListed(f: Field)
    ensures f in Fields
  {
  }

  /** The value a body holds in field f. */
  function ValueOf(payload: ProductIn, f: Field): (v: Value)
    ensures Fits(f, v)
  {
    match f
    case Name => Text(payload.name)
    case Description => OptionalText(payload.description)
    case Price => Amount(payload.price)
    case Category => Text(payload.category)
  }

  /** `payload.model_dump().items()`: every field with its value, in declaration order. */
  function Dump(payload: ProductIn): (items: seq<(Field, Value)>)
    ensures |items| == |Fields|
    ensures forall i :: 0 <= i < |items| ==> items[i] == (Fields[i], ValueOf(payload, Fields[i]))
  {
    [(Name, Text(payload.name)), (Description, OptionalText(payload.description)),
     (Price, Amount(payload.price)), (Category, Text(payload.category))]
  }

  /** `getattr(product, f)`. */
  function GetAttr(p: Product, f: Field): Value
  {
    ValueOf(Data(p), f)
  }

  /** `setattr(product, f, v)`: overwrites field f and no other. */
  function SetAttr(p: Product, f: Field, v: Value): (r: Product)
    requires Fits(f, v)
    ensures GetAttr(r, f) == v
    ensures forall g :: g != f ==> GetAttr(r, g) == GetAttr(p, g)
    ensures r.id == p.id
  {
    match f
    case Name => p.(name := v.text)
    case Description => p.(description := v.maybe)
    case Price => p.(price := v.amount)
    case Category => p.(category := v.text)
  }

  /** Two rows with the same id and the same value in every field are the same row. */
  lemma SameAttrsSameRow(p: Product, q: Product)
    requires p.id == q.id
    requires forall f :: GetAttr(p, f) == GetAttr(q, f)
    ensures p == q
  {
    assert GetAttr(p, Name) == GetAttr(q, Name);
    assert GetAttr(p, Description) == GetAttr(q, Description);
    assert GetAttr(p, Price) == GetAttr(q, Price);
    assert GetAttr(p, Category) == GetAttr(q, Category);
  }

  /** The body of the create test is valid; a negative price, a third decimal
      place and a ninth whole digit are each rejected. */
  lemma ExamplePrices()
    ensures IsValid(ProductIn("Acoustic Guitar", Some("A 6-string acoustic guitar"), Decimal(false, 19999, -2), "Instruments"))
    ensures !PriceOk(Decimal(true, 1, 0))
    ensures !PriceOk(Decimal(false, 1234, -3))
    ensures !PriceOk(Decimal(false, 100_000_000, 0))
    ensures PriceOk(Decimal(false, 9_999_999_999, -2))
  {
    ValidIffConstraints(ProductIn("Acoustic Guitar", Some("A 6-string acoustic guitar"), Decimal(false, 19999, -2), "Instruments"));
    PriceOkIffCentsInRange(Decimal(false, 1234, -3));
    NotMultipleOfPow10(1234, 1);
    PriceOkIffCentsInRange(Decimal(false, 100_000_000, 0));
    PriceOkIffCentsInRange(Decimal(false, 9_999_999_999, -2));
    Pow10Of10();
  }
}
