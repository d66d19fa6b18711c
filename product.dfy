/** The Product entity (entity/Product.java) and the two product DTOs
    (dto/ProductRequest.java, dto/ProductResponse.java). */
module ProductEntity {
  import opened Wrappers
  import opened Text

  /** createdAt / updatedAt are filled by the auditing listener from the
      clock; the model treats them as opaque instants supplied by the caller. */
  type Timestamp = int

  /** A row of the `products` table. An id of 0 and timestamps of 0 stand for
      the null values of an entity that has not been saved yet. */
  datatype Product = Product(
    id: int,
    name: string,
    description: Option<string>,
    price: real,
    createdAt: Timestamp,
    updatedAt: Timestamp,
    isActive: bool)

  /** The bean-validation constraints of the entity: @NotBlank name and a
      @NotNull @Positive price. */
  predicate ValidProduct(p: Product) {
    !IsBlank(p.name) && p.price > 0.0
  }

  /** A product that passes the entity constraints has a name with at least
      one character above U+0020, hence a non-empty one, and a positive price. */
  lemma ValidProductHasNameAndPrice(p: Product)
    requires ValidProduct(p)
    ensures exists i | 0 <= i < |p.name| :: p.name[i] > ' '
    ensures p.name != [] && p.price > 0.0
  {
  }

  /** `new Product()` followed by the name, description and price setters: no
      id and no timestamps yet, and isActive still holds its field default. */
  function Transient(name: string, description: Option<string>, price: real): (p: Product)
    ensures p.isActive
    ensures p.name == name && p.description == description && p.price == price
    ensures !IsBlank(name) && price > 0.0 ==> ValidProduct(p)
  {
    Product(0, name, description, price, 0, 0, true)
  }

  /** The body of POST/PUT /products. */
  datatype ProductRequest = ProductRequest(name: string, description: Option<string>, price: real)

  /** What @Valid enforces on a ProductRequest before the service sees it:
      @NotBlank name, @NotNull @Positive price. */
  predicate ValidRequest(req: ProductRequest) {
    !IsBlank(req.name) && req.price > 0.0
  }

  /** The product as the API returns it. */
  datatype ProductResponse = ProductResponse(
    id: int,
    name: string,
    description: Option<string>,
    price: real,
    createdAt: Timestamp,
    updatedAt: Timestamp,
    isActive: bool)
}
