/** The records the budget screen works on, with the field names the application uses.
    Identifiers are the numbers the application draws from the clock; here they are plain
    integers handed in by the caller. */
module Types {

  type Id = int

  datatype DiscountType = Percentage | Fixed

  /** A film of the catalogue: its name (the lookup key) and its price per square metre. */
  datatype Film = Film(nome: string, preco: real)

  /** One measured window: width and height as typed decimal text (comma or dot),
      a quantity, the chosen film, whether it is billed, and its own discount.
      `isNew` is the screen's "just added" marker. */
  datatype Measurement = Measurement(
    id: Id,
    largura: string,
    altura: string,
    quantidade: int,
    ambiente: string,
    tipoAplicacao: string,
    pelicula: string,
    active: bool,
    discount: real,
    discountType: DiscountType,
    isNew: bool)

  /** A discount as the user typed it: decimal text and whether it is a percentage or a
      flat amount. */
  datatype DiscountSpec = DiscountSpec(value: string, kind: DiscountType)

  /** One pricing option of a client: its rows and its general discount. */
  datatype Budget = Budget(id: Id, name: string, measurements: seq<Measurement>, generalDiscount: DiscountSpec)
}
