/** The budget totals: the measurement list is folded into total area, subtotal, item
    discounts and price after item discounts; the general discount is then taken off and
    the result clamped at zero. Numbers are exact reals; the text fields are read with the
    locale-tolerant decimal parser. */
module Totals {
  import opened Wrappers
  import opened JsText
  import opened Types

  /** `Math.max(0, x)`. */
  function Max0(x: real): (r: real)
    ensures r >= 0.0 && r >= x
    ensures r == x || r == 0.0
  {
    if x > 0.0 then x else 0.0
  }

  /** `films.findIndex(f => f.nome === name)`, with `|films|` standing for -1. */
  function FilmIndex(films: seq<Film>, name: string): (k: nat)
    ensures k <= |films|
    ensures forall i :: 0 <= i < k ==> films[i].nome != name
    ensures k < |films| ==> films[k].nome == name
  {
    if films == [] || films[0].nome == name then 0 else 1 + FilmIndex(films[1..], name)
  }

  /** `films.find(f => f.nome === name)`: the first film with that name. */
  function FindFilm(films: seq<Film>, name: string): (r: Option<Film>)
    ensures r.Some? ==> r.value in films && r.value.nome == name
    ensures r.None? <==> forall i :: 0 <= i < |films| ==> films[i].nome != name
    ensures r.Some? ==> var k := FilmIndex(films, name);
      k < |films| && r.value == films[k] && forall j :: 0 <= j < k ==> films[j].nome != name
  {
    var k := FilmIndex(films, name);
    if k < |films| then Some(films[k]) else None
  }

  /** `parseInt(String(q), 10) || 0`: for a whole number this is the number itself. */
  function QuantityOf(q: int): (n: int)
    ensures n == q
  {
    ParseIntOfIntToString(q);
    match ParseInt(IntToString(q))
    case Some(n) => if n != 0 then n else 0
    case None => 0
  }

  /** What one row adds to the totals. */
  datatype ItemPrice = ItemPrice(m2: real, basePrice: real, discountAmount: real, finalPrice: real)

  /** Pricing of one active row: area from width, height and quantity; base price from the
      film's price per square metre (zero when the film is not in the catalogue); its own
      discount, a percentage of the base price or a flat amount, only when positive; and
      the final item price clamped at zero. */
  function PriceItem(m: Measurement, films: seq<Film>): (p: ItemPrice)
    ensures p.m2 == Area(ParseDecimal(m.largura), ParseDecimal(m.altura), m.quantidade)
    ensures p.finalPrice >= 0.0
    ensures p.finalPrice == Max0(p.basePrice - p.discountAmount)
    ensures FindFilm(films, m.pelicula).None? ==> p.basePrice == 0.0 && p.finalPrice == 0.0
    ensures m.discount <= 0.0 ==> p.discountAmount == 0.0 && p.finalPrice == Max0(p.basePrice)
    ensures p == PriceFromArea(p.m2, FindFilm(films, m.pelicula), m.discount, m.discountType)
  {
    var largura := ParseDecimal(m.largura);
    var altura := ParseDecimal(m.altura);
    PriceFromArea(Area(largura, altura, QuantityOf(m.quantidade)), FindFilm(films, m.pelicula), m.discount, m.discountType)
  }

  /** The row's price in the catalogue's terms: area times the film's price per square
      metre, then the row's own discount, a percentage of that base or a flat amount. */
  lemma PriceItemPricing(m: Measurement, films: seq<Film>)
    ensures var p := PriceItem(m, films); var film := FindFilm(films, m.pelicula);
      && (film.Some? ==> p.basePrice == AreaPrice(p.m2, film.value.preco))
      && (m.discount > 0.0 && m.discountType == Percentage ==> p.discountAmount == PercentOf(p.basePrice, m.discount))
      && (m.discount > 0.0 && m.discountType == Fixed ==> p.discountAmount == m.discount)
  {
    PriceItemBase(m, films);
    PriceItemPercentage(m, films);
  }

  lemma PriceItemBase(m: Measurement, films: seq<Film>)
    ensures var p := PriceItem(m, films); var film := FindFilm(films, m.pelicula);
      film.Some? ==> p.basePrice == AreaPrice(p.m2, film.value.preco)
  {
    var p := PriceItem(m, films);
    PriceFromAreaFacts(p.m2, FindFilm(films, m.pelicula), m.discount, m.discountType);
  }

  lemma PriceItemPercentage(m: Measurement, films: seq<Film>)
    ensures var p := PriceItem(m, films);
      m.discount > 0.0 && m.discountType == Percentage ==> p.discountAmount == PercentOf(p.basePrice, m.discount)
  {
    var p := PriceItem(m, films);
    PriceFromAreaFacts(p.m2, FindFilm(films, m.pelicula), m.discount, m.discountType);
  }

  /** `m2 * film.preco`: the price of an area at a price per square metre. */
  function AreaPrice(m2: real, pricePerM2: real): real {
    m2 * pricePerM2
  }

  /** `amount * (percent / 100)`: a percentage of an amount. */
  function PercentOf(amount: real, percent: real): real {
    amount * (percent / 100.0)
  }

  /** The pricing facts of `PriceFromArea`, stated for a price named apart from its area. */
  lemma PriceFromAreaFacts(m2: real, film: Option<Film>, discountValue: real, kind: DiscountType)
    ensures var p := PriceFromArea(m2, film, discountValue, kind);
      && (film.Some? ==> p.basePrice == AreaPrice(p.m2, film.value.preco))
      && (discountValue > 0.0 && kind == Percentage ==> p.discountAmount == PercentOf(p.basePrice, discountValue))
  {
  }

  /** `largura * altura * quantidade`. */
  function Area(largura: real, altura: real, quantidade: int): real
  {
    largura * altura * quantidade as real
  }

  function PriceFromArea(m2: real, film: Option<Film>, discountValue: real, kind: DiscountType): (p: ItemPrice)
    ensures p.m2 == m2
    ensures p.finalPrice >= 0.0
    ensures p.finalPrice == Max0(p.basePrice - p.discountAmount)
    ensures film.None? ==> p.basePrice == 0.0 && p.finalPrice == 0.0
    ensures film.Some? ==> p.basePrice == AreaPrice(m2, film.value.preco)
    ensures discountValue <= 0.0 ==> p.discountAmount == 0.0 && p.finalPrice == Max0(p.basePrice)
    ensures discountValue > 0.0 && kind == Percentage ==> p.discountAmount == PercentOf(p.basePrice, discountValue)
    ensures discountValue > 0.0 && kind == Fixed ==> p.discountAmount == discountValue
  {
    var basePrice :=
      match film
      case Some(f) => AreaPrice(m2, f.preco)
      case None => 0.0;
    var itemDiscountAmount :=
      if kind == Percentage && discountValue > 0.0 then PercentOf(basePrice, discountValue)
      else if kind == Fixed && discountValue > 0.0 then discountValue
      else 0.0;
    ItemPrice(m2, basePrice, itemDiscountAmount, Max0(basePrice - itemDiscountAmount))
  }

  /** The four running sums of the fold. */
  datatype Sums = Sums(totalM2: real, subtotal: real, totalItemDiscount: real, priceAfterItemDiscounts: real)

  const NoSums := Sums(0.0, 0.0, 0.0, 0.0)

  /** Componentwise sum of two sets of running sums. */
  function Plus(a: Sums, b: Sums): Sums {
    Sums(a.totalM2 + b.totalM2, a.subtotal + b.subtotal,
         a.totalItemDiscount + b.totalItemDiscount, a.priceAfterItemDiscounts + b.priceAfterItemDiscounts)
  }

  /** What one row contributes: its area, base price, discount and final price when it is
      active, nothing otherwise. */
  function RowSums(m: Measurement, films: seq<Film>): Sums {
    if m.active then
      var p := PriceItem(m, films);
      Sums(p.m2, p.basePrice, p.discountAmount, p.finalPrice)
    else NoSums
  }

  /** The reference meaning of the totals: the rows' contributions added up, independent
      of the order of the fold. */
  function SumRows(ms: seq<Measurement>, films: seq<Film>): Sums
    decreases |ms|
  {
    if ms == [] then NoSums else Plus(RowSums(ms[0], films), SumRows(ms[1..], films))
  }

  /** The fold's step: an active row adds its area, base price, discount and final price
      to the four sums; an inactive row leaves the sums as they are. */
  function AddItem(acc: Sums, m: Measurement, films: seq<Film>): (r: Sums)
    ensures !m.active ==> r == acc
    ensures m.active ==> var p := PriceItem(m, films);
      && r.totalM2 == acc.totalM2 + p.m2
      && r.subtotal == acc.subtotal + p.basePrice
      && r.totalItemDiscount == acc.totalItemDiscount + p.discountAmount
      && r.priceAfterItemDiscounts == acc.priceAfterItemDiscounts + p.finalPrice
    ensures acc.priceAfterItemDiscounts >= 0.0 ==> r.priceAfterItemDiscounts >= 0.0
  {
    if m.active then Plus(acc, RowSums(m, films)) else acc
  }

  /** One step of the fold adds the row's contribution to the running sums. */
  lemma AddItemIsPlus(acc: Sums, m: Measurement, films: seq<Film>)
    ensures AddItem(acc, m, films) == Plus(acc, RowSums(m, films))
  {
    if !m.active {
      PlusNoSums(acc);
    }
  }

  lemma PlusNoSums(a: Sums)
    ensures Plus(a, NoSums) == a
  {
  }

  lemma NoSumsPlus(a: Sums)
    ensures Plus(NoSums, a) == a
  {
  }

  lemma PlusAssociative(a: Sums, b: Sums, c: Sums)
    ensures Plus(Plus(a, b), c) == Plus(a, Plus(b, c))
  {
  }

  /** `measurements.reduce(AddItem, acc)`: left to right. */
  function Reduce(acc: Sums, ms: seq<Measurement>, films: seq<Film>): (r: Sums)
    ensures acc.priceAfterItemDiscounts >= 0.0 ==> r.priceAfterItemDiscounts >= 0.0
    decreases |ms|
  {
    if ms == [] then acc else Reduce(AddItem(acc, ms[0], films), ms[1..], films)
  }

  /** The fold from `acc` adds the rows' contributions to `acc`. */
  lemma {:induction false} ReduceIsSum(acc: Sums, ms: seq<Measurement>, films: seq<Film>)
    ensures Reduce(acc, ms, films) == Plus(acc, SumRows(ms, films))
    decreases |ms|
  {
    if ms == [] {
      PlusNoSums(acc);
    } else {
      AddItemIsPlus(acc, ms[0], films);
      ReduceIsSum(AddItem(acc, ms[0], films), ms[1..], films);
      PlusAssociative(acc, RowSums(ms[0], films), SumRows(ms[1..], films));
    }
  }

  /** The fold takes one more row at the end by one more step. */
  lemma {:induction false} ReduceSnoc(acc: Sums, ms: seq<Measurement>, m: Measurement, films: seq<Film>)
    ensures Reduce(acc, ms + [m], films) == AddItem(Reduce(acc, ms, films), m, films)
    decreases |ms|
  {
    if ms == [] {
      assert ms + [m] == [m];
      assert [m][1..] == [];
    } else {
      assert (ms + [m])[1..] == ms[1..] + [m];
      ReduceSnoc(AddItem(acc, ms[0], films), ms[1..], m, films);
    }
  }

  function ActiveRows(ms: seq<Measurement>): (r: seq<Measurement>)
    ensures forall m :: m in r <==> m in ms && m.active
  {
    if ms == [] then []
    else if ms[0].active then [ms[0]] + ActiveRows(ms[1..])
    else ActiveRows(ms[1..])
  }

  /** Inactive rows are left out of every sum: folding the whole list is the same as
      folding only its active rows. */
  lemma {:induction false} ReduceActiveRowsOnly(acc: Sums, ms: seq<Measurement>, films: seq<Film>)
    ensures Reduce(acc, ms, films) == Reduce(acc, ActiveRows(ms), films)
    decreases |ms|
  {
    if ms != [] {
      ReduceActiveRowsOnly(AddItem(acc, ms[0], films), ms[1..], films);
      if ms[0].active {
        var rest := ActiveRows(ms[1..]);
        assert ([ms[0]] + rest)[1..] == rest;
      }
    }
  }

  /** Whatever an inactive row holds, it changes no sum: two lists that agree on which
      rows are active and on the contents of the active ones fold to the same sums. */
  lemma {:induction false} ReduceIgnoresInactiveContents(acc: Sums, ms: seq<Measurement>, ms': seq<Measurement>, films: seq<Film>)
    requires |ms| == |ms'|
    requires forall i :: 0 <= i < |ms| ==> ms[i].active == ms'[i].active
    requires forall i :: 0 <= i < |ms| && ms[i].active ==> ms[i] == ms'[i]
    ensures Reduce(acc, ms, films) == Reduce(acc, ms', films)
    decreases |ms|
  {
    if ms != [] {
      assert AddItem(acc, ms[0], films) == AddItem(acc, ms'[0], films);
      ReduceIgnoresInactiveContents(AddItem(acc, ms[0], films), ms[1..], ms'[1..], films);
    }
  }

  /** The breakdown shown under the list. */
  datatype TotalsBreakdown = TotalsBreakdown(
    totalM2: real,
    subtotal: real,
    totalItemDiscount: real,
    priceAfterItemDiscounts: real,
    generalDiscountAmount: real,
    finalTotal: real)

  const NoTotals := TotalsBreakdown(0.0, 0.0, 0.0, 0.0, 0.0, 0.0)

  /** The general discount, taken once after the fold from the parsed discount value:
      nothing unless that value is positive; then a percentage of the price after item
      discounts or a flat amount. */
  function GeneralDiscountAmount(discountInputValue: real, kind: DiscountType, priceAfterItemDiscounts: real): (g: real)
    ensures discountInputValue <= 0.0 ==> g == 0.0
    ensures discountInputValue > 0.0 && kind == Percentage ==> g == PercentOf(priceAfterItemDiscounts, discountInputValue)
    ensures discountInputValue > 0.0 && kind == Fixed ==> g == discountInputValue
    ensures priceAfterItemDiscounts >= 0.0 ==> g >= 0.0
  {
    if discountInputValue > 0.0 then
      match kind
      case Percentage => priceAfterItemDiscounts * (discountInputValue / 100.0)
      case Fixed => discountInputValue
    else 0.0
  }

  /** The step after the fold: general discount, then the final total clamped at zero. */
  function Finish(result: Sums, discountInputValue: real, kind: DiscountType): (t: TotalsBreakdown)
    requires result.priceAfterItemDiscounts >= 0.0
    ensures t.totalM2 == result.totalM2 && t.subtotal == result.subtotal
    ensures t.totalItemDiscount == result.totalItemDiscount
    ensures t.priceAfterItemDiscounts == result.priceAfterItemDiscounts
    ensures t.generalDiscountAmount == GeneralDiscountAmount(discountInputValue, kind, result.priceAfterItemDiscounts)
    ensures t.finalTotal == Max0(t.priceAfterItemDiscounts - t.generalDiscountAmount)
    ensures t.generalDiscountAmount >= 0.0
    ensures 0.0 <= t.finalTotal <= t.priceAfterItemDiscounts
    ensures t.generalDiscountAmount == 0.0 ==> t.finalTotal == t.priceAfterItemDiscounts
  {
    var generalDiscountAmount := GeneralDiscountAmount(discountInputValue, kind, result.priceAfterItemDiscounts);
    var finalTotal := Max0(result.priceAfterItemDiscounts - generalDiscountAmount);
    TotalsBreakdown(result.totalM2, result.subtotal, result.totalItemDiscount,
                    result.priceAfterItemDiscounts, generalDiscountAmount, finalTotal)
  }

  /** The totals of the active budget, or all zeros when there is none. */
  function ComputeTotals(activeBudget: Option<Budget>, films: seq<Film>): (t: TotalsBreakdown)
    ensures activeBudget.None? ==> t == NoTotals
    ensures activeBudget.Some? ==>
      var b := activeBudget.value;
      var sums := Reduce(NoSums, b.measurements, films);
      && t.totalM2 == sums.totalM2 && t.subtotal == sums.subtotal
      && t.totalItemDiscount == sums.totalItemDiscount
      && t.priceAfterItemDiscounts == sums.priceAfterItemDiscounts
      && t.generalDiscountAmount == GeneralDiscountAmount(ParseDecimal(b.generalDiscount.value), b.generalDiscount.kind, t.priceAfterItemDiscounts)
      && t.finalTotal == Max0(t.priceAfterItemDiscounts - t.generalDiscountAmount)
    ensures t.priceAfterItemDiscounts >= 0.0
    ensures t.generalDiscountAmount >= 0.0
    ensures 0.0 <= t.finalTotal <= t.priceAfterItemDiscounts
    ensures t.generalDiscountAmount == 0.0 ==> t.finalTotal == t.priceAfterItemDiscounts
  {
    match activeBudget
    case None => NoTotals
    case Some(b) =>
      Finish(Reduce(NoSums, b.measurements, films), ParseDecimal(b.generalDiscount.value), b.generalDiscount.kind)
  }

  /** The clamping law and the general-discount rule, case by case, for the parsed
      discount value `v`. */
  lemma GeneralDiscountRule(result: Sums, v: real, kind: DiscountType)
    requires result.priceAfterItemDiscounts >= 0.0
    ensures var t := Finish(result, v, kind);
      && t.finalTotal == Max0(t.priceAfterItemDiscounts - t.generalDiscountAmount)
      && (v <= 0.0 ==> t.generalDiscountAmount == 0.0 && t.finalTotal == t.priceAfterItemDiscounts)
      && (v > 0.0 && kind == Percentage ==> t.generalDiscountAmount == t.priceAfterItemDiscounts * v / 100.0)
      && (v > 0.0 && kind == Fixed ==> t.generalDiscountAmount == v)
      && (v > 0.0 && kind == Fixed && v >= t.priceAfterItemDiscounts ==> t.finalTotal == 0.0)
  {
  }

  /** The four totals of an option are the sums of its rows' contributions. */
  lemma TotalsAreRowSums(b: Budget, films: seq<Film>)
    ensures var t := ComputeTotals(Some(b), films);
      var s := SumRows(b.measurements, films);
      && t.totalM2 == s.totalM2 && t.subtotal == s.subtotal
      && t.totalItemDiscount == s.totalItemDiscount
      && t.priceAfterItemDiscounts == s.priceAfterItemDiscounts
  {
    ReduceIsSum(NoSums, b.measurements, films);
    NoSumsPlus(SumRows(b.measurements, films));
  }

  /** Only active rows matter to the totals. */
  lemma TotalsOnlySeeActiveRows(b: Budget, films: seq<Film>)
    ensures ComputeTotals(Some(b), films) == ComputeTotals(Some(b.(measurements := ActiveRows(b.measurements))), films)
  {
    ReduceActiveRowsOnly(NoSums, b.measurements, films);
  }

  lemma ParseDecimalExamples()
    ensures ParseDecimal("2") == 2.0
    ensures ParseDecimal("50") == 50.0
  {
    ParseDecimalTwo();
    ParseDecimalFifty();
  }

  lemma ParseDecimalTwo()
    ensures ParseDecimal("2") == 2.0
  {
    ParseDecimalOfDigits("2");
    assert "2" == ['2'];
    SingleDigit('2');
  }

  lemma ParseDecimalFifty()
    ensures ParseDecimal("50") == 50.0
  {
    ParseDecimalOfDigits("50");
    assert "50"[..1] == ['5'];
    SingleDigit('5');
    assert DigitsValue("50") == 10 * DigitsValue(['5']);
  }

  lemma ParseDecimalWithComma()
    ensures ParseDecimal("1,5") == 1.5
  {
    var s := "1,5";
    assert s[..1] == "1";
    FirstIndexUnique(s, ',', 1);
    assert s[1 := '.'] == "1.5";
    ParseOneAndAHalf();
  }

  lemma ParseOneAndAHalf()
    ensures ParseFloat("1.5").Some? && ParseFloat("1.5").value == 1.5
  {
    ParseFloatOfDecimal(['1'], ['5']);
    OneAndAHalfText();
    OneAndAHalfValue();
  }

  lemma OneAndAHalfText()
    ensures ['1'] + "." + ['5'] == "1.5"
  {
  }

  lemma OneAndAHalfValue()
    ensures DigitsValue(['1']) as real + DecimalFraction(['5']) == 1.5
  {
    SingleDigit('1');
    SingleDigit('5');
  }

  /** The worked example: a 2 m by 1,5 m window, two of them, film at 100 per square
      metre and 10% off gives 6 m², 600 before and 540 after the item discount. */
  lemma WorkedExampleItem()
    ensures PriceItem(ExampleRow, ExampleFilms) == ItemPrice(6.0, 600.0, 60.0, 540.0)
  {
    ParseDecimalExamples();
    ParseDecimalWithComma();
    assert Area(2.0, 1.5, 2) == 6.0;
    assert PriceFromArea(6.0, Some(Film("Fume", 100.0)), 10.0, Percentage) == ItemPrice(6.0, 600.0, 60.0, 540.0);
  }

  /** The same row with a flat general discount of 50 leaves a final total of 490. */
  lemma WorkedExampleBudget()
    ensures ComputeTotals(Some(Budget(1, "Op", [ExampleRow], DiscountSpec("50", Fixed))), ExampleFilms).finalTotal == 490.0
  {
    var sums := Sums(6.0, 600.0, 60.0, 540.0);
    ReduceSingle(NoSums, ExampleRow, ExampleFilms);
    assert AddItem(NoSums, ExampleRow, ExampleFilms) == sums by {
      WorkedExampleItem();
      NoSumsPlus(RowSums(ExampleRow, ExampleFilms));
    }
    ParseDecimalFifty();
    assert Finish(sums, 50.0, Fixed).finalTotal == 490.0;
  }

  lemma ReduceSingle(acc: Sums, m: Measurement, films: seq<Film>)
    ensures Reduce(acc, [m], films) == AddItem(acc, m, films)
  {
    assert [m][1..] == [];
  }

  const ExampleRow := Measurement(1, "2", "1,5", 2, "Sala", "Janela", "Fume", true, 10.0, Percentage, false)
  const ExampleFilms := [Film("Fume", 100.0)]
}
