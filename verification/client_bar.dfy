/** The client header: the one-line address shown under the client's name and the map
    link that goes with it. */
module ClientBar {
  import opened Wrappers
  import opened JsText

  /** The client fields the header reads; absent parts are `None`. */
  datatype Client = Client(
    nome: string,
    telefone: Option<string>,
    logradouro: Option<string>,
    numero: Option<string>,
    bairro: Option<string>,
    cidade: Option<string>,
    uf: Option<string>)

  /** `filter(Boolean)` on optional text: drops absent and empty parts, keeping order. */
  function KeepFilled(parts: seq<Option<string>>): (r: seq<string>)
    ensures |r| <= |parts|
    ensures forall i :: 0 <= i < |r| ==> r[i] != []
    ensures r == [] <==> forall i :: 0 <= i < |parts| ==> parts[i].None? || parts[i].value == []
  {
    if parts == [] then []
    else
      var rest := KeepFilled(parts[1..]);
      assert forall i :: 1 <= i < |parts| ==> parts[i] == parts[1..][i - 1];
      if parts[0].Some? && parts[0].value != [] then [parts[0].value] + rest else rest
  }

  /** Exactly the filled parts survive. */
  lemma {:induction false} KeepFilledMembers(parts: seq<Option<string>>)
    ensures forall s :: s in KeepFilled(parts) <==> Some(s) in parts && s != []
  {
    if parts != [] {
      KeepFilledMembers(parts[1..]);
      assert parts == [parts[0]] + parts[1..];
      KeepFilledCons(parts[0], parts[1..]);
    }
  }

  /** Filtering works part by part, so surviving parts keep their order. */
  lemma {:induction false} KeepFilledAppend(a: seq<Option<string>>, b: seq<Option<string>>)
    ensures KeepFilled(a + b) == KeepFilled(a) + KeepFilled(b)
  {
    if a == [] {
      assert a + b == b;
    } else {
      var rest := a[1..];
      assert a == [a[0]] + rest;
      assert a + b == [a[0]] + (rest + b);
      KeepFilledCons(a[0], rest);
      KeepFilledCons(a[0], rest + b);
      KeepFilledAppend(rest, b);
    }
  }

  /** One part in front: kept when filled, dropped otherwise. */
  lemma KeepFilledCons(p: Option<string>, rest: seq<Option<string>>)
    ensures KeepFilled([p] + rest) == (if p.Some? && p.value != [] then [p.value] else []) + KeepFilled(rest)
  {
    assert ([p] + rest)[1..] == rest;
  }

  /** The address parts in display order: street, number, district, city, state. */
  function AddressParts(c: Client): seq<Option<string>>
  {
    [c.logradouro, c.numero, c.bairro, c.cidade, c.uf]
  }

  /** `formatAddress`: the filled parts, in order, joined by ", ". */
  function FormatAddress(c: Client): (r: string)
    ensures r == [] <==> forall i :: 0 <= i < 5 ==> AddressParts(c)[i].None? || AddressParts(c)[i].value == []
    ensures var filled := KeepFilled(AddressParts(c)); |filled| == 1 ==> r == filled[0]
    ensures r == Join(KeepFilled(AddressParts(c)), ", ")
  {
    Join(KeepFilled(AddressParts(c)), ", ")
  }

  /** An address with only a city reads as just that city; street and city read as
      "street, city". */
  lemma FormatAddressExamples(c: Client, street: string, city: string)
    requires street != [] && city != []
    ensures FormatAddress(c.(logradouro := None, numero := None, bairro := Some(""), cidade := Some(city), uf := None)) == city
    ensures FormatAddress(c.(logradouro := Some(street), numero := None, bairro := None, cidade := Some(city), uf := Some(""))) == street + ", " + city
  {
    CityOnly(c, city);
    StreetAndCity(c, street, city);
  }

  lemma CityOnly(c: Client, city: string)
    requires city != []
    ensures FormatAddress(c.(logradouro := None, numero := None, bairro := Some(""), cidade := Some(city), uf := None)) == city
  {
    var none: Option<string> := None;
    var empty: Option<string> := Some("");
    var c1 := c.(logradouro := None, numero := None, bairro := Some(""), cidade := Some(city), uf := None);
    var p4 := [none];
    var p3 := [Some(city)] + p4;
    var p2 := [empty] + p3;
    var p1 := [none] + p2;
    var p0 := [none] + p1;
    assert AddressParts(c1) == p0;
    KeepFilledCons(none, []);
    assert KeepFilled(p4) == [];
    KeepFilledCons(Some(city), p4);
    KeepFilledCons(empty, p3);
    KeepFilledCons(none, p2);
    KeepFilledCons(none, p1);
    assert KeepFilled(p0) == [city];
  }

  lemma StreetAndCity(c: Client, street: string, city: string)
    requires street != [] && city != []
    ensures FormatAddress(c.(logradouro := Some(street), numero := None, bairro := None, cidade := Some(city), uf := Some(""))) == street + ", " + city
  {
    var none: Option<string> := None;
    var empty: Option<string> := Some("");
    var c2 := c.(logradouro := Some(street), numero := None, bairro := None, cidade := Some(city), uf := Some(""));
    var p4 := [empty];
    var p3 := [Some(city)] + p4;
    var p2 := [none] + p3;
    var p1 := [none] + p2;
    var p0 := [Some(street)] + p1;
    assert AddressParts(c2) == p0;
    KeepFilledCons(empty, []);
    assert KeepFilled(p4) == [];
    KeepFilledCons(Some(city), p4);
    KeepFilledCons(none, p3);
    KeepFilledCons(none, p2);
    KeepFilledCons(Some(street), p1);
    assert KeepFilled(p0) == [street, city];
    JoinTwo(street, city, ", ");
  }

  lemma JoinTwo(a: string, b: string, sep: string)
    ensures Join([a, b], sep) == a + sep + b
  {
    assert [a, b][1..] == [b];
  }

  /** `fullAddress && <a ...>`: the map link is shown exactly when a client is selected
      and has at least one filled address part. */
  function ShowsMapLink(selected: Option<Client>): (b: bool)
    ensures b <==> selected.Some? && exists i :: 0 <= i < 5 && AddressParts(selected.value)[i].Some? && AddressParts(selected.value)[i].value != []
  {
    var fullAddress := match selected case Some(c) => FormatAddress(c) case None => "";
    fullAddress != []
  }
}
