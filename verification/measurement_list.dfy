/** The copy-on-write edits the budget screen makes to its list of measurements: every
    edit builds a new list and leaves the old one as it was. */
module MeasurementList {
  import opened Wrappers
  import opened JsText
  import opened Types

  function Ids(ms: seq<Measurement>): set<Id> {
    set i | 0 <= i < |ms| :: ms[i].id
  }

  /** No two rows share an identifier. */
  predicate UniqueIds(ms: seq<Measurement>) {
    forall i, j :: 0 <= i < |ms| && 0 <= j < |ms| && i != j ==> ms[i].id != ms[j].id
  }

  /** `ms.findIndex(m => m.id === id)`, with `|ms|` standing for -1. */
  function IndexOfId(ms: seq<Measurement>, id: Id): (k: nat)
    ensures k <= |ms|
    ensures forall i :: 0 <= i < k ==> ms[i].id != id
    ensures k < |ms| ==> ms[k].id == id
    ensures k == |ms| <==> id !in Ids(ms)
  {
    if ms == [] then 0
    else if ms[0].id == id then 0
    else
      var k := IndexOfId(ms[1..], id);
      assert Ids(ms) == {ms[0].id} + Ids(ms[1..]) by {
        forall x | x in Ids(ms) ensures x in {ms[0].id} + Ids(ms[1..]) {
          var i :| 0 <= i < |ms| && ms[i].id == x;
          if i > 0 { assert ms[1..][i - 1] == ms[i]; }
        }
      }
      1 + k
  }

  /** `ms.find(m => m.id === id)`. */
  function FindById(ms: seq<Measurement>, id: Id): (r: Option<Measurement>)
    ensures r.Some? <==> id in Ids(ms)
    ensures r.Some? ==> r.value in ms && r.value.id == id
    ensures UniqueIds(ms) ==> forall i :: 0 <= i < |ms| && ms[i].id == id ==> r == Some(ms[i])
    ensures r.Some? ==> IndexOfId(ms, id) < |ms| && r.value == ms[IndexOfId(ms, id)]
  {
    var k := IndexOfId(ms, id);
    if k < |ms| then Some(ms[k]) else None
  }

  /** `ms.map(m => m.id === id ? f(m) : m)`: the one edit shape behind every by-id update. */
  function UpdateById(ms: seq<Measurement>, id: Id, f: Measurement -> Measurement): (r: seq<Measurement>)
    ensures |r| == |ms|
    ensures forall i :: 0 <= i < |ms| && ms[i].id != id ==> r[i] == ms[i]
    ensures forall i :: 0 <= i < |ms| && ms[i].id == id ==> r[i] == f(ms[i])
  {
    if ms == [] then []
    else [if ms[0].id == id then f(ms[0]) else ms[0]] + UpdateById(ms[1..], id, f)
  }

  /** An update that keeps each row's identifier keeps the set of identifiers and their
      uniqueness. */
  lemma UpdateByIdKeepsIds(ms: seq<Measurement>, id: Id, f: Measurement -> Measurement)
    requires forall m :: f(m).id == m.id
    ensures Ids(UpdateById(ms, id, f)) == Ids(ms)
    ensures UniqueIds(ms) ==> UniqueIds(UpdateById(ms, id, f))
  {
    var r := UpdateById(ms, id, f);
    assert forall i :: 0 <= i < |ms| ==> r[i].id == ms[i].id;
    assert Ids(r) == Ids(ms) by {
      forall x | x in Ids(ms) ensures x in Ids(r) {
        var i :| 0 <= i < |ms| && ms[i].id == x;
        assert r[i].id == x;
      }
    }
  }

  /** Choosing a film for the row being edited (the film-selection dialog); without a
      row being edited nothing changes. */
  function SelectFilm(ms: seq<Measurement>, editing: Option<Id>, film: string): (r: seq<Measurement>)
    ensures |r| == |ms|
    ensures editing.None? ==> r == ms
    ensures editing.Some? ==> forall i :: 0 <= i < |ms| ==>
      r[i] == if ms[i].id == editing.value then ms[i].(pelicula := film) else ms[i]
  {
    match editing
    case None => ms
    case Some(id) => UpdateById(ms, id, (m: Measurement) => m.(pelicula := film))
  }

  /** Saving the own discount of the row being edited (the discount dialog); without a
      row being edited nothing changes. */
  function SaveDiscount(ms: seq<Measurement>, editing: Option<Id>, discount: real, kind: DiscountType): (r: seq<Measurement>)
    ensures |r| == |ms|
    ensures editing.None? ==> r == ms
    ensures editing.Some? ==> forall i :: 0 <= i < |ms| ==>
      r[i] == if ms[i].id == editing.value then ms[i].(discount := discount, discountType := kind) else ms[i]
  {
    match editing
    case None => ms
    case Some(id) => UpdateById(ms, id, (m: Measurement) => m.(discount := discount, discountType := kind))
  }

  /** Confirming "apply to all": every row gets the pending film; with no pending film
      (absent or empty name) nothing changes. */
  function ApplyFilmToAll(ms: seq<Measurement>, pending: Option<string>): (r: seq<Measurement>)
    ensures |r| == |ms|
    ensures pending.None? || pending.value == [] ==> r == ms
    ensures pending.Some? && pending.value != [] ==>
      forall i :: 0 <= i < |ms| ==> r[i].pelicula == pending.value && r[i].(pelicula := ms[i].pelicula) == ms[i]
  {
    match pending
    case Some(film) => if film == [] then ms else SetFilmEverywhere(ms, film)
    case None => ms
  }

  function SetFilmEverywhere(ms: seq<Measurement>, film: string): (r: seq<Measurement>)
    ensures |r| == |ms|
    ensures forall i :: 0 <= i < |ms| ==> r[i].pelicula == film && r[i].(pelicula := ms[i].pelicula) == ms[i]
  {
    if ms == [] then [] else [ms[0].(pelicula := film)] + SetFilmEverywhere(ms[1..], film)
  }

  /** After "apply to all", every billed row is priced with one film: applying again
      with the same film changes nothing. */
  lemma ApplyFilmToAllIdempotent(ms: seq<Measurement>, pending: Option<string>)
    ensures ApplyFilmToAll(ApplyFilmToAll(ms, pending), pending) == ApplyFilmToAll(ms, pending)
  {
    var r := ApplyFilmToAll(ms, pending);
    var r2 := ApplyFilmToAll(r, pending);
    if pending.Some? && pending.value != [] {
      assert forall i :: 0 <= i < |ms| ==> r2[i] == r[i];
    }
  }

  /** Deleting a row from the edit dialog: `ms.filter(m => m.id !== id)`. */
  function RemoveById(ms: seq<Measurement>, id: Id): (r: seq<Measurement>)
    ensures |r| <= |ms|
    ensures forall m :: m in r <==> m in ms && m.id != id
    ensures id !in Ids(r)
  {
    if ms == [] then []
    else if ms[0].id == id then RemoveById(ms[1..], id)
    else [ms[0]] + RemoveById(ms[1..], id)
  }

  lemma UniqueTail(ms: seq<Measurement>)
    requires ms != [] && UniqueIds(ms)
    ensures UniqueIds(ms[1..])
    ensures forall i :: 1 <= i < |ms| ==> ms[i].id != ms[0].id
  {
    var tail := ms[1..];
    forall i, j | 0 <= i < |tail| && 0 <= j < |tail| && i != j ensures tail[i].id != tail[j].id {
      assert tail[i] == ms[i + 1] && tail[j] == ms[j + 1];
    }
  }

  /** With unique identifiers, deleting by identifier removes exactly the one row at its
      position and keeps the others in order. */
  lemma RemoveByIdOfUnique(ms: seq<Measurement>, id: Id)
    requires UniqueIds(ms)
    requires id in Ids(ms)
    ensures var k := IndexOfId(ms, id); RemoveById(ms, id) == ms[..k] + ms[k + 1..]
  {
    var k := IndexOfId(ms, id);
    RemoveByIdAt(ms, k, id);
  }

  /** Deleting the identifier carried by row `k` alone removes exactly that row. */
  lemma RemoveByIdAt(ms: seq<Measurement>, k: nat, id: Id)
    requires k < |ms| && ms[k].id == id
    requires forall i :: 0 <= i < |ms| && i != k ==> ms[i].id != id
    ensures RemoveById(ms, id) == ms[..k] + ms[k + 1..]
  {
    var a, c := ms[..k], ms[k + 1..];
    assert ms == a + ([ms[k]] + c);
    RemoveByIdAppend(a, [ms[k]] + c, id);
    RemoveByIdAppend([ms[k]], c, id);
    assert forall i :: 0 <= i < |a| ==> a[i] == ms[i];
    assert forall i :: 0 <= i < |c| ==> c[i] == ms[k + 1 + i];
    NotPresentRemovesNothing(a, id);
    NotPresentRemovesNothing(c, id);
  }

  /** Deleting works row by row: it distributes over concatenation. */
  lemma {:induction false} RemoveByIdAppend(a: seq<Measurement>, b: seq<Measurement>, id: Id)
    ensures RemoveById(a + b, id) == RemoveById(a, id) + RemoveById(b, id)
  {
    if a == [] {
      assert a + b == b;
    } else {
      assert (a + b)[1..] == a[1..] + b;
      RemoveByIdAppend(a[1..], b, id);
    }
  }

  lemma {:induction false} NotPresentRemovesNothing(ms: seq<Measurement>, id: Id)
    requires forall i :: 0 <= i < |ms| ==> ms[i].id != id
    ensures RemoveById(ms, id) == ms
  {
    if ms != [] {
      NotPresentRemovesNothing(ms[1..], id);
    }
  }

  /** Deleting keeps identifiers unique. */
  lemma {:induction false} RemoveByIdKeepsUnique(ms: seq<Measurement>, id: Id)
    requires UniqueIds(ms)
    ensures UniqueIds(RemoveById(ms, id))
  {
    if ms != [] {
      var tail := ms[1..];
      UniqueTail(ms);
      RemoveByIdKeepsUnique(tail, id);
      var rest := RemoveById(tail, id);
      assert ms[0].id !in Ids(rest) by {
        forall i | 0 <= i < |rest| ensures rest[i].id != ms[0].id {
          assert rest[i] in tail;
          var j :| 0 <= j < |tail| && tail[j] == rest[i];
          assert tail[j] == ms[j + 1];
        }
      }
    }
  }

  /** `ms.splice(k + 1, 0, copy)` on a copy of `ms`. */
  function InsertAfter(ms: seq<Measurement>, k: nat, copy: Measurement): (r: seq<Measurement>)
    requires k < |ms|
    ensures |r| == |ms| + 1
    ensures r[..k + 1] == ms[..k + 1] && r[k + 1] == copy && r[k + 2..] == ms[k + 1..]
  {
    ms[..k + 1] + [copy] + ms[k + 1..]
  }

  /** Inserting a row adds exactly its identifier. */
  lemma InsertAfterIds(ms: seq<Measurement>, k: nat, copy: Measurement)
    requires k < |ms|
    ensures Ids(InsertAfter(ms, k, copy)) == Ids(ms) + {copy.id}
  {
    var r := InsertAfter(ms, k, copy);
    forall x | x in Ids(ms) ensures x in Ids(r) {
      var i :| 0 <= i < |ms| && ms[i].id == x;
      if i <= k { assert r[i] == ms[i]; } else { assert r[i + 1] == ms[i]; }
    }
    forall x | x in Ids(r) ensures x in Ids(ms) + {copy.id} {
      var i :| 0 <= i < |r| && r[i].id == x;
      if i <= k { assert r[i] == ms[i]; } else if i > k + 1 { assert r[i] == ms[i - 1]; }
    }
    assert r[k + 1].id == copy.id;
  }

  /** A row with a fresh identifier inserted into a list with unique identifiers keeps
      them unique. */
  lemma InsertAfterKeepsUnique(ms: seq<Measurement>, k: nat, copy: Measurement)
    requires k < |ms| && UniqueIds(ms) && copy.id !in Ids(ms)
    ensures UniqueIds(InsertAfter(ms, k, copy))
    ensures Ids(InsertAfter(ms, k, copy)) == Ids(ms) + {copy.id}
  {
    var r := InsertAfter(ms, k, copy);
    assert forall i :: 0 <= i <= k ==> r[i] == ms[i];
    assert forall i :: k + 2 <= i < |r| ==> r[i] == ms[i - 1];
    forall i, j | 0 <= i < |r| && 0 <= j < |r| && i != j ensures r[i].id != r[j].id {
      if i != k + 1 && j != k + 1 {
        var i' := if i <= k then i else i - 1;
        var j' := if j <= k then j else j - 1;
        assert r[i] == ms[i'] && r[j] == ms[j'];
      } else if i == k + 1 {
        var j' := if j <= k then j else j - 1;
        assert r[j] == ms[j'];
      } else {
        var i' := if i <= k then i else i - 1;
        assert r[i] == ms[i'];
      }
    }
    InsertAfterIds(ms, k, copy);
  }

  /** Duplicating a row from the edit dialog: the copy gets a fresh identifier and goes
      right after the row it copies; the list is untouched when the row is gone. */
  function DuplicateInEditor(ms: seq<Measurement>, id: Id, freshId: Id): (r: seq<Measurement>)
    ensures id !in Ids(ms) ==> r == ms
    ensures id in Ids(ms) ==>
      var k := IndexOfId(ms, id);
      && |r| == |ms| + 1
      && r[..k + 1] == ms[..k + 1]
      && r[k + 1] == ms[k].(id := freshId, isNew := false)
      && r[k + 2..] == ms[k + 1..]
  {
    match FindById(ms, id)
    case None => ms
    case Some(m) => InsertAfter(ms, IndexOfId(ms, id), m.(id := freshId, isNew := false))
  }

  /** `ms.map(m => ({ ...m, isNew: false }))`. */
  function ClearNewFlags(ms: seq<Measurement>): (r: seq<Measurement>)
    ensures |r| == |ms|
    ensures forall i :: 0 <= i < |ms| ==> !r[i].isNew && r[i].(isNew := ms[i].isNew) == ms[i]
  {
    if ms == [] then [] else [ms[0].(isNew := false)] + ClearNewFlags(ms[1..])
  }

  lemma ClearNewFlagsKeepsIds(ms: seq<Measurement>)
    ensures Ids(ClearNewFlags(ms)) == Ids(ms)
    ensures UniqueIds(ms) ==> UniqueIds(ClearNewFlags(ms))
  {
    var r := ClearNewFlags(ms);
    assert forall i :: 0 <= i < |ms| ==> r[i].id == ms[i].id;
    assert Ids(r) == Ids(ms) by {
      forall x | x in Ids(ms) ensures x in Ids(r) {
        var i :| 0 <= i < |ms| && ms[i].id == x;
        assert r[i].id == x;
      }
    }
  }

  /** The row a new line starts from: empty width and height, one unit, the first film of
      the catalogue (or "Nenhuma" when there is none or its name is empty), billed, no
      discount. */
  function EmptyMeasurement(id: Id, films: seq<Film>): (m: Measurement)
    ensures m.id == id && m.largura == "" && m.altura == "" && m.quantidade == 1
    ensures m.active && m.discount == 0.0 && m.discountType == Percentage
    ensures films != [] && films[0].nome != "" ==> m.pelicula == films[0].nome
    ensures (films == [] || films[0].nome == "") ==> m.pelicula == "Nenhuma"
  {
    Measurement(
      id := id,
      largura := "",
      altura := "",
      quantidade := 1,
      ambiente := "Desconhecido",
      tipoAplicacao := "Desconhecido",
      pelicula := if films != [] && films[0].nome != "" then films[0].nome else "Nenhuma",
      active := true,
      discount := 0.0,
      discountType := Percentage,
      isNew := false)
  }

  /** Adding a line: a new empty row, marked new, goes first; every other row loses its
      "new" mark. */
  function AddMeasurement(ms: seq<Measurement>, films: seq<Film>, freshId: Id): (r: seq<Measurement>)
    ensures |r| == |ms| + 1
    ensures r[0] == EmptyMeasurement(freshId, films).(isNew := true)
    ensures forall i :: 0 <= i < |ms| ==> r[i + 1] == ms[i].(isNew := false)
  {
    [EmptyMeasurement(freshId, films).(isNew := true)] + ClearNewFlags(ms)
  }

  /** After adding, the new row is the only one marked new, and a fresh identifier keeps
      identifiers unique. */
  lemma AddMeasurementInvariants(ms: seq<Measurement>, films: seq<Film>, freshId: Id)
    requires freshId !in Ids(ms)
    ensures var r := AddMeasurement(ms, films, freshId);
      && (forall i :: 0 <= i < |r| ==> (r[i].isNew <==> i == 0))
      && Ids(r) == Ids(ms) + {freshId}
      && (UniqueIds(ms) ==> UniqueIds(r))
  {
    var r := AddMeasurement(ms, films, freshId);
    ClearNewFlagsKeepsIds(ms);
    PrependKeepsUnique(ClearNewFlags(ms), EmptyMeasurement(freshId, films).(isNew := true));
  }

  lemma PrependKeepsUnique(ms: seq<Measurement>, m: Measurement)
    requires m.id !in Ids(ms)
    ensures Ids([m] + ms) == Ids(ms) + {m.id}
    ensures UniqueIds(ms) ==> UniqueIds([m] + ms)
  {
    var r := [m] + ms;
    assert forall i :: 1 <= i < |r| ==> r[i] == ms[i - 1];
    assert Ids(r) == Ids(ms) + {m.id} by {
      forall x | x in Ids(r) ensures x in Ids(ms) + {m.id} {
        var i :| 0 <= i < |r| && r[i].id == x;
        if i > 0 { assert ms[i - 1].id == x; }
      }
      forall x | x in Ids(ms) ensures x in Ids(r) {
        var i :| 0 <= i < |ms| && ms[i].id == x;
        assert r[i + 1].id == x;
      }
      assert r[0].id == m.id;
    }
    if UniqueIds(ms) {
      forall i, j | 0 <= i < |r| && 0 <= j < |r| && i != j ensures r[i].id != r[j].id {
        if i > 0 && j > 0 {
          assert r[i] == ms[i - 1] && r[j] == ms[j - 1];
        } else if i == 0 {
          assert r[j].id in Ids(ms);
        } else {
          assert r[i].id in Ids(ms);
        }
      }
    }
  }
}
