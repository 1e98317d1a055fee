/** The on-screen numeric keypad of the budget screen. It edits one (row, field) pair at a
    time through a text buffer; every handler is modelled as one pure step from the keypad
    state and the measurement list to the new keypad state and the new list. Rows are
    changed only by "commits", which coerce the buffer into the field's stored form. */
module Numpad {
  import opened Wrappers
  import opened JsText
  import opened Types
  import opened MeasurementList

  /** The keypad-driven fields of a row, in the order the keypad walks them. */
  datatype Field = Largura | Altura | Quantidade

  /** The keypad state: whether it is shown, the row and field it edits, the text buffer,
      and whether the next key replaces the buffer instead of extending it. */
  datatype NumpadConfig = NumpadConfig(
    isOpen: bool,
    measurementId: Option<Id>,
    field: Option<Field>,
    currentValue: string,
    shouldClearOnNextInput: bool)

  const Closed := NumpadConfig(false, None, None, "", false)

  /** The state the handlers keep: the keypad is open exactly when it has a target row
      and a target field. */
  predicate WellFormed(c: NumpadConfig) {
    c.isOpen == c.measurementId.Some? && c.isOpen == c.field.Some?
  }

  /** The result of one handler: the new keypad state and the new measurement list. */
  datatype Step = Step(config: NumpadConfig, measurements: seq<Measurement>)

  /** The field after `f` in the sequence largura, altura, quantidade. */
  function NextField(f: Field): (r: Option<Field>)
    ensures r.None? <==> f == Quantidade
    ensures r.Some? ==> r.value != f
    ensures f == Largura ==> r == Some(Altura)
    ensures f == Altura ==> r == Some(Quantidade)
    ensures r.Some? ==> FieldOrder(r.value) == FieldOrder(f) + 1
  {
    match f
    case Largura => Some(Altura)
    case Altura => Some(Quantidade)
    case Quantidade => None
  }

  /** Position of a field in the keypad's walk: width, height, quantity. */
  function FieldOrder(f: Field): nat
  {
    match f
    case Largura => 0
    case Altura => 1
    case Quantidade => 2
  }

  /** `String(m[field])`: the field as the screen shows it. */
  function FieldText(m: Measurement, f: Field): string
  {
    match f
    case Largura => m.largura
    case Altura => m.altura
    case Quantidade => IntToString(m.quantidade)
  }

  // ---------------------------------------------------------------------------
  // Commit coercion

  /** `parseInt(buf, 10) || 1`: a committed quantity is never zero, and a buffer that does
      not start with a number commits as one. */
  function QuantityOnCommit(buf: string): (q: int)
    ensures q != 0
    ensures ParseInt(buf).None? ==> q == 1
    ensures ParseInt(buf).Some? ==> q == if ParseInt(buf).value == 0 then 1 else ParseInt(buf).value
  {
    match ParseInt(buf)
    case Some(n) => if n != 0 then n else 1
    case None => 1
  }

  /** A width or height commit from close, done, duplicate and add-group: an empty buffer
      or a lone point becomes "0"; otherwise the first point becomes a comma. */
  function DimensionOnCommit(buf: string): (t: string)
    ensures t != []
    ensures buf == "" || buf == "." ==> t == "0"
    ensures buf != "" && buf != "." ==> t == ReplaceFirst(buf, '.', ',')
    ensures '.' in buf && buf != "." ==> ',' in t && |t| == |buf| && t == buf[FirstIndex(buf, '.') := ',']
    ensures '.' !in buf && buf != "" ==> t == buf
  {
    if buf == "" || buf == "." then "0"
    else
      var k := FirstIndex(buf, '.');
      assert k < |buf| ==> ReplaceFirst(buf, '.', ',')[k] == ',';
      ReplaceFirst(buf, '.', ',')
  }

  /** The width or height commit made when the keypad moves to another target: as above,
      but a lone comma also becomes "0". */
  function DimensionOnSwitch(buf: string): (t: string)
    ensures t != []
    ensures buf == "," ==> t == "0"
    ensures buf != "," ==> t == DimensionOnCommit(buf)
  {
    if buf == "," || buf == "" || buf == "." then "0" else ReplaceFirst(buf, '.', ',')
  }

  /** `{ ...m, [field]: value }` with the commit coercion of the field. */
  function Commit(m: Measurement, f: Field, buf: string): (r: Measurement)
    ensures r.(largura := m.largura, altura := m.altura, quantidade := m.quantidade) == m
    ensures f != Largura ==> r.largura == m.largura
    ensures f != Altura ==> r.altura == m.altura
    ensures f != Quantidade ==> r.quantidade == m.quantidade
    ensures f == Quantidade ==> r.quantidade != 0
    ensures f == Largura ==> r.largura == DimensionOnCommit(buf)
    ensures f == Altura ==> r.altura == DimensionOnCommit(buf)
    ensures f == Quantidade ==> r.quantidade == QuantityOnCommit(buf)
    ensures f != Quantidade ==> FieldText(r, f) == DimensionOnCommit(buf)
  {
    match f
    case Largura => m.(largura := DimensionOnCommit(buf))
    case Altura => m.(altura := DimensionOnCommit(buf))
    case Quantidade => m.(quantidade := QuantityOnCommit(buf))
  }

  /** The commit made when the keypad moves to another target. */
  function CommitOnSwitch(m: Measurement, f: Field, buf: string): (r: Measurement)
    ensures buf != "," ==> r == Commit(m, f, buf)
    ensures f == Quantidade ==> r == Commit(m, f, buf)
    ensures f != Quantidade ==> FieldText(r, f) == DimensionOnSwitch(buf)
    ensures f != Quantidade && buf == "," ==> FieldText(r, f) == "0"
    ensures r.(largura := m.largura, altura := m.altura, quantidade := m.quantidade) == m
  {
    match f
    case Largura => m.(largura := DimensionOnSwitch(buf))
    case Altura => m.(altura := DimensionOnSwitch(buf))
    case Quantidade => m.(quantidade := QuantityOnCommit(buf))
  }

  /** Committing `buf` into the rows with identifier `id`: only those rows change, and in
      them only the committed field. */
  function CommitToList(ms: seq<Measurement>, id: Id, f: Field, buf: string): (r: seq<Measurement>)
    ensures |r| == |ms|
    ensures forall i :: 0 <= i < |ms| && ms[i].id != id ==> r[i] == ms[i]
    ensures forall i :: 0 <= i < |ms| && ms[i].id == id ==> r[i] == Commit(ms[i], f, buf)
    ensures Ids(r) == Ids(ms)
    ensures UniqueIds(ms) ==> UniqueIds(r)
  {
    UpdateByIdKeepsIds(ms, id, (m: Measurement) => Commit(m, f, buf));
    UpdateById(ms, id, (m: Measurement) => Commit(m, f, buf))
  }

  /** Committing, reopening the same field and committing again changes nothing: the
      keypad reads back what it wrote. */
  lemma CommitReopenCommit(m: Measurement, f: Field, buf: string)
    requires ',' !in buf
    ensures var m' := Commit(m, f, buf);
      Commit(m', f, ReplaceFirst(FieldText(m', f), ',', '.')) == m'
  {
    var m' := Commit(m, f, buf);
    match f
    case Quantidade => QuantityReopen(m'.quantidade);
    case Largura => DimensionReopen(buf);
    case Altura => DimensionReopen(buf);
  }

  lemma QuantityReopen(q: int)
    requires q != 0
    ensures QuantityOnCommit(ReplaceFirst(IntToString(q), ',', '.')) == q
  {
    var s := IntToString(q);
    assert ',' !in s by {
      if q < 0 { assert s == "-" + NatToString(-q); }
    }
    assert ReplaceFirst(s, ',', '.') == s;
    ParseIntOfIntToString(q);
  }

  lemma DimensionReopen(buf: string)
    requires ',' !in buf
    ensures var t := DimensionOnCommit(buf);
      DimensionOnCommit(ReplaceFirst(t, ',', '.')) == t
  {
    if buf == "" || buf == "." {
      assert ReplaceFirst("0", ',', '.') == "0";
      assert DimensionOnCommit("0") == "0";
    } else {
      ReplaceFirstRoundTrip(buf, '.', ',');
    }
  }

  /** What the keypad commits for a width or height is priced exactly as what was typed:
      reading the stored text back gives `parseFloat(buf) || 0`. */
  lemma CommittedDimensionKeepsValue(buf: string)
    requires ',' !in buf
    ensures ParseDecimal(DimensionOnCommit(buf)) == OrElse(ParseFloat(buf), 0.0)
  {
    if buf == "" || buf == "." {
      assert ReplaceFirst("0", ',', '.') == "0";
      ParseFloatOfDigits("0");
      assert DigitsValue("0") == 0;
      assert SignAndBody(buf).1 == buf;
      assert LeadingDigits(buf) == 0;
      assert FractionDigits(buf) == [] by {
        if buf == "." { assert buf[1..] == []; }
      }
    } else {
      ReplaceFirstRoundTrip(buf, '.', ',');
    }
  }

  // ---------------------------------------------------------------------------
  // The handlers

  /** Commit the buffer and move to the next field of the same row, loading that field's
      stored value (comma read as point) in replace mode; after the last field, close.
      Shared by the done key and by the auto-advance of the input key. */
  function CommitAndAdvance(ms: seq<Measurement>, id: Option<Id>, f: Field, buf: string): (r: Step)
    ensures id.None? ==> r.measurements == ms
    ensures id.Some? ==> r.measurements == CommitToList(ms, id.value, f, buf)
    ensures f == Quantidade ==> r.config == Closed
    ensures f != Quantidade ==>
      && r.config.isOpen && r.config.measurementId == id && r.config.field == NextField(f)
      && r.config.shouldClearOnNextInput
    ensures f != Quantidade && id.Some? && id.value in Ids(ms) ==>
      r.config.currentValue ==
        ReplaceFirst(FieldText(FindById(r.measurements, id.value).value, NextField(f).value), ',', '.')
    ensures f != Quantidade && (id.None? || id.value !in Ids(ms)) ==> r.config.currentValue == ""
    ensures f != Quantidade && id.Some? && id.value in Ids(ms) ==>
      var k := IndexOfId(ms, id.value);
      k < |ms| && r.config.currentValue == ReplaceFirst(FieldText(ms[k], NextField(f).value), ',', '.')
  {
    var updated := match id case Some(i) => CommitToList(ms, i, f, buf) case None => ms;
    ReopenReadsStoredValue(ms, id, f, buf);
    match NextField(f)
    case Some(nextField) =>
      var current := match id case Some(i) => FindById(updated, i) case None => None;
      var nextValue := match current case Some(m) => FieldText(m, nextField) case None => "";
      Step(NumpadConfig(true, id, Some(nextField), ReplaceFirst(nextValue, ',', '.'), true), updated)
    case None => Step(Closed, updated)
  }

  /** The field the keypad moves to reads, in the committed list, what it held before the
      commit: the commit touches only the field it was made on. */
  lemma ReopenReadsStoredValue(ms: seq<Measurement>, id: Option<Id>, f: Field, buf: string)
    ensures id.Some? ==>
      var updated := CommitToList(ms, id.value, f, buf);
      var k := IndexOfId(ms, id.value);
      k < |ms| ==> FindById(updated, id.value) == Some(Commit(ms[k], f, buf))
    ensures NextField(f).Some? ==> forall m: Measurement ::
      FieldText(Commit(m, f, buf), NextField(f).value) == FieldText(m, NextField(f).value)
  {
    if id.Some? {
      var updated := CommitToList(ms, id.value, f, buf);
      IndexOfIdSameIds(ms, updated, id.value);
    }
  }

  /** The close handler: commit the buffer, if there is a target, and close. */
  function Close(c: NumpadConfig, ms: seq<Measurement>): (r: Step)
    ensures r.config == Closed
    ensures c.measurementId.None? || c.field.None? ==> r.measurements == ms
    ensures c.measurementId.Some? && c.field.Some? ==>
      r.measurements == CommitToList(ms, c.measurementId.value, c.field.value, c.currentValue)
  {
    match (c.measurementId, c.field)
    case (Some(id), Some(f)) => Step(Closed, CommitToList(ms, id, f, c.currentValue))
    case _ => Step(Closed, ms)
  }

  /** The done key: commit and advance, or change nothing when there is no target. */
  function Done(c: NumpadConfig, ms: seq<Measurement>): (r: Step)
    ensures WellFormed(c) ==> WellFormed(r.config)
    ensures c.measurementId.None? || c.field.None? ==> r == Step(c, ms)
    ensures c.field == Some(Quantidade) && c.measurementId.Some? ==> r.config == Closed
    ensures c.field == Some(Largura) && c.measurementId.Some? ==> r.config.field == Some(Altura) && r.config.isOpen
    ensures c.field == Some(Altura) && c.measurementId.Some? ==> r.config.field == Some(Quantidade) && r.config.isOpen
    ensures c.measurementId.Some? && c.field.Some? ==>
      r.measurements == CommitToList(ms, c.measurementId.value, c.field.value, c.currentValue)
    ensures c.measurementId.Some? && c.field.Some? ==>
      r == CommitAndAdvance(ms, c.measurementId, c.field.value, c.currentValue)
  {
    match (c.measurementId, c.field)
    case (Some(id), Some(f)) => CommitAndAdvance(ms, c.measurementId, f, c.currentValue)
    case _ => Step(c, ms)
  }

  /** The buffer after one key, before the auto-advance check: a comma counts as a point;
      the point is ignored for the quantity and never added twice; in replace mode a digit
      becomes the whole buffer and the point gives "0.". */
  function Keyed(c: NumpadConfig, key: char): (v: string)
    ensures (key == ',' || key == '.') && c.field == Some(Quantidade) ==> v == c.currentValue
    ensures (key == ',' || key == '.') && c.field != Some(Quantidade) && c.shouldClearOnNextInput ==> v == "0."
    ensures (key == ',' || key == '.') && c.field != Some(Quantidade) && !c.shouldClearOnNextInput ==>
      '.' in v && (v == c.currentValue || v == c.currentValue + ".")
    ensures (key == ',' || key == '.') && c.field != Some(Quantidade) && '.' in c.currentValue && !c.shouldClearOnNextInput ==>
      v == c.currentValue
    ensures key != ',' && key != '.' ==> v == if c.shouldClearOnNextInput then [key] else c.currentValue + [key]
  {
    var ch := if key == ',' then '.' else key;
    if ch == '.' then
      if c.field != Some(Quantidade) then
        if c.shouldClearOnNextInput then "0."
        else if '.' in c.currentValue then c.currentValue
        else c.currentValue + "."
      else c.currentValue
    else if c.shouldClearOnNextInput then [ch]
    else c.currentValue + [ch]
  }

  /** `/^\d\.\d{2}$/`: one digit, a point and two digits. */
  predicate TwoDecimals(s: string) {
    |s| == 4 && IsDigit(s[0]) && s[1] == '.' && IsDigit(s[2]) && IsDigit(s[3])
  }

  /** The auto-advance test accepts one digit, a point and exactly two digits: not a
      comma, not one or three decimals, not two digits before the point. */
  lemma TwoDecimalsExamples()
    ensures TwoDecimals("1.25")
    ensures !TwoDecimals("1,25") && !TwoDecimals("1.2") && !TwoDecimals("1.250") && !TwoDecimals("12.50")
  {
  }

  /** The input key. A width or height that now reads like "1.25" is written to the row
      with a comma and the keypad moves on to the next field; anything else only updates
      the buffer and leaves replace mode. */
  function Input(c: NumpadConfig, ms: seq<Measurement>, key: char): (r: Step)
    ensures WellFormed(c) ==> WellFormed(r.config)
    ensures c.field == Some(Quantidade) || c.field.None? ==>
      r == Step(c.(currentValue := Keyed(c, key), shouldClearOnNextInput := false), ms)
    ensures (c.field == Some(Largura) || c.field == Some(Altura)) && !TwoDecimals(Keyed(c, key)) ==>
      r == Step(c.(currentValue := Keyed(c, key), shouldClearOnNextInput := false), ms)
    ensures (c.field == Some(Largura) || c.field == Some(Altura)) && TwoDecimals(Keyed(c, key)) ==>
      r == CommitAndAdvance(ms, c.measurementId, c.field.value, Keyed(c, key))
  {
    var newValue := Keyed(c, key);
    var isWidthOrHeight := c.field == Some(Largura) || c.field == Some(Altura);
    if isWidthOrHeight && TwoDecimals(newValue) then
      CommitAndAdvance(ms, c.measurementId, c.field.value, newValue)
    else
      Step(c.(currentValue := newValue, shouldClearOnNextInput := false), ms)
  }

  /** On a two-decimal buffer the general commit coercion is exactly "first point becomes
      a comma", so the auto-advance writes `newValue.replace('.', ',')`. */
  lemma TwoDecimalsCommit(v: string)
    requires TwoDecimals(v)
    ensures DimensionOnCommit(v) == ReplaceFirst(v, '.', ',')
    ensures DimensionOnCommit(v) == [v[0], ',', v[2], v[3]]
  {
    assert v == [v[0]] + ['.'] + [v[2], v[3]];
    assert v[0] != '.';
    assert FirstIndex(v, '.') == 1 by { FirstIndexUnique(v, '.', 1); }
  }

  /** The delete key drops the last character of the buffer; it commits nothing. */
  function Delete(c: NumpadConfig, ms: seq<Measurement>): (r: Step)
    ensures r.measurements == ms
    ensures WellFormed(c) ==> WellFormed(r.config)
    ensures c.currentValue != [] ==> r.config.currentValue + [c.currentValue[|c.currentValue| - 1]] == c.currentValue
    ensures c.currentValue == [] ==> r.config.currentValue == []
    ensures !r.config.shouldClearOnNextInput
    ensures r.config.(currentValue := c.currentValue, shouldClearOnNextInput := c.shouldClearOnNextInput) == c
  {
    var buf := c.currentValue;
    Step(c.(currentValue := if buf == [] then [] else buf[..|buf| - 1], shouldClearOnNextInput := false), ms)
  }

  /** The clear key: the target rows get empty width and height and one unit; the buffer
      restarts ("1" on the quantity) in replace mode, and the keypad stays open. */
  function Clear(c: NumpadConfig, ms: seq<Measurement>): (r: Step)
    ensures WellFormed(c) ==> WellFormed(r.config)
    ensures c.measurementId.None? ==> r == Step(c, ms)
    ensures c.measurementId.Some? ==>
      && |r.measurements| == |ms|
      && (forall i :: 0 <= i < |ms| && ms[i].id != c.measurementId.value ==> r.measurements[i] == ms[i])
      && (forall i :: 0 <= i < |ms| && ms[i].id == c.measurementId.value ==>
            && r.measurements[i].largura == "" && r.measurements[i].altura == ""
            && r.measurements[i].quantidade == 1
            && r.measurements[i].(largura := ms[i].largura, altura := ms[i].altura, quantidade := ms[i].quantidade) == ms[i])
      && r.config.isOpen == c.isOpen && r.config.field == c.field
      && r.config.measurementId == c.measurementId
      && r.config.currentValue == (if c.field == Some(Quantidade) then "1" else "")
      && r.config.shouldClearOnNextInput
  {
    match c.measurementId
    case None => Step(c, ms)
    case Some(id) =>
      var cleared := UpdateById(ms, id, (m: Measurement) => m.(largura := "", altura := "", quantidade := 1));
      Step(c.(currentValue := if c.field == Some(Quantidade) then "1" else "", shouldClearOnNextInput := true), cleared)
  }

  /** `m.id === keep ? m : { ...m, isNew: false }`. */
  function KeepNewOnly(ms: seq<Measurement>, keep: Id): (r: seq<Measurement>)
    ensures |r| == |ms|
    ensures forall i :: 0 <= i < |ms| ==>
      r[i] == if ms[i].id == keep then ms[i] else ms[i].(isNew := false)
  {
    if ms == [] then []
    else [if ms[0].id == keep then ms[0] else ms[0].(isNew := false)] + KeepNewOnly(ms[1..], keep)
  }

  /** The list after a duplicate: the copy of row `k`, with a fresh identifier and the
      "new" mark, right after it; every other row loses its "new" mark. */
  function InsertCopy(saved: seq<Measurement>, k: nat, freshId: Id): (r: seq<Measurement>)
    requires k < |saved| && freshId !in Ids(saved)
    ensures |r| == |saved| + 1
    ensures r[k + 1] == saved[k].(id := freshId, isNew := true)
    ensures forall i :: 0 <= i <= k ==> r[i] == saved[i].(isNew := false)
    ensures forall i :: k + 1 < i < |r| ==> r[i] == saved[i - 1].(isNew := false)
    ensures forall i :: 0 <= i < |r| ==> (r[i].isNew <==> i == k + 1)
    ensures Ids(r) == Ids(saved) + {freshId}
    ensures UniqueIds(saved) ==> UniqueIds(r)
  {
    var copy := saved[k].(id := freshId, isNew := true);
    var inserted := InsertAfter(saved, k, copy);
    InsertCopyFacts(saved, k, copy, inserted);
    KeepNewOnly(inserted, freshId)
  }

  lemma InsertCopyFacts(saved: seq<Measurement>, k: nat, copy: Measurement, inserted: seq<Measurement>)
    requires k < |saved| && copy.id !in Ids(saved) && copy.isNew
    requires inserted == InsertAfter(saved, k, copy)
    ensures var r := KeepNewOnly(inserted, copy.id);
      && (forall i :: 0 <= i < |r| ==> (r[i].isNew <==> i == k + 1))
      && Ids(r) == Ids(saved) + {copy.id}
      && (UniqueIds(saved) ==> UniqueIds(r))
  {
    OnlyCopyHasFreshId(saved, k, copy, inserted);
    InsertAfterIds(saved, k, copy);
    KeepNewOnlyIds(inserted, copy.id);
    if UniqueIds(saved) {
      InsertAfterKeepsUnique(saved, k, copy);
    }
  }

  lemma OnlyCopyHasFreshId(saved: seq<Measurement>, k: nat, copy: Measurement, inserted: seq<Measurement>)
    requires k < |saved| && copy.id !in Ids(saved)
    requires inserted == InsertAfter(saved, k, copy)
    ensures forall i :: 0 <= i < |inserted| ==> (inserted[i].id == copy.id <==> i == k + 1)
  {
    forall i | 0 <= i < |inserted| && i != k + 1 ensures inserted[i].id != copy.id {
      if i <= k { assert inserted[i] == saved[i]; } else { assert inserted[i] == saved[i - 1]; }
      assert inserted[i].id in Ids(saved);
    }
  }

  /** Clearing marks keeps every identifier, in place. */
  lemma KeepNewOnlyIds(ms: seq<Measurement>, keep: Id)
    ensures forall i :: 0 <= i < |ms| ==> KeepNewOnly(ms, keep)[i].id == ms[i].id
    ensures Ids(KeepNewOnly(ms, keep)) == Ids(ms)
    ensures UniqueIds(ms) ==> UniqueIds(KeepNewOnly(ms, keep))
  {
    var r := KeepNewOnly(ms, keep);
    forall x | x in Ids(ms) ensures x in Ids(r) {
      var i :| 0 <= i < |ms| && ms[i].id == x;
      assert r[i].id == x;
    }
  }

  /** The duplicate key: commit the buffer, insert a copy of the target row right after it
      and close. Without a target, or when the row is gone, nothing changes. */
  function Duplicate(c: NumpadConfig, ms: seq<Measurement>, freshId: Id): (r: Step)
    requires freshId !in Ids(ms)
    ensures WellFormed(c) ==> WellFormed(r.config)
    ensures c.measurementId.None? || c.field.None? || c.measurementId.value !in Ids(ms) ==> r == Step(c, ms)
    ensures c.measurementId.Some? && c.field.Some? && c.measurementId.value in Ids(ms) ==>
      && r.config == Closed
      && IndexOfId(ms, c.measurementId.value) < |ms|
      && r.measurements == InsertCopy(CommitToList(ms, c.measurementId.value, c.field.value, c.currentValue),
                                      IndexOfId(ms, c.measurementId.value), freshId)
  {
    match (c.measurementId, c.field)
    case (Some(id), Some(f)) =>
      var saved := CommitToList(ms, id, f, c.currentValue);
      (match FindById(saved, id)
       case None => Step(c, ms)
       case Some(m) =>
         IndexOfIdSameIds(ms, saved, id);
         Step(Closed, InsertCopy(saved, IndexOfId(saved, id), freshId)))
    case _ => Step(c, ms)
  }

  /** Two lists with the same identifiers position by position find an identifier at the
      same index. */
  lemma {:induction false} IndexOfIdSameIds(ms: seq<Measurement>, saved: seq<Measurement>, id: Id)
    requires |saved| == |ms|
    requires forall i :: 0 <= i < |ms| ==> saved[i].id == ms[i].id
    ensures IndexOfId(saved, id) == IndexOfId(ms, id)
  {
    if ms != [] && ms[0].id != id {
      IndexOfIdSameIds(ms[1..], saved[1..], id);
    }
  }

  /** The add-group key: commit the buffer if there is a target, put a new empty row
      (marked new) first, drop the other rows' "new" mark, and close. */
  function AddGroup(c: NumpadConfig, ms: seq<Measurement>, films: seq<Film>, freshId: Id): (r: Step)
    requires freshId !in Ids(ms)
    ensures r.config == Closed
    ensures |r.measurements| == |ms| + 1
    ensures r.measurements[0] == EmptyMeasurement(freshId, films).(isNew := true)
    ensures forall i :: 0 <= i < |r.measurements| ==> (r.measurements[i].isNew <==> i == 0)
    ensures Ids(r.measurements) == Ids(ms) + {freshId}
    ensures UniqueIds(ms) ==> UniqueIds(r.measurements)
    ensures c.measurementId.None? || c.field.None? ==>
      forall i :: 0 <= i < |ms| ==> r.measurements[i + 1] == ms[i].(isNew := false)
    ensures c.measurementId.Some? && c.field.Some? ==>
      var saved := CommitToList(ms, c.measurementId.value, c.field.value, c.currentValue);
      forall i :: 0 <= i < |ms| ==> r.measurements[i + 1] == saved[i].(isNew := false)
  {
    var saved :=
      match (c.measurementId, c.field)
      case (Some(id), Some(f)) => CommitToList(ms, id, f, c.currentValue)
      case _ => ms;
    AddMeasurementInvariants(saved, films, freshId);
    Step(Closed, AddMeasurement(saved, films, freshId))
  }

  /** Tapping a field: a pending edit on another target is committed first (a lone comma
      counting as empty); tapping the target already open only leaves replace mode; any
      other target opens with its current value (comma read as point) in replace mode. */
  function Open(c: NumpadConfig, ms: seq<Measurement>, id: Id, f: Field, currentValue: string): (r: Step)
    ensures WellFormed(r.config) && r.config.isOpen
    ensures r.config.measurementId == Some(id) && r.config.field == Some(f)
    ensures c.isOpen && c.measurementId == Some(id) && c.field == Some(f) ==>
      r == Step(c.(shouldClearOnNextInput := false), ms)
    ensures !(c.isOpen && c.measurementId == Some(id) && c.field == Some(f)) ==>
      r.config == NumpadConfig(true, Some(id), Some(f), ReplaceFirst(currentValue, ',', '.'), true)
    ensures !c.isOpen ==> r.measurements == ms
    ensures (c.isOpen && c.measurementId.Some? && c.field.Some?
             && (c.measurementId != Some(id) || c.field != Some(f))) ==>
      var prevId := c.measurementId.value;
      && |r.measurements| == |ms|
      && (forall i :: 0 <= i < |ms| && ms[i].id != prevId ==> r.measurements[i] == ms[i])
      && (forall i :: 0 <= i < |ms| && ms[i].id == prevId ==>
            r.measurements[i] == CommitOnSwitch(ms[i], c.field.value, c.currentValue))
  {
    var saved :=
      if c.isOpen && (c.measurementId != Some(id) || c.field != Some(f)) then
        match (c.measurementId, c.field)
        case (Some(prevId), Some(prevField)) =>
          UpdateById(ms, prevId, (m: Measurement) => CommitOnSwitch(m, prevField, c.currentValue))
        case _ => ms
      else ms;
    var isSameButton := c.isOpen && c.measurementId == Some(id) && c.field == Some(f);
    if isSameButton then Step(c.(shouldClearOnNextInput := false), saved)
    else Step(NumpadConfig(true, Some(id), Some(f), ReplaceFirst(currentValue, ',', '.'), true), saved)
  }

  // ---------------------------------------------------------------------------
  // Properties of the controller

  /** Input rules: a comma and a point are the same key; a point never adds a second
      point; on the quantity it is ignored; in replace mode a digit is the whole buffer
      and a point gives "0."; the replace flag is off afterwards unless the keypad
      advanced to the next field. */
  lemma InputRules(c: NumpadConfig, ms: seq<Measurement>, key: char)
    ensures Input(c, ms, ',') == Input(c, ms, '.')
    ensures (key == ',' || key == '.') && c.field == Some(Quantidade) ==> Keyed(c, key) == c.currentValue
    ensures (key == ',' || key == '.') && !c.shouldClearOnNextInput ==>
      (CountOf(Keyed(c, key), '.') <= 1 <==> CountOf(c.currentValue, '.') <= 1)
    ensures (key == ',' || key == '.') && c.shouldClearOnNextInput && c.field != Some(Quantidade) ==>
      Keyed(c, key) == "0."
    ensures IsDigit(key) && c.shouldClearOnNextInput ==> Keyed(c, key) == [key]
    ensures IsDigit(key) && !c.shouldClearOnNextInput ==> Keyed(c, key) == c.currentValue + [key]
    ensures IsDigit(key) ==> CountOf(Keyed(c, key), '.') <= CountOf(c.currentValue, '.')
    ensures var r := Input(c, ms, key);
      r.config.shouldClearOnNextInput ==> r.config.isOpen && r.config.field != c.field
  {
    CommaIsPoint(c);
    if key == ',' || key == '.' {
      SeparatorKeepsOnePoint(c, key);
    }
    if IsDigit(key) {
      DigitAddsNoPoint(c, key);
    }
    InputReplaceFlag(c, ms, key);
  }

  lemma CommaIsPoint(c: NumpadConfig)
    ensures Keyed(c, ',') == Keyed(c, '.')
  {
  }

  lemma SeparatorKeepsOnePoint(c: NumpadConfig, key: char)
    requires key == ',' || key == '.'
    ensures !c.shouldClearOnNextInput ==>
      (CountOf(Keyed(c, key), '.') <= 1 <==> CountOf(c.currentValue, '.') <= 1)
  {
    var v := c.currentValue;
    if !c.shouldClearOnNextInput && c.field != Some(Quantidade) && '.' !in v {
      CountOfAppend(v, ".", '.');
      CountOfAbsent(v, '.');
    }
  }

  lemma DigitAddsNoPoint(c: NumpadConfig, key: char)
    requires IsDigit(key)
    ensures CountOf(Keyed(c, key), '.') <= CountOf(c.currentValue, '.')
  {
    if c.shouldClearOnNextInput {
      assert CountOf([key], '.') == 0 by { assert [key][1..] == []; }
    } else {
      CountOfAppend(c.currentValue, [key], '.');
    }
  }

  lemma InputReplaceFlag(c: NumpadConfig, ms: seq<Measurement>, key: char)
    ensures var r := Input(c, ms, key);
      r.config.shouldClearOnNextInput ==> r.config.isOpen && r.config.field != c.field
  {
  }

  /** Number of occurrences of `x` in `s`. */
  function CountOf(s: string, x: char): nat
  {
    if s == [] then 0 else (if s[0] == x then 1 else 0) + CountOf(s[1..], x)
  }

  lemma {:induction false} CountOfAppend(a: string, b: string, x: char)
    ensures CountOf(a + b, x) == CountOf(a, x) + CountOf(b, x)
  {
    if a == [] {
      assert a + b == b;
    } else {
      assert (a + b)[1..] == a[1..] + b;
      CountOfAppend(a[1..], b, x);
    }
  }

  lemma {:induction false} CountOfAbsent(s: string, x: char)
    requires x !in s
    ensures CountOf(s, x) == 0
  {
    if s != [] {
      CountOfAbsent(s[1..], x);
    }
  }

  /** The auto-advance: on a width or height, a buffer like "1.25" is written with a
      comma into the target row and the keypad reopens, in replace mode, on the next
      field of the same row with that row's current value. It never closes. */
  lemma AutoAdvance(c: NumpadConfig, ms: seq<Measurement>, key: char)
    requires WellFormed(c)
    requires c.field == Some(Largura) || c.field == Some(Altura)
    requires TwoDecimals(Keyed(c, key))
    ensures var r := Input(c, ms, key);
      var v := Keyed(c, key);
      && r.config.isOpen
      && r.config.measurementId == c.measurementId
      && r.config.field == NextField(c.field.value)
      && r.config.shouldClearOnNextInput
      && |r.measurements| == |ms|
      && (forall i :: 0 <= i < |ms| && ms[i].id != c.measurementId.value ==> r.measurements[i] == ms[i])
      && (forall i :: 0 <= i < |ms| && ms[i].id == c.measurementId.value ==>
            && FieldText(r.measurements[i], c.field.value) == ReplaceFirst(v, '.', ',')
            && r.measurements[i].(largura := ms[i].largura, altura := ms[i].altura) == ms[i]
            && FieldText(r.measurements[i], NextField(c.field.value).value) == FieldText(ms[i], NextField(c.field.value).value))
      && (c.measurementId.value in Ids(ms) ==>
            var k := IndexOfId(ms, c.measurementId.value);
            k < |ms| && r.config.currentValue == ReplaceFirst(FieldText(ms[k], NextField(c.field.value).value), ',', '.'))
  {
    TwoDecimalsCommit(Keyed(c, key));
  }

  /** A quantity never auto-commits: input on it leaves the rows untouched. */
  lemma QuantityInputKeepsRows(c: NumpadConfig, ms: seq<Measurement>, key: char)
    requires c.field == Some(Quantidade)
    ensures Input(c, ms, key).measurements == ms
    ensures Input(c, ms, key).config.isOpen == c.isOpen
  {
  }

  /** Three presses of done walk width, height, quantity and close the keypad. */
  lemma DoneWalksTheFields(id: Id, ms: seq<Measurement>, buf: string)
    ensures var c := NumpadConfig(true, Some(id), Some(Largura), buf, true);
      var r1 := Done(c, ms);
      var r2 := Done(r1.config, r1.measurements);
      var r3 := Done(r2.config, r2.measurements);
      && r1.config.field == Some(Altura)
      && r2.config.field == Some(Quantidade)
      && r3.config == Closed
  {
  }

  /** Closing after an edit and reopening the same field loads a buffer that commits to
      the very same row: nothing typed is lost or altered by the round trip. */
  lemma CloseThenReopen(c: NumpadConfig, ms: seq<Measurement>, i: nat)
    requires c.measurementId.Some? && c.field.Some?
    requires ',' !in c.currentValue
    requires i < |ms| && ms[i].id == c.measurementId.value
    ensures var closed := Close(c, ms);
      var row := closed.measurements[i];
      var reopened := Open(closed.config, closed.measurements, row.id, c.field.value, FieldText(row, c.field.value));
      && reopened.measurements == closed.measurements
      && Commit(row, c.field.value, reopened.config.currentValue) == row
  {
    CommitReopenCommit(ms[i], c.field.value, c.currentValue);
  }
}
