/** The pricing options of one client ("Opção 1", "Opção 2", ...), shown as swipeable
    tabs: copying the active option into a new one, deleting an option with its
    confirmation step, moving between options by swiping, and the two edits that write
    into the active option. */
module Budgets {
  import opened Wrappers
  import opened JsText
  import opened Types
  import opened Totals

  /** The option a client starts with: no rows and an empty percentage discount. */
  function DefaultBudget(id: Id): (b: Budget)
    ensures b.measurements == [] && b.name == OptionName(1)
    ensures ComputeTotals(Some(b), []) == NoTotals
  {
    Budget(id, OptionName(1), [], DiscountSpec("", Percentage))
  }

  /** A fresh option totals to zero whatever the film catalogue holds. */
  lemma DefaultBudgetHasNoTotals(id: Id, films: seq<Film>)
    ensures ComputeTotals(Some(DefaultBudget(id)), films) == NoTotals
  {
    var b := DefaultBudget(id);
    assert Reduce(NoSums, b.measurements, films) == Reduce(NoSums, b.measurements, []);
  }

  /** `budgets[activeBudgetIndex]`, absent when the index is out of range. */
  function ActiveBudget(budgets: seq<Budget>, active: int): (r: Option<Budget>)
    ensures r.Some? <==> 0 <= active < |budgets|
    ensures r.Some? ==> r.value == budgets[active]
  {
    if 0 <= active < |budgets| then Some(budgets[active]) else None
  }

  /** The tab title `Opção ${n}`. */
  function OptionName(n: int): (s: string)
    ensures "Op\U{00E7}\U{00E3}o " <= s
  {
    "Op\U{00E7}\U{00E3}o " + IntToString(n)
  }

  /** Different numbers give different tab titles. */
  lemma OptionNamesDistinct(a: int, b: int)
    requires a != b
    ensures OptionName(a) != OptionName(b)
  {
    var p := "Op\U{00E7}\U{00E3}o ";
    if OptionName(a) == OptionName(b) {
      assert OptionName(a)[|p|..] == IntToString(a);
      assert OptionName(b)[|p|..] == IntToString(b);
      ParseIntOfIntToString(a);
      ParseIntOfIntToString(b);
      assert false;
    }
  }

  /** The rows of a copied option: the same rows with fresh identifiers and no "new" mark. */
  function CopyRows(ms: seq<Measurement>, rowId: nat -> Id): (r: seq<Measurement>)
    ensures |r| == |ms|
    ensures forall i :: 0 <= i < |ms| ==> r[i] == ms[i].(id := rowId(i), isNew := false)
  {
    seq(|ms|, i requires 0 <= i < |ms| => ms[i].(id := rowId(i), isNew := false))
  }

  /** The tab list, the active index and the option awaiting delete confirmation. */
  datatype Tabs = Tabs(budgets: seq<Budget>, active: int, pendingDelete: Option<int>)

  /** The tabs the handlers keep: a valid active index, and a pending deletion only of an
      existing option while at least two exist. */
  predicate ValidTabs(t: Tabs) {
    && 0 <= t.active < |t.budgets|
    && (t.pendingDelete.Some? ==> 0 <= t.pendingDelete.value < |t.budgets| && |t.budgets| >= 2)
  }

  /** The new-option button: copy the active option (or a default one when there is
      none) under the next title, append it and make it the active tab. */
  function CreateNewBudgetOption(t: Tabs, newId: Id, rowId: nat -> Id): (r: Tabs)
    ensures |r.budgets| == |t.budgets| + 1
    ensures r.budgets[..|t.budgets|] == t.budgets
    ensures r.active == |t.budgets| && r.pendingDelete == t.pendingDelete
    ensures var source := match ActiveBudget(t.budgets, t.active)
                          case Some(b) => b case None => DefaultBudget(newId);
      var copy := r.budgets[|t.budgets|];
      && copy.id == newId
      && copy.name == OptionName(|t.budgets| + 1)
      && copy.generalDiscount == source.generalDiscount
      && |copy.measurements| == |source.measurements|
      && (forall i :: 0 <= i < |copy.measurements| ==>
            copy.measurements[i] == source.measurements[i].(id := rowId(i), isNew := false))
    ensures ValidTabs(t) ==> ValidTabs(r)
  {
    var source := match ActiveBudget(t.budgets, t.active) case Some(b) => b case None => DefaultBudget(newId);
    var copy := Budget(newId, OptionName(|t.budgets| + 1), CopyRows(source.measurements, rowId), source.generalDiscount);
    Tabs(t.budgets + [copy], |t.budgets|, t.pendingDelete)
  }

  /** A row's price does not depend on its identifier or its "new" mark. */
  lemma {:induction false} ReduceIgnoresIds(acc: Sums, ms: seq<Measurement>, rowId: nat -> Id, films: seq<Film>)
    ensures Reduce(acc, CopyRows(ms, rowId), films) == Reduce(acc, ms, films)
    decreases |ms|
  {
    if ms != [] {
      var c := CopyRows(ms, rowId);
      var shifted := (i: nat) => rowId(i + 1);
      assert c[1..] == CopyRows(ms[1..], shifted);
      AddItemIgnoresId(acc, ms[0], rowId(0), films);
      ReduceIgnoresIds(AddItem(acc, ms[0], films), ms[1..], shifted, films);
    }
  }

  lemma AddItemIgnoresId(acc: Sums, m: Measurement, id: Id, films: seq<Film>)
    ensures AddItem(acc, m.(id := id, isNew := false), films) == AddItem(acc, m, films)
  {
    var m' := m.(id := id, isNew := false);
    assert m'.largura == m.largura && m'.altura == m.altura && m'.quantidade == m.quantidade;
    assert m'.pelicula == m.pelicula && m'.discount == m.discount && m'.discountType == m.discountType;
    assert PriceItem(m', films) == PriceItem(m, films);
  }

  /** The new option is priced exactly like the option it was copied from. */
  lemma CopyKeepsTotals(t: Tabs, newId: Id, rowId: nat -> Id, films: seq<Film>)
    requires ValidTabs(t)
    ensures var r := CreateNewBudgetOption(t, newId, rowId);
      ComputeTotals(ActiveBudget(r.budgets, r.active), films) == ComputeTotals(ActiveBudget(t.budgets, t.active), films)
  {
    var source := t.budgets[t.active];
    ReduceIgnoresIds(NoSums, source.measurements, rowId, films);
  }

  /** The delete button of a tab: refused (with an alert) when it is the only option,
      otherwise the option awaits confirmation. */
  function RequestDelete(t: Tabs, index: int): (r: Tabs)
    ensures |t.budgets| <= 1 ==> r == t
    ensures |t.budgets| > 1 ==> r == t.(pendingDelete := Some(index))
    ensures ValidTabs(t) && 0 <= index < |t.budgets| ==> ValidTabs(r)
  {
    if |t.budgets| <= 1 then t else t.(pendingDelete := Some(index))
  }

  /** `budgets.filter((_, index) => index !== k)`. */
  function WithoutIndex(bs: seq<Budget>, k: int): (r: seq<Budget>)
    ensures 0 <= k < |bs| ==> |r| == |bs| - 1
    ensures 0 <= k < |bs| ==> forall i :: 0 <= i < k ==> r[i] == bs[i]
    ensures 0 <= k < |bs| ==> forall i :: k <= i < |r| ==> r[i] == bs[i + 1]
    ensures !(0 <= k < |bs|) ==> r == bs
  {
    if 0 <= k < |bs| then bs[..k] + bs[k + 1..] else bs
  }

  /** Confirming the deletion: the option leaves the list; an active tab at or after it
      steps back by one, but not below zero. */
  function ConfirmDelete(t: Tabs): (r: Tabs)
    ensures t.pendingDelete.None? ==> r == t
    ensures t.pendingDelete.Some? ==> r.pendingDelete.None? && r.budgets == WithoutIndex(t.budgets, t.pendingDelete.value)
    ensures ValidTabs(t) ==> ValidTabs(r)
  {
    match t.pendingDelete
    case None => t
    case Some(del) =>
      var active := if t.active >= del then (if t.active > 0 then t.active - 1 else 0) else t.active;
      Tabs(WithoutIndex(t.budgets, del), active, None)
  }

  /** Which option is shown after a deletion: the same one when another option was
      deleted; the one before it when the shown option was deleted (the new first option
      when it was the first). */
  lemma ConfirmDeleteKeepsView(t: Tabs)
    requires ValidTabs(t) && t.pendingDelete.Some?
    ensures var r := ConfirmDelete(t);
      var del := t.pendingDelete.value;
      && (t.active != del ==> r.budgets[r.active] == t.budgets[t.active])
      && (t.active == del && del > 0 ==> r.budgets[r.active] == t.budgets[del - 1])
      && (t.active == del && del == 0 ==> r.budgets[r.active] == t.budgets[1])
      && |r.budgets| == |t.budgets| - 1 >= 1
  {
  }

  /** The end of a horizontal swipe: more than 50 pixels to the right shows the previous
      option, more than 50 to the left the next one, if there is one. */
  function Swipe(active: int, count: int, diff: real): (r: int)
    ensures 0 <= active < count ==> 0 <= r < count
    ensures -50.0 <= diff <= 50.0 ==> r == active
    ensures diff > 50.0 ==> r == if active > 0 then active - 1 else active
    ensures diff < -50.0 ==> r == if active < count - 1 then active + 1 else active
  {
    if diff > 50.0 && active > 0 then active - 1
    else if diff < -50.0 && active < count - 1 then active + 1
    else active
  }

  /** A swipe one way undoes a swipe the other way whenever the first one moved. */
  lemma SwipeBackAndForth(active: int, count: int, d: real)
    requires 0 <= active < count && d > 50.0
    ensures Swipe(active, count, -d) != active ==> Swipe(Swipe(active, count, -d), count, d) == active
    ensures Swipe(active, count, d) != active ==> Swipe(Swipe(active, count, d), count, -d) == active
  {
  }

  /** Writing the active option's rows (or, below, its general discount): the other
      options are untouched, and nothing happens without an active option. */
  function SetActiveRows(budgets: seq<Budget>, active: int, ms: seq<Measurement>): (r: seq<Budget>)
    ensures |r| == |budgets|
    ensures forall i :: 0 <= i < |budgets| && i != active ==> r[i] == budgets[i]
    ensures 0 <= active < |budgets| ==> r[active] == budgets[active].(measurements := ms)
  {
    if 0 <= active < |budgets| then budgets[active := budgets[active].(measurements := ms)] else budgets
  }

  function SetGeneralDiscount(budgets: seq<Budget>, active: int, d: DiscountSpec): (r: seq<Budget>)
    ensures |r| == |budgets|
    ensures forall i :: 0 <= i < |budgets| && i != active ==> r[i] == budgets[i]
    ensures 0 <= active < |budgets| ==> r[active] == budgets[active].(generalDiscount := d)
  {
    if 0 <= active < |budgets| then budgets[active := budgets[active].(generalDiscount := d)] else budgets
  }

  /** Writing rows and reading them back through the active option gives those rows. */
  lemma SetActiveRowsReadBack(budgets: seq<Budget>, active: int, ms: seq<Measurement>)
    requires 0 <= active < |budgets|
    ensures ActiveBudget(SetActiveRows(budgets, active, ms), active).value.measurements == ms
    ensures SetActiveRows(SetActiveRows(budgets, active, ms), active, budgets[active].measurements) == budgets
  {
  }
}
