/** The general-discount controls of the mobile footer: the value box, which forwards
    only text shaped like a decimal number, and the percentage/flat switch. */
module MobileFooter {
  import opened Wrappers
  import opened JsText
  import opened Types

  predicate IsSeparator(c: char) { c == '.' || c == ',' }

  /** `/^[0-9]*[.,]?[0-9]*$/.test(s)`: leading digits, then possibly one point or comma,
      then digits to the end of the text. */
  predicate ValidDiscountFormat(s: string) {
    var k := LeadingDigits(s);
    k == |s| || (IsSeparator(s[k]) && AllDigits(s[k + 1..]))
  }

  /** Number of points and commas in `s`. */
  function CountSeparators(s: string): nat
  {
    if s == [] then 0 else (if IsSeparator(s[0]) then 1 else 0) + CountSeparators(s[1..])
  }

  lemma {:induction false} CountSeparatorsAppend(a: string, b: string)
    ensures CountSeparators(a + b) == CountSeparators(a) + CountSeparators(b)
  {
    if a == [] {
      assert a + b == b;
    } else {
      assert (a + b)[1..] == a[1..] + b;
      CountSeparatorsAppend(a[1..], b);
    }
  }

  /** Text of digits and separators has no separator exactly when it is all digits. */
  lemma {:induction false} NoSeparatorsMeansDigits(s: string)
    requires forall i :: 0 <= i < |s| ==> IsDigit(s[i]) || IsSeparator(s[i])
    ensures CountSeparators(s) == 0 <==> AllDigits(s)
  {
    if s != [] {
      NoSeparatorsMeansDigits(s[1..]);
      assert AllDigits(s) <==> IsDigit(s[0]) && AllDigits(s[1..]) by {
        if IsDigit(s[0]) && AllDigits(s[1..]) {
          forall i | 0 <= i < |s| ensures IsDigit(s[i]) { if i > 0 { assert s[i] == s[1..][i - 1]; } }
        }
      }
    }
  }

  /** Only digits, points and commas. */
  predicate NumberChars(s: string) {
    forall i :: 0 <= i < |s| ==> IsDigit(s[i]) || IsSeparator(s[i])
  }

  /** The accepted texts, described directly: only digits, points and commas, with at
      most one point or comma in all. */
  lemma ValidDiscountFormatMeaning(s: string)
    ensures ValidDiscountFormat(s) <==> NumberChars(s) && CountSeparators(s) <= 1
  {
    var k := LeadingDigits(s);
    if k == |s| {
      assert s[..k] == s;
      NoSeparatorsMeansDigits(s);
    } else {
      SplitAt(s, k);
      if ValidDiscountFormat(s) {
        ValidShape(s, k);
      } else if NumberChars(s) {
        NoSeparatorsMeansDigits(s[k + 1..]);
      }
    }
  }

  /** Counting around the first non-digit at `k`. */
  lemma SplitAt(s: string, k: nat)
    requires k < |s| && AllDigits(s[..k])
    ensures CountSeparators(s) == (if IsSeparator(s[k]) then 1 else 0) + CountSeparators(s[k + 1..])
    ensures NumberChars(s) ==> NumberChars(s[k + 1..])
  {
    SplitCount(s, k);
    if NumberChars(s) {
      TailChars(s, k);
    }
  }

  lemma SplitCount(s: string, k: nat)
    requires k < |s| && AllDigits(s[..k])
    ensures CountSeparators(s) == (if IsSeparator(s[k]) then 1 else 0) + CountSeparators(s[k + 1..])
  {
    var head, mid, tail := s[..k], s[k..], s[k + 1..];
    assert CountSeparators(s) == CountSeparators(head) + CountSeparators(mid) by {
      assert s == head + mid;
      CountSeparatorsAppend(head, mid);
    }
    assert CountSeparators(mid) == CountSeparators([s[k]]) + CountSeparators(tail) by {
      assert mid == [s[k]] + tail;
      CountSeparatorsAppend([s[k]], tail);
    }
    CountSeparatorsSingle(s[k]);
    DigitsHaveNoSeparators(head);
  }

  lemma CountSeparatorsSingle(c: char)
    ensures CountSeparators([c]) == if IsSeparator(c) then 1 else 0
  {
    assert [c][1..] == [];
  }

  lemma TailChars(s: string, k: nat)
    requires k < |s| && NumberChars(s)
    ensures NumberChars(s[k + 1..])
  {
    var tail := s[k + 1..];
    forall i | 0 <= i < |tail| ensures IsDigit(tail[i]) || IsSeparator(tail[i]) {
      assert tail[i] == s[k + 1 + i];
    }
  }

  lemma {:induction false} DigitsHaveNoSeparators(s: string)
    requires AllDigits(s)
    ensures CountSeparators(s) == 0
  {
    if s != [] {
      assert AllDigits(s[1..]) by {
        forall i | 0 <= i < |s| - 1 ensures IsDigit(s[1..][i]) { assert s[1..][i] == s[i + 1]; }
      }
      DigitsHaveNoSeparators(s[1..]);
    }
  }

  lemma ValidShape(s: string, k: nat)
    requires k == LeadingDigits(s) < |s|
    requires IsSeparator(s[k]) && AllDigits(s[k + 1..])
    ensures NumberChars(s) && CountSeparators(s[k + 1..]) == 0
  {
    NoSeparatorsMeansDigits(s[k + 1..]);
    ValidShapeChars(s, k);
  }

  /** Digits, then the separator, then digits: every character is one the box accepts. */
  lemma ValidShapeChars(s: string, k: nat)
    requires k == LeadingDigits(s) < |s|
    requires IsSeparator(s[k]) && AllDigits(s[k + 1..])
    ensures NumberChars(s)
  {
    var head, tail := s[..k], s[k + 1..];
    assert AllDigits(head);
    forall i | 0 <= i < |s| ensures IsDigit(s[i]) || IsSeparator(s[i]) {
      if i < k { assert s[i] == head[i]; } else if i > k { assert s[i] == tail[i - k - 1]; }
    }
  }

  /** The value box: well-shaped text replaces the value and keeps the kind; anything
      else emits nothing (`None`). */
  function DiscountValueChange(current: DiscountSpec, value: string): (r: Option<DiscountSpec>)
    ensures r.Some? <==> ValidDiscountFormat(value)
    ensures r.Some? ==> r.value.value == value && r.value.kind == current.kind
  {
    if ValidDiscountFormat(value) then Some(current.(value := value)) else None
  }

  /** The percentage/flat switch: keeps the value. */
  function DiscountTypeChange(current: DiscountSpec, kind: DiscountType): (r: DiscountSpec)
    ensures r.kind == kind && r.value == current.value
  {
    current.(kind := kind)
  }

  /** The box can always be cleared, and a lone separator or a number with one
      separator passes, while a second separator is refused. */
  lemma DiscountValueExamples(current: DiscountSpec)
    ensures DiscountValueChange(current, "") == Some(current.(value := ""))
    ensures DiscountValueChange(current, "12,5").Some?
    ensures DiscountValueChange(current, ",").Some?
    ensures DiscountValueChange(current, "1.2.3").None?
    ensures DiscountValueChange(current, "-5").None?
  {
    assert LeadingDigits("12,5") == 2 by {
      assert "12,5"[1..] == "2,5";
      assert "2,5"[1..] == ",5";
    }
    assert "12,5"[3..] == "5";
    assert LeadingDigits("1.2.3") == 1 by { assert "1.2.3"[1..] == ".2.3"; }
    assert "1.2.3"[2..] == "2.3";
    assert !IsDigit("2.3"[1]);
  }

  /** Whatever the box accepts is read by the totals as a number that is not negative. */
  lemma AcceptedDiscountNotNegative(s: string)
    requires ValidDiscountFormat(s)
    ensures ParseDecimal(s) >= 0.0
  {
    var t := ReplaceFirst(s, ',', '.');
    if s != [] {
      AcceptedFirstChar(s);
      assert |t| == |s| && (t[0] == s[0] || t[0] == '.');
      UnsignedStart(t);
    }
  }

  /** Accepted text starts with a digit, a point or a comma. */
  lemma AcceptedFirstChar(s: string)
    requires ValidDiscountFormat(s) && s != []
    ensures IsDigit(s[0]) || IsSeparator(s[0])
  {
    var k := LeadingDigits(s);
    if k > 0 { assert s[..k][0] == s[0]; }
  }

  /** Text starting with a digit or a point carries no minus sign for the parsers. */
  lemma UnsignedStart(t: string)
    requires t != [] && (IsDigit(t[0]) || t[0] == '.')
    ensures !SignAndBody(t).0
  {
    assert !IsWhitespace(t[0]);
    assert LeadingWhitespace(t) == 0;
    assert t[0..] == t;
  }

  /** The two controls touch different halves of the discount, so their order does not
      matter. */
  lemma ControlsCommute(current: DiscountSpec, value: string, kind: DiscountType)
    requires ValidDiscountFormat(value)
    ensures DiscountValueChange(DiscountTypeChange(current, kind), value)
         == Some(DiscountTypeChange(DiscountValueChange(current, value).value, kind))
  {
  }
}
