/**
 * The inventory checks of the main process: the per-entry filter of load-coupon-inventory,
 * the sufficiency comparison of is-navigation-allowed, and the row normalisation of
 * load-from-excel.
 */
module Inventory {
  import opened Wrappers
  import opened Text
  import opened Store

  /**
   * The filter of load-coupon-inventory: an entry is problematic when it is not a number,
   * lies below min_range or above max_range, or is written with more than total_digits characters.
   */
  predicate IsProblematic(value: string, req: Requirements)
  {
    match JsNumber(value)
    case None => true
    case Some(v) => v < req.minRange || v > req.maxRange || |value| > req.totalDigits
  }

  /** inventoryCouponNumbers.filter(...): the problematic entries, in inventory order. */
  function InvalidCoupons(values: seq<string>, req: Requirements): (bad: seq<string>)
    ensures |bad| <= |values|
    ensures forall x :: x in bad <==> x in values && IsProblematic(x, req)
  {
    if values == [] then []
    else
      assert forall x :: x in values <==> x == values[0] || x in values[1..];
      (if IsProblematic(values[0], req) then [values[0]] else []) + InvalidCoupons(values[1..], req)
  }

  /** The comparison of is-navigation-allowed: enough inventory entries for every prize. */
  predicate Sufficient(req: Requirements, inventorySize: nat)
  {
    req.mainPrizeCount + req.consolationPrizeCount <= inventorySize
  }

  /**
   * load-from-excel as written: the width is read from the worker's reply wrapper instead of
   * its data, so it is undefined and padStart adds nothing; null cells are skipped.
   */
  function LoadedNumbersAsWritten(cells: seq<Option<string>>): (numbers: seq<string>)
    ensures |numbers| <= |cells|
    ensures forall x :: x in numbers <==> exists i | 0 <= i < |cells| :: cells[i].Some? && x == cells[i].value
  {
    if cells == [] then []
    else
      var rest := LoadedNumbersAsWritten(cells[1..]);
      assert forall i | 1 <= i < |cells| :: cells[i] == cells[1..][i - 1];
      (if cells[0].Some? then [cells[0].value] else []) + rest
  }

  /** load-from-excel as intended: each non-null first-column cell, padded to total_digits, in sheet order. */
  function LoadedNumbers(cells: seq<Option<string>>, width: int): (numbers: seq<string>)
    ensures |numbers| <= |cells|
    ensures forall x :: x in numbers <==> exists i | 0 <= i < |cells| :: cells[i].Some? && x == PadStart(cells[i].value, width)
  {
    if cells == [] then []
    else
      var rest := LoadedNumbers(cells[1..], width);
      assert forall i | 1 <= i < |cells| :: cells[i] == cells[1..][i - 1];
      (if cells[0].Some? then [PadStart(cells[0].value, width)] else []) + rest
  }

  // ---------------------------------------------------------------------------------------
  // Properties

  /** Loading passes the filter exactly when no entry is problematic. */
  lemma NoInvalidCouponsIffAllValid(values: seq<string>, req: Requirements)
    ensures |InvalidCoupons(values, req)| == 0 <==> forall i | 0 <= i < |values| :: !IsProblematic(values[i], req)
  {
    if |InvalidCoupons(values, req)| != 0 {
      var x := InvalidCoupons(values, req)[0];
      assert x in InvalidCoupons(values, req);
    }
  }

  /**
   * The filter keeps order: the problematic entries of two inventories one after the other
   * are those of the first followed by those of the second.
   */
  lemma {:induction false} InvalidCouponsAppend(a: seq<string>, b: seq<string>, req: Requirements)
    ensures InvalidCoupons(a + b, req) == InvalidCoupons(a, req) + InvalidCoupons(b, req)
  {
    if a == [] {
      assert a + b == b;
    } else {
      var h := if IsProblematic(a[0], req) then [a[0]] else [];
      assert (a + b)[0] == a[0] && (a + b)[1..] == a[1..] + b;
      assert InvalidCoupons(a + b, req) == h + InvalidCoupons(a[1..] + b, req);
      assert InvalidCoupons(a, req) == h + InvalidCoupons(a[1..], req);
      InvalidCouponsAppend(a[1..], b, req);
      assert h + (InvalidCoupons(a[1..], req) + InvalidCoupons(b, req))
        == (h + InvalidCoupons(a[1..], req)) + InvalidCoupons(b, req);
    }
  }

  /**
   * The filter keeps multiplicity: a problematic value is reported as often as the inventory
   * holds it, any other value never.
   */
  lemma {:induction false} InvalidCouponsMultiplicity(values: seq<string>, req: Requirements)
    ensures forall x :: multiset(InvalidCoupons(values, req))[x] == if IsProblematic(x, req) then multiset(values)[x] else 0
  {
    if values != [] {
      InvalidCouponsMultiplicity(values[1..], req);
      var h := if IsProblematic(values[0], req) then [values[0]] else [];
      assert values == [values[0]] + values[1..];
      assert InvalidCoupons(values, req) == h + InvalidCoupons(values[1..], req);
    }
  }

  /** A single entry is reported exactly when it is problematic. */
  lemma InvalidCouponsSingle(v: string, req: Requirements)
    ensures InvalidCoupons([v], req) == if IsProblematic(v, req) then [v] else []
  {
    assert [v][1..] == [];
  }

  /** Both loaders read the sheet in order: the rows of two sheet parts are those of each, one after the other. */
  lemma {:induction false} LoadedNumbersAppend(a: seq<Option<string>>, b: seq<Option<string>>, width: int)
    ensures LoadedNumbers(a + b, width) == LoadedNumbers(a, width) + LoadedNumbers(b, width)
    ensures LoadedNumbersAsWritten(a + b) == LoadedNumbersAsWritten(a) + LoadedNumbersAsWritten(b)
  {
    if a == [] {
      assert a + b == b;
    } else {
      assert (a + b)[0] == a[0] && (a + b)[1..] == a[1..] + b;
      LoadedNumbersAppend(a[1..], b, width);
      var h := if a[0].Some? then [PadStart(a[0].value, width)] else [];
      assert LoadedNumbers(a + b, width) == h + LoadedNumbers(a[1..] + b, width);
      assert LoadedNumbers(a, width) == h + LoadedNumbers(a[1..], width);
      assert h + (LoadedNumbers(a[1..], width) + LoadedNumbers(b, width))
        == (h + LoadedNumbers(a[1..], width)) + LoadedNumbers(b, width);
      var g := if a[0].Some? then [a[0].value] else [];
      assert LoadedNumbersAsWritten(a + b) == g + LoadedNumbersAsWritten(a[1..] + b);
      assert LoadedNumbersAsWritten(a) == g + LoadedNumbersAsWritten(a[1..]);
      assert g + (LoadedNumbersAsWritten(a[1..]) + LoadedNumbersAsWritten(b))
        == (g + LoadedNumbersAsWritten(a[1..])) + LoadedNumbersAsWritten(b);
    }
  }

  /** One row per cell: a null cell gives none, any other cell one number, padded or (as written) not. */
  lemma LoadedNumbersSingle(c: Option<string>, width: int)
    ensures LoadedNumbers([c], width) == if c.Some? then [PadStart(c.value, width)] else []
    ensures LoadedNumbersAsWritten([c]) == if c.Some? then [c.value] else []
  {
    assert [c][1..] == [];
  }

  /**
   * The two loaders give one number per non-null cell, position by position: the intended one
   * is the as-written one with every number padded to total_digits.
   */
  lemma {:induction false} LoadedNumbersPadAsWritten(cells: seq<Option<string>>, width: int)
    ensures |LoadedNumbers(cells, width)| == |LoadedNumbersAsWritten(cells)|
    ensures forall k | 0 <= k < |LoadedNumbers(cells, width)| ::
      LoadedNumbers(cells, width)[k] == PadStart(LoadedNumbersAsWritten(cells)[k], width)
  {
    if cells != [] {
      LoadedNumbersPadAsWritten(cells[1..], width);
    }
  }

  /**
   * The loader as written agrees with the intended one exactly when no non-null cell is
   * shorter than total_digits, that is, when there is nothing to pad.
   */
  lemma {:induction false} AsWrittenAgreesIffNothingToPad(cells: seq<Option<string>>, width: int)
    ensures LoadedNumbersAsWritten(cells) == LoadedNumbers(cells, width) <==>
      forall i | 0 <= i < |cells| :: cells[i].Some? ==> |cells[i].value| >= width
  {
    if cells != [] {
      AsWrittenAgreesIffNothingToPad(cells[1..], width);
      assert forall i | 1 <= i < |cells| :: cells[i] == cells[1..][i - 1];
      var aw, lw := LoadedNumbersAsWritten(cells[1..]), LoadedNumbers(cells[1..], width);
      if cells[0].Some? {
        var v := cells[0].value;
        PadStartShape(v, width);
        assert LoadedNumbersAsWritten(cells) == [v] + aw;
        assert LoadedNumbers(cells, width) == [PadStart(v, width)] + lw;
        if [v] + aw == [PadStart(v, width)] + lw {
          assert ([v] + aw)[0] == v && ([v] + aw)[1..] == aw;
          assert ([PadStart(v, width)] + lw)[1..] == lw;
        }
      }
    }
  }

  /** Every number the corrected loader produces is at least total_digits long. */
  lemma {:induction false} LoadedNumbersAreWide(cells: seq<Option<string>>, width: int)
    ensures forall i | 0 <= i < |LoadedNumbers(cells, width)| :: |LoadedNumbers(cells, width)[i]| >= width
  {
    if cells != [] {
      LoadedNumbersAreWide(cells[1..], width);
    }
  }

  /**
   * A padded non-negative numeral passes the filter exactly when its value is in range and its
   * unpadded numeral fits in total_digits: padding keeps the value and reaches the width.
   */
  lemma PaddedEntryValidity(n: nat, req: Requirements)
    ensures !IsProblematic(PadStart(NatToString(n), req.totalDigits), req) <==>
      req.minRange <= n <= req.maxRange && |NatToString(n)| <= req.totalDigits
  {
    JsNumberOfPaddedNat(n, req.totalDigits);
  }

  /** Scenario: 25 against max_range 20 is flagged. */
  lemma OutOfRangeIsFlagged()
    ensures IsProblematic("25", Requirements("Spring2024", 2, 3, 4, 20, 1))
  {
    assert NatToString(25) == NatToString(2) + [DigitChar(5)] == "25";
    JsNumberOfIntToString(25);
  }

  /** The loader as written keeps "7" as it is where the intended one gives "0007". */
  lemma ExcelPaddingLost()
    ensures LoadedNumbersAsWritten([Some("7")]) == ["7"]
    ensures LoadedNumbers([Some("7")], 4) == ["0007"]
  {
    var cells := [Some("7")];
    assert cells[1..] == [];
    assert PadStart("7", 4) == Zeros(3) + "7";
    assert Zeros(3) == "000" by {
      assert |Zeros(3)| == 3 && Zeros(3)[0] == '0' && Zeros(3)[1] == '0' && Zeros(3)[2] == '0';
    }
    assert "000" + "7" == "0007";
    assert LoadedNumbers(cells, 4) == [PadStart("7", 4)] + LoadedNumbers([], 4);
  }
}
