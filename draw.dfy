/**
 * The draw selector, generateFinalNumberJSON: rejection sampling of distinct zero-padded
 * main-prize numbers, then of consolation numbers that collide with neither list.
 * Math.random() is replaced by the sequence of indices it produced during the run.
 */
module Draw {
  import opened Wrappers
  import opened Text

  /** The { mainPrizeNumbers, consolationPrizeNumbers } object the draw returns. */
  datatype FinalNumbers = FinalNumbers(mainPrizeNumbers: seq<string>, consolationPrizeNumbers: seq<string>)

  /**
   * How a draw ends: with the numbers; with the TypeError an empty inventory raises at
   * inventoryCouponNumbers[0]; or with the given random indices used up before the sets were full.
   */
  datatype DrawOutcome = Drawn(numbers: FinalNumbers) | EmptyInventory | PicksExhausted

  /** The padded values the inventory can yield: padStart(total_digits, "0") of each entry. */
  function PaddedValues(inventory: seq<string>, width: int): set<string>
  {
    set i | 0 <= i < |inventory| :: PadStart(inventory[i], width)
  }

  /** How many numbers `while (set.size < count)` collects: none for a count below one. */
  function Target(count: int): nat
  {
    if count < 0 then 0 else count
  }

  /** No number twice in either list, and no number in both. */
  predicate DistinctDraw(f: FinalNumbers)
  {
    && Distinct(f.mainPrizeNumbers)
    && Distinct(f.consolationPrizeNumbers)
    && (forall i, j | 0 <= i < |f.mainPrizeNumbers| && 0 <= j < |f.consolationPrizeNumbers| ::
          f.mainPrizeNumbers[i] != f.consolationPrizeNumbers[j])
  }

  /** The shape of a finished draw: the requested counts, distinct and disjoint, drawn from the padded inventory. */
  predicate WellFormedDraw(f: FinalNumbers, inventory: seq<string>, width: int, mainPrizes: int, consPrizes: int)
  {
    && |f.mainPrizeNumbers| == Target(mainPrizes)
    && |f.consolationPrizeNumbers| == Target(consPrizes)
    && DistinctDraw(f)
    && (forall x | x in f.mainPrizeNumbers :: x in PaddedValues(inventory, width))
    && (forall x | x in f.consolationPrizeNumbers :: x in PaddedValues(inventory, width))
  }

  /**
   * generateFinalNumberJSON with the inventory and requirements already read. Each round
   * takes the next random index, pads the entry there, and adds it to the main set unless
   * present; then the same for the consolation set, skipping values already among the mains.
   */
  method Select(inventory: seq<string>, width: int, mainPrizes: int, consPrizes: int, picks: seq<nat>)
    returns (r: DrawOutcome)
    requires forall k | 0 <= k < |picks| :: picks[k] < |inventory|
    ensures r.EmptyInventory? <==> |inventory| == 0 && (mainPrizes > 0 || consPrizes > 0)
    ensures r.Drawn? ==> WellFormedDraw(r.numbers, inventory, width, mainPrizes, consPrizes)
    ensures r.Drawn? ==> Target(mainPrizes) + Target(consPrizes) <= |PaddedValues(inventory, width)|
  {
    var main: seq<string> := [];
    var cons: seq<string> := [];
    var k := 0;
    while |main| < mainPrizes
      invariant 0 <= k <= |picks|
      invariant |main| <= Target(mainPrizes)
      invariant Distinct(main)
      invariant forall x | x in main :: x in PaddedValues(inventory, width)
      invariant |inventory| > 0 || main == []
      decreases |picks| - k
    {
      if |inventory| == 0 {
        return EmptyInventory;
      }
      if k == |picks| {
        return PicksExhausted;
      }
      var value := PadStart(inventory[picks[k]], width);
      k := k + 1;
      if value !in main {
        main := main + [value];
      }
    }
    while |cons| < consPrizes
      invariant 0 <= k <= |picks|
      invariant |main| == Target(mainPrizes)
      invariant |cons| <= Target(consPrizes)
      invariant Distinct(cons)
      invariant forall x | x in cons :: x in PaddedValues(inventory, width) && x !in main
      invariant |inventory| > 0 || cons == []
      decreases |picks| - k
    {
      if |inventory| == 0 {
        return EmptyInventory;
      }
      if k == |picks| {
        return PicksExhausted;
      }
      var value := PadStart(inventory[picks[k]], width);
      k := k + 1;
      if value !in main && value !in cons {
        cons := cons + [value];
      }
    }
    var f := FinalNumbers(main, cons);
    assert forall i, j | 0 <= i < |main| && 0 <= j < |cons| :: main[i] != cons[j] by {
      forall i, j | 0 <= i < |main| && 0 <= j < |cons| ensures main[i] != cons[j] {
        assert cons[j] in cons;
      }
    }
    DrawFitsDistinctValues(f, inventory, width, mainPrizes, consPrizes);
    return Drawn(f);
  }

  // ---------------------------------------------------------------------------------------
  // Properties

  /** A duplicate-free sequence drawn from a set is no longer than the set. */
  lemma {:induction false} DistinctWithin(s: seq<string>, pool: set<string>)
    requires Distinct(s)
    requires forall x | x in s :: x in pool
    ensures |s| <= |pool|
  {
    if s != [] {
      assert forall x | x in s[1..] :: x in pool - {s[0]} by {
        forall x | x in s[1..] ensures x in pool - {s[0]} {
          var i :| 0 <= i < |s[1..]| && s[1..][i] == x;
          assert s[i + 1] == x;
        }
      }
      DistinctWithin(s[1..], pool - {s[0]});
    }
  }

  /** A finished draw uses as many distinct padded values as it awards prizes. */
  lemma DrawFitsDistinctValues(f: FinalNumbers, inventory: seq<string>, width: int, mainPrizes: int, consPrizes: int)
    requires WellFormedDraw(f, inventory, width, mainPrizes, consPrizes)
    ensures Target(mainPrizes) + Target(consPrizes) <= |PaddedValues(inventory, width)|
  {
    var all := f.mainPrizeNumbers + f.consolationPrizeNumbers;
    var m := |f.mainPrizeNumbers|;
    assert Distinct(all) by {
      forall i, j | 0 <= i < j < |all| ensures all[i] != all[j] {
        if j < m {
        } else if i >= m {
          assert all[i] == f.consolationPrizeNumbers[i - m];
        } else {
          assert all[j] == f.consolationPrizeNumbers[j - m];
        }
      }
    }
    DistinctWithin(all, PaddedValues(inventory, width));
  }

  /** Every number a draw returns is at least total_digits long, and exactly that long when its entry was. */
  lemma DrawnNumbersAreWide(inventory: seq<string>, width: int, x: string)
    requires x in PaddedValues(inventory, width)
    ensures |x| >= width
    ensures exists i | 0 <= i < |inventory| :: x == PadStart(inventory[i], width) && (|inventory[i]| <= width ==> |x| == width)
  {
    var i :| 0 <= i < |inventory| && x == PadStart(inventory[i], width);
    PadStartShape(inventory[i], width);
  }

  /** Padding a drawn number again gives the same string: update-coupons looks up exactly the drawn values. */
  lemma DrawnNumbersArePadded(f: FinalNumbers, inventory: seq<string>, width: int, mainPrizes: int, consPrizes: int)
    requires WellFormedDraw(f, inventory, width, mainPrizes, consPrizes)
    ensures forall x | x in f.mainPrizeNumbers + f.consolationPrizeNumbers :: PadStart(x, width) == x
  {
    forall x | x in f.mainPrizeNumbers + f.consolationPrizeNumbers ensures PadStart(x, width) == x {
      var i :| 0 <= i < |inventory| && x == PadStart(inventory[i], width);
      PadStartIdempotent(inventory[i], width);
    }
  }

  /**
   * The sufficiency check counts entries, not distinct values: two copies of one coupon pass
   * it for two prizes, but the pool holds one padded value, so no run of picks can finish the draw.
   */
  lemma DuplicatesDefeatSufficiency()
    ensures var inventory := ["5", "5"];
      1 + 1 <= |inventory| && |PaddedValues(inventory, 3)| == 1 < Target(1) + Target(1)
  {
    var inventory := ["5", "5"];
    var p := PadStart("5", 3);
    assert p in PaddedValues(inventory, 3) by {
      assert p == PadStart(inventory[0], 3);
    }
    forall x | x in PaddedValues(inventory, 3) ensures x == p {
      var i :| 0 <= i < |inventory| && x == PadStart(inventory[i], 3);
      assert inventory[i] == "5";
    }
    assert PaddedValues(inventory, 3) == {p};
  }
}
