/**
 * The draw screen: how many boxes fit a line for the screen width, how the consolation
 * boxes are split into lines, and the press-by-press reveal that fills the slots and
 * commits the draw once.
 */
module Game {
  import opened Wrappers
  import opened Dates
  import opened Store
  import opened Draw
  import opened MainProcess

  /** The screen-width thresholds and boxes per line, in ascending order of width. */
  const ScreenSizes: seq<(int, nat)> := [(840, 6), (1024, 8), (1900, 10)]

  /** The boxes of the first threshold the width does not exceed, scanning in order. */
  function FirstFit(thresholds: seq<(int, nat)>, width: int): (r: Option<nat>)
    ensures r.None? <==> forall i | 0 <= i < |thresholds| :: width > thresholds[i].0
    ensures r.Some? ==> exists i | 0 <= i < |thresholds| ::
      width <= thresholds[i].0 && r.value == thresholds[i].1
      && forall j | 0 <= j < i :: width > thresholds[j].0
  {
    if thresholds == [] then None
    else if width <= thresholds[0].0 then Some(thresholds[0].1)
    else
      var rest := FirstFit(thresholds[1..], width);
      if rest.Some? then
        var i :| 0 <= i < |thresholds[1..]| && width <= thresholds[1..][i].0 && rest.value == thresholds[1..][i].1
          && forall j | 0 <= j < i :: width > thresholds[1..][j].0;
        assert width <= thresholds[i + 1].0 && forall j | 0 <= j < i + 1 :: width > thresholds[j].0;
        rest
      else
        rest
  }

  /** getNumberOfBoxes: 6 up to 840 pixels, 8 up to 1024, 10 beyond (the widest entry is the fallback). */
  function NumberOfBoxes(screenWidth: int): (boxes: nat)
    ensures boxes == if screenWidth <= 840 then 6 else if screenWidth <= 1024 then 8 else 10
  {
    var fit := FirstFit(ScreenSizes, screenWidth);
    assert ScreenSizes[0] == (840, 6) && ScreenSizes[1] == (1024, 8) && ScreenSizes[2] == (1900, 10);
    if fit.Some? then
      assert fit.value == if screenWidth <= 840 then 6 else if screenWidth <= 1024 then 8 else 10 by {
        var i :| 0 <= i < |ScreenSizes| && screenWidth <= ScreenSizes[i].0 && fit.value == ScreenSizes[i].1
          && forall j | 0 <= j < i :: screenWidth > ScreenSizes[j].0;
        if i > 0 {
          assert screenWidth > ScreenSizes[0].0;
        }
        if i > 1 {
          assert screenWidth > ScreenSizes[1].0;
        }
      }
      fit.value
    else
      assert screenWidth > ScreenSizes[2].0;
      ScreenSizes[|ScreenSizes| - 1].1
  }

  /** JavaScript's `%`: the remainder takes the sign of the dividend. */
  function JsRem(a: int, b: int): (r: int)
    requires b != 0
    ensures a >= 0 ==> 0 <= r < (if b > 0 then b else -b)
    ensures a < 0 ==> -(if b > 0 then b else -b) < r <= 0
    ensures exists q: int :: a == q * b + r
  {
    var m := if b > 0 then b else -b;
    var r := (if a >= 0 then a else -a) % m;
    if a >= 0 then
      assert a == (a / m) * m + r;
      assert a == (if b > 0 then a / m else -(a / m)) * b + r;
      r
    else
      assert -a == (-a / m) * m + r;
      assert a == (if b > 0 then -(-a / m) else -a / m) * b + (-r);
      -r
  }

  /** The count compared against zero for the first line; `x % 0` is NaN, which is never greater than 0. */
  function FirstLineCount(consolationCount: int, boxes: int): int
  {
    if boxes == 0 then 0 else JsRem(consolationCount, boxes)
  }

  datatype Line = Line(startIndex: int, count: int)

  /** One past the last slot of the lines; 0 for no lines. */
  function End(lines: seq<Line>): int
  {
    if lines == [] then 0 else lines[|lines| - 1].startIndex + lines[|lines| - 1].count
  }

  /** Each line starts where the previous one ended, and the first starts at 0. */
  predicate Contiguous(lines: seq<Line>)
  {
    && (|lines| > 0 ==> lines[0].startIndex == 0)
    && forall k | 0 <= k < |lines| - 1 :: lines[k + 1].startIndex == lines[k].startIndex + lines[k].count
  }

  /** The layout getBoxDistribution builds. */
  predicate Layout(lines: seq<Line>, totalPrizes: int, consolationCount: int, boxes: int)
  {
    var rem := FirstLineCount(consolationCount, boxes);
    var first := if rem > 0 then 1 else 0;
    && first <= |lines|
    && (rem > 0 ==> lines[0] == Line(0, rem))
    && (forall k | first <= k < |lines| :: lines[k].count == 10 && lines[k].startIndex < totalPrizes)
    && Contiguous(lines)
    && End(lines) >= totalPrizes
  }

  /**
   * getBoxDistribution: an optional first line of `consolation_prize_count % boxes`, then
   * lines of 10 until the start index reaches the total number of prizes.
   */
  method BoxDistribution(totalPrizes: int, consolationCount: int, boxes: int) returns (lines: seq<Line>)
    ensures Layout(lines, totalPrizes, consolationCount, boxes)
  {
    lines := [];
    var rem := FirstLineCount(consolationCount, boxes);
    var currentIndex := 0;
    if rem > 0 {
      lines := lines + [Line(currentIndex, rem)];
      currentIndex := currentIndex + rem;
    }
    ghost var first := |lines|;
    while currentIndex < totalPrizes
      invariant first == (if rem > 0 then 1 else 0) && first <= |lines|
      invariant rem > 0 ==> lines[0] == Line(0, rem)
      invariant forall k | first <= k < |lines| :: lines[k].count == 10 && lines[k].startIndex < totalPrizes
      invariant Contiguous(lines)
      invariant End(lines) == currentIndex
      decreases totalPrizes - currentIndex
    {
      lines := lines + [Line(currentIndex, 10)];
      currentIndex := currentIndex + 10;
    }
  }

  predicate Holds(line: Line, p: int)
  {
    line.startIndex <= p < line.startIndex + line.count
  }

  /** Lines of positive count that follow one another never overlap. */
  lemma {:induction false} LinesOrdered(lines: seq<Line>, a: nat, b: nat)
    requires Contiguous(lines)
    requires forall k | 0 <= k < |lines| :: lines[k].count > 0
    requires a < b < |lines|
    ensures lines[a].startIndex + lines[a].count <= lines[b].startIndex
    decreases b - a
  {
    if a + 1 < b {
      LinesOrdered(lines, a + 1, b);
    }
  }

  /** Contiguous lines of positive count hold every slot below their end exactly once. */
  lemma {:induction false} LinesTile(lines: seq<Line>, p: int)
    requires Contiguous(lines)
    requires forall k | 0 <= k < |lines| :: lines[k].count > 0
    requires 0 <= p < End(lines)
    ensures exists k | 0 <= k < |lines| :: Holds(lines[k], p)
    ensures forall a, b | 0 <= a < |lines| && 0 <= b < |lines| && Holds(lines[a], p) && Holds(lines[b], p) :: a == b
  {
    var n := |lines| - 1;
    if p >= lines[n].startIndex {
      assert Holds(lines[n], p);
    } else {
      var init := lines[..n];
      assert n > 0;
      assert End(init) == lines[n].startIndex;
      assert Contiguous(init);
      LinesTile(init, p);
      var k :| 0 <= k < |init| && Holds(init[k], p);
      assert Holds(lines[k], p);
    }
    forall a, b | 0 <= a < |lines| && 0 <= b < |lines| && Holds(lines[a], p) && Holds(lines[b], p)
      ensures a == b
    {
      if a < b {
        LinesOrdered(lines, a, b);
      } else if b < a {
        LinesOrdered(lines, b, a);
      }
    }
  }

  /** Every slot index below the total number of prizes falls in exactly one line of the layout. */
  lemma LayoutTilesSlots(lines: seq<Line>, totalPrizes: int, consolationCount: int, boxes: int, p: int)
    requires Layout(lines, totalPrizes, consolationCount, boxes)
    requires 0 <= p < totalPrizes
    ensures exists k | 0 <= k < |lines| :: Holds(lines[k], p)
    ensures forall a, b | 0 <= a < |lines| && 0 <= b < |lines| && Holds(lines[a], p) && Holds(lines[b], p) :: a == b
  {
    var rem := FirstLineCount(consolationCount, boxes);
    forall k | 0 <= k < |lines| ensures lines[k].count > 0 {
      if rem > 0 && k == 0 {
      }
    }
    LinesTile(lines, p);
  }

  /** The main slots after c main presses: the top c show their numbers, the rest are still blank. */
  predicate MainSlotsShown(box: seq<string>, main: seq<string>, c: nat)
    requires |main| <= |box|
  {
    forall i | 0 <= i < |main| :: box[i] == if i >= |main| - c then main[i] else ""
  }

  /** One more main press reveals the highest blank slot and leaves the consolation slots alone. */
  lemma RevealNextMain(box: seq<string>, main: seq<string>, cons: seq<string>, c: nat)
    requires |box| == |main| + |cons| && c < |main|
    requires box[|main|..] == cons && MainSlotsShown(box, main, c)
    ensures var next := box[|main| - c - 1 := main[|main| - c - 1]];
      |next| == |box| && next[|main|..] == cons && MainSlotsShown(next, main, c + 1)
  {
    var next := box[|main| - c - 1 := main[|main| - c - 1]];
    assert next[|main|..] == box[|main|..];
  }

  /** The draw screen: the slots, the two phase flags and counters, the label and the layout. */
  class DrawScreen {
    const session: Session
    const totalMain: nat
    const totalConsolations: nat
    const final: FinalNumbers
    var box: seq<string>
    var currentPrizeIndex: int
    var countMainFilled: nat
    var isConsolationFilled: bool
    var isCompletelyFilled: bool
    var lines: seq<Line>
    /** How many times this screen has committed the draw to the tables. */
    ghost var commits: nat

    /**
     * Consolation slots are filled all at once and main slots from the highest index down;
     * the label counts down; the draw is committed exactly when the last main slot is filled.
     */
    ghost predicate Valid()
      reads this
    {
      && |final.mainPrizeNumbers| == totalMain
      && |final.consolationPrizeNumbers| == totalConsolations
      && |box| == totalMain + totalConsolations
      && countMainFilled <= totalMain
      && (isConsolationFilled ==>
            && totalConsolations > 0
            && currentPrizeIndex == totalMain - countMainFilled
            && box[totalMain..] == final.consolationPrizeNumbers
            && MainSlotsShown(box, final.mainPrizeNumbers, countMainFilled))
      && (!isConsolationFilled ==>
            && countMainFilled == 0
            && currentPrizeIndex == totalMain + 1
            && forall i | 0 <= i < |box| :: box[i] == "")
      && (isCompletelyFilled <==> 0 < totalMain == countMainFilled)
      && commits == if isCompletelyFilled then 1 else 0
    }

    /** Mounting the screen with the stored requirements and the draw fetched for them. */
    constructor (session: Session, req: Requirements, final: FinalNumbers, screenWidth: int)
      requires req.mainPrizeCount >= 0 && req.consolationPrizeCount >= 0
      requires |final.mainPrizeNumbers| == req.mainPrizeCount
      requires |final.consolationPrizeNumbers| == req.consolationPrizeCount
      ensures Valid()
      ensures this.session == session && this.final == final
      ensures totalMain == req.mainPrizeCount && totalConsolations == req.consolationPrizeCount
      ensures !isConsolationFilled && countMainFilled == 0 && !isCompletelyFilled && commits == 0
      ensures currentPrizeIndex == req.mainPrizeCount + 1
      ensures Layout(lines, req.mainPrizeCount + req.consolationPrizeCount, req.consolationPrizeCount, NumberOfBoxes(screenWidth))
    {
      var totalPrizes := req.mainPrizeCount + req.consolationPrizeCount;
      var layout := BoxDistribution(totalPrizes, req.consolationPrizeCount, NumberOfBoxes(screenWidth));
      this.session := session;
      this.final := final;
      totalMain := req.mainPrizeCount;
      totalConsolations := req.consolationPrizeCount;
      lines := layout;
      box := seq(totalPrizes, _ => "");
      currentPrizeIndex := req.mainPrizeCount + 1;
      countMainFilled := 0;
      isConsolationFilled := false;
      isCompletelyFilled := false;
      commits := 0;
    }

    /**
     * One press of the prize button (systemProcess). Before the consolations are shown, the
     * slots are reset and every consolation slot is filled from the highest index down; with
     * no consolation prizes the phase never completes. Afterwards each press fills the next
     * main slot from the top, and the press that fills slot 0 commits the draw through
     * update-prizes and then update-coupons. Once every main slot is full, presses change nothing.
     */
    method Press(clock: seq<DateTime>)
      requires Valid()
      requires |clock| == totalMain + totalConsolations
      modifies this, session.db`prizes, session.db`coupons
      ensures session.db.requirements == old(session.db.requirements) && session.db.users == old(session.db.users)
      ensures Valid()
      ensures lines == old(lines)
      ensures !old(isConsolationFilled) ==>
        && isConsolationFilled == (totalConsolations > 0)
        && box == seq(totalMain, _ => "") + final.consolationPrizeNumbers
        && countMainFilled == 0 && !isCompletelyFilled
        && unchanged(session.db)
      ensures old(isConsolationFilled) && old(countMainFilled) < totalMain ==>
        var slot := totalMain - old(countMainFilled) - 1;
        && isConsolationFilled
        && box == old(box)[slot := final.mainPrizeNumbers[slot]]
        && countMainFilled == old(countMainFilled) + 1
        && currentPrizeIndex == old(currentPrizeIndex) - 1
        && (slot == 0 ==>
              && commits == old(commits) + 1
              && session.db.prizes == PrizesAfterUpdate(old(session.db.requirements), session.loggedInUser, old(session.db.prizes), final, clock)
              && session.db.coupons == CouponsAfterUpdate(old(session.db.requirements), old(session.db.coupons), final))
        && (slot > 0 ==> commits == old(commits) && unchanged(session.db))
      ensures old(isConsolationFilled) && old(countMainFilled) == totalMain ==>
        unchanged(this) && unchanged(session.db)
      ensures isCompletelyFilled ==> box == final.mainPrizeNumbers + final.consolationPrizeNumbers
    {
      if !isConsolationFilled {
        RevealConsolations();
      } else if countMainFilled != totalMain {
        RevealMain(clock);
      }
    }

    /** The consolation phase: reset every slot, then fill the consolation slots from the highest index down. */
    method RevealConsolations()
      requires Valid() && !isConsolationFilled
      modifies this
      ensures Valid()
      ensures isConsolationFilled == (totalConsolations > 0)
      ensures box == seq(totalMain, _ => "") + final.consolationPrizeNumbers
      ensures countMainFilled == 0 && !isCompletelyFilled && commits == old(commits) && lines == old(lines)
    {
      var totalPrizes := totalConsolations + totalMain;
      box := seq(totalPrizes, _ => "");
      for i := totalPrizes downto totalMain
        invariant |box| == totalPrizes
        invariant forall k | 0 <= k < i :: box[k] == ""
        invariant forall k | i <= k < totalPrizes :: box[k] == final.consolationPrizeNumbers[k - totalMain]
        invariant isConsolationFilled == (i == totalMain && totalConsolations > 0)
        invariant currentPrizeIndex == if isConsolationFilled then totalMain else totalMain + 1
        invariant countMainFilled == old(countMainFilled) && isCompletelyFilled == old(isCompletelyFilled)
        invariant commits == old(commits) && lines == old(lines)
      {
        var finalNumber := final.consolationPrizeNumbers[i - totalMain];
        box := box[i := finalNumber];
        if i == totalMain {
          isConsolationFilled := true;
          currentPrizeIndex := totalMain;
        }
      }
      assert box == seq(totalMain, _ => "") + final.consolationPrizeNumbers;
    }

    /** The main phase: fill the highest empty main slot; the press that fills slot 0 commits the draw. */
    method RevealMain(clock: seq<DateTime>)
      requires Valid() && isConsolationFilled && countMainFilled < totalMain
      requires |clock| == totalMain + totalConsolations
      modifies this, session.db`prizes, session.db`coupons
      ensures session.db.requirements == old(session.db.requirements) && session.db.users == old(session.db.users)
      ensures Valid()
      ensures var slot := totalMain - old(countMainFilled) - 1;
        && isConsolationFilled
        && box == old(box)[slot := final.mainPrizeNumbers[slot]]
        && countMainFilled == old(countMainFilled) + 1
        && currentPrizeIndex == old(currentPrizeIndex) - 1
        && lines == old(lines)
        && (slot == 0 ==>
              && commits == old(commits) + 1
              && session.db.prizes == PrizesAfterUpdate(old(session.db.requirements), session.loggedInUser, old(session.db.prizes), final, clock)
              && session.db.coupons == CouponsAfterUpdate(old(session.db.requirements), old(session.db.coupons), final))
        && (slot > 0 ==> commits == old(commits) && unchanged(session.db))
    {
      var slot := totalMain - countMainFilled - 1;
      RevealNextMain(box, final.mainPrizeNumbers, final.consolationPrizeNumbers, countMainFilled);
      box := box[slot := final.mainPrizeNumbers[slot]];
      if countMainFilled == totalMain - 1 {
        isCompletelyFilled := true;
        Commit(clock);
        commits := commits + 1;
      }
      countMainFilled := countMainFilled + 1;
      currentPrizeIndex := currentPrizeIndex - 1;
    }

    /** The commit of the last main press: update-prizes, then update-coupons, for this screen's draw. */
    method Commit(clock: seq<DateTime>)
      requires |clock| == |final.mainPrizeNumbers| + |final.consolationPrizeNumbers|
      modifies session.db`prizes, session.db`coupons
      ensures session.db.prizes == PrizesAfterUpdate(session.db.requirements, session.loggedInUser, old(session.db.prizes), final, clock)
      ensures session.db.coupons == CouponsAfterUpdate(session.db.requirements, old(session.db.coupons), final)
    {
      var prizesSaved := session.UpdatePrizes(final, clock);
      var couponsSaved := session.UpdateCoupons(final);
    }
  }
}
