/**
 * The main process's draw session: the module-level inventoryCouponNumbers and
 * problematicNumbers, the logged-in user, and the IPC handlers that load and check the
 * inventory, draw, and commit a draw to the prize and coupon tables.
 * Operator confirmations in message boxes are boolean inputs; the clock is a parameter.
 */
module MainProcess {
  import opened Wrappers
  import opened Text
  import opened Dates
  import opened Store
  import opened Inventory
  import opened Draw

  /** An IPC handler's reply: the value it returned, or the exception it raised. */
  datatype Reply<T> = Returned(value: T) | Threw

  /** The replies of load-from-excel. */
  datatype ExcelReply = Loaded(count: nat) | ExcelFileNotFound | EmptyWorksheet | LoadFailed | NoValidNumbers

  /** The Coupon_Numbers column of the coupon rows, in table order. */
  function CouponNumbers(rows: seq<CouponRow>): (numbers: seq<string>)
    ensures |numbers| == |rows|
    ensures forall i | 0 <= i < |rows| :: numbers[i] == rows[i].couponNumber
  {
    seq(|rows|, i requires 0 <= i < |rows| => rows[i].couponNumber)
  }

  /** `Main-Prize-${index + 1}`. */
  function MainLabel(i: nat): string
  {
    "Main-Prize-" + NatToString(i + 1)
  }

  /** `Consolation-Prize-${index + 1}`. */
  function ConsolationLabel(j: nat): string
  {
    "Consolation-Prize-" + NatToString(j + 1)
  }

  /** The first n rows update-prizes inserts for the main numbers, row i at clock[i]. */
  function MainRows(e: string, user: string, f: FinalNumbers, clock: seq<DateTime>, n: nat): seq<PrizeRow>
    requires n <= |f.mainPrizeNumbers| && n <= |clock|
  {
    seq(n, i requires 0 <= i < n =>
      PrizeRow(e, MainLabel(i), f.mainPrizeNumbers[i], user, FormatDateTime(clock[i])))
  }

  /** The first n rows update-prizes inserts for the consolation numbers, after the main rows. */
  function ConsolationRows(e: string, user: string, f: FinalNumbers, clock: seq<DateTime>, n: nat): seq<PrizeRow>
    requires n <= |f.consolationPrizeNumbers| && |f.mainPrizeNumbers| + n <= |clock|
  {
    seq(n, j requires 0 <= j < n =>
      PrizeRow(e, ConsolationLabel(j), f.consolationPrizeNumbers[j], user,
        FormatDateTime(clock[|f.mainPrizeNumbers| + j])))
  }

  /** All rows one commit appends: Main-Prize-1..n, then Consolation-Prize-1..m. */
  function PrizeRows(e: string, user: string, f: FinalNumbers, clock: seq<DateTime>): seq<PrizeRow>
    requires |clock| == |f.mainPrizeNumbers| + |f.consolationPrizeNumbers|
  {
    MainRows(e, user, f, clock, |f.mainPrizeNumbers|)
      + ConsolationRows(e, user, f, clock, |f.consolationPrizeNumbers|)
  }

  lemma MainRowsStep(e: string, user: string, f: FinalNumbers, clock: seq<DateTime>, i: nat)
    requires i < |f.mainPrizeNumbers| && i < |clock|
    ensures MainRows(e, user, f, clock, i + 1)
      == MainRows(e, user, f, clock, i) + [PrizeRow(e, MainLabel(i), f.mainPrizeNumbers[i], user, FormatDateTime(clock[i]))]
  {
  }

  lemma ConsolationRowsStep(e: string, user: string, f: FinalNumbers, clock: seq<DateTime>, j: nat)
    requires j < |f.consolationPrizeNumbers| && |f.mainPrizeNumbers| + j < |clock|
    ensures ConsolationRows(e, user, f, clock, j + 1)
      == ConsolationRows(e, user, f, clock, j)
         + [PrizeRow(e, ConsolationLabel(j), f.consolationPrizeNumbers[j], user, FormatDateTime(clock[|f.mainPrizeNumbers| + j]))]
  {
  }

  /** The prize table after the supersede step: the event's rows deleted when the event is already recorded. */
  function Superseded(prizes: seq<PrizeRow>, e: string): seq<PrizeRow>
  {
    if exists j | 0 <= j < |prizes| :: prizes[j].eventName == e then WithoutEvent(prizes, e) else prizes
  }

  /** The prize table after a complete update-prizes. */
  function CommitPrizes(prizes: seq<PrizeRow>, e: string, user: string, f: FinalNumbers, clock: seq<DateTime>): seq<PrizeRow>
    requires |clock| == |f.mainPrizeNumbers| + |f.consolationPrizeNumbers|
  {
    Superseded(prizes, e) + PrizeRows(e, user, f, clock)
  }

  /** The prize table after update-prizes, by whether requirements and a logged-in user exist. */
  function PrizesAfterUpdate(requirements: seq<Requirements>, user: Option<string>, prizes: seq<PrizeRow>, f: FinalNumbers, clock: seq<DateTime>): seq<PrizeRow>
    requires |clock| == |f.mainPrizeNumbers| + |f.consolationPrizeNumbers|
  {
    if |requirements| == 0 then prizes
    else if user.None? then Superseded(prizes, requirements[0].eventName)
    else CommitPrizes(prizes, requirements[0].eventName, user.value, f, clock)
  }

  /** The coupon table after update-coupons: unchanged without requirements, otherwise every rank stamped. */
  function CouponsAfterUpdate(requirements: seq<Requirements>, coupons: seq<CouponRow>, f: FinalNumbers): seq<CouponRow>
  {
    if |requirements| == 0 then coupons
    else ApplyStamps(coupons, CouponStamps(f, requirements[0].totalDigits, requirements[0].mainPrizeCount))
  }

  /** The updateCoupons calls of update-coupons, in order: main i gets rank i + 1, every consolation main_prize_count + 1. */
  function CouponStamps(f: FinalNumbers, width: int, mainCount: int): seq<(string, int)>
  {
    seq(|f.mainPrizeNumbers|, i requires 0 <= i < |f.mainPrizeNumbers| =>
      (PadStart(f.mainPrizeNumbers[i], width), i + 1))
    + seq(|f.consolationPrizeNumbers|, j requires 0 <= j < |f.consolationPrizeNumbers| =>
      (PadStart(f.consolationPrizeNumbers[j], width), mainCount + 1))
  }

  /** The coupon table after running the given updateCoupons calls in order. */
  function ApplyStamps(rows: seq<CouponRow>, stamps: seq<(string, int)>): (out: seq<CouponRow>)
    ensures |out| == |rows|
    ensures forall k | 0 <= k < |rows| :: out[k].couponNumber == rows[k].couponNumber
    decreases |stamps|
  {
    if stamps == [] then rows
    else
      var last := stamps[|stamps| - 1];
      StampRows(ApplyStamps(rows, stamps[..|stamps| - 1]), last.0, last.1)
  }

  class Session {
    const db: Controller
    var inventory: seq<string>
    var problematic: seq<string>
    var loggedInUser: Option<string>

    /** Start-up: empty module-level lists; the user is whoever login-user accepted, if anyone. */
    constructor (db: Controller, loggedInUser: Option<string>)
      ensures this.db == db && this.loggedInUser == loggedInUser
      ensures inventory == [] && problematic == []
    {
      this.db := db;
      this.loggedInUser := loggedInUser;
      inventory := [];
      problematic := [];
    }

    /**
     * load-coupon-inventory. Without requirements: false. With prize ranks in the coupon table:
     * false unless the operator confirms, and then the table is cleared (after which the
     * inventory is empty, so the load still fails). Otherwise the coupon numbers become the
     * inventory, before the filter runs; the load succeeds exactly when there is at least one
     * and none is problematic.
     */
    method LoadCouponInventory(confirmClear: bool) returns (ok: bool)
      modifies this`inventory, this`problematic, db`coupons
      ensures |db.requirements| == 0 ==>
        !ok && problematic == [] && inventory == old(inventory) && db.coupons == old(db.coupons)
      ensures |db.requirements| > 0 && !AllClear(old(db.coupons)) ==>
        !ok && problematic == [] && inventory == old(inventory)
        && db.coupons == (if confirmClear then [] else old(db.coupons))
      ensures |db.requirements| > 0 && AllClear(old(db.coupons)) ==>
        db.coupons == old(db.coupons)
        && if |db.coupons| == 0 then
             !ok && problematic == [] && inventory == old(inventory)
           else
             inventory == CouponNumbers(db.coupons)
             && problematic == InvalidCoupons(inventory, db.requirements[0])
             && (ok <==> problematic == [])
    {
      problematic := [];
      var req := db.GetRequirements();
      if req.None? {
        return false;
      }
      var clear := db.CheckPrizeNumbersAlongCoupons();
      if !clear {
        if !confirmClear {
          return false;
        }
        db.ClearCoupons();
      }
      var numbers := db.GetCoupons();
      if |numbers| == 0 {
        return false;
      }
      inventory := numbers;
      var invalid := InvalidCoupons(inventory, req.value);
      if |invalid| > 0 {
        problematic := invalid;
        return false;
      }
      return true;
    }

    /**
     * is-navigation-allowed. An empty coupon table refuses. With no prize ranks in the table,
     * navigation is allowed exactly when the prizes fit the cached inventory's length (and a
     * missing requirements row makes the handler throw). With prize ranks present, the answer
     * is the operator's: on yes the coupon table is cleared and navigation allowed without any
     * sufficiency check.
     */
    method IsNavigationAllowed(confirmClear: bool) returns (r: Reply<bool>)
      modifies db`coupons
      ensures |old(db.coupons)| == 0 ==> r == Returned(false) && db.coupons == old(db.coupons)
      ensures |old(db.coupons)| > 0 && AllClear(old(db.coupons)) ==>
        db.coupons == old(db.coupons)
        && r == if |db.requirements| == 0 then Threw else Returned(Sufficient(db.requirements[0], |inventory|))
      ensures |old(db.coupons)| > 0 && !AllClear(old(db.coupons)) ==>
        r == Returned(confirmClear) && db.coupons == (if confirmClear then [] else old(db.coupons))
    {
      var req := db.GetRequirements();
      var clear := db.CheckPrizeNumbersAlongCoupons();
      var numbers := db.GetCoupons();
      if |numbers| == 0 {
        return Returned(false);
      }
      if clear {
        if req.None? {
          return Threw;
        }
        return Returned(Sufficient(req.value, |inventory|));
      }
      if confirmClear {
        db.ClearCoupons();
        return Returned(true);
      }
      return Returned(false);
    }

    /** coupon-count: 0 while any problematic number is recorded, otherwise the inventory length. */
    method CouponCount() returns (n: nat)
      ensures problematic != [] ==> n == 0
      ensures problematic == [] ==> n == |inventory|
    {
      n := if |problematic| > 0 then 0 else |inventory|;
    }

    /**
     * get-final-numbers: the draw over the cached inventory with the stored requirements;
     * without a requirements row reading main_prize_count throws.
     */
    method GenerateFinalNumbers(picks: seq<nat>) returns (r: Reply<DrawOutcome>)
      requires forall k | 0 <= k < |picks| :: picks[k] < |inventory|
      ensures r.Threw? <==> |db.requirements| == 0
      ensures r.Returned? ==>
        var req := db.requirements[0];
        && (r.value.EmptyInventory? <==>
              |inventory| == 0 && (req.mainPrizeCount > 0 || req.consolationPrizeCount > 0))
        && (r.value.Drawn? ==>
              WellFormedDraw(r.value.numbers, inventory, req.totalDigits, req.mainPrizeCount, req.consolationPrizeCount))
    {
      var req := db.GetRequirements();
      if req.None? {
        return Threw;
      }
      var outcome := Select(inventory, req.value.totalDigits, req.value.mainPrizeCount,
        req.value.consolationPrizeCount, picks);
      return Returned(outcome);
    }

    /**
     * update-prizes: delete the event's earlier rows if the event is recorded, then append
     * Main-Prize-i and Consolation-Prize-j rows in order. Without a requirements row nothing
     * changes; without a logged-in user the first insert throws after the delete.
     */
    method UpdatePrizes(f: FinalNumbers, clock: seq<DateTime>) returns (ok: bool)
      requires |clock| == |f.mainPrizeNumbers| + |f.consolationPrizeNumbers|
      modifies db`prizes
      ensures |db.requirements| == 0 ==> !ok && db.prizes == old(db.prizes)
      ensures |db.requirements| > 0 && loggedInUser.Some? ==>
        ok && db.prizes == CommitPrizes(old(db.prizes), db.requirements[0].eventName, loggedInUser.value, f, clock)
      ensures |db.requirements| > 0 && loggedInUser.None? ==>
        (ok <==> |f.mainPrizeNumbers| + |f.consolationPrizeNumbers| == 0)
        && db.prizes == Superseded(old(db.prizes), db.requirements[0].eventName)
      ensures db.prizes == PrizesAfterUpdate(db.requirements, loggedInUser, old(db.prizes), f, clock)
    {
      var req := db.GetRequirements();
      var recorded := db.GetLastRecordedEventNames();
      if req.None? {
        return false;
      }
      var e := req.value.eventName;
      if e in recorded {
        db.ClearPrizesForEventName(e);
      }
      if loggedInUser.None? {
        return |f.mainPrizeNumbers| + |f.consolationPrizeNumbers| == 0;
      }
      InsertDraw(loggedInUser.value, e, f, clock);
      return true;
    }

    /** The two insert loops of update-prizes: one insertFinalNumbers call per drawn number, in order. */
    method InsertDraw(user: string, e: string, f: FinalNumbers, clock: seq<DateTime>)
      requires |clock| == |f.mainPrizeNumbers| + |f.consolationPrizeNumbers|
      modifies db`prizes
      ensures db.prizes == old(db.prizes) + PrizeRows(e, user, f, clock)
    {
      ghost var start := db.prizes;
      var m := |f.mainPrizeNumbers|;
      var i := 0;
      while i < m
        invariant 0 <= i <= m
        invariant db.prizes == start + MainRows(e, user, f, clock, i)
      {
        var row := PrizeRow(e, MainLabel(i), f.mainPrizeNumbers[i], user, FormatDateTime(clock[i]));
        MainRowsStep(e, user, f, clock, i);
        assert start + MainRows(e, user, f, clock, i + 1) == start + MainRows(e, user, f, clock, i) + [row];
        db.InsertFinalNumbers(user, e, MainLabel(i), f.mainPrizeNumbers[i], clock[i]);
        i := i + 1;
      }
      ghost var mid := db.prizes;
      var j := 0;
      while j < |f.consolationPrizeNumbers|
        invariant 0 <= j <= |f.consolationPrizeNumbers|
        invariant db.prizes == mid + ConsolationRows(e, user, f, clock, j)
      {
        var row := PrizeRow(e, ConsolationLabel(j), f.consolationPrizeNumbers[j], user, FormatDateTime(clock[m + j]));
        ConsolationRowsStep(e, user, f, clock, j);
        assert mid + ConsolationRows(e, user, f, clock, j + 1) == mid + ConsolationRows(e, user, f, clock, j) + [row];
        db.InsertFinalNumbers(user, e, ConsolationLabel(j), f.consolationPrizeNumbers[j], clock[m + j]);
        j := j + 1;
      }
      assert start + PrizeRows(e, user, f, clock) == mid + ConsolationRows(e, user, f, clock, j);
    }

    /**
     * update-coupons: for main i, rank i + 1 on the rows holding its padded number; then rank
     * main_prize_count + 1 for every consolation number. Without a requirements row the first
     * call throws, so nothing changes.
     */
    method UpdateCoupons(f: FinalNumbers) returns (ok: bool)
      modifies db`coupons
      ensures |db.requirements| == 0 ==>
        (ok <==> |f.mainPrizeNumbers| + |f.consolationPrizeNumbers| == 0) && db.coupons == old(db.coupons)
      ensures |db.requirements| > 0 ==>
        ok && db.coupons == ApplyStamps(old(db.coupons),
          CouponStamps(f, db.requirements[0].totalDigits, db.requirements[0].mainPrizeCount))
      ensures db.coupons == CouponsAfterUpdate(db.requirements, old(db.coupons), f)
    {
      var req := db.GetRequirements();
      if req.None? {
        return |f.mainPrizeNumbers| + |f.consolationPrizeNumbers| == 0;
      }
      StampDraw(f, req.value.totalDigits, req.value.mainPrizeCount);
      return true;
    }

    /** The two stamping loops of update-coupons: one updateCoupons call per drawn number, in order. */
    method StampDraw(f: FinalNumbers, width: int, mainCount: int)
      modifies db`coupons
      ensures db.coupons == ApplyStamps(old(db.coupons), CouponStamps(f, width, mainCount))
    {
      ghost var start := db.coupons;
      ghost var stamps := CouponStamps(f, width, mainCount);
      var m := |f.mainPrizeNumbers|;
      var i := 0;
      while i < m
        invariant 0 <= i <= m
        invariant db.coupons == ApplyStamps(start, stamps[..i])
      {
        var padded := PadStart(f.mainPrizeNumbers[i], width);
        MainStampAt(f, width, mainCount, i);
        ApplyStampsStep(start, stamps, i, padded, i + 1);
        db.UpdateCoupons(padded, i + 1);
        i := i + 1;
      }
      var j := 0;
      while j < |f.consolationPrizeNumbers|
        invariant 0 <= j <= |f.consolationPrizeNumbers|
        invariant db.coupons == ApplyStamps(start, stamps[..m + j])
      {
        var padded := PadStart(f.consolationPrizeNumbers[j], width);
        ConsolationStampAt(f, width, mainCount, j);
        ApplyStampsStep(start, stamps, m + j, padded, mainCount + 1);
        db.UpdateCoupons(padded, mainCount + 1);
        j := j + 1;
      }
      StampsLength(f, width, mainCount);
      assert stamps[..m + j] == stamps;
    }

    /**
     * load-from-excel, with the padding width read from the requirements row (see
     * LoadedNumbersAsWritten for the code as written). The workbook is the first-column cell
     * of each non-empty row, header first; None when the file does not exist.
     */
    method LoadFromExcel(workbook: Option<seq<Option<string>>>) returns (r: ExcelReply)
      modifies db`coupons
      ensures workbook.None? ==> r == ExcelFileNotFound && db.coupons == old(db.coupons)
      ensures workbook.Some? && |workbook.value| <= 1 ==> r == EmptyWorksheet && db.coupons == old(db.coupons)
      ensures workbook.Some? && |workbook.value| > 1 && |db.requirements| == 0 ==>
        db.coupons == old(db.coupons)
        && r == if exists i | 1 <= i < |workbook.value| :: workbook.value[i].Some? then LoadFailed else NoValidNumbers
      ensures workbook.Some? && |workbook.value| > 1 && |db.requirements| > 0 ==>
        var numbers := LoadedNumbers(workbook.value[1..], db.requirements[0].totalDigits);
        if |numbers| == 0 then r == NoValidNumbers && db.coupons == old(db.coupons)
        else r == Loaded(|numbers|) && db.coupons == FreshCoupons(numbers)
    {
      if workbook.None? {
        return ExcelFileNotFound;
      }
      var rows := workbook.value;
      if |rows| <= 1 {
        return EmptyWorksheet;
      }
      var req := db.GetRequirements();
      var cells := rows[1..];
      if req.None? {
        var anyCell := exists i | 0 <= i < |cells| :: cells[i].Some?;
        assert anyCell <==> exists i | 1 <= i < |rows| :: rows[i].Some? by {
          if anyCell {
            var i :| 0 <= i < |cells| && cells[i].Some?;
            assert rows[i + 1] == cells[i];
          }
        }
        return if anyCell then LoadFailed else NoValidNumbers;
      }
      var numbers := LoadedNumbers(cells, req.value.totalDigits);
      if |numbers| == 0 {
        return NoValidNumbers;
      }
      db.InsertCoupons(numbers);
      return Loaded(|numbers|);
    }
  }

  // ---------------------------------------------------------------------------------------
  // Properties of the commit path

  /** The supersede step is the delete of the event's rows whether or not the event was recorded. */
  lemma SupersededIsWithoutEvent(prizes: seq<PrizeRow>, e: string)
    ensures Superseded(prizes, e) == WithoutEvent(prizes, e)
  {
    if !exists j | 0 <= j < |prizes| :: prizes[j].eventName == e {
      WithoutAbsentEvent(prizes, e);
    }
  }

  /** Every row one commit appends carries the committed event's name. */
  lemma PrizeRowsOfEvent(e: string, user: string, f: FinalNumbers, clock: seq<DateTime>)
    requires |clock| == |f.mainPrizeNumbers| + |f.consolationPrizeNumbers|
    ensures forall j | 0 <= j < |PrizeRows(e, user, f, clock)| :: PrizeRows(e, user, f, clock)[j].eventName == e
  {
  }

  /**
   * After a commit the event's rows are exactly this draw's rows (Main-Prize-1..n, then
   * Consolation-Prize-1..m, in order), never a union with an earlier draw; every other
   * event's rows are untouched.
   */
  lemma CommitReplacesEventRows(prizes: seq<PrizeRow>, e: string, other: string, user: string, f: FinalNumbers, clock: seq<DateTime>)
    requires |clock| == |f.mainPrizeNumbers| + |f.consolationPrizeNumbers|
    ensures RowsFor(CommitPrizes(prizes, e, user, f, clock), e) == PrizeRows(e, user, f, clock)
    ensures other != e ==> RowsFor(CommitPrizes(prizes, e, user, f, clock), other) == RowsFor(prizes, other)
  {
    var rows := PrizeRows(e, user, f, clock);
    SupersededIsWithoutEvent(prizes, e);
    PrizeRowsOfEvent(e, user, f, clock);
    RowsForAppend(WithoutEvent(prizes, e), rows, e);
    RowsForAppend(WithoutEvent(prizes, e), rows, other);
    WithoutEventRowsFor(prizes, e, other);
    RowsForUniform(rows, e, other);
  }

  /** Two commits for the same event leave only the second draw's rows for it. */
  lemma SecondCommitSupersedesFirst(
    prizes: seq<PrizeRow>, e: string,
    user1: string, f1: FinalNumbers, clock1: seq<DateTime>,
    user2: string, f2: FinalNumbers, clock2: seq<DateTime>)
    requires |clock1| == |f1.mainPrizeNumbers| + |f1.consolationPrizeNumbers|
    requires |clock2| == |f2.mainPrizeNumbers| + |f2.consolationPrizeNumbers|
    ensures RowsFor(CommitPrizes(CommitPrizes(prizes, e, user1, f1, clock1), e, user2, f2, clock2), e)
      == PrizeRows(e, user2, f2, clock2)
  {
    CommitReplacesEventRows(CommitPrizes(prizes, e, user1, f1, clock1), e, e, user2, f2, clock2);
  }

  /** The labels of one commit are pairwise different: Main-Prize-1..n and Consolation-Prize-1..m. */
  lemma PrizeLabelsDistinct(e: string, user: string, f: FinalNumbers, clock: seq<DateTime>)
    requires |clock| == |f.mainPrizeNumbers| + |f.consolationPrizeNumbers|
    ensures var rows := PrizeRows(e, user, f, clock);
      |rows| == |f.mainPrizeNumbers| + |f.consolationPrizeNumbers|
      && (forall i | 0 <= i < |f.mainPrizeNumbers| ::
            rows[i].prizeTypeInfo == MainLabel(i) && rows[i].couponNumber == f.mainPrizeNumbers[i])
      && (forall j | 0 <= j < |f.consolationPrizeNumbers| ::
            rows[|f.mainPrizeNumbers| + j].prizeTypeInfo == ConsolationLabel(j)
            && rows[|f.mainPrizeNumbers| + j].couponNumber == f.consolationPrizeNumbers[j])
      && (forall a, b | 0 <= a < b < |rows| :: rows[a].prizeTypeInfo != rows[b].prizeTypeInfo)
  {
    var rows := PrizeRows(e, user, f, clock);
    var m := |f.mainPrizeNumbers|;
    PrizeRowsShape(e, user, f, clock);
    forall t | m <= t < |rows| ensures rows[t].prizeTypeInfo == ConsolationLabel(t - m) {
      assert rows[m + (t - m)].prizeTypeInfo == ConsolationLabel(t - m);
    }
    LabelsDistinct(rows, m);
  }

  /** Rows labelled Main-Prize-1..m and then Consolation-Prize-1.. carry no label twice. */
  lemma LabelsDistinct(rows: seq<PrizeRow>, m: nat)
    requires m <= |rows|
    requires forall t | 0 <= t < m :: rows[t].prizeTypeInfo == MainLabel(t)
    requires forall t | m <= t < |rows| :: rows[t].prizeTypeInfo == ConsolationLabel(t - m)
    ensures forall a, b | 0 <= a < b < |rows| :: rows[a].prizeTypeInfo != rows[b].prizeTypeInfo
  {
    forall a, b | 0 <= a < b < |rows| ensures rows[a].prizeTypeInfo != rows[b].prizeTypeInfo {
      if b < m {
        LabelNumbersDiffer("Main-Prize-", a, b);
      } else if a >= m {
        LabelNumbersDiffer("Consolation-Prize-", a - m, b - m);
      } else {
        MainIsNotConsolation(a, b - m);
      }
    }
  }

  /** The main rows, then the consolation rows, each with its label and number. */
  lemma PrizeRowsShape(e: string, user: string, f: FinalNumbers, clock: seq<DateTime>)
    requires |clock| == |f.mainPrizeNumbers| + |f.consolationPrizeNumbers|
    ensures var rows := PrizeRows(e, user, f, clock);
      |rows| == |f.mainPrizeNumbers| + |f.consolationPrizeNumbers|
      && (forall i | 0 <= i < |f.mainPrizeNumbers| ::
            rows[i].prizeTypeInfo == MainLabel(i) && rows[i].couponNumber == f.mainPrizeNumbers[i])
      && (forall j | 0 <= j < |f.consolationPrizeNumbers| ::
            rows[|f.mainPrizeNumbers| + j].prizeTypeInfo == ConsolationLabel(j)
            && rows[|f.mainPrizeNumbers| + j].couponNumber == f.consolationPrizeNumbers[j])
  {
  }

  /** A Main-Prize label is never a Consolation-Prize label: they differ in the first character. */
  lemma MainIsNotConsolation(i: nat, j: nat)
    ensures MainLabel(i) != ConsolationLabel(j)
  {
    assert MainLabel(i)[0] == 'M';
    assert ConsolationLabel(j)[0] == 'C';
  }

  lemma LabelNumbersDiffer(prefix: string, a: nat, b: nat)
    requires a != b
    ensures prefix + NatToString(a + 1) != prefix + NatToString(b + 1)
  {
    if prefix + NatToString(a + 1) == prefix + NatToString(b + 1) {
      assert (prefix + NatToString(a + 1))[|prefix|..] == NatToString(a + 1);
      assert (prefix + NatToString(b + 1))[|prefix|..] == NatToString(b + 1);
      DecimalValueOfNatToString(a + 1);
      DecimalValueOfNatToString(b + 1);
    }
  }

  lemma ApplyStampsStep(rows: seq<CouponRow>, stamps: seq<(string, int)>, i: nat, key: string, rank: int)
    requires i < |stamps| && stamps[i] == (key, rank)
    ensures ApplyStamps(rows, stamps[..i + 1]) == StampRows(ApplyStamps(rows, stamps[..i]), key, rank)
  {
    assert stamps[..i + 1][..i] == stamps[..i];
  }

  /** With pairwise different numbers, each row ends with the rank of the one stamp naming it, if any. */
  lemma {:induction false} ApplyStampsAt(rows: seq<CouponRow>, stamps: seq<(string, int)>, k: nat)
    requires forall a, b | 0 <= a < b < |stamps| :: stamps[a].0 != stamps[b].0
    requires k < |rows|
    ensures forall t | 0 <= t < |stamps| :: rows[k].couponNumber == stamps[t].0 ==>
      ApplyStamps(rows, stamps)[k] == CouponRow(stamps[t].0, Some(stamps[t].1))
    ensures (forall t | 0 <= t < |stamps| :: rows[k].couponNumber != stamps[t].0) ==>
      ApplyStamps(rows, stamps)[k] == rows[k]
  {
    if stamps != [] {
      var n := |stamps| - 1;
      var init := stamps[..n];
      ApplyStampsAt(rows, init, k);
      forall t | 0 <= t < n ensures init[t] == stamps[t] { }
    }
  }

  /** One stamp per drawn number. */
  lemma StampsLength(f: FinalNumbers, width: int, mainCount: int)
    ensures |CouponStamps(f, width, mainCount)| == |f.mainPrizeNumbers| + |f.consolationPrizeNumbers|
  {
  }

  /** The i-th stamp is main number i, padded, with rank i + 1. */
  lemma MainStampAt(f: FinalNumbers, width: int, mainCount: int, i: nat)
    requires i < |f.mainPrizeNumbers|
    ensures |CouponStamps(f, width, mainCount)| == |f.mainPrizeNumbers| + |f.consolationPrizeNumbers|
    ensures CouponStamps(f, width, mainCount)[i] == (PadStart(f.mainPrizeNumbers[i], width), i + 1)
  {
  }

  /** The stamp after the main ones at offset j is consolation number j, padded, with rank main_prize_count + 1. */
  lemma ConsolationStampAt(f: FinalNumbers, width: int, mainCount: int, j: nat)
    requires j < |f.consolationPrizeNumbers|
    ensures |CouponStamps(f, width, mainCount)| == |f.mainPrizeNumbers| + |f.consolationPrizeNumbers|
    ensures CouponStamps(f, width, mainCount)[|f.mainPrizeNumbers| + j] ==
      (PadStart(f.consolationPrizeNumbers[j], width), mainCount + 1)
  {
  }

  /** The stamp list lays out the main numbers with ranks 1..n, then the consolation numbers with rank main_prize_count + 1. */
  lemma CouponStampsShape(f: FinalNumbers, width: int, mainCount: int)
    ensures var stamps := CouponStamps(f, width, mainCount);
      && |stamps| == |f.mainPrizeNumbers| + |f.consolationPrizeNumbers|
      && (forall i | 0 <= i < |f.mainPrizeNumbers| :: stamps[i] == (PadStart(f.mainPrizeNumbers[i], width), i + 1))
      && (forall j | 0 <= j < |f.consolationPrizeNumbers| ::
            stamps[|f.mainPrizeNumbers| + j] == (PadStart(f.consolationPrizeNumbers[j], width), mainCount + 1))
  {
  }

  /** For a draw whose numbers are already padded, the stamps carry the drawn numbers themselves. */
  lemma PaddedStamps(f: FinalNumbers, width: int, mainCount: int)
    requires forall x | x in f.mainPrizeNumbers + f.consolationPrizeNumbers :: PadStart(x, width) == x
    ensures var stamps := CouponStamps(f, width, mainCount);
      && |stamps| == |f.mainPrizeNumbers| + |f.consolationPrizeNumbers|
      && (forall i | 0 <= i < |f.mainPrizeNumbers| :: stamps[i] == (f.mainPrizeNumbers[i], i + 1))
      && (forall j | 0 <= j < |f.consolationPrizeNumbers| ::
            stamps[|f.mainPrizeNumbers| + j] == (f.consolationPrizeNumbers[j], mainCount + 1))
  {
    var all := f.mainPrizeNumbers + f.consolationPrizeNumbers;
    var m := |f.mainPrizeNumbers|;
    CouponStampsShape(f, width, mainCount);
    forall i | 0 <= i < m ensures PadStart(f.mainPrizeNumbers[i], width) == f.mainPrizeNumbers[i] {
      assert all[i] in all;
    }
    forall j | 0 <= j < |f.consolationPrizeNumbers|
      ensures PadStart(f.consolationPrizeNumbers[j], width) == f.consolationPrizeNumbers[j]
    {
      assert all[m + j] in all;
    }
  }

  /** The stamp keys, in order, are the main numbers followed by the consolation numbers. */
  lemma StampKeys(f: FinalNumbers, width: int, mainCount: int)
    requires forall x | x in f.mainPrizeNumbers + f.consolationPrizeNumbers :: PadStart(x, width) == x
    ensures var stamps := CouponStamps(f, width, mainCount);
      var all := f.mainPrizeNumbers + f.consolationPrizeNumbers;
      |stamps| == |all| && forall t | 0 <= t < |stamps| :: stamps[t].0 == all[t]
  {
    var stamps := CouponStamps(f, width, mainCount);
    var m := |f.mainPrizeNumbers|;
    PaddedStamps(f, width, mainCount);
    forall t | m <= t < |stamps| ensures stamps[t].0 == f.consolationPrizeNumbers[t - m] {
      assert stamps[m + (t - m)].0 == f.consolationPrizeNumbers[t - m];
    }
  }

  /** A distinct draw has no number twice across the two lists. */
  lemma DistinctDrawNumbers(f: FinalNumbers)
    requires DistinctDraw(f)
    ensures Distinct(f.mainPrizeNumbers + f.consolationPrizeNumbers)
  {
    var all := f.mainPrizeNumbers + f.consolationPrizeNumbers;
    var m := |f.mainPrizeNumbers|;
    forall a, b | 0 <= a < b < |all| ensures all[a] != all[b] {
      if b < m {
      } else if a >= m {
        assert all[a] == f.consolationPrizeNumbers[a - m] && all[b] == f.consolationPrizeNumbers[b - m];
      } else {
        assert all[b] == f.consolationPrizeNumbers[b - m];
      }
    }
  }

  /** Stamps keyed by pairwise different numbers, given as main numbers then consolation numbers. */
  lemma StampKeysDiffer(stamps: seq<(string, int)>, main: seq<string>, cons: seq<string>, mainCount: int)
    requires |stamps| == |main| + |cons|
    requires forall i | 0 <= i < |main| :: stamps[i] == (main[i], i + 1)
    requires forall j | 0 <= j < |cons| :: stamps[|main| + j] == (cons[j], mainCount + 1)
    requires Distinct(main + cons)
    ensures forall t | 0 <= t < |stamps| :: stamps[t].0 == (main + cons)[t]
    ensures forall a, b | 0 <= a < b < |stamps| :: stamps[a].0 != stamps[b].0
  {
    var all := main + cons;
    forall t | 0 <= t < |stamps| ensures stamps[t].0 == all[t] {
      if t >= |main| {
        assert stamps[|main| + (t - |main|)].0 == cons[t - |main|];
      }
    }
  }

  /** The ranks a row ends with, for any stamp list laid out as update-coupons lays it out. */
  lemma RanksFromStamps(rows: seq<CouponRow>, stamps: seq<(string, int)>, main: seq<string>, cons: seq<string>, mainCount: int, k: nat)
    requires |stamps| == |main| + |cons|
    requires forall i | 0 <= i < |main| :: stamps[i] == (main[i], i + 1)
    requires forall j | 0 <= j < |cons| :: stamps[|main| + j] == (cons[j], mainCount + 1)
    requires Distinct(main + cons)
    requires k < |rows|
    ensures var out := ApplyStamps(rows, stamps);
      && (forall i | 0 <= i < |main| ::
            rows[k].couponNumber == main[i] ==> out[k] == CouponRow(rows[k].couponNumber, Some(i + 1)))
      && (forall j | 0 <= j < |cons| ::
            rows[k].couponNumber == cons[j] ==> out[k] == CouponRow(rows[k].couponNumber, Some(mainCount + 1)))
      && (rows[k].couponNumber !in main + cons ==> out[k] == rows[k])
  {
    var all := main + cons;
    var out := ApplyStamps(rows, stamps);
    StampKeysDiffer(stamps, main, cons, mainCount);
    ApplyStampsAt(rows, stamps, k);
    forall i | 0 <= i < |main| && rows[k].couponNumber == main[i]
      ensures out[k] == CouponRow(rows[k].couponNumber, Some(i + 1))
    {
      assert stamps[i].0 == main[i];
    }
    forall j | 0 <= j < |cons| && rows[k].couponNumber == cons[j]
      ensures out[k] == CouponRow(rows[k].couponNumber, Some(mainCount + 1))
    {
      assert stamps[|main| + j] == (cons[j], mainCount + 1);
    }
    if rows[k].couponNumber !in all {
      forall t | 0 <= t < |stamps| ensures rows[k].couponNumber != stamps[t].0 {
        assert all[t] in all;
      }
    }
  }

  /**
   * After update-coupons for a draw whose numbers are distinct, disjoint and already padded,
   * a coupon row holding main number i has rank i + 1, one holding a consolation number has
   * rank main_prize_count + 1, and every other row is as it was.
   */
  lemma StampedRanks(rows: seq<CouponRow>, f: FinalNumbers, width: int, mainCount: int, k: nat)
    requires DistinctDraw(f)
    requires forall x | x in f.mainPrizeNumbers + f.consolationPrizeNumbers :: PadStart(x, width) == x
    requires k < |rows|
    ensures var out := ApplyStamps(rows, CouponStamps(f, width, mainCount));
      && (forall i | 0 <= i < |f.mainPrizeNumbers| ::
            rows[k].couponNumber == f.mainPrizeNumbers[i] ==> out[k] == CouponRow(rows[k].couponNumber, Some(i + 1)))
      && (forall j | 0 <= j < |f.consolationPrizeNumbers| ::
            rows[k].couponNumber == f.consolationPrizeNumbers[j] ==> out[k] == CouponRow(rows[k].couponNumber, Some(mainCount + 1)))
      && (rows[k].couponNumber !in f.mainPrizeNumbers + f.consolationPrizeNumbers ==> out[k] == rows[k])
  {
    PaddedStamps(f, width, mainCount);
    DistinctDrawNumbers(f);
    RanksFromStamps(rows, CouponStamps(f, width, mainCount), f.mainPrizeNumbers, f.consolationPrizeNumbers, mainCount, k);
  }
}
