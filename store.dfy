/**
 * The persistence worker: the Controller class and its four SQLite tables (requirements,
 * coupons, prizes, registeredUsers), each held as a sequence of rows in table order.
 * Every method is the one SQL statement the worker runs.
 */
module Store {
  import opened Wrappers
  import opened Text
  import opened Dates

  /** A row of the requirements table: the active draw's configuration. */
  datatype Requirements = Requirements(
    eventName: string,
    mainPrizeCount: int,
    consolationPrizeCount: int,
    totalDigits: int,
    maxRange: int,
    minRange: int)

  /** A row of the coupons table: a coupon number and its nullable prize rank. */
  datatype CouponRow = CouponRow(couponNumber: string, prizeNumber: Option<int>)

  /** A row of the prizes table: one awarded prize of one event. */
  datatype PrizeRow = PrizeRow(
    eventName: string,
    prizeTypeInfo: string,
    couponNumber: string,
    runUserId: string,
    runDt: string)

  /** A row of the registeredUsers table. */
  datatype UserRow = UserRow(userId: string, userName: string, password: string)

  /** The rows insertCoupons writes: each number in order, with a null prize. */
  function FreshCoupons(numbers: seq<string>): (rows: seq<CouponRow>)
    ensures |rows| == |numbers|
    ensures forall i | 0 <= i < |rows| :: rows[i] == CouponRow(numbers[i], None)
  {
    seq(|numbers|, i requires 0 <= i < |numbers| => CouponRow(numbers[i], None))
  }

  /** No coupon carries a prize rank. */
  predicate AllClear(rows: seq<CouponRow>)
  {
    forall i | 0 <= i < |rows| :: rows[i].prizeNumber.None?
  }

  /** The coupon table after `update coupons set Prize_Number = p where Coupon_Numbers = n`. */
  function StampRows(rows: seq<CouponRow>, n: string, p: int): (r: seq<CouponRow>)
    ensures |r| == |rows|
    ensures forall i | 0 <= i < |r| ::
      r[i] == if rows[i].couponNumber == n then CouponRow(n, Some(p)) else rows[i]
  {
    seq(|rows|, i requires 0 <= i < |rows| =>
      if rows[i].couponNumber == n then CouponRow(n, Some(p)) else rows[i])
  }

  /** The prize rows of event e, in table order. */
  function RowsFor(rows: seq<PrizeRow>, e: string): (r: seq<PrizeRow>)
    ensures forall x :: x in r <==> x in rows && x.eventName == e
  {
    if rows == [] then []
    else
      assert forall x :: x in rows <==> x == rows[0] || x in rows[1..];
      (if rows[0].eventName == e then [rows[0]] else []) + RowsFor(rows[1..], e)
  }

  /** The prize table after `delete from prizes where Event_Name = e`: the other rows, in order. */
  function WithoutEvent(rows: seq<PrizeRow>, e: string): (r: seq<PrizeRow>)
    ensures |r| <= |rows|
    ensures forall x :: x in r <==> x in rows && x.eventName != e
  {
    if rows == [] then []
    else
      assert forall x :: x in rows <==> x == rows[0] || x in rows[1..];
      (if rows[0].eventName != e then [rows[0]] else []) + WithoutEvent(rows[1..], e)
  }

  /** The ID insertUser gives the k-th user: "IIPL-" and k padded to four digits. */
  function UserId(k: nat): string
  {
    "IIPL-" + PadStart(NatToString(k), 4)
  }

  /** The users table as insertUser alone builds it: row i has the ID of user i + 1. */
  predicate UsersNumbered(users: seq<UserRow>)
  {
    forall i | 0 <= i < |users| :: users[i].userId == UserId(i + 1)
  }

  class Controller {
    var requirements: seq<Requirements>
    var coupons: seq<CouponRow>
    var prizes: seq<PrizeRow>
    var users: seq<UserRow>

    /** Opening the database file: the tables hold whatever the file holds. */
    constructor (requirements: seq<Requirements>, coupons: seq<CouponRow>, prizes: seq<PrizeRow>, users: seq<UserRow>)
      ensures this.requirements == requirements && this.coupons == coupons
      ensures this.prizes == prizes && this.users == users
    {
      this.requirements := requirements;
      this.coupons := coupons;
      this.prizes := prizes;
      this.users := users;
    }

    /** insertRequirements: one more requirements row. */
    method InsertRequirements(r: Requirements)
      modifies this`requirements
      ensures requirements == old(requirements) + [r]
    {
      requirements := requirements + [r];
    }

    /**
     * insertUser: the ID is "IIPL-" and (row count + 1) padded to four digits; the insert
     * fails, changing nothing, when that ID is already a primary key of the table.
     */
    method InsertUser(userName: string, hash: string) returns (ok: bool, id: string)
      modifies this`users
      ensures id == UserId(|old(users)| + 1)
      ensures ok <==> forall i | 0 <= i < |old(users)| :: old(users)[i].userId != id
      ensures users == if ok then old(users) + [UserRow(id, userName, hash)] else old(users)
      ensures UsersNumbered(old(users)) ==> ok && UsersNumbered(users)
    {
      id := UserId(|users| + 1);
      ok := true;
      var i := 0;
      while i < |users|
        invariant 0 <= i <= |users|
        invariant ok <==> forall j | 0 <= j < i :: users[j].userId != id
      {
        if users[i].userId == id {
          ok := false;
        }
        i := i + 1;
      }
      if UsersNumbered(users) {
        forall j | 0 <= j < |users| ensures users[j].userId != id {
          UserIdInjective(j + 1, |users| + 1);
        }
      }
      if ok {
        users := users + [UserRow(id, userName, hash)];
      }
    }

    /** updateRequirements: every existing row is overwritten with r; no row is added. */
    method UpdateRequirements(r: Requirements)
      modifies this`requirements
      ensures |requirements| == |old(requirements)|
      ensures forall i | 0 <= i < |requirements| :: requirements[i] == r
    {
      requirements := seq(|requirements|, _ => r);
    }

    /** updateCoupons: rank p on every row numbered n; every other row unchanged. */
    method UpdateCoupons(couponNumber: string, prizeNumber: int)
      modifies this`coupons
      ensures coupons == StampRows(old(coupons), couponNumber, prizeNumber)
    {
      coupons := StampRows(coupons, couponNumber, prizeNumber);
    }

    /** insertFinalNumbers: one prize row, stamped with the time of the insert. */
    method InsertFinalNumbers(loggedInUserId: string, eventName: string, prizeInfo: string, couponNumber: string, now: DateTime)
      modifies this`prizes
      ensures prizes == old(prizes) + [PrizeRow(eventName, prizeInfo, couponNumber, loggedInUserId, FormatDateTime(now))]
    {
      prizes := prizes + [PrizeRow(eventName, prizeInfo, couponNumber, loggedInUserId, FormatDateTime(now))];
    }

    /** getRequirements: the first requirements row, or none when the table is empty. */
    method GetRequirements() returns (r: Option<Requirements>)
      ensures r.None? <==> |requirements| == 0
      ensures r.Some? ==> r.value == requirements[0]
    {
      if |requirements| == 0 {
        r := None;
      } else {
        r := Some(requirements[0]);
      }
    }

    /** getCoupons: the coupon numbers, in table order. */
    method GetCoupons() returns (numbers: seq<string>)
      ensures |numbers| == |coupons|
      ensures forall i | 0 <= i < |numbers| :: numbers[i] == coupons[i].couponNumber
    {
      numbers := seq(|coupons|, i requires 0 <= i < |coupons| reads this => coupons[i].couponNumber);
    }

    /** checkPrizeNumbersAlongCoupons: true exactly when no coupon row carries a prize rank. */
    method CheckPrizeNumbersAlongCoupons() returns (clear: bool)
      ensures clear <==> AllClear(coupons)
    {
      var i := 0;
      while i < |coupons| && coupons[i].prizeNumber.None?
        invariant 0 <= i <= |coupons|
        invariant forall j | 0 <= j < i :: coupons[j].prizeNumber.None?
      {
        i := i + 1;
      }
      clear := i == |coupons|;
    }

    /** clearCoupons: `delete from coupons`. */
    method ClearCoupons()
      modifies this`coupons
      ensures coupons == []
    {
      coupons := [];
    }

    /** insertCoupons: the old rows are deleted, then each number is inserted in order with a null prize. */
    method InsertCoupons(couponNumbers: seq<string>)
      modifies this`coupons
      ensures coupons == FreshCoupons(couponNumbers)
    {
      ClearCoupons();
      var i := 0;
      while i < |couponNumbers|
        invariant 0 <= i <= |couponNumbers|
        invariant coupons == FreshCoupons(couponNumbers[..i])
      {
        coupons := coupons + [CouponRow(couponNumbers[i], None)];
        i := i + 1;
      }
      assert couponNumbers[..i] == couponNumbers;
    }

    /** getLastRecordedEventNames: each event name of the prize table once, in order of first appearance. */
    method GetLastRecordedEventNames() returns (names: seq<string>)
      ensures Distinct(names)
      ensures forall e :: e in names <==> exists j | 0 <= j < |prizes| :: prizes[j].eventName == e
    {
      names := [];
      var i := 0;
      while i < |prizes|
        invariant 0 <= i <= |prizes|
        invariant Distinct(names)
        invariant forall e :: e in names <==> exists j | 0 <= j < i :: prizes[j].eventName == e
      {
        if prizes[i].eventName !in names {
          names := names + [prizes[i].eventName];
        }
        i := i + 1;
      }
    }

    /** clearPrizesForEventName: `delete from prizes where Event_Name = e`. */
    method ClearPrizesForEventName(eventName: string)
      modifies this`prizes
      ensures prizes == WithoutEvent(old(prizes), eventName)
    {
      prizes := WithoutEvent(prizes, eventName);
    }
  }

  // ---------------------------------------------------------------------------------------
  // Properties of the table operations

  /** Two users with different counts never get the same ID. */
  lemma UserIdInjective(a: nat, b: nat)
    requires a != b
    ensures UserId(a) != UserId(b)
  {
    if UserId(a) == UserId(b) {
      assert UserId(a)[5..] == PadStart(NatToString(a), 4);
      assert UserId(b)[5..] == PadStart(NatToString(b), 4);
      PaddedNatInjective(a, b, 4);
    }
  }

  /** Deleting event e leaves no row of e and every other event's rows as they were, in order. */
  lemma {:induction false} WithoutEventRowsFor(rows: seq<PrizeRow>, e: string, other: string)
    ensures RowsFor(WithoutEvent(rows, e), e) == []
    ensures other != e ==> RowsFor(WithoutEvent(rows, e), other) == RowsFor(rows, other)
  {
    if rows != [] {
      WithoutEventRowsFor(rows[1..], e, other);
      RowsForAppend(if rows[0].eventName != e then [rows[0]] else [], WithoutEvent(rows[1..], e), e);
      RowsForAppend(if rows[0].eventName != e then [rows[0]] else [], WithoutEvent(rows[1..], e), other);
    }
  }

  /** Selecting the rows of an event distributes over appending tables. */
  lemma {:induction false} RowsForAppend(a: seq<PrizeRow>, b: seq<PrizeRow>, e: string)
    ensures RowsFor(a + b, e) == RowsFor(a, e) + RowsFor(b, e)
  {
    if a != [] {
      assert (a + b)[0] == a[0] && (a + b)[1..] == a[1..] + b;
      RowsForAppend(a[1..], b, e);
      var head := if a[0].eventName == e then [a[0]] else [];
      calc {
        RowsFor(a + b, e);
        head + RowsFor(a[1..] + b, e);
        head + (RowsFor(a[1..], e) + RowsFor(b, e));
        (head + RowsFor(a[1..], e)) + RowsFor(b, e);
      }
    } else {
      assert a + b == b;
    }
  }

  /** A table whose rows all belong to e is its own selection for e, and has none for any other event. */
  lemma {:induction false} RowsForUniform(rows: seq<PrizeRow>, e: string, other: string)
    requires forall j | 0 <= j < |rows| :: rows[j].eventName == e
    ensures RowsFor(rows, e) == rows
    ensures other != e ==> RowsFor(rows, other) == []
  {
    if rows != [] {
      RowsForUniform(rows[1..], e, other);
      assert [rows[0]] + rows[1..] == rows;
    }
  }

  /** Deleting an event that has no rows changes nothing. */
  lemma {:induction false} WithoutAbsentEvent(rows: seq<PrizeRow>, e: string)
    requires forall j | 0 <= j < |rows| :: rows[j].eventName != e
    ensures WithoutEvent(rows, e) == rows
  {
    if rows != [] {
      WithoutAbsentEvent(rows[1..], e);
    }
  }

  /** Stamping a number that no row holds changes nothing. */
  lemma StampAbsentNumber(rows: seq<CouponRow>, n: string, p: int)
    requires forall i | 0 <= i < |rows| :: rows[i].couponNumber != n
    ensures StampRows(rows, n, p) == rows
  {
  }
}
