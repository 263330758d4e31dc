/**
  The `Coupon` record (coupons/models.py), its column limits, its expiry test,
  its display string, and the table of stored coupons with its insert, which
  the unique index on `code` guards.
 */
module Models {
  import opened Wrappers

  /** Timestamps are whole seconds; `timedelta(days = d)` is `d * SecondsPerDay`. */
  const SecondsPerDay: int := 86400

  /** `max_length` of the `code` column. */
  const CodeMaxLength: nat := 32
  /** `max_length` of the `website` column. */
  const WebsiteMaxLength: nat := 255

  datatype Coupon = Coupon(
    email: string,
    website: string,
    code: string,
    createdAt: int,   // `auto_now_add`: the clock at insertion, never updated
    expiresAt: int,
    redeemed: bool)   // `default=False`

  /** `is_expired`: strictly past the expiry instant. */
  predicate IsExpired(c: Coupon, now: int)
  {
    now > c.expiresAt
  }

  /** The lookup's `expires_at__gt=now`: strictly before the expiry instant. */
  predicate Unexpired(c: Coupon, now: int)
  {
    c.expiresAt > now
  }

  /** At any instant a coupon is expired, unexpired, or exactly at its expiry
      instant, where it is neither: both comparisons are strict. */
  lemma ExpiryTrichotomy(c: Coupon, now: int)
    ensures IsExpired(c, now) <==> !Unexpired(c, now) && c.expiresAt != now
    ensures c.expiresAt == now ==> !IsExpired(c, now) && !Unexpired(c, now)
    ensures !(IsExpired(c, now) && Unexpired(c, now))
  {
  }

  /** `__str__`: the email, a spaced dash, then the code. */
  function Label(c: Coupon): (s: string)
    ensures |s| == |c.email| + 3 + |c.code|
    ensures s[..|c.email|] == c.email
    ensures s[|c.email|..|c.email| + 3] == " - "
    ensures s[|c.email| + 3..] == c.code
  {
    c.email + " - " + c.code
  }

  /** The record fits the `max_length` of its columns. */
  predicate FitsColumns(c: Coupon)
  {
    |c.code| <= CodeMaxLength && |c.website| <= WebsiteMaxLength
  }

  predicate CodeTaken(rows: seq<Coupon>, code: string)
  {
    exists i :: 0 <= i < |rows| && rows[i].code == code
  }

  /** `unique=True` on `code`. */
  predicate CodesUnique(rows: seq<Coupon>)
  {
    forall i, j :: 0 <= i < j < |rows| ==> rows[i].code != rows[j].code
  }

  /** What the database's constraints keep true of the stored rows. */
  predicate TableOk(rows: seq<Coupon>)
  {
    CodesUnique(rows) && forall i :: 0 <= i < |rows| ==> FitsColumns(rows[i])
  }

  /** Why the database refuses an insert. */
  datatype DbError = ValueTooLong | UniqueViolation

  /** The outcome of a write: what it returns and the table after it. */
  datatype Step<E> = Step(result: Result<Coupon, E>, rows: seq<Coupon>)

  /** `Coupon.objects.create` on a database that enforces column lengths: store
      the record, or fail on a too-long value or a taken code. */
  function InsertRow(rows: seq<Coupon>, c: Coupon): (s: Step<DbError>)
  {
    if !FitsColumns(c) then Step(Err(ValueTooLong), rows)
    else if CodeTaken(rows, c.code) then Step(Err(UniqueViolation), rows)
    else Step(Ok(c), rows + [c])
  }

  /** Appending keeps the codes unique exactly when the new code is not taken. */
  lemma {:induction false} AppendUniqueIff(rows: seq<Coupon>, c: Coupon)
    requires CodesUnique(rows)
    ensures CodesUnique(rows + [c]) <==> !CodeTaken(rows, c.code)
  {
    var t := rows + [c];
    if CodeTaken(rows, c.code) {
      var i :| 0 <= i < |rows| && rows[i].code == c.code;
      assert t[i].code == t[|rows|].code;
    } else {
      forall i, j | 0 <= i < j < |t| ensures t[i].code != t[j].code {
        if j == |rows| {
          assert t[i] == rows[i];
        } else {
          assert t[i] == rows[i] && t[j] == rows[j];
        }
      }
    }
  }

  /** An insert either stores exactly the given record at the end or changes
      nothing, and the table keeps its constraints either way. */
  lemma InsertKeepsTableOk(rows: seq<Coupon>, c: Coupon)
    requires TableOk(rows)
    ensures TableOk(InsertRow(rows, c).rows)
    ensures InsertRow(rows, c).result.Ok? <==> FitsColumns(c) && !CodeTaken(rows, c.code)
    ensures InsertRow(rows, c).result.Ok? ==>
              InsertRow(rows, c).result.value == c && InsertRow(rows, c).rows == rows + [c]
    ensures InsertRow(rows, c).result.Err? ==> InsertRow(rows, c).rows == rows
  {
    if FitsColumns(c) && !CodeTaken(rows, c.code) {
      AppendUniqueIff(rows, c);
      var t := rows + [c];
      forall i | 0 <= i < |t| ensures FitsColumns(t[i]) {
        if i < |rows| { assert t[i] == rows[i]; }
      }
    }
  }

  /** The coupon table: the stored rows, in insertion order. */
  class CouponTable {
    var rows: seq<Coupon>

    ghost predicate Valid()
      reads this
    {
      TableOk(rows)
    }

    constructor ()
      ensures Valid() && rows == []
    {
      rows := [];
    }

    /** `Coupon.objects.create`. */
    method Create(c: Coupon) returns (res: Result<Coupon, DbError>)
      requires Valid()
      modifies this
      ensures Valid()
      ensures res == InsertRow(old(rows), c).result
      ensures rows == InsertRow(old(rows), c).rows
    {
      InsertKeepsTableOk(rows, c);
      if !FitsColumns(c) {
        res := Err(ValueTooLong);
      } else if CodeTaken(rows, c.code) {
        res := Err(UniqueViolation);
      } else {
        rows := rows + [c];
        res := Ok(c);
      }
    }
  }
}
