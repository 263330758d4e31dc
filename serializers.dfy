/**
  Coupon issuance (coupons/serializers.py): the presence check on the request,
  the lookup of an active coupon for an (email, website) pair, and the
  lookup-or-create rule, first as functions over the table's rows, then as the
  serializer's methods over the mutable table and the mail outbox.
  The clock, the random bytes, the expiry setting and the outcome of sending
  mail are parameters.
 */
module Serializers {
  import opened Wrappers
  import opened Models
  import opened HexToken

  /** The expiry window when `COUPON_EXPIRY_DAYS` is not configured. */
  const DefaultExpiryDays: int := 30

  /** `int(getattr(settings, 'COUPON_EXPIRY_DAYS', 30))`. */
  function ExpiryDays(setting: Option<int>): (days: int)
    ensures setting.None? ==> days == DefaultExpiryDays
    ensures setting.Some? ==> days == setting.value
  {
    match setting
    case None => DefaultExpiryDays
    case Some(d) => d
  }

  // ---------------------------------------------------------------- validate

  /** The request attributes; a field the request left out is `None`. */
  datatype Attrs = Attrs(email: Option<string>, website: Option<string>)

  /** "Email and website are required." */
  datatype ValidationError = Required

  /** Python truthiness of an optional string: present and not empty. */
  predicate Present(v: Option<string>)
  {
    v.Some? && v.value != []
  }

  /** `validate`: accepts exactly the requests with both fields present and
      non-empty, and then hands the attributes on unchanged. */
  function Validate(attrs: Attrs): (r: Result<Attrs, ValidationError>)
    ensures r.Ok? <==> Present(attrs.email) && Present(attrs.website)
    ensures r.Ok? ==> r.value == attrs
  {
    if !Present(attrs.email) || !Present(attrs.website) then Err(Required) else Ok(attrs)
  }

  // ------------------------------------------------------------------ lookup

  /** The lookup's filter: this pair, `redeemed=False`, `expires_at__gt=now`. */
  predicate Matches(c: Coupon, email: string, website: string, now: int)
  {
    c.email == email && c.website == website && !c.redeemed && Unexpired(c, now)
  }

  predicate HasActive(rows: seq<Coupon>, email: string, website: string, now: int)
  {
    exists j :: 0 <= j < |rows| && Matches(rows[j], email, website, now)
  }

  /** `i` is the first match under the ordering `-created_at`: no match is newer,
      and among equally new matches it was inserted first. */
  predicate IsFirstMatch(rows: seq<Coupon>, email: string, website: string, now: int, i: int)
  {
    && 0 <= i < |rows|
    && Matches(rows[i], email, website, now)
    && (forall j :: 0 <= j < |rows| && Matches(rows[j], email, website, now) ==>
          rows[j].createdAt <= rows[i].createdAt)
    && (forall j :: 0 <= j < i && Matches(rows[j], email, website, now) ==>
          rows[j].createdAt < rows[i].createdAt)
  }

  /** `.filter(...).filter(...).first()`: the position of the newest active
      coupon for the pair, or `None` when there is no active coupon. */
  function FirstActive(rows: seq<Coupon>, email: string, website: string, now: int): (r: Option<nat>)
    ensures r.None? <==> !HasActive(rows, email, website, now)
    ensures r.Some? ==> IsFirstMatch(rows, email, website, now, r.value)
    decreases |rows|
  {
    if rows == [] then None
    else
      var k := |rows| - 1;
      var r := FirstActive(rows[..k], email, website, now);
      if !Matches(rows[k], email, website, now) then r
      else if r.Some? && rows[r.value].createdAt >= rows[k].createdAt then r
      else Some(k)
  }

  /** The first match is unique: any position that is first under the ordering
      is the one the lookup returns. */
  lemma FirstActiveIsFirstMatch(rows: seq<Coupon>, email: string, website: string, now: int, i: int)
    requires IsFirstMatch(rows, email, website, now, i)
    ensures FirstActive(rows, email, website, now) == Some(i)
  {
  }

  /** Time passing only removes coupons from the lookup: the coupon the lookup
      returned stays the one it returns for as long as it is unexpired. */
  lemma FirstActiveStable(rows: seq<Coupon>, email: string, website: string, now: int, later: int, i: nat)
    requires FirstActive(rows, email, website, now) == Some(i)
    requires now <= later && Unexpired(rows[i], later)
    ensures FirstActive(rows, email, website, later) == Some(i)
  {
    assert IsFirstMatch(rows, email, website, now, i);
    FirstActiveIsFirstMatch(rows, email, website, later, i);
  }

  // ------------------------------------------------------------------- issue

  /** `create`: return the first active coupon for the pair and leave the table
      alone, or insert a new coupon with code `token_hex(4).upper()`, expiring
      `expiryDays` days after `now`, stamped `insertedAt` by `auto_now_add`. */
  function Issue(rows: seq<Coupon>, email: string, website: string, now: int,
                 insertedAt: int, expiryDays: int, token: seq<byte>): (s: Step<DbError>)
    requires |token| == CodeBytes
    // at most one row is added, at the end; no stored row changes
    ensures |rows| <= |s.rows| <= |rows| + 1 && s.rows[..|rows|] == rows
    // an active coupon exists: the newest one is returned, nothing is written
    ensures HasActive(rows, email, website, now) ==>
              && s.rows == rows && s.result.Ok?
              && exists i :: IsFirstMatch(rows, email, website, now, i) && rows[i] == s.result.value
    // none exists: the insert succeeds exactly when the website fits and the code is free
    ensures !HasActive(rows, email, website, now) ==>
              (s.result.Ok? <==> |website| <= WebsiteMaxLength && !CodeTaken(rows, NewCode(token)))
    // a successful insert appends exactly the new coupon
    ensures !HasActive(rows, email, website, now) && s.result.Ok? ==>
              && s.rows == rows + [s.result.value]
              && s.result.value.email == email && s.result.value.website == website
              && s.result.value.code == NewCode(token)
              && s.result.value.createdAt == insertedAt
              && s.result.value.expiresAt == now + expiryDays * SecondsPerDay
              && !s.result.value.redeemed
    // a failed insert leaves the table as it was
    ensures s.result.Err? ==> s.rows == rows && !HasActive(rows, email, website, now)
  {
    match FirstActive(rows, email, website, now)
    case Some(i) => Step(Ok(rows[i]), rows)
    case None =>
      var code := NewCode(token);
      InsertRow(rows, Coupon(email, website, code, insertedAt, now + expiryDays * SecondsPerDay, false))
  }

  /** Issuing keeps the table's constraints: codes stay unique and every row fits its columns. */
  lemma IssueKeepsTableOk(rows: seq<Coupon>, email: string, website: string, now: int,
                          insertedAt: int, expiryDays: int, token: seq<byte>)
    requires |token| == CodeBytes
    requires TableOk(rows)
    ensures TableOk(Issue(rows, email, website, now, insertedAt, expiryDays, token).rows)
  {
    if FirstActive(rows, email, website, now).None? {
      var c := Coupon(email, website, NewCode(token), insertedAt, now + expiryDays * SecondsPerDay, false);
      InsertKeepsTableOk(rows, c);
    }
  }

  /** A redeemed coupon, or one whose expiry instant is not after `now`, is
      never what issuance returns. */
  lemma IssueSkipsInactive(rows: seq<Coupon>, email: string, website: string, now: int,
                           insertedAt: int, expiryDays: int, token: seq<byte>, k: nat)
    requires |token| == CodeBytes
    requires k < |rows| && (rows[k].redeemed || !Unexpired(rows[k], now))
    ensures Issue(rows, email, website, now, insertedAt, expiryDays, token).result != Ok(rows[k])
  {
  }

  /** Issuing again for the same pair, at the same or a later instant before
      the coupon first returned expires, returns that coupon again and writes
      nothing, whatever the new clock reading, setting and random bytes. */
  lemma IssueIdempotent(rows: seq<Coupon>, email: string, website: string, now: int,
                        insertedAt: int, expiryDays: int, token: seq<byte>,
                        later: int, insertedAt': int, expiryDays': int, token': seq<byte>)
    requires |token| == CodeBytes && |token'| == CodeBytes
    requires Issue(rows, email, website, now, insertedAt, expiryDays, token).result.Ok?
    requires now <= later
    requires Unexpired(Issue(rows, email, website, now, insertedAt, expiryDays, token).result.value, later)
    ensures Issue(Issue(rows, email, website, now, insertedAt, expiryDays, token).rows,
                  email, website, later, insertedAt', expiryDays', token')
         == Issue(rows, email, website, now, insertedAt, expiryDays, token)
  {
    var s := Issue(rows, email, website, now, insertedAt, expiryDays, token);
    match FirstActive(rows, email, website, now)
    case Some(i) =>
      FirstActiveStable(rows, email, website, now, later, i);
    case None =>
      ReissueAfterCreate(rows, s.result.value, email, website, now, later, insertedAt', expiryDays', token');
  }

  /** Once a coupon has been created because none was active, issuing for the
      same pair before it expires returns exactly that coupon and writes nothing. */
  lemma ReissueAfterCreate(rows: seq<Coupon>, c: Coupon, email: string, website: string,
                           now: int, later: int, insertedAt: int, expiryDays: int, token: seq<byte>)
    requires |token| == CodeBytes
    requires !HasActive(rows, email, website, now)
    requires c.email == email && c.website == website && !c.redeemed
    requires now <= later && Unexpired(c, later)
    ensures Issue(rows + [c], email, website, later, insertedAt, expiryDays, token) == Step(Ok(c), rows + [c])
  {
    var t := rows + [c];
    forall j | 0 <= j < |rows| ensures !Matches(rows[j], email, website, later) {
      assert !Matches(rows[j], email, website, now);
    }
    assert t[..|rows|] == rows;
    assert FirstActive(t, email, website, later) == Some(|rows|);
  }

  /** The serializer's whole path, `validate` then `create`. */
  datatype Failure = Invalid(reason: ValidationError) | Db(error: DbError)

  function Submit(rows: seq<Coupon>, attrs: Attrs, now: int,
                  insertedAt: int, expiryDays: int, token: seq<byte>): (s: Step<Failure>)
    requires |token| == CodeBytes
  {
    match Validate(attrs)
    case Err(e) => Step(Err(Invalid(e)), rows)
    case Ok(a) =>
      var s := Issue(rows, a.email.value, a.website.value, now, insertedAt, expiryDays, token);
      match s.result
      case Ok(c) => Step(Ok(c), s.rows)
      case Err(e) => Step(Err(Db(e)), s.rows)
  }

  /** A request missing its email or its website fails validation and writes no row. */
  lemma InvalidRequestWritesNothing(rows: seq<Coupon>, attrs: Attrs, now: int,
                                    insertedAt: int, expiryDays: int, token: seq<byte>)
    requires |token| == CodeBytes
    requires !Present(attrs.email) || !Present(attrs.website)
    ensures Submit(rows, attrs, now, insertedAt, expiryDays, token) == Step(Err(Invalid(Required)), rows)
  {
  }

  // ------------------------------------------------------------ the methods

  /** The message `send_mail` is given: recipient, site, code and expiry. */
  datatype Notice = Notice(recipient: string, website: string, code: string, expiresAt: int)

  /** The outbound mail provider: the notices it has accepted. */
  class Outbox {
    var sent: seq<Notice>

    constructor ()
      ensures sent == []
    {
      sent := [];
    }

    /** `send_mail(..., fail_silently=False)`: delivers, or raises when the
        provider is unreachable or refuses. */
    method SendMail(n: Notice, deliverable: bool) returns (raised: bool)
      modifies this
      ensures raised == !deliverable
      ensures sent == old(sent) + (if deliverable then [n] else [])
    {
      raised := !deliverable;
      if deliverable {
        sent := sent + [n];
      }
    }
  }

  class CouponSerializer {
    const table: CouponTable
    const outbox: Outbox

    constructor (table: CouponTable, outbox: Outbox)
      ensures this.table == table && this.outbox == outbox
    {
      this.table := table;
      this.outbox := outbox;
    }

    /** `create`: lookup, else insert and notify. An exception raised by the
        send itself is swallowed: the result and the table are the same whether
        or not the mail goes out, and mail is sent only for a newly created
        coupon. Building the message's subject is not modelled and assumed not
        to raise. */
    method Create(email: string, website: string, now: int, insertedAt: int,
                  expirySetting: Option<int>, token: seq<byte>, deliverable: bool)
      returns (res: Result<Coupon, DbError>)
      requires table.Valid()
      requires |token| == CodeBytes
      modifies table, outbox
      ensures table.Valid()
      ensures res == Issue(old(table.rows), email, website, now, insertedAt,
                           ExpiryDays(expirySetting), token).result
      ensures table.rows == Issue(old(table.rows), email, website, now, insertedAt,
                                  ExpiryDays(expirySetting), token).rows
      ensures outbox.sent == old(outbox.sent) +
                (if res.Ok? && table.rows != old(table.rows) && deliverable
                 then [Notice(email, website, res.value.code, res.value.expiresAt)] else [])
    {
      var existing := FirstActive(table.rows, email, website, now);
      if existing.Some? {
        return Ok(table.rows[existing.value]);
      }
      var code := NewCode(token);
      var expiresAt := now + ExpiryDays(expirySetting) * SecondsPerDay;
      res := table.Create(Coupon(email, website, code, insertedAt, expiresAt, false));
      if res.Err? {
        return;
      }
      var raised := outbox.SendMail(Notice(email, website, code, expiresAt), deliverable);
    }

    /** `is_valid` then `save`: a request that fails validation touches
        neither the table nor the outbox. */
    method Save(attrs: Attrs, now: int, insertedAt: int, expirySetting: Option<int>,
                token: seq<byte>, deliverable: bool)
      returns (res: Result<Coupon, Failure>)
      requires table.Valid()
      requires |token| == CodeBytes
      modifies table, outbox
      ensures table.Valid()
      ensures res == Submit(old(table.rows), attrs, now, insertedAt, ExpiryDays(expirySetting), token).result
      ensures table.rows == Submit(old(table.rows), attrs, now, insertedAt, ExpiryDays(expirySetting), token).rows
      ensures outbox.sent == old(outbox.sent) +
                (if res.Ok? && table.rows != old(table.rows) && deliverable
                 then [Notice(res.value.email, res.value.website, res.value.code, res.value.expiresAt)] else [])
    {
      var v := Validate(attrs);
      if v.Err? {
        return Err(Invalid(v.error));
      }
      var r := Create(attrs.email.value, attrs.website.value, now, insertedAt, expirySetting, token, deliverable);
      match r
      case Ok(c) => res := Ok(c);
      case Err(e) => res := Err(Db(e));
    }
  }
}
