# Coupon issuance, modelled in Dafny

The service issues promotional discount coupons. Given an email address and a
website, it either returns the coupon that is already active for that pair,
or it creates a new one. A coupon is active when it is not redeemed and its
expiry instant lies after "now". A new coupon has a random 8-character
upper-case hexadecimal code and expires a configurable number of days later
(30 by default). The recipient is then sent an email, and a failure to send
it is swallowed.

The model has four modules:

- `Wrappers` (`wrappers.dfy`): `Option` and `Result`.
- `HexToken` (`hex_token.dfy`): the code generator `token_hex(4).upper()`.
  It is a pure function of the four random bytes. A parser for codes is
  proved to be its inverse.
- `Models` (`models.dfy`, for coupons/models.py):
  - the `Coupon` record and its column limits;
  - `is_expired` and `__str__`;
  - the table invariant: codes are unique and every row fits its columns;
  - the class `CouponTable`, whose `Create` is `Coupon.objects.create`. The
    model assumes a database that enforces column lengths: it refuses a
    value that is too long, and its unique index refuses a code that is
    already taken.
- `Serializers` (`serializers.dfy`, for coupons/serializers.py):
  - `validate`;
  - the active-coupon lookup under the newest-first ordering;
  - the lookup-or-create rule as a pure function `Issue` over the table's
    rows, with lemmas about it;
  - the class `CouponSerializer`, whose `Create` and `Save` methods change the
    table and an `Outbox`. These methods are proved equal to `Issue` and
    `Submit`.

Inputs the program takes from its environment are parameters here:

- the clock, read twice:
  - `now`, read before the lookup;
  - `insertedAt`, the `auto_now_add` stamp taken at the insert;
- the four random bytes (`token`);
- the `COUPON_EXPIRY_DAYS` setting (`expirySetting`, which is `None` when the
  setting is absent);
- whether the mail provider accepts the message (`deliverable`).

Timestamps are whole seconds, and a day is 86400 seconds.

The table's rows are a sequence in insertion order. The lookup returns the
matching row with the greatest `createdAt`. Among rows with equal `createdAt`
it returns the one inserted first. The source leaves that tie order to the
database. So when several active rows share the newest `createdAt`, the
guarantee that re-issuing returns the same coupon (`IssueIdempotent`) comes
from this tie-break, not from the program. With timestamps in whole seconds,
such ties are also more likely than with microsecond stamps.

`expires_at` is not `created_at + window`. The code computes `expires_at`
from the clock reading taken before the lookup (coupons/serializers.py:48 and
60), while `created_at` is stamped later, at the insert
(coupons/models.py:24). So the model proves
`expiresAt == now + days * 86400` and `createdAt == insertedAt`, and relates
the two only through those parameters.

## Model

| member | source | states |
|---|---|---|
| `HexToken.TokenHex` | coupons/serializers.py:58 | `token_hex` gives two lower-case hex digits per byte: the output is twice as long as the input, and every character is in `0-9a-f` |
| `HexToken.Upper` | coupons/serializers.py:58 | `str.upper` keeps the length and upper-cases each character in place |
| `HexToken.NewCode` | coupons/serializers.py:58 | a generated code is exactly 8 characters, each in `0-9A-F` |
| `HexToken.ParseUpperTokenHex` | coupons/serializers.py:58 | reading an upper-cased `token_hex` string back gives the original bytes, for any number of bytes |
| `HexToken.CodeRoundTrip` | coupons/serializers.py:58 | parsing a generated code gives back the four random bytes it was made from |
| `HexToken.CodeInjective` | coupons/serializers.py:58 | two draws give the same code if and only if they drew the same bytes |
| `Models.ExpiryTrichotomy` | coupons/models.py:37-40 | `is_expired` (now > expires_at) and the lookup's `expires_at > now` never both hold; at `expires_at == now` the coupon is neither expired nor active |
| `Models.Label` | coupons/models.py:34-35 | `__str__` is the email, then `" - "`, then the code, each at its own position |
| `Models.AppendUniqueIff` | coupons/models.py:19-23 | on a table whose codes are unique, appending a row keeps them unique if and only if its code is not already stored |
| `Models.InsertKeepsTableOk` | coupons/models.py:17-26 | an insert succeeds exactly when the row fits `max_length` (code 32, website 255) and its code is new. It then appends exactly that row; otherwise the table is unchanged. Either way the constraints still hold |
| `Models.CouponTable.Create` | coupons/models.py:17-26 | `Coupon.objects.create` on the mutable table keeps the table invariant and has the result and new rows that `InsertRow` gives |
| `Serializers.ExpiryDays` | coupons/serializers.py:59 | the expiry window is the configured number of days, or 30 when none is configured |
| `Serializers.Validate` | coupons/serializers.py:29-35 | a request is accepted if and only if email and website are both present and non-empty; an accepted request's attributes are returned unchanged |
| `Serializers.FirstActive` | coupons/serializers.py:49-54 | the lookup finds nothing if and only if no row for the pair is unredeemed with `expires_at > now`. Otherwise it returns such a row: none newer exists, and every earlier-inserted match is strictly older |
| `Serializers.FirstActiveIsFirstMatch` | coupons/models.py:28-29 | ordering by newest `created_at` makes the first match unique: any row that is first under the ordering is the one the lookup returns |
| `Serializers.FirstActiveStable` | coupons/serializers.py:49-54 | as time advances, the coupon the lookup returned stays the one it returns for as long as it is unexpired |
| `Serializers.Issue` | coupons/serializers.py:45-67 | if an active coupon exists, the newest one is returned and the table is unchanged. Otherwise the new coupon is appended: given email and website, code `token_hex(4).upper()`, `redeemed == false`, `expires_at == now + days`, `created_at` the insert stamp. The insert fails, writing nothing, exactly when the website is too long or the code is taken. At most one row is added, and earlier rows never change |
| `Serializers.IssueKeepsTableOk` | coupons/serializers.py:57-67 | issuance preserves the table invariant: codes stay unique and every row fits its columns |
| `Serializers.IssueSkipsInactive` | coupons/serializers.py:51-52 | a stored coupon that is redeemed, or whose `expires_at <= now`, is never returned |
| `Serializers.IssueIdempotent` | coupons/serializers.py:47-56 | issuing again for the same pair, at the same or a later instant before the returned coupon expires, returns the same coupon and writes nothing, whatever the new clock stamp, setting and random bytes |
| `Serializers.ReissueAfterCreate` | coupons/serializers.py:47-67 | after a coupon was created because the pair had no active coupon, issuing again for the pair before that coupon expires returns exactly it and leaves the table as it is |
| `Serializers.InvalidRequestWritesNothing` | coupons/serializers.py:29-35 | a request without an email or without a website fails validation and leaves the table unchanged |
| `Serializers.Outbox.SendMail` | coupons/serializers.py:77 | `send_mail(..., fail_silently=False)` records the notice when the provider accepts it, and raises otherwise |
| `Serializers.CouponSerializer.Create` | coupons/serializers.py:37-82 | `create` on the mutable table gives exactly `Issue`'s result and new rows and keeps the table invariant. The result does not depend on whether mail delivery succeeds. Mail goes out only for a newly inserted coupon, and only when it is delivered. A malformed discount setting is assumed not to occur (see Left out) |
| `Serializers.CouponSerializer.Save` | coupons/serializers.py:29-46 | validate then create gives exactly `Submit`'s result and rows. A rejected request leaves the outbox untouched. Otherwise the outbox gains exactly one notice, with the new coupon's email, website, code and expiry, when a coupon was newly inserted and the mail was delivered, and nothing in any other case |

## Left out

- The subject and body of the notification email (coupons/serializers.py:69-75) and the sender address are not modelled. The notice carries only the recipient, website, code and expiry. The body's fixed "10%" and the subject's `DISCOUNT_PERCENTAGE` are not modelled either.
- The mail provider is a yes/no `deliverable` parameter. Its credentials, the network and any logging are outside the model.
- Randomness (`secrets.token_hex`), the clock (`timezone.now()`, `auto_now_add`) and settings lookups are parameters. Converting a malformed `COUPON_EXPIRY_DAYS` value with `int(...)` can fail, and that failure is not modelled. Neither is the `OverflowError` that `timedelta` and datetime addition raise for an out-of-range day count: the model's integers are unbounded.
- Timezone-aware datetimes and microsecond resolution are left out. Timestamps are integer seconds.
- `HexToken.Upper` models `str.upper` only for ASCII letters, which covers every string `token_hex` produces.
- The ORM's query engine, the `(email, website)` index and database collation are left out. The lookup uses exact string equality, and the tie order among rows with equal `created_at` is fixed as insertion order.
- All field-level processing that the REST framework derives from the model fields (coupons/serializers.py:25-27) is outside `Validate` and `Save`. This covers whitespace trimming (" shop " is stored as "shop"), rejecting blank and whitespace-only values, the email format check, and `max_length` (255 for website). `Save` therefore accepts "   " and stores values untrimmed. The website and code limits are checked at the insert instead (`ValueTooLong`), which assumes a database that enforces column length. SQLite, for example, stores the long value.
- The 254-character limit on email is not modelled. `EmailField` sets it by default, and it applies both to the serializer field and to the column. An email of any length is accepted and stored.
- `Serializers.CouponSerializer.Create`: `int(settings.DISCOUNT_PERCENTAGE)` (coupons/serializers.py:69) runs after the insert and outside the `try`. So a malformed value makes `create` raise with the new row already stored and no mail sent. The model does not capture this: `Create` (and so `Save`) returns the new coupon on that path. The path that returns an existing coupon is unaffected.
- Concurrent issuance for the same pair is out of scope: the model is sequential.
- There is no retry when a generated code collides. The source has none either: the insert fails with `UniqueViolation`.
- Redemption, which flips `redeemed`, is not part of this code, so no operation of the model changes a stored row.
- coupons/views.py is not part of this model: it marshals the result into an HTTP 201 response. The same holds for coupons/urls.py, coupons/admin.py, coupons/apps.py and manage.py, which hold routing, admin registration, app metadata and process start-up.
