# LinguaLens backend: accounts and per-user history

A Dafny model of the request handlers of the LinguaLens backend and of the three
tables they work on. The handlers are in `app/routes.py`, and the tables are
declared in `app/models/`.

- **Accounts.** `/register` stores a user whose `password` column holds a salted
  hash of the supplied password. `/login` looks the user up by exact email and
  checks the password against that hash. `/profile/<id>` answers with every
  column except the password.
- **History.** `/translations` and `/reviews` (POST) each store one row for a
  user. `/translations/<id>` and `/reviews/<id>` (GET) walk the table and list
  the rows that user owns.

The database session is replaced by an in-memory `Routes.Database` class. It
holds one `seq` per table and one autoincrement counter per table.
`Database.Valid()` is the schema as an object invariant:

- distinct primary keys below the counter;
- unique, non-empty emails;
- `target_language` at most 10 characters and `restaurant_name` at most 100;
- both histories' `user_id` foreign keys point at existing users.

Every state-changing handler keeps `Valid()`. The read-only handlers `Login`
and `GetProfile` are functions of the `users` table, so they cannot change any
table. `GetTranslations` and `GetReviews` are loops proved equal to the
specification functions `Routes.TranslationsOf` and `Routes.ReviewsOf`. These
are the reference listings for app/routes.py:76-85 and :112-123: the owned
rows in table order, one entry each. They carry no contract of their own; the
lemmas `TranslationsOfMembers`, `TranslationsOfCount`, `TranslationsOfConcat`
and their review counterparts state what the lists contain.

`RoutesAsWritten.CheckReviewAsWritten` is the guard of app/routes.py:94 as
written: a `null` body raises. It also carries no contract; the lemma
`RoutesAsWritten.NullReviewBodyCrashes` states how it behaves and how it
differs from the corrected guard `Routes.CheckReview`.

Several things in the source are made explicit parameters:

- Password hashing is abstract. A `Hashing.Hasher` pairs a `hash(password, salt)`
  function with a `verify(hash, password)` predicate.
- The random salt is a parameter of `Register`.
- Lemmas that need more than that state it in their requires. `Sound` means a
  hash verifies against its own password. `CollisionFree` means it verifies
  against no other password.
- The clock is the parameter `now` of the two insert handlers.

A request body is `Option<...Body>`, where `None` is a JSON `null` body. Each key
of the body is a `Requests.Field`: absent, `null`, or a value. This keeps the
source's two different guards exact:

- `/register` and `/login` test truthiness: `data.get(k)` rejects a missing
  key, `null` and `""`.
- The history handlers test only key presence (`k in data`), so `""` and `null`
  pass.
- `data.get(k, "")` stores `""` for a missing key and NULL for `null`.

The column declarations are treated as constraints the database enforces: NOT
NULL, the declared string widths, and the foreign keys. A write that breaks one
answers `IntegrityViolation` and leaves every table unchanged.

The login answer follows the code. An unknown email and a wrong password both
answer 401 "Invalid credentials" (`app/routes.py:52-53`). There is no separate
"account not found" answer, and no federated "sentinel" password marker. No
reconciliation, password change, account deletion or profile-image update
exists in the source, so none is modelled.

## Model

| member | source | states |
|---|---|---|
| Users.FindByEmail | app/routes.py:30 | The lookup by exact email finds the first row with that email. It finds none exactly when no row has it. |
| Users.FindById | app/routes.py:12 | The lookup by id finds the first row with that id. It finds none exactly when no row has it. |
| Users.FindByEmailAppend | app/routes.py:30-42 | After a row is added, an email lookup finds the same row as before. It finds the new row if the email was not yet present. |
| Users.AppendKeepsTableValid | app/models/user.py:7-9 | Adding a row with a fresh non-empty email and the counter's id keeps ids distinct and emails unique, and gives the new row an id no other row has. |
| Routes.Database.constructor | main.py:10 | The tables start empty, with every counter at 1, and satisfy the schema invariant. |
| Routes.Database.Register | app/routes.py:24-43 | Without a body, or with a falsy email or password, the answer is "Missing fields" and nothing changes. A taken email answers "already exists" and nothing changes. Otherwise exactly one user is appended, with a fresh id and the hash of the password. Missing name, surname and profile_image become "" and `null` becomes NULL. Emails stay unique and the other tables are untouched. |
| Routes.Login | app/routes.py:45-55 | "Missing fields" exactly when the body, the email or the password is missing or falsy. Success returns the id of a user with that exact email whose stored hash verifies the password. Since emails are unique, success happens exactly when such a user exists. Every other failure is the same "Invalid credentials". |
| Routes.GetProfile | app/routes.py:10-22 | "Not found" exactly when no user has the id. Otherwise the answer is exactly that user's id, email, name, surname and profile_image. The answer type has no password. |
| Routes.CheckTranslation | app/routes.py:59-67 | "Missing fields" exactly when the body is missing or lacks one of the three keys, whatever their values. The row is stored exactly when the keys are present and the row satisfies the column declarations of app/models/translation.py. |
| Routes.Database.AddTranslation | app/routes.py:57-72 | On a refused body nothing changes. Otherwise exactly one row is appended, with a fresh id, the given columns and the insertion time. The schema invariant holds, including the foreign key to `users`. |
| Routes.Database.GetTranslations | app/routes.py:74-87 | The loop's result is `TranslationsOf(translations, userId)`: the table's owned rows in order, one entry each. |
| Routes.TranslationsOfMembers | app/routes.py:76-85 | An entry is listed exactly when a row owned by the user gives it. The list is empty exactly when the user owns no row. |
| Routes.TranslationsOfCount | app/routes.py:76-85 | The listing has exactly as many entries as the user owns rows, counted independently from the front of the table: one entry per row. |
| Routes.TranslationsOfConcat | app/routes.py:76-85 | The listing of two concatenated tables is the concatenation of their listings, so rows already listed keep their place. |
| Routes.TranslationListedAfterAdd | app/routes.py:63-85 | After a row is stored, the owner's list gains exactly its entry at the end, and every other user's list is unchanged. |
| Routes.CheckReview | app/routes.py:91-103 | "Missing fields" exactly when the body is missing or lacks one of the five keys, whatever their values. The row is stored exactly when the keys are present and the row satisfies the column declarations of app/models/review.py. |
| Routes.Database.AddReview | app/routes.py:89-108 | On a refused body nothing changes. Otherwise exactly one row is appended, with a fresh id, the given columns (`null` as NULL) and the visit time. The schema invariant holds. |
| Routes.Database.GetReviews | app/routes.py:110-125 | The loop's result is `ReviewsOf(reviews, userId)`: the table's owned rows in order, one entry each, a NULL rating passed on as null. |
| Routes.ReviewsOfMembers | app/routes.py:112-123 | An entry is listed exactly when a row owned by the user gives it. The list is empty exactly when the user owns no row. |
| Routes.ReviewsOfCount | app/routes.py:112-123 | The listing has exactly as many entries as the user owns rows: one entry per row. |
| Routes.ReviewsOfConcat | app/routes.py:112-123 | The listing of two concatenated tables is the concatenation of their listings. |
| Routes.ReviewListedAfterAdd | app/routes.py:97-123 | After a row is stored, the owner's list gains exactly its entry at the end, and every other user's list is unchanged. |
| Routes.LoginAfterRegister | app/routes.py:33-55 | With a sound hash, logging in with the email and password of a newly registered user yields that user's id. |
| Routes.WrongPasswordRefused | app/routes.py:51-53 | With a collision-free hash, any other password for a stored user is refused. A non-empty one gets "Invalid credentials", the same answer as an unknown email. The empty one gets "Missing fields". |
| Routes.ProfileAfterRegister | app/routes.py:12-22 | A user added with a fresh id is found by that id. The answer holds the user's public columns. |
| Routes.RegistrationScenario | app/routes.py:24-55 | On a fresh database: registration succeeds with id 1, the same credentials log in as id 1, and a wrong password is refused. Registering the email again answers "already exists" and leaves one user. |
| RoutesAsWritten.NullReviewBodyCrashes | app/routes.py:91-95 | As written, a `null` body makes the review guard raise, where the corrected guard answers "Missing fields". On every other body the two agree. |
| RoutesAsWritten.ReviewsOfAsWritten | app/routes.py:114-123 | As written, listing succeeds exactly when every owned row has a rating, and then equals `ReviewsOf`. Otherwise it raises. |
| RoutesAsWritten.NullRatingBreaksReviewList | app/routes.py:92-120 | A body with `"rating": null` passes the review guard. The listing as written then raises on the stored row, while `ReviewsOf` lists it with a null rating. |

## Findings

| source | as written | input that shows it | evidently intended | confidence | as-written member | corrected member |
|---|---|---|---|---|---|---|
| app/routes.py:94 | `k in data` is evaluated with no check that a body exists | POST `/reviews` with the JSON body `null`: the `in` test on `None` raises and the answer is 500 | 400 "Missing fields", as `/translations` answers at app/routes.py:60 | high; not executed | RoutesAsWritten.NullReviewBodyCrashes | Routes.CheckReview |
| app/routes.py:120 | `float(r.rating)` on every owned row, while the guard at :94 only checks that the `rating` key is present, so a NULL rating is stored | POST `/reviews` with `"rating": null` for user 1, then GET `/reviews/1`: `float(None)` raises, and every later listing for user 1 answers 500 | the row listed with a null rating | high; not executed | RoutesAsWritten.NullRatingBreaksReviewList | Routes.Database.GetReviews |

## Left out

- HTTP and Flask are not modelled. Routing, JSON parsing and status codes are replaced by the `Result` and `Error` datatypes. Bodies that are JSON but not objects are left out.
- Each key of a body is modelled at a single JSON type: a string for every text column (`email`, `password`, `name`, `surname`, `profile_image`, `original_text`, `target_language`, `restaurant_name`, `address`, `review_text`), an integer `user_id` and a number `rating`, besides being missing or `null`. A value of any other type is left out. That includes a number where a string is expected (`"email": 5`), a string where a number is expected (`"user_id": "1"`, `"rating": "4.5"`), a non-integer `user_id`, and the 500 answered when a non-string password reaches `generate_password_hash` (app/routes.py:33) or `check_password_hash` (app/routes.py:52).
- Success messages are left out. `Register`, `AddTranslation` and `AddReview` answer `Ok(())` for the 201 responses.
- SQLAlchemy sessions and commits are replaced by in-memory sequences. The pending-rollback state a session is left in after a failed commit is not modelled.
- The order of `.all()` without an `order_by` is unspecified in SQL. The model lists rows in insertion order.
- Whether `String(n)` widths and foreign keys are enforced depends on the database engine (`app/database.py` is not part of this model; SQLite, for instance, checks neither widths nor, by default, foreign keys). The model enforces both, as well as NOT NULL, which every engine enforces.
- Ids and `user_id` values are unbounded integers in the model. The source keeps them in `Integer` columns, which hold 64 bits on SQLite and 32 bits on PostgreSQL, and Flask's `<int:user_id>` converter (app/routes.py:10, :74, :110) sets no maximum. On some engines a value outside the column's range makes the driver raise, which answers 500; for such an id, the model's `GetProfile` answers "Not found" instead, and `GetTranslations` and `GetReviews` answer an empty list. Overflow of the autoincrement counters is not modelled either.
- Email matching is exact, which holds only under a case-sensitive collation. Under a case-insensitive one (MySQL's default, for instance) the lookups at app/routes.py:30 and :51 would match `A@x.com` against `a@x.com`; the model does not capture that.
- A refused insert leaves the id counter where it was. On an engine whose ids come from a sequence (PostgreSQL, for instance) a failed INSERT uses up an id, so ids may have gaps; the model does not capture that.
- The check-then-insert race between `app/routes.py:30` and `:41-42` is concurrency, which is not modelled. The model is sequential, so the email lookup is authoritative.
- The internals of werkzeug's password hashing are not modelled. `Hasher.hash` and `Hasher.verify` are uninterpreted, and the salt is a parameter.
- Timestamps are plain integers supplied as `now`, and `isoformat()` is not modelled.
- The `float(...)` conversion of the `Numeric` rating is not modelled. Ratings are exact reals passed through unchanged.
- The Firebase SDK initialisation (`app/firebase_admin_init.py`) is a side effect with no logic. It is not part of this model.
- The Yelp test script (`app/test_yelp_reviews.py`) is a network client. It is not part of this model.
- Application wiring (`main.py`) is not modelled beyond the empty tables the constructor starts from.
- Routes.Login: the "exactly when such a user exists" direction is stated under `UniqueEmails`, which `Database.Valid()` guarantees. Without unique emails the code checks only the first user with the email.
