/** The `users` table: one row per account. */
module Users {
  import opened Requests
  import opened Hashing

  /** A row. `id` is the primary key, `email` is unique and never null,
      `password` is never null and holds a hash; `name`, `surname` and
      `profile_image` (meant to hold a URL) are nullable strings. */
  datatype User = User(
    id: nat,
    email: string,
    password: PasswordHash,
    name: Option<string>,
    surname: Option<string>,
    profileImage: Option<string>)

  /** The primary key: no two rows share an id. */
  ghost predicate DistinctIds(users: seq<User>)
  {
    forall i, j :: 0 <= i < j < |users| ==> users[i].id != users[j].id
  }

  /** The unique constraint on `email`. */
  ghost predicate UniqueEmails(users: seq<User>)
  {
    forall i, j :: 0 <= i < j < |users| ==> users[i].email != users[j].email
  }

  /** Every id was handed out by the autoincrement counter, which starts
      at 1 and now stands at `nextId`. */
  ghost predicate IdsBelow(users: seq<User>, nextId: nat)
  {
    forall u :: u in users ==> 1 <= u.id < nextId
  }

  /** The invariant of the table: keys distinct and below the counter,
      emails unique, and no stored email empty (the only way in,
      registration, refuses an empty email). */
  ghost predicate TableValid(users: seq<User>, nextId: nat)
  {
    && DistinctIds(users)
    && UniqueEmails(users)
    && nextId >= 1
    && IdsBelow(users, nextId)
    && forall u :: u in users ==> u.email != ""
  }

  /** Whether some row has the given id: the target of a foreign key. */
  predicate HasId(users: seq<User>, id: int)
  {
    exists u :: u in users && u.id == id
  }

  /** `filter_by(email=email).first()`: the position of the first row with
      exactly this email (no case folding), if any. */
  function FindByEmail(users: seq<User>, email: string): (r: Option<nat>)
    ensures r.Some? ==> r.value < |users| && users[r.value].email == email
    ensures r.Some? ==> forall j :: 0 <= j < r.value ==> users[j].email != email
    ensures r.None? <==> forall u :: u in users ==> u.email != email
  {
    if |users| == 0 then None
    else if users[0].email == email then Some(0)
    else match FindByEmail(users[1..], email)
      case None => None
      case Some(k) => Some(k + 1)
  }

  /** `filter_by(id=id).first()`: the position of the first row with this
      id, if any. */
  function FindById(users: seq<User>, id: int): (r: Option<nat>)
    ensures r.Some? ==> r.value < |users| && users[r.value].id == id
    ensures r.Some? ==> forall j :: 0 <= j < r.value ==> users[j].id != id
    ensures r.None? <==> !HasId(users, id)
  {
    if |users| == 0 then None
    else if users[0].id == id then Some(0)
    else match FindById(users[1..], id)
      case None => None
      case Some(k) => Some(k + 1)
  }

  /** Looking an email up in a table grown by one row finds the same row as
      before, or the new row when the email was not there yet. */
  lemma {:induction false} FindByEmailAppend(users: seq<User>, u: User, email: string)
    ensures FindByEmail(users + [u], email) ==
      if FindByEmail(users, email).Some? then FindByEmail(users, email)
      else if u.email == email then Some(|users|)
      else None
  {
    if |users| > 0 {
      assert (users + [u])[1..] == users[1..] + [u];
      FindByEmailAppend(users[1..], u, email);
    }
  }

  /** Adding a row with a fresh email, a non-empty email and the id the
      counter stands at keeps the table invariant, with the counter moved
      on by one. */
  lemma AppendKeepsTableValid(users: seq<User>, nextId: nat, u: User)
    requires TableValid(users, nextId)
    requires FindByEmail(users, u.email).None?
    requires u.email != "" && u.id == nextId
    ensures TableValid(users + [u], nextId + 1)
    ensures forall v :: v in users ==> v.id != u.id
  {
  }
}
