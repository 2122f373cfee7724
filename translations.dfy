/** The `translation_history` table: one row per translation a user saved. */
module Translations {
  import opened Requests
  import Users

  /** The declared width of `target_language`, `String(10)`. */
  const TargetLanguageMaxLength: nat := 10

  /** A row. `id` is the primary key; `user_id` is a nullable foreign key
      into `users`; `original_text` and `target_language` are never null;
      `created_at` is the time of insertion. Timestamps are plain integers. */
  datatype Translation = Translation(
    id: nat,
    userId: Option<int>,
    originalText: string,
    targetLanguage: string,
    createdAt: int)

  /** The invariant of the table: keys distinct and handed out by the
      autoincrement counter (starting at 1, now at `nextId`), and every
      `target_language` within its declared width. */
  ghost predicate TableValid(ts: seq<Translation>, nextId: nat)
  {
    && (forall i, j :: 0 <= i < j < |ts| ==> ts[i].id != ts[j].id)
    && nextId >= 1
    && (forall t :: t in ts ==> 1 <= t.id < nextId)
    && (forall t :: t in ts ==> |t.targetLanguage| <= TargetLanguageMaxLength)
  }

  /** The foreign key: a non-null `user_id` is the id of some user. */
  ghost predicate OwnersExist(ts: seq<Translation>, users: seq<Users.User>)
  {
    forall t :: t in ts && t.userId.Some? ==> Users.HasId(users, t.userId.value)
  }
}
