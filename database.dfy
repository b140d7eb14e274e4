/**
 * The progress store of database.py.  The SQLite tables are kept as two maps
 * keyed by user id: `users` holds the rows of the `users` table, `history`
 * holds, per user, the positions of the rows of `user_word_history` in the
 * order they were inserted.  A user without an entry in `history` has no
 * history rows.
 */
module Store {
  import opened Wrappers
  import opened Seqs
  import opened Selection

  type UserId = int

  /** The `timezone` column's default. */
  const DefaultTimezone: string := "Europe/Warsaw"

  /** A row of the `users` table; `dailyNotifications` is the integer column holding 0 or 1. */
  datatype UserRow = UserRow(username: Option<string>, dailyNotifications: int, createdAt: string, timezone: string)

  /** The failures the store reports instead of raising. */
  datatype StoreError =
    | UnknownUser     // `fetchone()` found no row for the id
    | DivisionByZero  // a progress percentage asked for a catalog of 0 words

  /** What `get_user_progress` reports, without the percentage. */
  datatype Progress = Progress(wordsLearned: nat, totalWords: int)

  /** The row after `SET daily_notifications = 1 - daily_notifications`. */
  function Toggled(row: UserRow): (r: UserRow)
    ensures r.username == row.username && r.createdAt == row.createdAt && r.timezone == row.timezone
    ensures row.dailyNotifications in {0, 1} ==> r.dailyNotifications in {0, 1}
    ensures row.dailyNotifications in {0, 1} ==> (r.dailyNotifications != 0 <==> row.dailyNotifications == 0)
  {
    row.(dailyNotifications := 1 - row.dailyNotifications)
  }

  /** Toggling twice restores the row. */
  lemma ToggleTwice(row: UserRow)
    ensures Toggled(Toggled(row)) == row
  {
  }

  /** The positions a history table records for `u`, oldest first. */
  function HistoryOf(history: map<UserId, seq<int>>, u: UserId): seq<int> {
    if u in history then history[u] else []
  }

  class Database {
    var users: map<UserId, UserRow>
    var history: map<UserId, seq<int>>

    /**
     * The store's invariants: the flag column only ever holds 0 or 1 (the
     * schema has no CHECK for it; every write is the default 1 or
     * `1 - daily_notifications`), and `UNIQUE(user_id, word_id)` keeps each
     * user's positions distinct.
     */
    ghost predicate Valid()
      reads this
    {
      && (forall u | u in users :: users[u].dailyNotifications in {0, 1})
      && (forall u | u in history :: NoDup(history[u]))
    }

    /** The positions recorded for `u`, oldest first. */
    function Sent(u: UserId): (s: seq<int>)
      reads this
      ensures Valid() ==> NoDup(s)
    {
      HistoryOf(history, u)
    }

    /** A store whose tables are freshly created and empty. */
    constructor ()
      ensures Valid()
      ensures users == map[] && history == map[]
    {
      users := map[];
      history := map[];
    }

    /**
     * `add_user`: INSERT OR IGNORE of a user row with notifications on.
     * Reports whether a row was inserted; an existing row is left as it was.
     */
    method AddUser(u: UserId, username: Option<string>, now: string) returns (isNew: bool)
      requires Valid()
      modifies this
      ensures Valid()
      ensures isNew <==> u !in old(users)
      ensures isNew ==> users == old(users)[u := UserRow(username, 1, now, DefaultTimezone)]
      ensures !isNew ==> users == old(users)
      ensures u in users
      ensures history == old(history)
    {
      isNew := u !in users;
      if isNew {
        users := users[u := UserRow(username, 1, now, DefaultTimezone)];
      }
    }

    /** `user_exists`. */
    method UserExists(u: UserId) returns (b: bool)
      ensures b <==> u in users
    {
      b := u in users;
    }

    /** `get_user_sent_words`: the recorded positions, oldest first and distinct. */
    method GetUserSentWords(u: UserId) returns (ws: seq<int>)
      requires Valid()
      ensures ws == Sent(u)
      ensures NoDup(ws)
    {
      ws := Sent(u);
    }

    /**
     * `add_word_to_history`: INSERT OR IGNORE of the pair (u, w); a pair
     * already present adds nothing.  Only u's history can change.
     */
    method AddWordToHistory(u: UserId, w: int) returns (ok: bool)
      requires Valid()
      modifies this
      ensures Valid() && ok
      ensures users == old(users)
      ensures history == old(history)[u := Recorded(old(Sent(u)), w)]
      ensures forall v | v != u :: Sent(v) == old(Sent(v))
    {
      var sent := Sent(u);
      history := history[u := Recorded(sent, w)];
      ok := true;
    }

    /** `reset_user_progress`: deletes u's history rows and nothing else. */
    method ResetUserProgress(u: UserId)
      requires Valid()
      modifies this
      ensures Valid()
      ensures users == old(users)
      ensures history == old(history) - {u}
      ensures Sent(u) == []
      ensures forall v | v != u :: Sent(v) == old(Sent(v))
    {
      history := history - {u};
    }

    /**
     * `get_next_word_id`: on exhaustion u's history is deleted and 0 is
     * returned; otherwise nothing changes and the scan over `range(total)`
     * returns the first unsent position.
     */
    method GetNextWordId(u: UserId, total: int) returns (w: int)
      requires Valid()
      modifies this
      ensures Valid()
      ensures users == old(users)
      ensures w == NextWordId(old(Sent(u)), total)
      ensures history == if |old(Sent(u))| >= total then old(history) - {u} else old(history)
      ensures Sent(u) == AfterSelect(old(Sent(u)), total)
      ensures forall v | v != u :: Sent(v) == old(Sent(v))
    {
      var sent := GetUserSentWords(u);
      if |sent| >= total {
        ResetUserProgress(u);
        return 0;
      }
      var i := 0;
      while i < total
        invariant 0 <= i <= total
        invariant FirstUnsent(sent, total, i) == FirstUnsent(sent, total, 0)
      {
        if i !in sent {
          return i;
        }
        i := i + 1;
      }
      return 0;
    }

    /**
     * `toggle_notifications`: flips the flag of an existing user and returns
     * the new state; for an unknown id nothing is updated and the read of
     * the missing row fails.
     */
    method ToggleNotifications(u: UserId) returns (r: Result<bool, StoreError>)
      requires Valid()
      modifies this
      ensures Valid()
      ensures history == old(history)
      ensures u !in old(users) ==> r == Failure(UnknownUser) && users == old(users)
      ensures u in old(users) ==> users == old(users)[u := Toggled(old(users)[u])]
      ensures u in old(users) ==> r == Success(old(users)[u].dailyNotifications == 0)
    {
      if u !in users {
        return Failure(UnknownUser);
      }
      users := users[u := Toggled(users[u])];
      r := Success(users[u].dailyNotifications != 0);
    }

    /** `get_notifications_enabled`: the flag of a known user, true for an unknown one. */
    method GetNotificationsEnabled(u: UserId) returns (b: bool)
      ensures u !in users ==> b
      ensures u in users ==> (b <==> users[u].dailyNotifications != 0)
    {
      b := if u in users then users[u].dailyNotifications != 0 else true;
    }

    /** `get_all_users_with_notifications`: every user whose flag is 1, each once. */
    method GetAllUsersWithNotifications() returns (ids: seq<UserId>)
      ensures NoDup(ids)
      ensures forall v :: v in ids <==> v in users && users[v].dailyNotifications == 1
    {
      ids := [];
      var rest: set<UserId> := users.Keys;
      while rest != {}
        invariant rest <= users.Keys
        invariant NoDup(ids)
        invariant forall i | 0 <= i < |ids| :: ids[i] in users && ids[i] !in rest && users[ids[i]].dailyNotifications == 1
        invariant forall v | v in users && v !in rest && users[v].dailyNotifications == 1 :: v in ids
        decreases rest
      {
        if forall y :: y !in rest {
          NoElementMeansEmpty(rest);
        }
        var x :| x in rest;
        if users[x].dailyNotifications == 1 {
          ids := ids + [x];
        }
        rest := rest - {x};
      }
    }

    /**
     * `get_user_progress` without its percentage: the number of recorded
     * positions and the catalog size passed in.  The percentage divides by
     * `total`, so a catalog of 0 words fails.
     */
    method GetUserProgress(u: UserId, total: int) returns (r: Result<Progress, StoreError>)
      ensures total == 0 ==> r == Failure(DivisionByZero)
      ensures total != 0 ==> r.Success? && r.value.wordsLearned == |Sent(u)| && r.value.totalWords == total
    {
      if total == 0 {
        return Failure(DivisionByZero);
      }
      r := Success(Progress(|Sent(u)|, total));
    }
  }
}
