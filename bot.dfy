/**
 * The delivery logic of main.py on top of the progress store: one delivery
 * (select, send, record), the daily broadcast to every opted-in user, the
 * classification shown by the progress command, and the command handlers
 * that register an unknown user before they touch the store.
 *
 * The Telegram transport is not modelled: formatting a word's message and
 * sending it (`format_word_message`, then `send_message`) is represented by
 * whether both went through (true) or one of them raised (false).
 */
module Bot {
  import opened Wrappers
  import opened Seqs
  import opened Selection
  import opened Store
  import opened Catalog

  /** Why `send_next_word` raised. */
  datatype SendError =
    | NoSuchWord       // `WORDS_DATABASE[word_id]` is out of range: the catalog is empty
    | TransportFailed  // `format_word_message` or `send_message` raised

  /** A `send_next_word` attempt delivers when the catalog has a word and formatting and sending go through. */
  predicate Delivers(catalogSize: int, sendOk: bool) {
    catalogSize >= 1 && sendOk
  }

  /**
   * A user's history after one `send_next_word` attempt: the selection step
   * always runs (and may reset the cycle); the selected position is recorded
   * when the word was formatted and sent, and only then.
   */
  function AfterAttempt(sent: seq<int>, total: int, sendOk: bool): seq<int> {
    if Delivers(total, sendOk) then Deliver(sent, total) else AfterSelect(sent, total)
  }

  /**
   * What one attempt does to the history: a delivered position is recorded,
   * a failed one is not; before exhaustion the old history stays a prefix,
   * after it at most one position remains.
   */
  lemma AttemptEffect(sent: seq<int>, total: int, sendOk: bool)
    ensures Delivers(total, sendOk) ==> NextWordId(sent, total) in AfterAttempt(sent, total, sendOk)
    ensures NoDup(sent) && !Delivers(total, sendOk) ==> NextWordId(sent, total) !in AfterAttempt(sent, total, sendOk)
    ensures |sent| < total ==>
      |sent| <= |AfterAttempt(sent, total, sendOk)| && AfterAttempt(sent, total, sendOk)[..|sent|] == sent
    ensures |sent| >= total ==> |AfterAttempt(sent, total, sendOk)| <= 1
  {
    if NoDup(sent) && |sent| < total {
      LeastUnsent(sent, total);
    }
  }

  /**
   * A failed send leaves the history as the selection step left it, so the
   * next attempt selects the same position again (that is, in a running
   * cycle the failed position is not skipped).
   */
  lemma FailedSendIsRetried(sent: seq<int>, total: int)
    ensures NextWordId(AfterAttempt(sent, total, false), total) == NextWordId(sent, total)
    ensures |sent| < total ==> AfterAttempt(sent, total, false) == sent
  {
    SelectionIsStable(sent, total);
  }

  /** Attempts, failed or not, keep a user's history a set of distinct catalog positions. */
  lemma AttemptKeepsInCatalog(sent: seq<int>, total: int, sendOk: bool)
    requires total >= 1
    requires NoDup(sent) && InCatalog(sent, total)
    ensures NoDup(AfterAttempt(sent, total, sendOk)) && InCatalog(AfterAttempt(sent, total, sendOk), total)
    ensures |AfterAttempt(sent, total, sendOk)| <= total
  {
    if sendOk {
      DeliverKeepsInCatalog(sent, total);
    }
  }

  /**
   * `send_next_word`: select a position, look its word up, send it, and
   * only then record the position.  The reset done by the selection step is
   * kept whether or not the rest fails.
   */
  method SendNextWord(db: Database, catalog: seq<WordEntry>, u: UserId, sendOk: bool)
    returns (r: Result<string, SendError>)
    requires db.Valid()
    modifies db
    ensures db.Valid()
    ensures db.users == old(db.users)
    ensures |catalog| == 0 ==> r == Failure(NoSuchWord)
    ensures |catalog| >= 1 && !sendOk ==> r == Failure(TransportFailed)
    ensures Delivers(|catalog|, sendOk) ==> r == Success(catalog[NextWordId(old(db.Sent(u)), |catalog|)].word)
    ensures db.Sent(u) == AfterAttempt(old(db.Sent(u)), |catalog|, sendOk)
    ensures forall v | v != u :: db.Sent(v) == old(db.Sent(v))
  {
    var p := db.GetNextWordId(u, |catalog|);
    if p >= |catalog| {
      return Failure(NoSuchWord);
    }
    if !sendOk {
      return Failure(TransportFailed);
    }
    var _ := db.AddWordToHistory(u, p);
    r := Success(catalog[p].word);
  }

  /** The number of users in `users` whose attempt delivers. */
  function Successes(users: seq<UserId>, catalogSize: int, transport: UserId -> bool): (n: nat)
    ensures n <= |users|
  {
    if users == [] then 0
    else
      Successes(users[..|users| - 1], catalogSize, transport)
        + (if Delivers(catalogSize, transport(users[|users| - 1])) then 1 else 0)
  }

  /** Counting one more attempt adds one exactly when it delivers. */
  lemma SuccessesStep(users: seq<UserId>, i: nat, catalogSize: int, transport: UserId -> bool)
    requires i < |users|
    ensures Successes(users[..i + 1], catalogSize, transport)
      == Successes(users[..i], catalogSize, transport) + (if Delivers(catalogSize, transport(users[i])) then 1 else 0)
  {
    assert users[..i + 1][..i] == users[..i];
  }

  /** When every send succeeds, every user counts. */
  lemma {:induction false} AllDelivered(users: seq<UserId>, catalogSize: int, transport: UserId -> bool)
    requires catalogSize >= 1
    requires forall v | v in users :: transport(v)
    ensures Successes(users, catalogSize, transport) == |users|
  {
    if users != [] {
      var init := users[..|users| - 1];
      assert forall v | v in init :: v in users;
      AllDelivered(init, catalogSize, transport);
      var last := users[|users| - 1];
      assert last in users;
    }
  }

  /** With one user whose send fails and all others succeeding, the count is one short. */
  lemma {:induction false} OneFailure(users: seq<UserId>, catalogSize: int, transport: UserId -> bool, f: UserId)
    requires catalogSize >= 1
    requires NoDup(users) && f in users && !transport(f)
    requires forall v | v in users && v != f :: transport(v)
    ensures Successes(users, catalogSize, transport) == |users| - 1
  {
    var init := users[..|users| - 1];
    var last := users[|users| - 1];
    assert forall v | v in init :: v in users;
    assert NoDup(init);
    if last == f {
      AllDelivered(init, catalogSize, transport);
    } else {
      assert users == init + [last];
      OneFailure(init, catalogSize, transport, f);
    }
  }

  /**
   * The broadcast's progress after the attempts for `attempted[..i]`: the
   * histories `h` of the users attempted are their starting histories
   * `start` after one attempt, everybody else's are untouched.
   */
  ghost predicate BroadcastProgress(attempted: seq<UserId>, i: nat, h: map<UserId, seq<int>>,
                                    start: map<UserId, seq<int>>, catalogSize: int, transport: UserId -> bool)
    requires i <= |attempted|
  {
    && (forall j | 0 <= j < i ::
          HistoryOf(h, attempted[j]) == AfterAttempt(HistoryOf(start, attempted[j]), catalogSize, transport(attempted[j])))
    && (forall v {:trigger HistoryOf(h, v)} | v !in attempted[..i] :: HistoryOf(h, v) == HistoryOf(start, v))
  }

  /** One more attempt, touching only its own user, extends the broadcast's progress by one user. */
  lemma BroadcastStep(attempted: seq<UserId>, i: nat, pre: map<UserId, seq<int>>, post: map<UserId, seq<int>>,
                      start: map<UserId, seq<int>>, catalogSize: int, transport: UserId -> bool)
    requires NoDup(attempted) && i < |attempted|
    requires BroadcastProgress(attempted, i, pre, start, catalogSize, transport)
    requires HistoryOf(post, attempted[i]) == AfterAttempt(HistoryOf(pre, attempted[i]), catalogSize, transport(attempted[i]))
    requires forall v | v != attempted[i] :: HistoryOf(post, v) == HistoryOf(pre, v)
    ensures BroadcastProgress(attempted, i + 1, post, start, catalogSize, transport)
  {
    var u := attempted[i];
    forall j | 0 <= j < i
      ensures HistoryOf(post, attempted[j]) == HistoryOf(pre, attempted[j])
    {
      assert attempted[j] != u;
    }
    assert attempted[..i + 1] == attempted[..i] + [u];
  }

  /** Once every user was attempted, the progress states the broadcast's whole effect. */
  lemma BroadcastDone(attempted: seq<UserId>, h: map<UserId, seq<int>>,
                      start: map<UserId, seq<int>>, catalogSize: int, transport: UserId -> bool)
    requires BroadcastProgress(attempted, |attempted|, h, start, catalogSize, transport)
    ensures forall j | 0 <= j < |attempted| ::
      HistoryOf(h, attempted[j]) == AfterAttempt(HistoryOf(start, attempted[j]), catalogSize, transport(attempted[j]))
    ensures forall v | v !in attempted :: HistoryOf(h, v) == HistoryOf(start, v)
  {
    assert attempted[..|attempted|] == attempted;
  }

  /**
   * The body of the broadcast loop: one `send_next_word` attempt whose
   * exception, if any, is caught; reports whether it did not raise.
   */
  method TryDeliver(db: Database, catalog: seq<WordEntry>, u: UserId, sendOk: bool) returns (ok: bool)
    requires db.Valid()
    modifies db
    ensures db.Valid()
    ensures db.users == old(db.users)
    ensures ok <==> Delivers(|catalog|, sendOk)
    ensures HistoryOf(db.history, u) == AfterAttempt(HistoryOf(old(db.history), u), |catalog|, sendOk)
    ensures forall v {:trigger HistoryOf(db.history, v)} | v != u :: HistoryOf(db.history, v) == HistoryOf(old(db.history), v)
  {
    var r := SendNextWord(db, catalog, u, sendOk);
    ok := r.Success?;
    forall v | v != u ensures HistoryOf(db.history, v) == HistoryOf(old(db.history), v) {
      assert db.Sent(v) == old(db.Sent(v));
    }
  }

  /**
   * `send_daily_words`: one `send_next_word` attempt per opted-in user,
   * each failure caught so the loop goes on; `successCount` counts the
   * attempts that did not raise.  The transport's verdict for each user on
   * this run is `transport`.
   */
  method SendDailyWords(db: Database, catalog: seq<WordEntry>, transport: UserId -> bool)
    returns (attempted: seq<UserId>, successCount: nat)
    requires db.Valid()
    modifies db
    ensures db.Valid()
    ensures db.users == old(db.users)
    ensures NoDup(attempted)
    ensures forall v :: v in attempted <==> v in old(db.users) && old(db.users)[v].dailyNotifications == 1
    ensures successCount == Successes(attempted, |catalog|, transport)
    ensures successCount <= |attempted|
    ensures forall j | 0 <= j < |attempted| ::
      db.Sent(attempted[j]) == AfterAttempt(old(db.Sent(attempted[j])), |catalog|, transport(attempted[j]))
    ensures forall v | v !in attempted :: db.Sent(v) == old(db.Sent(v))
  {
    attempted := db.GetAllUsersWithNotifications();
    successCount := 0;
    ghost var start := db.history;
    var i := 0;
    while i < |attempted|
      invariant 0 <= i <= |attempted|
      invariant db.Valid() && db.users == old(db.users)
      invariant successCount == Successes(attempted[..i], |catalog|, transport)
      invariant BroadcastProgress(attempted, i, db.history, start, |catalog|, transport)
    {
      var u := attempted[i];
      ghost var pre := db.history;
      var ok := TryDeliver(db, catalog, u, transport(u));
      BroadcastStep(attempted, i, pre, db.history, start, |catalog|, transport);
      SuccessesStep(attempted, i, |catalog|, transport);
      if ok {
        successCount := successCount + 1;
      }
      i := i + 1;
    }
    assert attempted[..i] == attempted;
    BroadcastDone(attempted, db.history, start, |catalog|, transport);
  }

  /** The closing line of the progress message. */
  datatype ProgressStatus = NotStarted | Completed | Remaining(count: int)

  /** The branch of `progress_command` that picks the closing line; exactly one applies. */
  function Classify(learned: int, total: int): (s: ProgressStatus)
    ensures s == NotStarted <==> learned == 0
    ensures s == Completed <==> learned != 0 && learned == total
    ensures s.Remaining? <==> learned != 0 && learned != total
    ensures s.Remaining? ==> s.count == total - learned
    ensures s.Remaining? && 0 <= learned <= total ==> s.count > 0
  {
    if learned == 0 then NotStarted
    else if learned == total then Completed
    else Remaining(total - learned)
  }

  /**
   * For a fresh user who has had `k` deliveries of the first cycle the
   * message says not started, `total - k` remaining, or completed.
   */
  lemma ProgressOfFirstCycle(k: nat, total: int)
    requires 1 <= total && k <= total
    ensures |Delivered(k, total)| == k
    ensures k == 0 ==> Classify(|Delivered(k, total)|, total) == NotStarted
    ensures 0 < k < total ==> Classify(|Delivered(k, total)|, total) == Remaining(total - k)
    ensures k == total ==> Classify(|Delivered(k, total)|, total) == Completed
  {
    FirstCycle(k, total);
  }

  /** What `progress_command` replies. */
  datatype ProgressReply =
    | AskToStart  // the user is unknown: "press /start first"
    | Report(learned: nat, total: int, status: ProgressStatus)

  /** `progress_command` (without the message text): guard, progress query, classification. */
  method ProgressCommand(db: Database, catalog: seq<WordEntry>, u: UserId)
    returns (r: Result<ProgressReply, StoreError>)
    ensures u !in db.users ==> r == Success(AskToStart)
    ensures u in db.users && |catalog| == 0 ==> r == Failure(DivisionByZero)
    ensures u in db.users && |catalog| != 0 ==>
      r == Success(Report(|db.Sent(u)|, |catalog|, Classify(|db.Sent(u)|, |catalog|)))
  {
    var known := db.UserExists(u);
    if !known {
      return Success(AskToStart);
    }
    var progress := db.GetUserProgress(u, |catalog|);
    if progress.Failure? {
      return Failure(progress.error);
    }
    var learned := progress.value.wordsLearned;
    r := Success(Report(learned, progress.value.totalWords, Classify(learned, |catalog|)));
  }

  /** `restart_command`: resets the progress of a known user; an unknown one is asked to /start. */
  method RestartCommand(db: Database, u: UserId) returns (done: bool)
    requires db.Valid()
    modifies db
    ensures db.Valid()
    ensures done <==> u in old(db.users)
    ensures db.users == old(db.users)
    ensures done ==> db.history == old(db.history) - {u}
    ensures !done ==> db.history == old(db.history)
  {
    done := db.UserExists(u);
    if done {
      db.ResetUserProgress(u);
    }
  }

  /** The guard of `word_command` and `button_callback`: register the user if unknown. */
  method EnsureRegistered(db: Database, u: UserId, username: Option<string>, now: string)
    requires db.Valid()
    modifies db
    ensures db.Valid()
    ensures u in db.users
    ensures u in old(db.users) ==> db.users == old(db.users)
    ensures u !in old(db.users) ==> db.users == old(db.users)[u := UserRow(username, 1, now, DefaultTimezone)]
    ensures db.history == old(db.history)
  {
    var known := db.UserExists(u);
    if !known {
      var _ := db.AddUser(u, username, now);
    }
  }

  /** `word_command`: register if needed, then deliver the next word. */
  method WordCommand(db: Database, catalog: seq<WordEntry>, u: UserId, username: Option<string>, now: string, sendOk: bool)
    returns (r: Result<string, SendError>)
    requires db.Valid()
    modifies db
    ensures db.Valid()
    ensures u in db.users
    ensures u in old(db.users) ==> db.users == old(db.users)
    ensures u !in old(db.users) ==> db.users == old(db.users)[u := UserRow(username, 1, now, DefaultTimezone)]
    ensures Delivers(|catalog|, sendOk) <==> r.Success?
    ensures r.Success? ==> r.value == catalog[NextWordId(old(db.Sent(u)), |catalog|)].word
    ensures db.Sent(u) == AfterAttempt(old(db.Sent(u)), |catalog|, sendOk)
    ensures forall v | v != u :: db.Sent(v) == old(db.Sent(v))
  {
    EnsureRegistered(db, u, username, now);
    r := SendNextWord(db, catalog, u, sendOk);
  }

  /** What `button_callback` did, by the button's callback data. */
  datatype CallbackReply =
    | WordSent(word: Result<string, SendError>)
    | NotificationsToggled(enabled: bool)
    | ProgressShown(progress: Result<ProgressReply, StoreError>)
    | HelpShown
    | Ignored  // callback data matching no button

  /**
   * `button_callback`: register if needed, then dispatch on the callback
   * data.  Because of the guard the toggle always finds the user's row.
   */
  method ButtonCallback(db: Database, catalog: seq<WordEntry>, u: UserId, username: Option<string>, now: string,
                        data: string, sendOk: bool)
    returns (reply: CallbackReply)
    requires db.Valid()
    modifies db
    ensures db.Valid()
    ensures u in db.users
    ensures data != "toggle_notifications" && u in old(db.users) ==> db.users == old(db.users)
    ensures data != "toggle_notifications" && u !in old(db.users) ==>
      db.users == old(db.users)[u := UserRow(username, 1, now, DefaultTimezone)]
    ensures data == "get_word" ==> reply.WordSent? && (reply.word.Success? <==> Delivers(|catalog|, sendOk))
    ensures data == "get_word" && reply.word.Success? ==>
      reply.word.value == catalog[NextWordId(old(db.Sent(u)), |catalog|)].word
    ensures data == "get_word" ==> db.Sent(u) == AfterAttempt(old(db.Sent(u)), |catalog|, sendOk)
    ensures data == "get_word" ==> forall v | v != u :: db.Sent(v) == old(db.Sent(v))
    ensures data == "toggle_notifications" && u in old(db.users) ==>
      reply == NotificationsToggled(old(db.users)[u].dailyNotifications == 0)
      && db.users == old(db.users)[u := Toggled(old(db.users)[u])]
    ensures data == "toggle_notifications" && u !in old(db.users) ==>
      reply == NotificationsToggled(false)
      && db.users == old(db.users)[u := Toggled(UserRow(username, 1, now, DefaultTimezone))]
    ensures data == "progress" && |catalog| == 0 ==> reply == ProgressShown(Failure(DivisionByZero))
    ensures data == "progress" && |catalog| != 0 ==>
      reply == ProgressShown(Success(Report(|db.Sent(u)|, |catalog|, Classify(|db.Sent(u)|, |catalog|))))
    ensures data == "help" ==> reply == HelpShown
    ensures data != "get_word" ==> forall v :: db.Sent(v) == old(db.Sent(v))
    ensures data !in {"get_word", "toggle_notifications", "progress", "help"} ==> reply == Ignored
  {
    EnsureRegistered(db, u, username, now);
    if data == "get_word" {
      var w := SendNextWord(db, catalog, u, sendOk);
      reply := WordSent(w);
    } else if data == "toggle_notifications" {
      var t := db.ToggleNotifications(u);
      reply := NotificationsToggled(t.value);
    } else if data == "progress" {
      var p := ProgressCommand(db, catalog, u);
      reply := ProgressShown(p);
    } else if data == "help" {
      reply := HelpShown;
    } else {
      reply := Ignored;
    }
  }
}
