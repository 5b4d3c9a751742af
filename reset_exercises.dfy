/** The `reset_exercises` management command: the daily reset run over every
    user, with the inclusive 24-hour threshold. */
module ResetExercises {
  import opened Wrappers
  import opened Records
  import opened Views

  /** The command's threshold: never reset, or at least 24 hours ago. */
  predicate DueInclusive(lastReset: Option<int>, now: int)
  {
    lastReset.None? || now - lastReset.value >= Day
  }

  /** The two thresholds agree except at exactly one day, where only the
      command's inclusive test fires. */
  lemma ThresholdsDiffer(lastReset: Option<int>, now: int)
    ensures DueStrict(lastReset, now) ==> DueInclusive(lastReset, now)
    ensures DueInclusive(lastReset, now) && !DueStrict(lastReset, now) <==>
      lastReset.Some? && now - lastReset.value == Day
  {
  }

  /** The users of `users` whose reset is due at `now`. */
  ghost function DueUsers(lastReset: map<nat, Option<int>>, users: set<nat>, now: int): (r: set<nat>)
    ensures r <= users
    ensures forall u :: u in r <==> u in users && u in lastReset && DueInclusive(lastReset[u], now)
  {
    set u | u in users && u in lastReset && DueInclusive(lastReset[u], now)
  }

  /** `reset_user_exercises(user)` of the command. */
  method ResetUserExercises(db: Store, user: nat, now: int)
    requires db.Valid() && user in db.lastReset
    modifies db
    ensures db.Valid()
    ensures db.reports == old(db.reports) && db.entries == old(db.entries)
    ensures DueInclusive(old(db.lastReset[user]), now) ==>
      db.rows == ResetRows(old(db.rows), {user}) && db.lastReset == old(db.lastReset)[user := Some(now)]
    ensures !DueInclusive(old(db.lastReset[user]), now) ==>
      db.rows == old(db.rows) && db.lastReset == old(db.lastReset)
  {
    if DueInclusive(db.lastReset[user], now) {
      ResetRowsProperties(db.rows, {user});
      db.rows := ResetRows(db.rows, {user});
      db.lastReset := db.lastReset[user := Some(now)];
    }
  }

  /** `Command.handle`: every user in turn. The result is the reset of all
      due users at once, so no user's reset depends on another's. */
  method Handle(db: Store, now: int)
    requires db.Valid()
    modifies db
    ensures db.Valid()
    ensures db.reports == old(db.reports) && db.entries == old(db.entries)
    ensures db.rows == ResetRows(old(db.rows), DueUsers(old(db.lastReset), old(db.lastReset).Keys, now))
    ensures db.lastReset.Keys == old(db.lastReset).Keys
    ensures forall u :: u in db.lastReset ==>
      db.lastReset[u] == if DueInclusive(old(db.lastReset)[u], now) then Some(now) else old(db.lastReset)[u]
  {
    ghost var rows0, last0 := db.rows, db.lastReset;
    var todo := db.lastReset.Keys;
    ghost var done: set<nat> := {};
    assert ResetRows(rows0, {}) == rows0;
    while todo != {}
      invariant db.Valid()
      invariant done + todo == last0.Keys && done !! todo
      invariant db.reports == old(db.reports) && db.entries == old(db.entries)
      invariant db.rows == ResetRows(rows0, DueUsers(last0, done, now))
      invariant db.lastReset.Keys == last0.Keys
      invariant forall u :: u in todo ==> db.lastReset[u] == last0[u]
      invariant forall u :: u in done ==>
        db.lastReset[u] == if DueInclusive(last0[u], now) then Some(now) else last0[u]
      decreases todo
    {
      var u :| u in todo;
      ResetUserExercises(db, u, now);
      if DueInclusive(last0[u], now) {
        ResetRowsCompose(rows0, DueUsers(last0, done, now), u);
        assert DueUsers(last0, done + {u}, now) == DueUsers(last0, done, now) + {u};
      } else {
        assert DueUsers(last0, done + {u}, now) == DueUsers(last0, done, now);
      }
      todo, done := todo - {u}, done + {u};
    }
  }
}
