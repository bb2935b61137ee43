/** The persisted state touched by a rating write, and the callback chain of
    app/models/rating.rb: every save or destroy of a rating recounts the
    note's tallies, re-runs the status rule and recomputes the author's
    karma. */
module Store {
  import opened Wrappers
  import opened Notes
  import opened Ratings
  import opened Users

  /** Users and notes are addressed by their position; ratings form the
      ledger. */
  datatype Db = Db(users: seq<User>, notes: seq<Note>, ratings: seq<Rating>)

  datatype WriteError =
    | UserMissing   // `belongs_to :user` finds no user
    | NoteMissing   // `Note.find` / `belongs_to :note` finds no note
    | AlreadyRated  // the uniqueness validation on (user, note)

  /** Every note's author exists (the foreign key on `notes.author_id`). */
  predicate AuthorsExist(db: Db)
  {
    forall m :: 0 <= m < |db.notes| ==> db.notes[m].author < |db.users|
  }

  /** Every rating points at an existing user and note (the foreign keys on
      `ratings`). */
  ghost predicate RatingsResolve(db: Db)
  {
    forall i :: 0 <= i < |db.ratings| ==>
      db.ratings[i].user < |db.users| && db.ratings[i].note < |db.notes|
  }

  /** A note agrees with the ledger: its tallies are the recount, and its
      status is one the rule would keep. */
  ghost predicate NoteConsistent(db: Db, m: NoteId)
    requires m < |db.notes|
  {
    && db.notes[m].tally == Recount(db.ratings, m)
    && Settled(db.notes[m].status, db.notes[m].tally)
  }

  /** Every user's stored karma is the sum over the notes they wrote. */
  ghost predicate KarmaCurrent(db: Db)
  {
    forall u :: 0 <= u < |db.users| ==> db.users[u].karma == KarmaSum(db.notes, u)
  }

  /** No stored reputation exceeds the cap of `recalculate_reputation!`
      (the column starts at 0.0). */
  ghost predicate ReputationCapped(db: Db)
  {
    forall u :: 0 <= u < |db.users| ==> db.users[u].reputation <= 100.0
  }

  /** The state invariant, except that note `n` may be out of date: the
      state between a ledger write and its callback. */
  ghost predicate ValidExcept(db: Db, n: int)
  {
    && Unique(db.ratings)
    && AuthorsExist(db)
    && RatingsResolve(db)
    && KarmaCurrent(db)
    && ReputationCapped(db)
    && forall m :: 0 <= m < |db.notes| && m != n ==> NoteConsistent(db, m)
  }

  /** The state invariant: no note drifts from the ledger. */
  ghost predicate Valid(db: Db)
  {
    ValidExcept(db, -1)
  }

  /** `update_note_counters`: recount the note from the ledger, then
      `note.update_status!`, then `note.author.recalculate_karma!`. The
      stored tallies are overwritten, never adjusted, and the karma is
      computed from the fresh tallies. */
  function AfterRatingWrite(db: Db, n: NoteId): (db': Db)
    requires n < |db.notes| && AuthorsExist(db)
    ensures db'.ratings == db.ratings
    ensures |db'.notes| == |db.notes| && |db'.users| == |db.users|
    ensures db'.notes[n].author == db.notes[n].author
    ensures db'.notes[n].tally == Recount(db.ratings, n)
    ensures db'.notes[n].status == UpdateStatus(db.notes[n].status, Recount(db.ratings, n))
    ensures forall m :: 0 <= m < |db.notes| && m != n ==> db'.notes[m] == db.notes[m]
    ensures db'.users[db.notes[n].author].karma == KarmaSum(db'.notes, db.notes[n].author)
    ensures var a := db.notes[n].author; db'.users[a] == db.users[a].(karma := db'.users[a].karma)
    ensures forall u :: 0 <= u < |db.users| && u != db.notes[n].author ==> db'.users[u] == db.users[u]
    ensures forall u :: 0 <= u < |db.users| ==> db'.users[u].reputation == db.users[u].reputation
  {
    var note := db.notes[n];
    var tally := Recount(db.ratings, n);
    var notes' := db.notes[n := Note(note.author, tally, UpdateStatus(note.status, tally))];
    var author := note.author;
    Db(db.users[author := RecalculateKarma(db.users[author], notes', author)], notes', db.ratings)
  }

  /** `Rating.create`: validates the user, the note and the uniqueness of
      the pair, then appends the row and runs the callback. */
  function CreateRating(db: Db, user: UserId, n: NoteId, h: Helpfulness): (r: Result<Db, WriteError>)
    requires AuthorsExist(db)
    ensures user >= |db.users| <==> r == Failure(UserMissing)
    ensures user < |db.users| ==> (n >= |db.notes| <==> r == Failure(NoteMissing))
    ensures r == Failure(AlreadyRated) <==>
              user < |db.users| && n < |db.notes| && FindRating(db.ratings, user, n).Some?
    ensures r.Success? ==> r.value.ratings == db.ratings + [Rating(user, n, h)]
    ensures r.Success? ==> r.value == AfterRatingWrite(db.(ratings := db.ratings + [Rating(user, n, h)]), n)
  {
    if user >= |db.users| then Failure(UserMissing)
    else if n >= |db.notes| then Failure(NoteMissing)
    else if FindRating(db.ratings, user, n).Some? then Failure(AlreadyRated)
    else Success(AfterRatingWrite(db.(ratings := db.ratings + [Rating(user, n, h)]), n))
  }

  /** Rating a note through the API: `find_or_initialize_by(note:)`, set the
      value, save. Rating again overwrites the user's row in place. */
  function RateNote(db: Db, user: UserId, n: NoteId, h: Helpfulness): (r: Result<Db, WriteError>)
    requires AuthorsExist(db)
    ensures user >= |db.users| <==> r == Failure(UserMissing)
    ensures user < |db.users| ==> (n >= |db.notes| <==> r == Failure(NoteMissing))
    ensures r != Failure(AlreadyRated)
    ensures r.Success? ==> r.value.ratings == Upsert(db.ratings, user, n, h)
    ensures r.Success? ==> r.value == AfterRatingWrite(db.(ratings := Upsert(db.ratings, user, n, h)), n)
  {
    if user >= |db.users| then Failure(UserMissing)
    else if n >= |db.notes| then Failure(NoteMissing)
    else Success(AfterRatingWrite(db.(ratings := Upsert(db.ratings, user, n, h)), n))
  }

  /** `rating.destroy`: removes the user's row for the note, if any, and
      runs the callback; with no row there is nothing to destroy. */
  function DestroyRating(db: Db, user: UserId, n: NoteId): (db': Db)
    requires AuthorsExist(db)
    ensures FindRating(db.ratings, user, n).None? || n >= |db.notes| ==> db' == db
    ensures FindRating(db.ratings, user, n).Some? && n < |db.notes| ==>
              db' == AfterRatingWrite(db.(ratings := RemoveAt(db.ratings, FindRating(db.ratings, user, n).value)), n)
    ensures Unique(db.ratings) && n < |db.notes| ==> FindRating(db'.ratings, user, n).None?
  {
    var k := FindRating(db.ratings, user, n);
    if k.Some? && n < |db.notes| then
      var rs' := RemoveAt(db.ratings, k.value);
      DestroyLeavesNoRow(db.ratings, user, n, k.value);
      AfterRatingWrite(db.(ratings := rs'), n)
    else db
  }

  lemma DestroyLeavesNoRow(rs: seq<Rating>, user: UserId, n: NoteId, k: nat)
    requires k < |rs| && HasPair(rs[k], user, n)
    ensures Unique(rs) ==> FindRating(RemoveAt(rs, k), user, n).None?
  {
    if Unique(rs) {
      var rs' := RemoveAt(rs, k);
      forall i | 0 <= i < |rs'| ensures !HasPair(rs'[i], user, n)
      {
        var i0 := if i < k then i else i + 1;
        assert rs'[i] == rs[i0] && i0 != k;
        assert (rs[i0].user, rs[i0].note) != (rs[k].user, rs[k].note);
      }
    }
  }

  /** The callback restores the invariant for the note it recounts, and
      leaves the rest of the state consistent. */
  lemma CallbackRestoresValid(db: Db, n: NoteId)
    requires n < |db.notes| && ValidExcept(db, n)
    ensures Valid(AfterRatingWrite(db, n))
  {
    var db' := AfterRatingWrite(db, n);
    var author := db.notes[n].author;
    UpdateStatusIdempotent(db.notes[n].status, Recount(db.ratings, n));
    forall u | 0 <= u < |db'.users|
      ensures db'.users[u].karma == KarmaSum(db'.notes, u)
    {
      if u != author {
        KarmaReplace(db.notes, n, db'.notes[n], u);
        assert db'.notes == db.notes[n := db'.notes[n]];
      }
    }
    forall m | 0 <= m < |db'.notes|
      ensures NoteConsistent(db', m)
    {
      if m != n {
        assert NoteConsistent(db, m);
      }
    }
    assert AuthorsExist(db') by {
      assert forall m :: 0 <= m < |db'.notes| ==> db'.notes[m].author == db.notes[m].author;
    }
  }

  /** A ledger change confined to note `n` (overwriting, appending or
      removing one of its rows) leaves every other note's recount as it was. */
  lemma ReplaceKeepsOtherRecounts(rs: seq<Rating>, k: nat, r: Rating, m: NoteId)
    requires k < |rs| && rs[k].note == r.note && m != r.note
    ensures Recount(rs[k := r], m) == Recount(rs, m)
  {
    ReplaceEffect(rs, k, r, m, Yes);
    ReplaceEffect(rs, k, r, m, Somewhat);
    ReplaceEffect(rs, k, r, m, No);
  }

  lemma AppendKeepsOtherRecounts(rs: seq<Rating>, r: Rating, m: NoteId)
    requires m != r.note
    ensures Recount(rs + [r], m) == Recount(rs, m)
  {
    AppendEffect(rs, r, m, Yes);
    AppendEffect(rs, r, m, Somewhat);
    AppendEffect(rs, r, m, No);
  }

  lemma RemoveKeepsOtherRecounts(rs: seq<Rating>, k: nat, m: NoteId)
    requires k < |rs| && m != rs[k].note
    ensures Recount(RemoveAt(rs, k), m) == Recount(rs, m)
  {
    RemoveEffect(rs, k, m, Yes);
    RemoveEffect(rs, k, m, Somewhat);
    RemoveEffect(rs, k, m, No);
  }

  /** Creating a rating keeps the state valid. */
  lemma CreateRatingPreservesValid(db: Db, user: UserId, n: NoteId, h: Helpfulness)
    requires Valid(db)
    ensures CreateRating(db, user, n, h).Success? ==> Valid(CreateRating(db, user, n, h).value)
  {
    if CreateRating(db, user, n, h).Success? {
      var r := Rating(user, n, h);
      var db1 := db.(ratings := db.ratings + [r]);
      forall i, j | 0 <= i < j < |db1.ratings|
        ensures (db1.ratings[i].user, db1.ratings[i].note) != (db1.ratings[j].user, db1.ratings[j].note)
      {
        if j == |db.ratings| {
          assert !HasPair(db.ratings[i], user, n);
        }
      }
      forall m | 0 <= m < |db1.notes| && m != n
        ensures NoteConsistent(db1, m)
      {
        assert NoteConsistent(db, m);
        AppendKeepsOtherRecounts(db.ratings, r, m);
      }
      CallbackRestoresValid(db1, n);
    }
  }

  /** Rating (or re-rating) a note keeps the state valid. */
  lemma RateNotePreservesValid(db: Db, user: UserId, n: NoteId, h: Helpfulness)
    requires Valid(db)
    ensures RateNote(db, user, n, h).Success? ==> Valid(RateNote(db, user, n, h).value)
  {
    if RateNote(db, user, n, h).Success? {
      var db1 := db.(ratings := Upsert(db.ratings, user, n, h));
      UpsertOverwrites(db.ratings, user, n, h);
      var k := FindRating(db.ratings, user, n);
      forall m | 0 <= m < |db1.notes| && m != n
        ensures NoteConsistent(db1, m)
      {
        assert NoteConsistent(db, m);
        if k.Some? {
          ReplaceKeepsOtherRecounts(db.ratings, k.value, Rating(user, n, h), m);
        } else {
          AppendKeepsOtherRecounts(db.ratings, Rating(user, n, h), m);
        }
      }
      CallbackRestoresValid(db1, n);
    }
  }

  /** Destroying a rating keeps the state valid. */
  lemma DestroyRatingPreservesValid(db: Db, user: UserId, n: NoteId)
    requires Valid(db)
    ensures Valid(DestroyRating(db, user, n))
  {
    var k := FindRating(db.ratings, user, n);
    if k.Some? && n < |db.notes| {
      var db1 := db.(ratings := RemoveAt(db.ratings, k.value));
      RemoveAtKeepsUnique(db.ratings, k.value);
      forall m | 0 <= m < |db1.notes| && m != n
        ensures NoteConsistent(db1, m)
      {
        assert NoteConsistent(db, m);
        RemoveKeepsOtherRecounts(db.ratings, k.value, m);
      }
      CallbackRestoresValid(db1, n);
    }
  }

  /** Running the callback again without an intervening write changes
      nothing: tallies, status and karma are already current. */
  lemma CallbackIsNoOpWhenValid(db: Db, n: NoteId)
    requires Valid(db) && n < |db.notes|
    ensures AfterRatingWrite(db, n) == db
  {
    var db' := AfterRatingWrite(db, n);
    assert NoteConsistent(db, n);
    assert db'.notes[n] == db.notes[n];
    assert db'.notes == db.notes;
    assert db'.users == db.users;
  }

  /** Re-rating with a different value moves exactly one vote from the old
      tally to the new one; nothing is added. */
  lemma ReRatingMovesOneVote(db: Db, user: UserId, n: NoteId, h: Helpfulness, k: nat)
    requires Valid(db) && n < |db.notes| && user < |db.users|
    requires k < |db.ratings| && HasPair(db.ratings[k], user, n)
    ensures RateNote(db, user, n, h).Success?
    ensures var t := RateNote(db, user, n, h).value.notes[n].tally;
            var t0 := db.notes[n].tally;
            var was := db.ratings[k].helpfulness;
            && t.helpful == t0.helpful - (if was == Yes then 1 else 0) + (if h == Yes then 1 else 0)
            && t.somewhat == t0.somewhat - (if was == Somewhat then 1 else 0) + (if h == Somewhat then 1 else 0)
            && t.notHelpful == t0.notHelpful - (if was == No then 1 else 0) + (if h == No then 1 else 0)
    ensures Total(RateNote(db, user, n, h).value.notes[n].tally) == Total(db.notes[n].tally)
  {
    FindRatingIsTheOnlyRow(db.ratings, user, n, k);
    assert NoteConsistent(db, n);
    var r := Rating(user, n, h);
    ReplaceEffect(db.ratings, k, r, n, Yes);
    ReplaceEffect(db.ratings, k, r, n, Somewhat);
    ReplaceEffect(db.ratings, k, r, n, No);
  }

  /** `recalculate_reputation!` for one user, reading the statuses of the
      notes they rated. Only that user's reputation changes. */
  function RecalculateUserReputation(db: Db, user: UserId, now: int, log10: int -> real): (db': Db)
    requires user < |db.users|
    ensures db'.notes == db.notes && db'.ratings == db.ratings && |db'.users| == |db.users|
    ensures forall u :: 0 <= u < |db.users| && u != user ==> db'.users[u] == db.users[u]
    ensures db'.users[user] == db.users[user].(reputation := db'.users[user].reputation)
    ensures var raw := RawReputation(db.users[user], JudgedRatings(db.ratings, db.notes, user), now, log10);
            && Hundredths(db'.users[user].reputation)
            && (raw >= 0.0 ==> raw * 100.0 - 0.5 < db'.users[user].reputation * 100.0 <= raw * 100.0 + 0.5)
            && (raw < 0.0 ==> raw * 100.0 - 0.5 <= db'.users[user].reputation * 100.0 < raw * 100.0 + 0.5)
    ensures db'.users[user].reputation <= 100.0
    ensures ((db.users[user].accountCreatedAt.None? || db.users[user].accountCreatedAt.value <= now)
             && (forall f :: f > 0 ==> log10(f) >= 0.0)) ==> db'.users[user].reputation >= 0.0
  {
    var u' := RecalculateReputation(db.users[user], JudgedRatings(db.ratings, db.notes, user), now, log10);
    db.(users := db.users[user := u'])
  }

  lemma RecalculateUserReputationPreservesValid(db: Db, user: UserId, now: int, log10: int -> real)
    requires Valid(db) && user < |db.users|
    ensures Valid(RecalculateUserReputation(db, user, now, log10))
  {
    var db' := RecalculateUserReputation(db, user, now, log10);
    forall m | 0 <= m < |db'.notes|
      ensures NoteConsistent(db', m)
    {
      assert NoteConsistent(db, m);
    }
  }
}
