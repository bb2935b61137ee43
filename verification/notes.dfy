/** Notes (app/models/note.rb): the stored row, the status enum shared with
    `NoteStatusChange`, and the status rule of `Note#update_status!`. */
module Notes {
  import opened Wrappers

  type UserId = nat
  type NoteId = nat

  /** `enum :status, { pending: 0, helpful: 1, not_helpful: 2 }` */
  datatype Status = Pending | Helpful | NotHelpful

  /** The integer stored in the `status` column. */
  function StatusCode(s: Status): (code: nat)
    ensures code <= 2
  {
    match s
    case Pending => 0
    case Helpful => 1
    case NotHelpful => 2
  }

  /** `Note.statuses.key(code)`: the status name for a stored code, nil for an
      unknown code (used by `NoteStatusChange#from_status_name`). */
  function StatusOfCode(code: int): (s: Option<Status>)
    ensures s.Some? <==> 0 <= code <= 2
  {
    if code == 0 then Some(Pending)
    else if code == 1 then Some(Helpful)
    else if code == 2 then Some(NotHelpful)
    else None
  }

  /** Decoding a stored code inverts encoding, in both directions. */
  lemma StatusCodeRoundTrip(s: Status, code: int)
    ensures StatusOfCode(StatusCode(s)) == Some(s)
    ensures StatusOfCode(code).Some? ==> StatusCode(StatusOfCode(code).value) == code
  {
  }

  /** The three rating tallies stored on a note. */
  datatype Tally = Tally(helpful: nat, somewhat: nat, notHelpful: nat)

  /** The scored part of a `notes` row: its author, its tallies and its
      status. */
  datatype Note = Note(author: UserId, tally: Tally, status: Status)

  /** Helpful and somewhat ratings both count as positive. */
  function Positive(t: Tally): nat
  {
    t.helpful + t.somewhat
  }

  /** The minimum number of agreeing ratings before a note is decided. */
  const MinVotes: nat := 3

  /** The helpful condition: at least three positive ratings, and more than
      twice as many positive as not-helpful ones. */
  predicate MeetsHelpful(t: Tally)
  {
    Positive(t) >= MinVotes && Positive(t) > 2 * t.notHelpful
  }

  /** The not-helpful condition, the mirror image of `MeetsHelpful`. */
  predicate MeetsNotHelpful(t: Tally)
  {
    t.notHelpful >= MinVotes && t.notHelpful > 2 * Positive(t)
  }

  /** A decided note is helpful or not helpful. */
  predicate Decided(s: Status)
  {
    s != Pending
  }

  /** The status `update_status!` leaves behind, given the status before the
      call and the current tallies. The helpful test comes first, but since the
      two conditions exclude each other the order does not matter: each
      condition forces its status, and with neither the status is kept. */
  function UpdateStatus(current: Status, t: Tally): (next: Status)
    ensures MeetsHelpful(t) ==> next == Helpful
    ensures MeetsNotHelpful(t) ==> next == NotHelpful
    ensures !MeetsHelpful(t) && !MeetsNotHelpful(t) ==> next == current
    ensures next == Pending ==> current == Pending
  {
    if MeetsHelpful(t) then Helpful
    else if MeetsNotHelpful(t) then NotHelpful
    else current
  }

  /** No tally meets both conditions. */
  lemma ThresholdsExclusive(t: Tally)
    ensures !(MeetsHelpful(t) && MeetsNotHelpful(t))
  {
  }

  /** A status is settled for a tally when re-running the rule keeps it. */
  predicate Settled(s: Status, t: Tally)
  {
    UpdateStatus(s, t) == s
  }

  /** Re-evaluating with unchanged counts changes nothing. */
  lemma UpdateStatusIdempotent(s: Status, t: Tally)
    ensures Settled(UpdateStatus(s, t), t)
  {
  }

  /** Once a tally meets either threshold, the previous status is irrelevant:
      in particular a helpful note moves straight to not helpful, and back,
      without passing through pending. */
  lemma DecisionIgnoresCurrent(s1: Status, s2: Status, t: Tally)
    requires MeetsHelpful(t) || MeetsNotHelpful(t)
    ensures UpdateStatus(s1, t) == UpdateStatus(s2, t)
  {
  }

  /** A decided note never returns to pending, whatever the tallies. */
  lemma DecidedStaysDecided(s: Status, t: Tally)
    requires Decided(s)
    ensures Decided(UpdateStatus(s, t))
  {
  }

  /** A settled note that is not already not-helpful cannot become
      not-helpful by receiving one more positive rating. */
  lemma PositiveRatingNeverCondemns(s: Status, t: Tally)
    requires Settled(s, t) && s != NotHelpful
    ensures UpdateStatus(s, Tally(t.helpful + 1, t.somewhat, t.notHelpful)) != NotHelpful
    ensures UpdateStatus(s, Tally(t.helpful, t.somewhat + 1, t.notHelpful)) != NotHelpful
  {
    if MeetsNotHelpful(Tally(t.helpful + 1, t.somewhat, t.notHelpful)) {
      assert MeetsNotHelpful(t);
    }
  }

  /** Symmetrically, one more not-helpful rating cannot make a settled note
      helpful unless it already is. */
  lemma NegativeRatingNeverEndorses(s: Status, t: Tally)
    requires Settled(s, t) && s != Helpful
    ensures UpdateStatus(s, Tally(t.helpful, t.somewhat, t.notHelpful + 1)) != Helpful
  {
    if MeetsHelpful(Tally(t.helpful, t.somewhat, t.notHelpful + 1)) {
      assert MeetsHelpful(t);
    }
  }

  /** Threshold cases on and beside each boundary. */
  lemma ThresholdExamples()
    ensures UpdateStatus(Pending, Tally(3, 0, 0)) == Helpful
    ensures UpdateStatus(Pending, Tally(2, 0, 0)) == Pending
    ensures UpdateStatus(Pending, Tally(1, 0, 0)) == Pending
    ensures UpdateStatus(Pending, Tally(3, 0, 2)) == Pending
    ensures UpdateStatus(Pending, Tally(5, 0, 2)) == Helpful
    ensures UpdateStatus(Pending, Tally(1, 2, 0)) == Helpful
    ensures UpdateStatus(Helpful, Tally(0, 0, 3)) == NotHelpful
    ensures UpdateStatus(NotHelpful, Tally(3, 0, 1)) == Helpful
  {
  }
}
