/** The rating ledger of app/models/rating.rb: the helpfulness enum, the
    one-rating-per-(user, note) rule, and the full recount of a note's
    tallies that every save or destroy triggers. */
module Ratings {
  import opened Wrappers
  import opened Notes

  /** `enum :helpfulness, { yes: 0, somewhat: 1, no: 2 }` */
  datatype Helpfulness = Yes | Somewhat | No

  function HelpfulnessCode(h: Helpfulness): (code: nat)
    ensures code <= 2
  {
    match h
    case Yes => 0
    case Somewhat => 1
    case No => 2
  }

  /** The enum value for a stored code; nil for any other integer. */
  function HelpfulnessOfCode(code: int): (h: Option<Helpfulness>)
    ensures h.Some? <==> 0 <= code <= 2
  {
    if code == 0 then Some(Yes)
    else if code == 1 then Some(Somewhat)
    else if code == 2 then Some(No)
    else None
  }

  lemma HelpfulnessCodeRoundTrip(h: Helpfulness, code: int)
    ensures HelpfulnessOfCode(HelpfulnessCode(h)) == Some(h)
    ensures HelpfulnessOfCode(code).Some? ==> HelpfulnessCode(HelpfulnessOfCode(code).value) == code
  {
  }

  /** One row of the `ratings` table. */
  datatype Rating = Rating(user: UserId, note: NoteId, helpfulness: Helpfulness)

  /** The (user, note) pair is unique across the ledger: the model-level
      uniqueness validation and the unique index on the table. */
  ghost predicate Unique(rs: seq<Rating>)
  {
    forall i, j :: 0 <= i < j < |rs| ==> (rs[i].user, rs[i].note) != (rs[j].user, rs[j].note)
  }

  predicate HasPair(r: Rating, user: UserId, note: NoteId)
  {
    r.user == user && r.note == note
  }

  /** The position of the user's rating of the note, if there is one
      (`ratings.find_by(note: note)`). */
  function FindRating(rs: seq<Rating>, user: UserId, note: NoteId): (k: Option<nat>)
    ensures k.Some? ==> k.value < |rs| && HasPair(rs[k.value], user, note)
    ensures k.None? <==> forall i :: 0 <= i < |rs| ==> !HasPair(rs[i], user, note)
    decreases |rs|
  {
    if |rs| == 0 then None
    else if HasPair(rs[0], user, note) then Some(0)
    else
      var k := FindRating(rs[1..], user, note);
      if k.None? then None else Some(k.value + 1)
  }

  /** With a unique ledger, the pair's row is the only one holding the pair. */
  lemma FindRatingIsTheOnlyRow(rs: seq<Rating>, user: UserId, note: NoteId, i: nat)
    requires Unique(rs)
    requires i < |rs| && HasPair(rs[i], user, note)
    ensures FindRating(rs, user, note) == Some(i)
  {
    var k := FindRating(rs, user, note);
    assert k.Some?;
  }

  /** `find_or_initialize_by(note:)` followed by assigning the helpfulness and
      saving: an existing row is overwritten in place, otherwise one row is
      appended. */
  function Upsert(rs: seq<Rating>, user: UserId, note: NoteId, h: Helpfulness): (rs': seq<Rating>)
    ensures FindRating(rs, user, note).Some? ==> |rs'| == |rs|
    ensures FindRating(rs, user, note).None? ==> |rs'| == |rs| + 1
  {
    var k := FindRating(rs, user, note);
    if k.Some? then rs[k.value := Rating(user, note, h)]
    else rs + [Rating(user, note, h)]
  }

  /** Rating again leaves exactly one row for the pair, holding the new value,
      and leaves every other pair's row where it was. */
  lemma UpsertOverwrites(rs: seq<Rating>, user: UserId, note: NoteId, h: Helpfulness)
    requires Unique(rs)
    ensures Unique(Upsert(rs, user, note, h))
    ensures FindRating(Upsert(rs, user, note, h), user, note).Some?
    ensures var rs' := Upsert(rs, user, note, h);
            rs'[FindRating(rs', user, note).value] == Rating(user, note, h)
    ensures var rs' := Upsert(rs, user, note, h);
            forall i :: 0 <= i < |rs| && !HasPair(rs[i], user, note) ==> rs'[i] == rs[i]
  {
    var rs' := Upsert(rs, user, note, h);
    var k := FindRating(rs, user, note);
    if k.Some? {
      forall i, j | 0 <= i < j < |rs'|
        ensures (rs'[i].user, rs'[i].note) != (rs'[j].user, rs'[j].note)
      {
        assert (rs'[i].user, rs'[i].note) == (rs[i].user, rs[i].note);
        assert (rs'[j].user, rs'[j].note) == (rs[j].user, rs[j].note);
      }
      FindRatingIsTheOnlyRow(rs', user, note, k.value);
    } else {
      FindRatingIsTheOnlyRow(rs', user, note, |rs|);
    }
  }

  /** Destroying a row removes it and keeps the rest in order. */
  function RemoveAt(rs: seq<Rating>, k: nat): (rs': seq<Rating>)
    requires k < |rs|
    ensures |rs'| == |rs| - 1
    ensures forall i :: 0 <= i < k ==> rs'[i] == rs[i]
    ensures forall i :: k <= i < |rs'| ==> rs'[i] == rs[i + 1]
  {
    rs[..k] + rs[k + 1..]
  }

  lemma RemoveAtKeepsUnique(rs: seq<Rating>, k: nat)
    requires Unique(rs) && k < |rs|
    ensures Unique(RemoveAt(rs, k))
  {
    var rs' := RemoveAt(rs, k);
    forall i, j | 0 <= i < j < |rs'|
      ensures (rs'[i].user, rs'[i].note) != (rs'[j].user, rs'[j].note)
    {
      var i0 := if i < k then i else i + 1;
      var j0 := if j < k then j else j + 1;
      assert rs'[i] == rs[i0] && rs'[j] == rs[j0] && i0 < j0;
    }
  }

  /** Whether a row is a rating of `note` with value `h`. */
  function Hit(r: Rating, note: NoteId, h: Helpfulness): nat
  {
    if r.note == note && r.helpfulness == h then 1 else 0
  }

  /** `note.ratings.<h>.count`: the number of the note's ratings with value `h`. */
  function CountRatings(rs: seq<Rating>, note: NoteId, h: Helpfulness): (c: nat)
    ensures c <= |rs|
  {
    if |rs| == 0 then 0 else Hit(rs[0], note, h) + CountRatings(rs[1..], note, h)
  }

  /** The number of ratings of the note, whatever their value. */
  function RatingsOn(rs: seq<Rating>, note: NoteId): (c: nat)
    ensures c <= |rs|
  {
    if |rs| == 0 then 0 else (if rs[0].note == note then 1 else 0) + RatingsOn(rs[1..], note)
  }

  /** The three counts `update_note_counters` writes onto the note. */
  function Recount(rs: seq<Rating>, note: NoteId): Tally
  {
    Tally(CountRatings(rs, note, Yes), CountRatings(rs, note, Somewhat), CountRatings(rs, note, No))
  }

  function Total(t: Tally): nat
  {
    t.helpful + t.somewhat + t.notHelpful
  }

  /** Counting distributes over concatenation of ledgers. */
  lemma {:induction false} CountAppend(a: seq<Rating>, b: seq<Rating>, note: NoteId, h: Helpfulness)
    ensures CountRatings(a + b, note, h) == CountRatings(a, note, h) + CountRatings(b, note, h)
    decreases |a|
  {
    if |a| == 0 {
      assert a + b == b;
    } else {
      assert (a + b)[1..] == a[1..] + b;
      CountAppend(a[1..], b, note, h);
    }
  }

  /** Because the enum has exactly three values, the three tallies add up to
      the number of ratings of the note. */
  lemma {:induction false} TallySumsToRatings(rs: seq<Rating>, note: NoteId)
    ensures Total(Recount(rs, note)) == RatingsOn(rs, note)
    decreases |rs|
  {
    if |rs| > 0 {
      TallySumsToRatings(rs[1..], note);
    }
  }

  /** Ratings of other notes never affect a note's recount. */
  lemma {:induction false} OtherNotesIgnored(rs: seq<Rating>, note: NoteId)
    ensures Recount(rs, note) == Recount(OnNote(rs, note), note)
    decreases |rs|
  {
    if |rs| > 0 {
      OtherNotesIgnored(rs[1..], note);
    }
  }

  /** The ledger rows that rate `note`, in ledger order. */
  function OnNote(rs: seq<Rating>, note: NoteId): (rs': seq<Rating>)
    ensures forall i :: 0 <= i < |rs'| ==> rs'[i].note == note
    ensures |rs'| == RatingsOn(rs, note)
  {
    if |rs| == 0 then []
    else if rs[0].note == note then [rs[0]] + OnNote(rs[1..], note)
    else OnNote(rs[1..], note)
  }

  /** Replacing a row of one note leaves every other note's recount alone,
      and shifts the note's own tallies by exactly one rating. */
  lemma ReplaceEffect(rs: seq<Rating>, k: nat, r: Rating, note: NoteId, h: Helpfulness)
    requires k < |rs|
    ensures CountRatings(rs[k := r], note, h) + Hit(rs[k], note, h)
         == CountRatings(rs, note, h) + Hit(r, note, h)
  {
    assert rs == rs[..k] + [rs[k]] + rs[k + 1..];
    assert rs[k := r] == rs[..k] + [r] + rs[k + 1..];
    CountAppend(rs[..k] + [rs[k]], rs[k + 1..], note, h);
    CountAppend(rs[..k], [rs[k]], note, h);
    CountAppend(rs[..k] + [r], rs[k + 1..], note, h);
    CountAppend(rs[..k], [r], note, h);
  }

  lemma AppendEffect(rs: seq<Rating>, r: Rating, note: NoteId, h: Helpfulness)
    ensures CountRatings(rs + [r], note, h) == CountRatings(rs, note, h) + Hit(r, note, h)
  {
    CountAppend(rs, [r], note, h);
  }

  lemma RemoveEffect(rs: seq<Rating>, k: nat, note: NoteId, h: Helpfulness)
    requires k < |rs|
    ensures CountRatings(RemoveAt(rs, k), note, h) + Hit(rs[k], note, h) == CountRatings(rs, note, h)
  {
    assert rs == rs[..k] + ([rs[k]] + rs[k + 1..]);
    CountAppend(rs[..k], [rs[k]] + rs[k + 1..], note, h);
    CountAppend([rs[k]], rs[k + 1..], note, h);
    CountAppend(rs[..k], rs[k + 1..], note, h);
  }
}
