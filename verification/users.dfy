/** Users (app/models/user.rb): the privilege gates, the reputation score
    and the author karma. */
module Users {
  import opened Wrappers
  import opened Notes
  import opened Ratings

  /** The scored part of a `users` row. `accountCreatedAt` is a timestamp in
      seconds; both signals are nil when the identity provider gave none. */
  datatype User = User(followerCount: Option<int>, accountCreatedAt: Option<int>,
                       reputation: real, karma: real)

  const MinRatingReputation: real := 15.0
  const MinWritingReputation: real := 25.0

  /** `can_rate?` */
  predicate CanRate(u: User)
  {
    u.reputation >= MinRatingReputation
  }

  /** `can_write?` */
  predicate CanWrite(u: User)
  {
    u.reputation >= MinWritingReputation
  }

  /** Writing needs more reputation than rating, so every writer can rate. */
  lemma CanWriteImpliesCanRate(u: User)
    ensures CanWrite(u) ==> CanRate(u)
    ensures exists v: User :: CanRate(v) && !CanWrite(v)
  {
    var v := User(None, None, 20.0, 0.0);
    assert CanRate(v) && !CanWrite(v);
  }

  /** `Float#round(2)`: round to two decimals, halves away from zero, on
      exact reals. */
  function Round2(x: real): (r: real)
    ensures Hundredths(r)
    ensures x >= 0.0 ==> x * 100.0 - 0.5 < r * 100.0 <= x * 100.0 + 0.5
    ensures x < 0.0 ==> x * 100.0 - 0.5 <= r * 100.0 < x * 100.0 + 0.5
    ensures x >= 0.0 ==> r >= 0.0
    ensures x <= 100.0 ==> r <= 100.0
    ensures -0.005 <= r - x <= 0.005
  {
    if x >= 0.0 then Cents(HalfUp(x * 100.0)) else Cents(-HalfUp(-x * 100.0))
  }

  /** The integer nearest `y`, a tie going up. */
  function HalfUp(y: real): (k: int)
    ensures y - 0.5 < k as real <= y + 0.5
  {
    (y + 0.5).Floor
  }

  /** `k` hundredths. */
  function Cents(k: int): (r: real)
    ensures r * 100.0 == k as real && Hundredths(r)
  {
    k as real / 100.0
  }

  /** A whole number of hundredths. */
  predicate Hundredths(r: real)
  {
    (r * 100.0).Floor as real == r * 100.0
  }

  /** Rounding is the only such function: a whole number of hundredths
      within half a hundredth of `x`, a tie going away from zero, is
      `Round2(x)`. */
  lemma Round2Unique(x: real, r: real)
    requires Hundredths(r)
    requires x >= 0.0 ==> x * 100.0 - 0.5 < r * 100.0 <= x * 100.0 + 0.5
    requires x < 0.0 ==> x * 100.0 - 0.5 <= r * 100.0 < x * 100.0 + 0.5
    ensures r == Round2(x)
  {
    var a := (r * 100.0).Floor;
    var b := (Round2(x) * 100.0).Floor;
    assert a as real == r * 100.0 && b as real == Round2(x) * 100.0;
    assert -1 < a - b < 1;
  }

  /** Halves of a hundredth go away from zero. */
  lemma Round2Ties()
    ensures Round2(0.125) == 0.13 && Round2(-0.125) == -0.13
    ensures Round2(2.675) == 2.68 && Round2(0.124) == 0.12
  {
    Round2Unique(0.125, 0.13);
    Round2Unique(-0.125, -0.13);
    Round2Unique(2.675, 2.68);
    Round2Unique(0.124, 0.12);
  }

  /** Values with at most one (half) decimal are left untouched by rounding. */
  lemma Round2KeepsHalves(k: int)
    ensures Round2(k as real / 2.0) == k as real / 2.0
  {
    var x := k as real / 2.0;
    if x >= 0.0 {
      assert x * 100.0 + 0.5 == (50 * k) as real + 0.5;
      assert (x * 100.0 + 0.5).Floor == 50 * k;
    } else {
      assert -x * 100.0 + 0.5 == (-50 * k) as real + 0.5;
      assert (-x * 100.0 + 0.5).Floor == -50 * k;
    }
  }

  /** `1.year` in seconds (365.2425 days). */
  const SecondsPerYear: int := 31556952

  /** Four points per year of account age, at most twenty; nothing without a
      creation date. A creation date in the future gives a negative bonus. */
  function AgeBonus(createdAt: Option<int>, now: int): (b: real)
    ensures createdAt.None? ==> b == 0.0
    ensures b <= 20.0
    ensures createdAt.Some? && createdAt.value <= now ==> b >= 0.0
    ensures createdAt.Some? && now - createdAt.value >= 5 * SecondsPerYear ==> b == 20.0
    ensures createdAt.Some? && now < createdAt.value ==> b < 0.0
  {
    if createdAt.None? then 0.0
    else
      var yearsOld := (now - createdAt.value) as real / SecondsPerYear as real;
      if yearsOld * 4.0 < 20.0 then yearsOld * 4.0 else 20.0
  }

  /** An older account never earns a smaller age bonus. */
  lemma AgeBonusMonotone(createdAt: Option<int>, now: int, later: int)
    requires now <= later
    ensures AgeBonus(createdAt, now) <= AgeBonus(createdAt, later)
  {
  }

  /** Ten points per power of ten followers, at most thirty, only for a
      positive follower count. `log10` stands for `Math.log10`. */
  function FollowerBonus(followers: Option<int>, log10: int -> real): (b: real)
    ensures followers.None? || followers.value <= 0 ==> b == 0.0
    ensures b <= 30.0
    ensures followers.Some? && followers.value > 0 && log10(followers.value) >= 0.0 ==> b >= 0.0
    ensures followers.Some? && followers.value > 0 && log10(followers.value) >= 3.0 ==> b == 30.0
  {
    if followers.Some? && followers.value > 0 then
      var scaled := log10(followers.value) * 10.0;
      if scaled < 30.0 then scaled else 30.0
    else 0.0
  }

  /** More followers never earn a smaller follower bonus, since `log10`
      grows. */
  lemma FollowerBonusMonotone(f: int, g: int, log10: int -> real)
    requires 0 < f <= g && log10(f) <= log10(g)
    ensures FollowerBonus(Some(f), log10) <= FollowerBonus(Some(g), log10)
  {
  }

  /** A rating of this user joined with the current status of its note. */
  datatype Judged = Judged(helpfulness: Helpfulness, status: Status)

  /** The rows the accuracy bonus looks at: yes/no ratings of decided notes. */
  predicate Counted(j: Judged)
  {
    (j.helpfulness == Yes || j.helpfulness == No) && (j.status == Helpful || j.status == NotHelpful)
  }

  /** The accuracy test of the SQL fragment, stated on the stored codes:
      helpfulness 0 on status 1, or helpfulness 2 on status 2. */
  predicate Accurate(j: Judged)
  {
    (HelpfulnessCode(j.helpfulness) == 0 && StatusCode(j.status) == 1)
    || (HelpfulnessCode(j.helpfulness) == 2 && StatusCode(j.status) == 2)
  }

  /** On the enum values the code test reads as agreement with consensus. */
  lemma AccurateMeansAgreement(j: Judged)
    ensures Accurate(j) <==> ((j.helpfulness == Yes && j.status == Helpful)
                              || (j.helpfulness == No && j.status == NotHelpful))
    ensures Accurate(j) ==> Counted(j)
  {
  }

  function CountCounted(js: seq<Judged>): (n: nat)
    ensures n <= |js|
  {
    if |js| == 0 then 0 else (if Counted(js[0]) then 1 else 0) + CountCounted(js[1..])
  }

  function CountAccurate(js: seq<Judged>): (n: nat)
    ensures n <= CountCounted(js)
  {
    if |js| == 0 then 0
    else (if Counted(js[0]) && Accurate(js[0]) then 1 else 0) + CountAccurate(js[1..])
  }

  /** `(accurate_count / total_decided) * 50` when anything was counted. */
  function AccuracyBonus(js: seq<Judged>): (b: real)
    ensures 0.0 <= b <= 50.0
    ensures CountCounted(js) == 0 ==> b == 0.0
    ensures CountCounted(js) > 0 && CountAccurate(js) == CountCounted(js) ==> b == 50.0
    ensures CountAccurate(js) == 0 ==> b == 0.0
  {
    var total := CountCounted(js);
    if total > 0 then
      var accurate := CountAccurate(js);
      FractionBound(accurate, total);
      accurate as real / total as real * 50.0
    else 0.0
  }

  lemma FractionBound(a: nat, t: nat)
    requires 0 < t && a <= t
    ensures 0.0 <= a as real / t as real * 50.0 <= 50.0
  {
    assert a as real / t as real <= 1.0;
  }

  /** One more accurate counted rating never lowers the accuracy bonus. */
  lemma AccurateRatingNeverLowersBonus(js: seq<Judged>, j: Judged)
    requires Counted(j) && Accurate(j)
    ensures AccuracyBonus(js + [j]) >= AccuracyBonus(js)
  {
    CountsAppend(js, [j]);
    var a, c := CountAccurate(js), CountCounted(js);
    if c > 0 {
      FractionRises(a, c);
    }
  }

  /** One more inaccurate counted rating never raises the accuracy bonus. */
  lemma InaccurateRatingNeverRaisesBonus(js: seq<Judged>, j: Judged)
    requires Counted(j) && !Accurate(j)
    ensures AccuracyBonus(js + [j]) <= AccuracyBonus(js)
  {
    CountsAppend(js, [j]);
    var a, c := CountAccurate(js), CountCounted(js);
    if c > 0 {
      FractionFalls(a, c);
    }
  }

  lemma FractionRises(a: nat, c: nat)
    requires 0 < c && a <= c
    ensures a as real / c as real * 50.0 <= (a + 1) as real / (c + 1) as real * 50.0
  {
    var x := a as real / c as real;
    var y := (a + 1) as real / (c + 1) as real;
    assert x * c as real == a as real;
    assert y * (c + 1) as real == (a + 1) as real;
    assert x <= 1.0;
  }

  lemma FractionFalls(a: nat, c: nat)
    requires 0 < c && a <= c
    ensures a as real / (c + 1) as real * 50.0 <= a as real / c as real * 50.0
  {
    var x := a as real / c as real;
    var y := a as real / (c + 1) as real;
    assert x * c as real == a as real;
    assert y * (c + 1) as real == a as real;
    assert y >= 0.0;
    assert (x - y) * c as real == y;
  }

  lemma {:induction false} CountsAppend(a: seq<Judged>, b: seq<Judged>)
    ensures CountCounted(a + b) == CountCounted(a) + CountCounted(b)
    ensures CountAccurate(a + b) == CountAccurate(a) + CountAccurate(b)
    decreases |a|
  {
    if |a| == 0 {
      assert a + b == b;
    } else {
      assert (a + b)[1..] == a[1..] + b;
      CountsAppend(a[1..], b);
    }
  }

  /** Somewhat ratings and ratings of pending notes never move the accuracy
      bonus, wherever they sit among the user's ratings. */
  lemma UncountedRowIgnored(a: seq<Judged>, j: Judged, b: seq<Judged>)
    requires j.helpfulness == Somewhat || j.status == Pending
    ensures AccuracyBonus(a + [j] + b) == AccuracyBonus(a + b)
  {
    CountsAppend(a + [j], b);
    CountsAppend(a, [j]);
    CountsAppend(a, b);
  }

  /** The user's ratings joined with their notes (`ratings.joins(:note)`);
      a rating whose note is missing drops out of the inner join. */
  function JudgedRatings(rs: seq<Rating>, notes: seq<Note>, user: UserId): (js: seq<Judged>)
    ensures |js| <= |rs|
  {
    if |rs| == 0 then []
    else
      var rest := JudgedRatings(rs[1..], notes, user);
      if rs[0].user == user && rs[0].note < |notes|
      then [Judged(rs[0].helpfulness, notes[rs[0].note].status)] + rest
      else rest
  }

  /** The join distributes over the ledger: each row is judged on its own. */
  lemma {:induction false} JudgedRatingsAppend(a: seq<Rating>, b: seq<Rating>, notes: seq<Note>, user: UserId)
    ensures JudgedRatings(a + b, notes, user) == JudgedRatings(a, notes, user) + JudgedRatings(b, notes, user)
    decreases |a|
  {
    if |a| == 0 {
      assert a + b == b;
    } else {
      assert (a + b)[1..] == a[1..] + b;
      JudgedRatingsAppend(a[1..], b, notes, user);
    }
  }

  /** One more ledger row adds its judgement exactly when it is this user's
      rating of an existing note, paired with that note's status. */
  lemma JudgedRatingsSnoc(rs: seq<Rating>, r: Rating, notes: seq<Note>, user: UserId)
    ensures JudgedRatings(rs + [r], notes, user)
         == JudgedRatings(rs, notes, user)
            + (if r.user == user && r.note < |notes| then [Judged(r.helpfulness, notes[r.note].status)] else [])
  {
    JudgedRatingsAppend(rs, [r], notes, user);
    assert [r][1..] == [];
  }

  /** Another user's rating, wherever it sits in the ledger, never reaches
      this user's judged ratings, and so never moves their reputation. */
  lemma OtherUsersRatingIgnored(a: seq<Rating>, r: Rating, b: seq<Rating>, notes: seq<Note>, user: UserId)
    requires r.user != user
    ensures JudgedRatings(a + [r] + b, notes, user) == JudgedRatings(a + b, notes, user)
  {
    JudgedRatingsAppend(a + [r], b, notes, user);
    JudgedRatingsSnoc(a, r, notes, user);
    JudgedRatingsAppend(a, b, notes, user);
  }

  /** The score before rounding: the three bonuses added up. */
  function RawReputation(u: User, js: seq<Judged>, now: int, log10: int -> real): (score: real)
    ensures score <= 100.0
    ensures ((u.accountCreatedAt.None? || u.accountCreatedAt.value <= now)
             && (forall f :: f > 0 ==> log10(f) >= 0.0)) ==> score >= 0.0
  {
    AgeBonus(u.accountCreatedAt, now) + FollowerBonus(u.followerCount, log10) + AccuracyBonus(js)
  }

  /** `recalculate_reputation!`: the rounded score, stored on the user. */
  function RecalculateReputation(u: User, js: seq<Judged>, now: int, log10: int -> real): (u': User)
    ensures u'.reputation <= 100.0
    ensures ((u.accountCreatedAt.None? || u.accountCreatedAt.value <= now)
             && (forall f :: f > 0 ==> log10(f) >= 0.0)) ==> 0.0 <= u'.reputation
    ensures Hundredths(u'.reputation)
    ensures var raw := RawReputation(u, js, now, log10);
            raw >= 0.0 ==> raw * 100.0 - 0.5 < u'.reputation * 100.0 <= raw * 100.0 + 0.5
    ensures var raw := RawReputation(u, js, now, log10);
            raw < 0.0 ==> raw * 100.0 - 0.5 <= u'.reputation * 100.0 < raw * 100.0 + 0.5
    ensures -0.005 <= u'.reputation - RawReputation(u, js, now, log10) <= 0.005
    ensures u'.followerCount == u.followerCount && u'.accountCreatedAt == u.accountCreatedAt
    ensures u'.karma == u.karma
  {
    u.(reputation := Round2(RawReputation(u, js, now, log10)))
  }

  /** A brand-new account with no signals and no decided ratings has no
      reputation, and so can neither rate nor write. */
  lemma NewcomerCannotRate(u: User, js: seq<Judged>, now: int, log10: int -> real)
    requires u.accountCreatedAt.None? && u.followerCount.None?
    requires CountCounted(js) == 0
    ensures !CanRate(RecalculateReputation(u, js, now, log10))
  {
  }

  /** One note's share of its author's karma:
      `helpful_count + somewhat_count * 0.5 - not_helpful_count`. */
  function NoteKarma(t: Tally): real
  {
    t.helpful as real + t.somewhat as real * 0.5 - t.notHelpful as real
  }

  function Contribution(n: Note, user: UserId): real
  {
    if n.author == user then NoteKarma(n.tally) else 0.0
  }

  /** `notes.sum(...)` over the notes the user authored. */
  function KarmaSum(notes: seq<Note>, user: UserId): real
  {
    if |notes| == 0 then 0.0 else Contribution(notes[0], user) + KarmaSum(notes[1..], user)
  }

  /** Twice the karma, which is always a whole number. */
  function DoubledKarma(notes: seq<Note>, user: UserId): int
  {
    if |notes| == 0 then 0
    else
      (if notes[0].author == user
       then 2 * notes[0].tally.helpful + notes[0].tally.somewhat - 2 * notes[0].tally.notHelpful
       else 0)
      + DoubledKarma(notes[1..], user)
  }

  lemma {:induction false} KarmaIsHalfInteger(notes: seq<Note>, user: UserId)
    ensures KarmaSum(notes, user) == DoubledKarma(notes, user) as real / 2.0
    decreases |notes|
  {
    if |notes| > 0 {
      KarmaIsHalfInteger(notes[1..], user);
    }
  }

  /** `recalculate_karma!`: the rounding step never changes the sum, because
      the sum is a multiple of one half. */
  function RecalculateKarma(u: User, notes: seq<Note>, user: UserId): (u': User)
    ensures u'.karma == KarmaSum(notes, user)
    ensures u'.reputation == u.reputation
    ensures u'.followerCount == u.followerCount && u'.accountCreatedAt == u.accountCreatedAt
  {
    KarmaIsHalfInteger(notes, user);
    Round2KeepsHalves(DoubledKarma(notes, user));
    u.(karma := Round2(KarmaSum(notes, user)))
  }

  /** An author without notes has zero karma. */
  lemma {:induction false} NoNotesNoKarma(notes: seq<Note>, user: UserId)
    requires forall i :: 0 <= i < |notes| ==> notes[i].author != user
    ensures KarmaSum(notes, user) == 0.0
    decreases |notes|
  {
    if |notes| > 0 {
      NoNotesNoKarma(notes[1..], user);
    }
  }

  /** Replacing one note changes a user's karma by exactly the difference of
      that note's contributions; a note of another author changes nothing. */
  lemma {:induction false} KarmaReplace(notes: seq<Note>, k: nat, n: Note, user: UserId)
    requires k < |notes|
    ensures KarmaSum(notes[k := n], user) + Contribution(notes[k], user)
         == KarmaSum(notes, user) + Contribution(n, user)
    decreases |notes|
  {
    if k > 0 {
      assert notes[k := n][1..] == notes[1..][k - 1 := n];
      KarmaReplace(notes[1..], k - 1, n, user);
    } else {
      assert notes[k := n][1..] == notes[1..];
    }
  }

  /** Karma has no floor: an author whose only note is rated not helpful
      three times is at minus three. A note with the tallies used in
      spec/models/note_spec.rb:28, (4 helpful, 1 somewhat, 1 not
      helpful), is worth 3.5. */
  lemma KarmaExamples()
    ensures KarmaSum([Note(7, Tally(4, 1, 1), Helpful)], 7) == 3.5
    ensures KarmaSum([Note(7, Tally(0, 0, 3), NotHelpful)], 7) == -3.0
    ensures KarmaSum([Note(7, Tally(4, 1, 1), Helpful), Note(8, Tally(9, 9, 0), Helpful)], 7) == 3.5
  {
  }
}
