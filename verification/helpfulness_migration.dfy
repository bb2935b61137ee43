/** The data step of the migration that replaced the boolean `helpful`
    column with the three-way `helpfulness` code. */
module HelpfulnessMigration {
  import opened Wrappers
  import opened Ratings

  /** `up`: `CASE WHEN helpful = true THEN 0 ELSE 2 END`. */
  function Up(helpful: bool): (code: int)
    ensures HelpfulnessOfCode(code) == Some(if helpful then Yes else No)
  {
    if helpful then 0 else 2
  }

  /** `down`: `CASE WHEN helpfulness = 0 THEN true ELSE false END`. */
  function Down(code: int): (helpful: bool)
    ensures helpful <==> HelpfulnessOfCode(code) == Some(Yes)
  {
    code == 0
  }

  /** Migrating up and back down restores every boolean. */
  lemma UpDownRoundTrip(helpful: bool)
    ensures Down(Up(helpful)) == helpful
  {
  }

  /** Going down and back up restores yes and no but turns somewhat into no:
      that direction loses information. */
  lemma DownUpLosesSomewhat(h: Helpfulness)
    ensures Up(Down(HelpfulnessCode(h))) == HelpfulnessCode(if h == Yes then Yes else No)
    ensures h == Somewhat ==> Up(Down(HelpfulnessCode(h))) != HelpfulnessCode(h)
  {
  }
}
