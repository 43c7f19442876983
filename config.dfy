/** The deployment's constants: the closed universe of dynasties and tracked
    users, and the weekly reminder slot. */
module Config {
  import opened Seqs
  import opened Text

  /** Dynasty identifiers, in configuration order (already upper-case). */
  const Dynasties: seq<string> := ["ADHNN", "ADHOC", "ADTBB", "ADTBS"]

  /** Tracked user identifiers, in configuration order. */
  const Users: seq<string> := ["Samsonite000", "chaseisntonfire", "Nmatt73"]

  /** Weekday of the reminder, Monday being 0 (so 5 is Saturday). */
  const ReminderDay: int := 5

  /** Hour of the reminder, on a 24-hour clock. */
  const ReminderHour: int := 9

  /** Minute of the reminder. The scheduler never consults it. */
  const ReminderMinute: int := 0

  /** No user is configured twice. */
  lemma UsersDistinct()
    ensures Distinct(Users)
  {
  }

  /** Every tracked user name has a lower-case letter, so none is its own
      upper-cased form. */
  lemma UsersHaveLowerCase()
    ensures forall u | u in Users :: !IsUpperCase(u)
  {
    assert Users[0][1] == 'a' && Users[1][0] == 'c' && Users[2][1] == 'm';
  }

  /** The facts about the configuration that the rules rely on. */
  lemma ConfigurationFacts()
    ensures Distinct(Dynasties) && Distinct(Users) && |Users| > 0
    ensures forall d | d in Dynasties :: Upper(d) == d
  {
    forall d | d in Dynasties ensures Upper(d) == d {
      UpperOfUpperCase(d);
    }
  }
}
