/** The weekly reminder (reminders.py): an hourly tick that, in the configured
    hour of the configured weekday, works out who is still outstanding. The
    clock, the timezone and the Discord side (mentions, embeds, channel sends)
    are outside the model: the tick receives the local weekday, hour and
    minute as numbers, and the reminder is the roster it would publish. */
module Reminders {
  import opened Wrappers
  import opened Config
  import opened Seqs
  import opened Storage
  import opened Roster
  import opened Tracker

  /** The time gate of the hourly tick. The minute clause can only fail for a
      minute of 60 or more, which a clock never shows. */
  function ReminderDue(weekday: int, hour: int, minute: int): (due: bool)
    ensures due ==> weekday == ReminderDay && hour == ReminderHour
    ensures 0 <= minute < 60 ==> (due <==> weekday == ReminderDay && hour == ReminderHour)
  {
    weekday == ReminderDay && hour == ReminderHour && minute < 60
  }

  /** Within an hour the minute never changes the decision; in particular the
      configured reminder minute plays no part in it. */
  lemma MinuteIrrelevant(weekday: int, hour: int, m1: int, m2: int)
    requires 0 <= m1 < 60 && 0 <= m2 < 60
    ensures ReminderDue(weekday, hour, m1) == ReminderDue(weekday, hour, m2)
    ensures ReminderDue(ReminderDay, ReminderHour, m1)
  {
  }

  /** What `send_reminders` arrives at for a table: nothing when every
      configured user is ready for every configured dynasty, otherwise the
      not-ready roster over all configured dynasties. */
  function ReminderFor(t: Table): (r: Option<Roster>)
    ensures r.None? <==> forall d, u | d in Dynasties && u in Users :: ReadyIn(t, u, d)
    ensures r.Some? ==> r.value == NotReadyRoster(t, Dynasties) && r.value != map[]
  {
    RosterEmptyIffAllReady(t, Dynasties);
    var roster := NotReadyRoster(t, Dynasties);
    if roster == map[] then None else Some(roster)
  }

  /** A reminder lists a configured dynasty exactly when some configured user
      is not ready for it, and for it exactly those users, in configuration
      order and each once. */
  lemma ReminderRosterShape(t: Table)
    requires ReminderFor(t).Some?
    ensures var roster := ReminderFor(t).value;
            && (forall d :: d in roster <==> d in Dynasties && exists u :: u in Users && !ReadyIn(t, u, d))
            && (forall d | d in roster :: forall u :: u in roster[d] <==> u in Users && !ReadyIn(t, u, d))
            && (forall d | d in roster :: InOrderOf(roster[d], Users) && Distinct(roster[d]))
  {
    ConfigurationFacts();
    var roster := ReminderFor(t).value;
    forall d | d in roster ensures InOrderOf(roster[d], Users) && Distinct(roster[d]) {
      NotReadyInOrder(t, Users, d);
    }
  }

  /** The reminder and `notify` without an argument agree: the reminder is
      silent exactly when `notify` answers that everyone is caught up, and
      otherwise both publish the same roster. */
  lemma ReminderAgreesWithNotify(t: Table)
    ensures ReminderFor(t).None? <==> AnswerFor(NotReadyRoster(t, Dynasties)) == AllCaughtUp
    ensures ReminderFor(t).Some? ==> AnswerFor(NotReadyRoster(t, Dynasties)) == NotifyReminder(ReminderFor(t).value)
  {
  }

  /** When exactly one configured user is not ready, for exactly one
      configured dynasty, the reminder names that dynasty and that user only. */
  lemma ReminderSingleOutstanding(t: Table, d: string, u: string)
    requires d in Dynasties && u in Users
    requires forall dd, v | dd in Dynasties && v in Users :: ReadyIn(t, v, dd) <==> !(dd == d && v == u)
    ensures ReminderFor(t) == Some(map[d := [u]])
  {
    UsersDistinct();
    RosterJustOne(t, Dynasties, d, u);
  }

  /** The outcome of one hourly tick: outside the slot nothing happens; in it
      the roster is computed and, when non-empty, published. */
  datatype Tick = Idle | Checked(reminder: Option<Roster>)

  class ReminderCog {
    const storage: DynastyStorage

    constructor (storage: DynastyStorage)
      ensures this.storage == storage
    {
      this.storage := storage;
    }

    /** `reminder_task`: check the gate, then compute the reminder. */
    method ReminderTask(weekday: int, hour: int, minute: int) returns (tick: Tick)
      ensures !ReminderDue(weekday, hour, minute) ==> tick == Idle
      ensures ReminderDue(weekday, hour, minute) ==> tick == Checked(ReminderFor(storage.data))
    {
      if weekday == ReminderDay && hour == ReminderHour && minute < 60 {
        var reminder := SendReminders();
        tick := Checked(reminder);
      } else {
        tick := Idle;
      }
    }

    /** `send_reminders` up to the point where the roster is known. It only
        reads the store. */
    method SendReminders() returns (reminder: Option<Roster>)
      ensures reminder == ReminderFor(storage.data)
    {
      var notReadyUsers: Roster := map[];
      for i := 0 to |Dynasties|
        invariant notReadyUsers == NotReadyRoster(storage.data, Dynasties[..i])
      {
        NotReadyRosterSnoc(storage.data, Dynasties, i);
        var dynasty := Dynasties[i];
        var notReady := NotReady(storage.data, Users, dynasty);
        if notReady != [] {
          notReadyUsers := notReadyUsers[dynasty := notReady];
        }
      }
      assert Dynasties[..|Dynasties|] == Dynasties;
      if notReadyUsers == map[] {
        return None;
      }
      reminder := Some(notReadyUsers);
    }
  }
}
