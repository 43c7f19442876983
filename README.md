# Dynasty readiness tracker — a Dafny model

A Discord bot keeps a readiness table: for every configured dynasty
(ADHNN, ADHOC, ADTBB, ADTBS) and every tracked user (Samsonite000,
chaseisntonfire, Nmatt73), whether that user is ready to advance. Users
declare themselves ready by posting a message that mentions a dynasty
together with the word READY. When the last user of a dynasty declares,
the bot resets the dynasty and broadcasts that it may advance. The
`status`, `notify` and `reset` commands read or clear the table. Once a
week an hourly task posts the roster of users who are still outstanding.

The model keeps the readiness engine and drops the chat, file and thread
plumbing. Its modules follow the source files:

- `Config` (config.dfy) holds the deployment constants of Config.py.
- `Text` (text.dfy) has ASCII upper-casing and the substring test.
- `Storage` (storage.dfy) has the table as a `map<string, map<string, bool>>`.
  The class `DynastyStorage` holds it in a field that its methods update in
  place, and each method is specified by a pure function on table values.
- `Roster` (roster.dfy) computes the not-ready roster. `notify` and
  `send_reminders` compute it alike.
- `Tracker` (tracker.dfy) covers the message classifier, `mark_ready` with
  its automatic reset, and the `reset`, `status` and `notify` commands. The
  class `DynastyTracker` drives the store. Its methods are specified by
  `ApplySignals`, `MarkReadyStep`, `Cleared`, `StatusEntries` and
  `NotReadyRoster`.
- `Reminders` (reminders.dfy) has the hourly time gate and the weekly
  roster.
- `Scenarios` (scenarios.dfy) states and proves what the rules give on
  concrete messages and on a dynasty filling up.

Chat side effects appear as values: the notifications `Confirmed(user,
dynasty)` and `ReadyToAdvance(dynasty)`, and the command outcomes
`ResetOutcome`, `StatusOutcome` and `NotifyOutcome`.

A command argument is an `Option<string>`. The empty string counts as
absent, as it does under Python's truth test.

Two behaviours of the code are easy to misread, and the model keeps both:

- The classifier does not stop at the first dynasty it finds. One message
  that names two dynasties marks the user ready for both.
- The weekly reminder stays silent when nobody is outstanding.

## Model

| member | source | states |
|---|---|---|
| Storage.DynastyStorage.constructor | storage.py:54-61 | a store started without a readable snapshot (none on disk, or loading fails) holds exactly the default table |
| Storage.DynastyStorage.Loaded | storage.py:50-53 | a store read from a snapshot holds the snapshot exactly as read, with no validation of its keys |
| Storage.Known | storage.py:82-89 | an entry exists for the user under the upper-cased dynasty, so in particular the upper-cased dynasty is a key of the table |
| Storage.ReadyIn | storage.py:78-91 | the value read for a user and dynasty; it is true only for an existing entry |
| Storage.DefaultTable | storage.py:63-69 | the default table has exactly the configured dynasties, each with exactly the configured users, and every entry is false |
| Storage.DynastyStorage.CreateDefaultData | storage.py:63-69 | the nested loops leave the store holding exactly the default table |
| Storage.DynastyStorage.IsReady | storage.py:78-91 | the answer is the entry under the upper-cased dynasty; an unknown dynasty or user reads as false, without failing |
| Storage.ReadyInIgnoresDynastyCase | storage.py:80 | dynasty lookups give the same answer for any case of the dynasty name |
| Storage.ReadyInUserCaseSensitive | storage.py:87-89 | user lookups do not ignore case: in a well-formed table the upper-cased form of a tracked name is never known and never ready |
| Storage.KnownInWellFormed | storage.py:83-89 | in a well-formed table an entry exists exactly for a tracked user name as written and any case of a configured dynasty |
| Storage.ReadyInUnknown | storage.py:83-89 | a missing dynasty or user is never reported ready |
| Storage.Assign | storage.py:93-113 | a write keeps every key; it rewrites only the named entry of a known user under the upper-cased dynasty; an unknown key leaves the table as it was |
| Storage.DynastyStorage.SetReady | storage.py:93-113 | returns true exactly for a known user and dynasty; the new table is the assignment; on success the entry reads back as written; on failure nothing changes |
| Storage.AssignThenRead | storage.py:106-113 | after a successful write the entry reads back as written and every other (user, dynasty) pair reads as before |
| Storage.AssignKeepsWellFormed | storage.py:98-108 | writes never add or remove dynasties or users |
| Storage.StatusIn | storage.py:129-137 | the status of a dynasty is its user map (keys are exactly its known users, values their readiness), or empty for an unknown dynasty |
| Storage.DynastyStorage.GetDynastyStatus | storage.py:129-137 | returns that user map, or an empty map for an unknown dynasty, and changes nothing |
| Storage.DynastyStorage.GetAllStatuses | storage.py:139-141 | returns the whole table and changes nothing |
| Text.Upper | dynasty_tracker.py:37 | `str.upper` over ASCII: keeps the length of the text |
| Text.Contains | dynasty_tracker.py:41 | Python's substring test `sub in s`: a text contains only pieces no longer than itself |
| Text.UpperAt | dynasty_tracker.py:37 | each character of the upper-cased text is the upper case of the character at that position, and the result is all upper case |
| Text.UpperIdempotent | storage.py:80 | upper-casing twice is upper-casing once, so an upper-cased argument looks up the same dynasty |
| Text.UpperAppend | dynasty_tracker.py:37 | upper-casing distributes over concatenation |
| Tracker.IsDeclaration | dynasty_tracker.py:41 | the upper-cased text contains the dynasty and READY, so it is at least as long as each |
| Tracker.UserMatches | dynasty_tracker.py:48 | the upper-cased tracked name occurs in the upper-cased author name, so it is no longer than it |
| Tracker.SignalsFor | dynasty_tracker.py:39-51 | no more declarations than listed dynasties, each for the given user and for a listed dynasty the text declares |
| Tracker.SignalsForOncePerDynasty | dynasty_tracker.py:39-51 | over distinct dynasties a text yields at most one declaration for each dynasty |
| Tracker.SignalsAmong | dynasty_tracker.py:29-51 | no more declarations than listed dynasties |
| Tracker.Signals | dynasty_tracker.py:26-54 | every declaration is for a message the bot did not send, posted in a server, by the resolved user, for a configured dynasty the text declares; no more declarations than configured dynasties (SignalsCharacterised states that each declared dynasty appears once, in order) |
| Tracker.ApplySignals | dynasty_tracker.py:39-54 | applying the declarations in turn keeps every key of the table and yields one or two notifications per declaration |
| Tracker.Declared | dynasty_tracker.py:39-41 | the declared dynasties are exactly the listed ones whose name and the word READY both occur in the upper-cased text |
| Tracker.DeclaredInOrder | dynasty_tracker.py:39-41 | the declared dynasties keep configuration order, each once |
| Tracker.MatchIndex | dynasty_tracker.py:47-51 | the scan stops at the first tracked user whose upper-cased name occurs in the upper-cased author name |
| Tracker.MatchIndexIsFirst | dynasty_tracker.py:47-51 | the scan's result is the first match there is |
| Tracker.ResolveUser | dynasty_tracker.py:46-54 | an author resolves to a tracked user whose name occurs in theirs, and to none exactly when no tracked name occurs |
| Tracker.ResolveUserIsFirst | dynasty_tracker.py:47-51 | the resolved user is the first match in configuration order |
| Tracker.FirstMatch | dynasty_tracker.py:46-54 | the user loop with its break finds the first matching user, or runs off the end when none matches |
| Tracker.SignalsCharacterised | dynasty_tracker.py:26-54 | the bot's own messages, direct messages and untracked authors yield nothing; otherwise one signal per declared dynasty, in configuration order, all for the resolved user (the dynasty loop has no break) |
| Tracker.NoReadyWordNoSignals | dynasty_tracker.py:41 | a text without READY, in any case, declares nothing |
| Tracker.SingleDeclaration | dynasty_tracker.py:39-51 | a text that declares exactly one dynasty yields exactly one signal, for that dynasty |
| Tracker.DynastyTracker.OnMessage | dynasty_tracker.py:26-54 | the store ends as the declarations applied one after another by `mark_ready`, and the notifications are theirs in order |
| Tracker.OnMessageStep | dynasty_tracker.py:39-54 | one pass of the dynasty loop extends the run so far by exactly that dynasty's declaration when it is declared by a tracked author, and leaves it unchanged otherwise |
| Tracker.DynastyTracker.MarkFirstMatch | dynasty_tracker.py:46-54 | an untracked author changes nothing; otherwise the first matching user is marked ready for the dynasty |
| Tracker.AllReady | dynasty_tracker.py:77 | every configured user is ready for the dynasty, which needs each of them to have an entry |
| Tracker.MarkReadyStep | dynasty_tracker.py:56-80 | `mark_ready` on a table: always a confirmation, followed by the broadcast only when the dynasty completes; no key is added or removed |
| Tracker.Cleared | dynasty_tracker.py:85-86 | `set_ready(user, d, False)` for the listed users of the listed dynasties: keys are kept, those entries become false, every other entry is unchanged |
| Tracker.DynastyTracker.MarkReady | dynasty_tracker.py:56-80 | the store and notifications follow `MarkReadyStep`, and afterwards the dynasty is never complete |
| Tracker.MarkReadyNeverLeavesComplete | dynasty_tracker.py:59-80 | after `mark_ready` some configured user is not ready for the dynasty, whatever the table was |
| Tracker.MarkReadyTransition | dynasty_tracker.py:59-80 | if someone else is still outstanding the user is now ready and only confirmed; otherwise everyone is cleared and the broadcast follows the confirmation; other dynasties are unchanged either way |
| Tracker.MarkReadyPending | dynasty_tracker.py:77-80 | while another configured user is not ready, `mark_ready` only writes the entry and confirms |
| Tracker.MarkReadyCompletes | dynasty_tracker.py:77-80 | when everyone else is ready, `mark_ready` writes the entry, clears the dynasty and adds the broadcast |
| Tracker.ClearedDynastyEffect | dynasty_tracker.py:85-86 | clearing one dynasty leaves every configured user not ready for it and every other dynasty unchanged |
| Tracker.DynastyTracker.AutoResetDynasty | dynasty_tracker.py:82-106 | the dynasty is cleared for every configured user and one broadcast is produced |
| Tracker.DynastyTracker.ClearDynasty | dynasty_tracker.py:85-86 | the loop of `set_ready(user, dynasty, False)` calls clears that dynasty for the configured users |
| Tracker.ClearedRestores | dynasty_tracker.py:85-86 | clearing a dynasty undoes any changes confined to its configured users, when they were all not ready before |
| Tracker.DynastyTracker.Reset | dynasty_tracker.py:210-233 | an unknown dynasty is an error that names the upper-cased argument and changes nothing; a known one is cleared; no argument clears every dynasty |
| Tracker.ClearedIdempotent | dynasty_tracker.py:210-233 | resetting twice is resetting once |
| Tracker.ClearedAllIsDefault | dynasty_tracker.py:230-233 | after a full reset no configured user is ready anywhere; a well-formed table becomes the default table |
| Tracker.StatusEntries | embeds.py:24-41 | the status report shows only the chosen dynasties with a non-empty user map, each with that map |
| Tracker.StatusEntriesInOrder | embeds.py:24-41 | the report follows the order of the chosen dynasties and shows each at most once |
| Tracker.EntryNames | embeds.py:37-38 | the names of a report are its dynasties, position by position |
| Tracker.StatusEntriesComplete | embeds.py:24-41 | every chosen dynasty with a non-empty user map is shown |
| Tracker.DynastyTracker.Status | dynasty_tracker.py:108-135 | an unknown dynasty is an error; otherwise the report for that dynasty, or for all of them without an argument |
| Tracker.AnswerFor | dynasty_tracker.py:165-171 | the answer is "all caught up" exactly when the roster is empty, and a reminder carrying the roster otherwise |
| Tracker.DynastyTracker.Notify | dynasty_tracker.py:137-171 | an unknown dynasty is an error naming the argument as given; otherwise the roster of the checked dynasties; the table is only read |
| Roster.NotReady | dynasty_tracker.py:161 | the list holds exactly the users, of those given, who are not ready |
| Roster.NotReadyInOrder | reminders.py:54 | the not-ready list keeps configuration order and has no duplicates |
| Roster.NotReadyJustOne | reminders.py:54 | when one user is the only one not ready, the list is that user alone |
| Roster.NotReadyRoster | reminders.py:52-56 | the roster lists a dynasty exactly when some configured user is not ready for it, with that non-empty not-ready list |
| Roster.RosterEmptyIffAllReady | reminders.py:58-60 | the roster is empty exactly when every configured user is ready for every listed dynasty |
| Roster.RosterJustOne | reminders.py:52-56 | a single outstanding (dynasty, user) pair gives the roster with that dynasty and that user only |
| Reminders.ReminderDue | reminders.py:40 | the gate opens only on the configured weekday and hour, and for any real minute exactly then |
| Reminders.MinuteIrrelevant | reminders.py:40 | within the hour the minute never changes the decision; the configured reminder minute plays no part |
| Reminders.ReminderFor | reminders.py:49-60 | there is no reminder exactly when every configured user is ready for every configured dynasty; otherwise the reminder is the non-empty roster |
| Reminders.ReminderRosterShape | reminders.py:52-56 | a reminder lists exactly the outstanding dynasties, and for each exactly its outstanding users in configuration order, each once |
| Reminders.ReminderAgreesWithNotify | reminders.py:52-60 | the reminder is silent exactly when `notify` without an argument is all caught up, and otherwise carries the same roster |
| Reminders.ReminderSingleOutstanding | reminders.py:52-56 | when exactly one user is outstanding for exactly one dynasty, the reminder names just that pair |
| Reminders.ReminderCog.ReminderTask | reminders.py:32-42 | outside the configured slot the tick does nothing; in it the tick computes the reminder |
| Reminders.ReminderCog.SendReminders | reminders.py:49-60 | the loop over the dynasties builds exactly the reminder for the current table, and only reads the store |
| Scenarios.ClassifierDeclares | dynasty_tracker.py:37-51 | "ADHNN is READY now" from "chaseisntonfire99" in a server declares ADHNN for chaseisntonfire, and nothing else |
| Scenarios.AuthorResolves | dynasty_tracker.py:47-51 | the author "chaseisntonfire99" resolves to chaseisntonfire |
| Scenarios.AlreadyIsDeclaration | dynasty_tracker.py:41 | the test is on substrings: "ADHNN ALREADY" declares ADHNN |
| Scenarios.ClassifierIgnoresChatter | dynasty_tracker.py:41 | "hello world" declares nothing, whoever sends it and wherever |
| Scenarios.FullRound | dynasty_tracker.py:56-86 | from a table where nobody is ready for a dynasty, the three users declaring in turn give two plain confirmations, then a confirmation with the broadcast, and the table ends as it started |

## Left out

- Loading and saving the JSON snapshot, the background writer thread and
  the lock are left out (storage.py:47-61, 71-76, 115-127). The store starts
  either from the default table or from a given snapshot
  (`DynastyStorage.Loaded`). A loaded snapshot is not validated, so the
  lemmas that need every key present take `WellFormed` as a precondition.
  The values of a snapshot are taken to be booleans. `json.load` accepts
  any JSON value, and a value such as the string "false" would count as
  ready under Python's truth test.
- The singleton machinery (`__new__` and `_initialized`) is left out. Each
  cog receives one explicitly constructed store.
- Aliasing through the shallow copies of `get_all_statuses` and
  `get_dynasty_status` is not modelled. Maps are values in Dafny.
- Chat I/O is left out:
  - sending embeds, deleting the declaring message, and the
    permission-error handling;
  - looking up members and building mentions: `notify` finds a member
    whose name contains the tracked name in any case
    (dynasty_tracker.py:186), while the weekly reminder needs the exact
    name (reminders.py:74);
  - dropping a dynasty's field when its mentions come out empty, in
    `notify` (dynasty_tracker.py:191) and in the weekly reminder
    (reminders.py:79);
  - the per-guild channel loop of the reminder.
  Each of these becomes a notification or outcome value, or is dropped.
- The `tasks.loop` scheduling, `before_loop`, `cog_unload` and the pytz
  timezone conversion are left out. The tick receives the local weekday,
  hour and minute as integers.
- Rendering of embeds (embeds.py) is left out. Only the choice of which
  dynasties `status` shows is modelled (`StatusEntries`).
- bot.py, Main.py and the `dynasty_help` command are framework glue and
  help text; they are not part of this model.
- Logging is left out.
- Text.Upper: upper-cases ASCII letters only. Python's `str.upper` also
  maps other Unicode letters and can change a string's length, for example
  "ß" becomes "SS".
- Reminders.ReminderFor: the roster is a map, so the dictionary's insertion
  order is not modelled. That order only affects the order of fields in the
  posted reminder, and the roster is built in configuration order anyway.
- Tracker.DynastyTracker.MarkReady: the confirmation is produced even when
  `set_ready` refuses an unknown user or dynasty, as the code does.
- Tracker.DynastyTracker.MarkReady: every send is taken to succeed, and
  handlers are taken not to interleave. In the code the confirmation send
  (dynasty_tracker.py:68) is outside the try block. If it raises, for
  example in a channel where the bot may read but not write, then
  `set_ready` has already run but the all-ready check and the automatic
  reset (dynasty_tracker.py:77-80) are skipped. The exception also ends
  the dynasty loop of `on_message`, so later declared dynasties are not
  marked. In such a channel a dynasty can reach and stay in the all-ready
  state, which `MarkReadyNeverLeavesComplete` rules out for the model. The
  awaits at dynasty_tracker.py:68 and 70 also let other handlers, such as
  `reset` or another declaration, run between `set_ready` and the check;
  `OnMessage` and `MarkReady` are modelled as atomic.
- Tracker.SignalsAmong: its contract states only the bound on the number
  of declarations; what each declaration is, is stated for the configured
  dynasties by `Signals` and `SignalsCharacterised`.
