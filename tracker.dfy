/** The dynasty tracker (dynasty_tracker.py): recognising "ready" messages,
    marking users ready with the automatic reset once a dynasty is complete,
    and the `status`, `notify` and `reset` commands, without the chat I/O. */
module Tracker {
  import opened Wrappers
  import opened Config
  import opened Seqs
  import opened Text
  import opened Storage
  import opened Roster

  /** What the classifier sees of a chat message: `fromSelf` when the bot
      itself sent it (messages of other bots are processed), `inGuild` when it
      was posted in a server channel rather than a direct message. */
  datatype Message = Message(author: string, content: string, fromSelf: bool, inGuild: bool)

  /** A readiness declaration: `user` is ready for `dynasty`. */
  datatype Signal = Signal(user: string, dynasty: string)

  /** The notifications the tracker sends: the confirmation after a user is
      marked ready, and the broadcast that a dynasty may advance. */
  datatype Notice = Confirmed(user: string, dynasty: string) | ReadyToAdvance(dynasty: string)

  /** A table together with the notifications produced on the way to it. */
  datatype Step = Step(table: Table, notices: seq<Notice>)

  /** The keyword that must appear in a declaration. */
  const ReadyWord: string := "READY"

  /** A command argument counts only when it is a non-empty string, as with
      Python's truth test on `dynasty`. */
  predicate Given(arg: Option<string>)
  {
    arg.Some? && arg.value != ""
  }

  // ---------------------------------------------------------------------
  // The classifier

  /** The upper-cased text contains the dynasty and the word READY, anywhere. */
  predicate IsDeclaration(content: string, dynasty: string): (d: bool)
    ensures d ==> |dynasty| <= |content| && |ReadyWord| <= |content|
  {
    Contains(Upper(content), dynasty) && Contains(Upper(content), ReadyWord)
  }

  /** The dynasties, of those listed and in their order, that the text declares. */
  function Declared(content: string, dynasties: seq<string>): (r: seq<string>)
    ensures forall d :: d in r <==> d in dynasties && IsDeclaration(content, d)
  {
    if dynasties == [] then []
    else
      var last := dynasties[|dynasties| - 1];
      Declared(content, dynasties[..|dynasties| - 1]) + (if IsDeclaration(content, last) then [last] else [])
  }

  lemma {:induction false} DeclaredInOrder(content: string, dynasties: seq<string>)
    requires Distinct(dynasties)
    ensures InOrderOf(Declared(content, dynasties), dynasties)
  {
    if dynasties != [] {
      var n := |dynasties| - 1;
      DeclaredInOrder(content, dynasties[..n]);
      InOrderSnoc(Declared(content, dynasties[..n]), dynasties, IsDeclaration(content, dynasties[n]));
    }
  }

  /** The tracked name, upper-cased, occurs in the upper-cased author name. */
  predicate UserMatches(tracked: string, author: string): (m: bool)
    ensures m ==> |tracked| <= |author|
  {
    Contains(Upper(author), Upper(tracked))
  }

  /** The first position at or after `from` whose tracked user matches the
      author, or `|users|` when there is none. */
  function MatchIndex(users: seq<string>, author: string, from: nat): (k: nat)
    requires from <= |users|
    ensures from <= k <= |users|
    ensures forall j | from <= j < k :: !UserMatches(users[j], author)
    ensures k < |users| ==> UserMatches(users[k], author)
    decreases |users| - from
  {
    if from == |users| || UserMatches(users[from], author) then from
    else MatchIndex(users, author, from + 1)
  }

  /** The first match found is the first match there is. */
  lemma MatchIndexIsFirst(users: seq<string>, author: string, from: nat, k: nat)
    requires from <= k < |users| && UserMatches(users[k], author)
    requires forall j | from <= j < k :: !UserMatches(users[j], author)
    ensures MatchIndex(users, author, from) == k
  {
    var m := MatchIndex(users, author, from);
    assert m <= k;
  }

  /** The tracked user an author name resolves to: the first configured user
      whose name occurs in it, ignoring case. */
  function ResolveUser(author: string): (r: Option<string>)
    ensures r.None? <==> forall u | u in Users :: !UserMatches(u, author)
    ensures r.Some? ==> r.value in Users && UserMatches(r.value, author)
  {
    var k := MatchIndex(Users, author, 0);
    if k < |Users| then Some(Users[k]) else None
  }

  /** The resolved user is the first matching one in configuration order. */
  lemma ResolveUserIsFirst(author: string, k: nat)
    requires k < |Users| && UserMatches(Users[k], author)
    requires forall j | 0 <= j < k :: !UserMatches(Users[j], author)
    ensures ResolveUser(author) == Some(Users[k])
  {
    MatchIndexIsFirst(Users, author, 0, k);
  }

  /** The scan of the tracked users in `on_message`: the position of the
      first user matching the author, or `|users|` when none does. */
  method FirstMatch(users: seq<string>, author: string) returns (j: nat)
    ensures j == MatchIndex(users, author, 0)
    ensures j <= |users|
    ensures forall k | 0 <= k < j :: !UserMatches(users[k], author)
    ensures j < |users| ==> UserMatches(users[j], author)
  {
    j := 0;
    while j < |users| && !UserMatches(users[j], author)
      invariant j <= |users|
      invariant forall k | 0 <= k < j :: !UserMatches(users[k], author)
    {
      j := j + 1;
    }
    if j < |users| {
      MatchIndexIsFirst(users, author, 0, j);
    }
  }

  /** The declarations `content` makes among `dynasties`, in order, all
      attributed to `user`. */
  function SignalsFor(user: string, content: string, dynasties: seq<string>): (r: seq<Signal>)
    ensures |r| <= |dynasties|
    ensures forall i | 0 <= i < |r| ::
              r[i].user == user && r[i].dynasty in dynasties && IsDeclaration(content, r[i].dynasty)
  {
    if dynasties == [] then []
    else
      var last := dynasties[|dynasties| - 1];
      SignalsFor(user, content, dynasties[..|dynasties| - 1]) +
      (if IsDeclaration(content, last) then [Signal(user, last)] else [])
  }

  /** The declarations a message makes among `dynasties`: none for the bot's
      own messages, direct messages, or an author who is not tracked;
      otherwise those made for the resolved user. */
  function SignalsAmong(msg: Message, dynasties: seq<string>): (r: seq<Signal>)
    ensures |r| <= |dynasties|
  {
    if msg.fromSelf || !msg.inGuild || ResolveUser(msg.author).None? then []
    else SignalsFor(ResolveUser(msg.author).value, msg.content, dynasties)
  }

  /** The declarations a message makes among all configured dynasties. */
  function Signals(msg: Message): (r: seq<Signal>)
    ensures |r| <= |Dynasties|
    ensures forall i | 0 <= i < |r| ::
              && !msg.fromSelf && msg.inGuild && ResolveUser(msg.author) == Some(r[i].user)
              && r[i].dynasty in Dynasties && IsDeclaration(msg.content, r[i].dynasty)
  {
    SignalsAmong(msg, Dynasties)
  }

  /** Signals pair the user with the declared dynasties, one each. */
  lemma {:induction false} SignalsForDeclared(user: string, content: string, dynasties: seq<string>)
    ensures var sigs := SignalsFor(user, content, dynasties);
            var ds := Declared(content, dynasties);
            && |sigs| == |ds|
            && forall i | 0 <= i < |ds| :: sigs[i] == Signal(user, ds[i])
  {
    if dynasties != [] {
      SignalsForDeclared(user, content, dynasties[..|dynasties| - 1]);
    }
  }

  /** Over distinct dynasties a text yields at most one declaration for each
      dynasty. */
  lemma SignalsForOncePerDynasty(user: string, content: string, dynasties: seq<string>)
    requires Distinct(dynasties)
    ensures var r := SignalsFor(user, content, dynasties);
            forall i, j | 0 <= i < j < |r| :: r[i].dynasty != r[j].dynasty
  {
    var r := SignalsFor(user, content, dynasties);
    var ds := Declared(content, dynasties);
    SignalsForDeclared(user, content, dynasties);
    DeclaredInOrder(content, dynasties);
    InOrderIsDistinct(ds, dynasties);
    forall i, j | 0 <= i < j < |r| ensures r[i].dynasty != r[j].dynasty {
      assert r[i].dynasty == ds[i] && r[j].dynasty == ds[j];
    }
  }

  /** The classifier does not stop at the first dynasty: a message yields one
      signal per configured dynasty it declares, in configuration order, all
      for the first matching tracked user; and nothing otherwise. */
  lemma SignalsCharacterised(msg: Message)
    ensures msg.fromSelf || !msg.inGuild || ResolveUser(msg.author).None? ==> Signals(msg) == []
    ensures !msg.fromSelf && msg.inGuild && ResolveUser(msg.author).Some? ==>
              var user := ResolveUser(msg.author).value;
              var ds := Declared(msg.content, Dynasties);
              && |Signals(msg)| == |ds|
              && (forall i | 0 <= i < |ds| :: Signals(msg)[i] == Signal(user, ds[i]))
              && (forall d :: d in ds <==> d in Dynasties && IsDeclaration(msg.content, d))
              && InOrderOf(ds, Dynasties)
  {
    ConfigurationFacts();
    DeclaredInOrder(msg.content, Dynasties);
    if !msg.fromSelf && msg.inGuild && ResolveUser(msg.author).Some? {
      SignalsForDeclared(ResolveUser(msg.author).value, msg.content, Dynasties);
    }
  }

  /** Among dynasties none of which is declared there is no signal. */
  lemma {:induction false} SignalsForNone(user: string, content: string, dynasties: seq<string>)
    requires forall i | 0 <= i < |dynasties| :: !IsDeclaration(content, dynasties[i])
    ensures SignalsFor(user, content, dynasties) == []
  {
    if dynasties != [] {
      var n := |dynasties| - 1;
      assert forall i | 0 <= i < n :: dynasties[..n][i] == dynasties[i];
      SignalsForNone(user, content, dynasties[..n]);
    }
  }

  /** Among dynasties of which only the one at position `k` is declared there
      is exactly the signal for that one. */
  lemma {:induction false} SignalsForSingle(user: string, content: string, dynasties: seq<string>, k: nat)
    requires k < |dynasties|
    requires forall i | 0 <= i < |dynasties| :: IsDeclaration(content, dynasties[i]) <==> i == k
    ensures SignalsFor(user, content, dynasties) == [Signal(user, dynasties[k])]
  {
    var n := |dynasties| - 1;
    var prefix := dynasties[..n];
    assert forall i | 0 <= i < n :: prefix[i] == dynasties[i];
    if n == k {
      SignalsForNone(user, content, prefix);
    } else {
      SignalsForSingle(user, content, prefix, k);
    }
  }

  /** A message that does not say READY, in any case, yields no signal. */
  lemma NoReadyWordNoSignals(msg: Message)
    requires !Contains(Upper(msg.content), ReadyWord)
    ensures Signals(msg) == []
  {
    if !msg.fromSelf && msg.inGuild && ResolveUser(msg.author).Some? {
      assert forall i | 0 <= i < |Dynasties| :: !IsDeclaration(msg.content, Dynasties[i]);
      SignalsForNone(ResolveUser(msg.author).value, msg.content, Dynasties);
    }
  }

  /** A tracked author's message that declares exactly one configured dynasty
      yields exactly one signal, for that dynasty. */
  lemma SingleDeclaration(msg: Message, k: nat)
    requires !msg.fromSelf && msg.inGuild && ResolveUser(msg.author).Some?
    requires k < |Dynasties|
    requires forall i | 0 <= i < |Dynasties| :: IsDeclaration(msg.content, Dynasties[i]) <==> i == k
    ensures Signals(msg) == [Signal(ResolveUser(msg.author).value, Dynasties[k])]
  {
    SignalsForSingle(ResolveUser(msg.author).value, msg.content, Dynasties, k);
  }

  /** Looking at one more dynasty adds its signal, if it is declared and the
      author is tracked. */
  lemma SignalsAmongSnoc(msg: Message, dynasties: seq<string>, i: nat)
    requires i < |dynasties|
    ensures SignalsAmong(msg, dynasties[..i + 1]) ==
              SignalsAmong(msg, dynasties[..i]) +
              (if !msg.fromSelf && msg.inGuild && IsDeclaration(msg.content, dynasties[i]) && ResolveUser(msg.author).Some?
               then [Signal(ResolveUser(msg.author).value, dynasties[i])] else [])
  {
    assert dynasties[..i + 1][..i] == dynasties[..i];
    assert dynasties[..i + 1][i] == dynasties[i];
  }

  // ---------------------------------------------------------------------
  // Readiness rules on table values

  /** `all(is_ready(user, dynasty) for user in USERS)`. */
  predicate AllReady(t: Table, dynasty: string): (all: bool)
    ensures all ==> forall u | u in Users :: Known(t, u, dynasty)
  {
    forall u | u in Users :: ReadyIn(t, u, dynasty)
  }

  /** The table after `set_ready(u, d, False)` for every listed user of every
      listed (upper-case) dynasty: those entries that exist become false. */
  function Cleared(t: Table, dynasties: seq<string>, users: seq<string>): (r: Table)
    ensures r.Keys == t.Keys
    ensures forall d | d in r :: r[d].Keys == t[d].Keys
    ensures forall d, u | d in r && u in r[d] && d in dynasties && u in users :: !r[d][u]
    ensures forall d, u | d in r && u in r[d] && (d !in dynasties || u !in users) :: r[d][u] == t[d][u]
  {
    map d | d in t :: if d in dynasties then (map u | u in t[d] :: if u in users then false else t[d][u]) else t[d]
  }

  /** Clearing for no user, or in no dynasty, changes nothing. */
  lemma ClearedNothing(t: Table, dynasties: seq<string>, users: seq<string>)
    requires dynasties == [] || users == []
    ensures Cleared(t, dynasties, users) == t
  {
    var r := Cleared(t, dynasties, users);
    forall d | d in r ensures r[d] == t[d] {
      assert r[d].Keys == t[d].Keys;
    }
  }

  lemma ClearedSnocUser(t: Table, dynasty: string, users: seq<string>, j: nat)
    requires j < |users|
    ensures Assign(Cleared(t, [Upper(dynasty)], users[..j]), users[j], dynasty, false)
            == Cleared(t, [Upper(dynasty)], users[..j + 1])
  {
    assert users[..j + 1] == users[..j] + [users[j]];
    var a := Assign(Cleared(t, [Upper(dynasty)], users[..j]), users[j], dynasty, false);
    var b := Cleared(t, [Upper(dynasty)], users[..j + 1]);
    forall d | d in a ensures a[d] == b[d] {
      assert a[d].Keys == b[d].Keys;
    }
  }

  lemma ClearedSnocDynasty(t: Table, dynasties: seq<string>, i: nat, users: seq<string>)
    requires i < |dynasties|
    ensures Cleared(Cleared(t, dynasties[..i], users), [dynasties[i]], users)
            == Cleared(t, dynasties[..i + 1], users)
  {
    assert dynasties[..i + 1] == dynasties[..i] + [dynasties[i]];
    var a := Cleared(Cleared(t, dynasties[..i], users), [dynasties[i]], users);
    var b := Cleared(t, dynasties[..i + 1], users);
    forall d | d in a ensures a[d] == b[d] {
      assert a[d].Keys == b[d].Keys;
    }
  }

  /** `mark_ready` on a table value: set the user ready, and if every
      configured user is then ready, clear the dynasty and broadcast. */
  function MarkReadyStep(t: Table, user: string, dynasty: string): (r: Step)
    ensures r.notices == [Confirmed(user, dynasty)] || r.notices == [Confirmed(user, dynasty), ReadyToAdvance(dynasty)]
    ensures r.table.Keys == t.Keys && forall d | d in r.table :: r.table[d].Keys == t[d].Keys
  {
    var marked := Assign(t, user, dynasty, true);
    if AllReady(marked, dynasty) then
      Step(Cleared(marked, [Upper(dynasty)], Users), [Confirmed(user, dynasty), ReadyToAdvance(dynasty)])
    else
      Step(marked, [Confirmed(user, dynasty)])
  }

  /** The declarations of a message applied one after another, in order. */
  function ApplySignals(t: Table, sigs: seq<Signal>): (r: Step)
    ensures |sigs| <= |r.notices| <= 2 * |sigs|
    ensures r.table.Keys == t.Keys && forall d | d in r.table :: r.table[d].Keys == t[d].Keys
  {
    if sigs == [] then Step(t, [])
    else
      var prev := ApplySignals(t, sigs[..|sigs| - 1]);
      var last := sigs[|sigs| - 1];
      var now := MarkReadyStep(prev.table, last.user, last.dynasty);
      Step(now.table, prev.notices + now.notices)
  }

  lemma ApplySignalsSnoc(t: Table, sigs: seq<Signal>, s: Signal)
    ensures ApplySignals(t, sigs + [s]) ==
              var prev := ApplySignals(t, sigs);
              var now := MarkReadyStep(prev.table, s.user, s.dynasty);
              Step(now.table, prev.notices + now.notices)
  {
    assert (sigs + [s])[..|sigs|] == sigs;
  }

  /** Clearing a dynasty leaves every configured user not ready for it, and
      leaves every other dynasty as it was. */
  lemma ClearedDynastyEffect(t: Table, dynasty: string)
    ensures forall u | u in Users :: !ReadyIn(Cleared(t, [Upper(dynasty)], Users), u, dynasty)
    ensures forall d | Upper(d) != Upper(dynasty) :: StatusIn(Cleared(t, [Upper(dynasty)], Users), d) == StatusIn(t, d)
  {
    var r := Cleared(t, [Upper(dynasty)], Users);
    forall d | Upper(d) != Upper(dynasty) ensures StatusIn(r, d) == StatusIn(t, d) {
      if Upper(d) in t {
        assert Upper(d) !in [Upper(dynasty)];
        assert r[Upper(d)] == t[Upper(d)];
      }
    }
  }

  /** No dynasty is ever left complete: after `mark_ready` some configured
      user is not ready for it, whatever the table was. */
  lemma MarkReadyNeverLeavesComplete(t: Table, user: string, dynasty: string)
    ensures !AllReady(MarkReadyStep(t, user, dynasty).table, dynasty)
  {
    var marked := Assign(t, user, dynasty, true);
    ClearedDynastyEffect(marked, dynasty);
    assert Users[0] in Users;
  }

  /** The per-dynasty state machine. A tracked user with an entry becomes
      ready and the dynasty stays pending exactly when someone else is still
      not ready; when the user was the last one, the dynasty is cleared for
      everyone and one broadcast follows the confirmation. Other dynasties
      are untouched either way. */
  lemma MarkReadyTransition(t: Table, user: string, dynasty: string)
    requires user in Users && Known(t, user, dynasty)
    ensures var s := MarkReadyStep(t, user, dynasty);
            var completes := forall v | v in Users && v != user :: ReadyIn(t, v, dynasty);
            && (!completes ==> ReadyIn(s.table, user, dynasty) && s.notices == [Confirmed(user, dynasty)])
            && (completes ==> (forall v | v in Users :: !ReadyIn(s.table, v, dynasty))
                              && s.notices == [Confirmed(user, dynasty), ReadyToAdvance(dynasty)])
            && (forall d | Upper(d) != Upper(dynasty) :: StatusIn(s.table, d) == StatusIn(t, d))
  {
    var marked := Assign(t, user, dynasty, true);
    forall v | v in Users && v != user ensures ReadyIn(marked, v, dynasty) == ReadyIn(t, v, dynasty) {
      AssignThenRead(t, user, dynasty, true, v, dynasty);
    }
    forall d | Upper(d) != Upper(dynasty) ensures StatusIn(marked, d) == StatusIn(t, d) {
      if Upper(d) in t {
        assert marked[Upper(d)] == t[Upper(d)];
      }
    }
    ClearedDynastyEffect(marked, dynasty);
  }

  /** While some other configured user is not ready, `mark_ready` only
      records the declaration and confirms it. */
  lemma MarkReadyPending(t: Table, user: string, dynasty: string, other: string)
    requires other in Users && other != user && !ReadyIn(t, other, dynasty)
    ensures MarkReadyStep(t, user, dynasty) == Step(Assign(t, user, dynasty, true), [Confirmed(user, dynasty)])
  {
    assert !ReadyIn(Assign(t, user, dynasty, true), other, dynasty);
  }

  /** When everyone else is ready, `mark_ready` by a tracked user with an
      entry clears the dynasty and broadcasts after the confirmation. */
  lemma MarkReadyCompletes(t: Table, user: string, dynasty: string)
    requires user in Users && Known(t, user, dynasty)
    requires forall v | v in Users && v != user :: ReadyIn(t, v, dynasty)
    ensures MarkReadyStep(t, user, dynasty) ==
              Step(Cleared(Assign(t, user, dynasty, true), [Upper(dynasty)], Users), [Confirmed(user, dynasty), ReadyToAdvance(dynasty)])
  {
    var marked := Assign(t, user, dynasty, true);
    forall v | v in Users ensures ReadyIn(marked, v, dynasty) {
      AssignThenRead(t, user, dynasty, true, v, dynasty);
    }
  }

  /** Clearing one dynasty undoes any changes confined to the listed users
      of that dynasty, when those users were all not ready to begin with. */
  lemma ClearedRestores(t0: Table, m: Table, d: string, users: seq<string>)
    requires m.Keys == t0.Keys && forall dd | dd in m :: m[dd].Keys == t0[dd].Keys
    requires forall dd | dd in m && dd != d :: m[dd] == t0[dd]
    requires d in m ==> forall u | u in m[d] && u !in users :: m[d][u] == t0[d][u]
    requires d in t0 ==> forall u | u in t0[d] && u in users :: !t0[d][u]
    ensures Cleared(m, [d], users) == t0
  {
    var r := Cleared(m, [d], users);
    forall dd | dd in r ensures r[dd] == t0[dd] {
      assert dd in [d] <==> dd == d;
      forall u | u in r[dd] ensures r[dd][u] == t0[dd][u] {
        assert u in m[dd] && u in t0[dd];
        if dd == d && u in users {
          assert !r[dd][u] && !t0[dd][u];
        } else {
          assert r[dd][u] == m[dd][u];
        }
      }
      assert r[dd].Keys == t0[dd].Keys;
    }
  }

  /** A reset is idempotent: clearing twice is clearing once. */
  lemma ClearedIdempotent(t: Table, dynasties: seq<string>, users: seq<string>)
    ensures Cleared(Cleared(t, dynasties, users), dynasties, users) == Cleared(t, dynasties, users)
  {
    var once := Cleared(t, dynasties, users);
    var twice := Cleared(once, dynasties, users);
    forall d | d in twice ensures twice[d] == once[d] {
      assert twice[d].Keys == once[d].Keys;
    }
  }

  /** Clearing a listed dynasty that holds exactly the listed users makes
      all of them false. */
  lemma ClearedEntryIsFalses(t: Table, dynasties: seq<string>, users: seq<string>, d: string)
    requires d in t && d in dynasties
    requires forall u :: u in t[d] <==> u in users
    ensures Cleared(t, dynasties, users)[d] == Falses(users)
  {
    var e := Cleared(t, dynasties, users)[d];
    assert e.Keys == Falses(users).Keys;
  }

  /** Clearing a table of exactly the listed dynasties and users gives the
      all-false table over them. */
  lemma ClearedIsAllFalse(t: Table, dynasties: seq<string>, users: seq<string>)
    requires forall d :: d in t <==> d in dynasties
    requires forall d | d in t :: forall u :: u in t[d] <==> u in users
    ensures Cleared(t, dynasties, users) == AllFalse(dynasties, users)
  {
    var r := Cleared(t, dynasties, users);
    var z := AllFalse(dynasties, users);
    forall d | d in r ensures r[d] == z[d] {
      ClearedEntryIsFalses(t, dynasties, users, d);
    }
    assert r.Keys == z.Keys;
  }

  /** Resetting every dynasty leaves no configured user ready anywhere, and on
      a well-formed table gives back the default table. */
  lemma ClearedAllIsDefault(t: Table)
    ensures forall d, u | d in Dynasties && u in Users :: !ReadyIn(Cleared(t, Dynasties, Users), u, d)
    ensures WellFormed(t) ==> Cleared(t, Dynasties, Users) == DefaultTable()
  {
    ConfigurationFacts();
    if WellFormed(t) {
      ClearedIsAllFalse(t, Dynasties, Users);
    }
  }

  /** The answer of `notify` once the roster is computed. */
  datatype NotifyOutcome = NotifyNotFound(name: string) | AllCaughtUp | NotifyReminder(roster: Roster)

  function AnswerFor(roster: Roster): (o: NotifyOutcome)
    ensures o == AllCaughtUp <==> roster == map[]
    ensures roster != map[] ==> o == NotifyReminder(roster)
  {
    if roster == map[] then AllCaughtUp else NotifyReminder(roster)
  }

  /** The answer of `reset`. */
  datatype ResetOutcome = ResetNotFound(name: string) | ResetOne(dynasty: string) | ResetAll

  /** The answer of `status`: an error, or the user maps it displays. */
  datatype StatusOutcome = StatusNotFound(name: string) | StatusReport(entries: seq<(string, map<string, bool>)>)

  lemma StatusEntriesSnoc(t: Table, dynasties: seq<string>, i: nat)
    requires i < |dynasties|
    ensures StatusEntries(t, dynasties[..i + 1]) ==
              StatusEntries(t, dynasties[..i]) +
              (if StatusIn(t, dynasties[i]) == map[] then [] else [(dynasties[i], StatusIn(t, dynasties[i]))])
  {
    assert dynasties[..i + 1][..i] == dynasties[..i];
  }

  /** The dynasties of `dynasties` with a non-empty status, paired with it. */
  function StatusEntries(t: Table, dynasties: seq<string>): (r: seq<(string, map<string, bool>)>)
    ensures |r| <= |dynasties|
    ensures forall i | 0 <= i < |r| :: r[i].0 in dynasties && r[i].1 == StatusIn(t, r[i].0) && r[i].1 != map[]
  {
    if dynasties == [] then []
    else
      var n := |dynasties| - 1;
      var prev := StatusEntries(t, dynasties[..n]);
      var status := StatusIn(t, dynasties[n]);
      var r := prev + (if status == map[] then [] else [(dynasties[n], status)]);
      assert forall i | 0 <= i < |prev| :: r[i] == prev[i];
      r
  }

  /** The dynasty names of a status report, in report order. */
  function EntryNames(entries: seq<(string, map<string, bool>)>): (names: seq<string>)
    ensures |names| == |entries|
    ensures forall i | 0 <= i < |entries| :: names[i] == entries[i].0
  {
    seq(|entries|, i requires 0 <= i < |entries| => entries[i].0)
  }

  /** The report follows the order of the chosen dynasties and shows each
      of them at most once. */
  lemma {:induction false} StatusEntriesInOrder(t: Table, dynasties: seq<string>)
    requires Distinct(dynasties)
    ensures InOrderOf(EntryNames(StatusEntries(t, dynasties)), dynasties)
    ensures Distinct(EntryNames(StatusEntries(t, dynasties)))
  {
    if dynasties != [] {
      var n := |dynasties| - 1;
      var prev := StatusEntries(t, dynasties[..n]);
      var status := StatusIn(t, dynasties[n]);
      var extra := if status == map[] then [] else [(dynasties[n], status)];
      StatusEntriesInOrder(t, dynasties[..n]);
      StatusEntriesSnoc(t, dynasties, n);
      assert dynasties[..n + 1] == dynasties;
      assert EntryNames(prev + extra) == EntryNames(prev) + (if status == map[] then [] else [dynasties[n]]);
      InOrderSnoc(EntryNames(prev), dynasties, status != map[]);
    }
    InOrderIsDistinct(EntryNames(StatusEntries(t, dynasties)), dynasties);
  }

  /** Every chosen dynasty with a non-empty status is shown, with that status. */
  lemma {:induction false} StatusEntriesComplete(t: Table, dynasties: seq<string>, d: string)
    requires d in dynasties && StatusIn(t, d) != map[]
    ensures (d, StatusIn(t, d)) in StatusEntries(t, dynasties)
  {
    var n := |dynasties| - 1;
    StatusEntriesSnoc(t, dynasties, n);
    assert dynasties[..n + 1] == dynasties;
    if d != dynasties[n] {
      assert dynasties == dynasties[..n] + [dynasties[n]];
      StatusEntriesComplete(t, dynasties[..n], d);
    }
  }

  /** One round of the dynasty loop of `on_message`: when the dynasty at
      position `i` is declared by a tracked author, `mark_ready` extends the
      run so far by that declaration; otherwise nothing happens. */
  lemma OnMessageStep(t0: Table, msg: Message, dynasties: seq<string>, i: nat, prev: Step, table: Table, n: seq<Notice>)
    requires !msg.fromSelf && msg.inGuild && i < |dynasties|
    requires prev == ApplySignals(t0, SignalsAmong(msg, dynasties[..i]))
    requires !IsDeclaration(msg.content, dynasties[i]) || ResolveUser(msg.author).None? ==>
               table == prev.table && n == []
    requires IsDeclaration(msg.content, dynasties[i]) && ResolveUser(msg.author).Some? ==>
               Step(table, n) == MarkReadyStep(prev.table, ResolveUser(msg.author).value, dynasties[i])
    ensures Step(table, prev.notices + n) == ApplySignals(t0, SignalsAmong(msg, dynasties[..i + 1]))
  {
    SignalsAmongSnoc(msg, dynasties, i);
    var before := SignalsAmong(msg, dynasties[..i]);
    if IsDeclaration(msg.content, dynasties[i]) && ResolveUser(msg.author).Some? {
      var s := Signal(ResolveUser(msg.author).value, dynasties[i]);
      assert SignalsAmong(msg, dynasties[..i + 1]) == before + [s];
      ApplySignalsSnoc(t0, before, s);
    } else {
      assert SignalsAmong(msg, dynasties[..i + 1]) == before;
      assert prev.notices + n == prev.notices;
    }
  }

  // ---------------------------------------------------------------------
  // The tracker object

  class DynastyTracker {
    const storage: DynastyStorage

    constructor (storage: DynastyStorage)
      ensures this.storage == storage
    {
      this.storage := storage;
    }

    /** `on_message`: for every configured dynasty the message declares, mark
        the first matching tracked user ready. The dynasty loop has no break. */
    method OnMessage(msg: Message) returns (notices: seq<Notice>)
      modifies storage
      ensures Step(storage.data, notices) == ApplySignals(old(storage.data), Signals(msg))
    {
      notices := [];
      if msg.fromSelf || !msg.inGuild {
        return;
      }
      for i := 0 to |Dynasties|
        invariant Step(storage.data, notices) == ApplySignals(old(storage.data), SignalsAmong(msg, Dynasties[..i]))
      {
        ghost var prev := Step(storage.data, notices);
        var n: seq<Notice> := [];
        if IsDeclaration(msg.content, Dynasties[i]) {
          n := MarkFirstMatch(msg.author, Dynasties[i]);
        }
        OnMessageStep(old(storage.data), msg, Dynasties, i, prev, storage.data, n);
        notices := notices + n;
      }
      assert Dynasties[..|Dynasties|] == Dynasties;
    }

    /** The user loop of `on_message` for one declared dynasty: mark the first
        tracked user whose name occurs in the author name, then stop; change
        nothing when none does. */
    method MarkFirstMatch(author: string, dynasty: string) returns (notices: seq<Notice>)
      modifies storage
      ensures ResolveUser(author).None? ==> storage.data == old(storage.data) && notices == []
      ensures ResolveUser(author).Some? ==>
                Step(storage.data, notices) == MarkReadyStep(old(storage.data), ResolveUser(author).value, dynasty)
    {
      var j := FirstMatch(Users, author);
      if j < |Users| {
        notices := MarkReady(Users[j], dynasty);
      } else {
        notices := [];
      }
    }

    /** `mark_ready`: set the user ready, confirm, and auto-reset the dynasty
        when every configured user is ready for it. */
    method MarkReady(user: string, dynasty: string) returns (notices: seq<Notice>)
      modifies storage
      ensures Step(storage.data, notices) == MarkReadyStep(old(storage.data), user, dynasty)
      ensures !AllReady(storage.data, dynasty)
    {
      MarkReadyNeverLeavesComplete(storage.data, user, dynasty);
      var _ := storage.SetReady(user, dynasty, true);
      notices := [Confirmed(user, dynasty)];
      if AllReady(storage.data, dynasty) {
        var broadcast := AutoResetDynasty(dynasty);
        notices := notices + broadcast;
      }
    }

    /** `auto_reset_dynasty`: clear the dynasty for every configured user and
        broadcast that it may advance. */
    method AutoResetDynasty(dynasty: string) returns (notices: seq<Notice>)
      modifies storage
      ensures storage.data == Cleared(old(storage.data), [Upper(dynasty)], Users)
      ensures notices == [ReadyToAdvance(dynasty)]
    {
      ClearDynasty(dynasty);
      notices := [ReadyToAdvance(dynasty)];
    }

    /** `set_ready(user, dynasty, False)` for every configured user. */
    method ClearDynasty(dynasty: string)
      modifies storage
      ensures storage.data == Cleared(old(storage.data), [Upper(dynasty)], Users)
    {
      ClearedNothing(storage.data, [Upper(dynasty)], []);
      for j := 0 to |Users|
        invariant storage.data == Cleared(old(storage.data), [Upper(dynasty)], Users[..j])
      {
        ClearedSnocUser(old(storage.data), dynasty, Users, j);
        var _ := storage.SetReady(Users[j], dynasty, false);
      }
      assert Users[..|Users|] == Users;
    }

    /** `reset [dynasty]`: an unknown dynasty is an error and changes nothing;
        a known one is cleared; no argument clears every dynasty. */
    method Reset(arg: Option<string>) returns (outcome: ResetOutcome)
      modifies storage
      ensures Given(arg) && Upper(arg.value) !in Dynasties ==>
                outcome == ResetNotFound(Upper(arg.value)) && storage.data == old(storage.data)
      ensures Given(arg) && Upper(arg.value) in Dynasties ==>
                outcome == ResetOne(Upper(arg.value)) &&
                storage.data == Cleared(old(storage.data), [Upper(arg.value)], Users)
      ensures !Given(arg) ==>
                outcome == ResetAll && storage.data == Cleared(old(storage.data), Dynasties, Users)
    {
      if Given(arg) {
        var dynasty := Upper(arg.value);
        if dynasty !in Dynasties {
          return ResetNotFound(dynasty);
        }
        UpperIdempotent(arg.value);
        ClearDynasty(dynasty);
        outcome := ResetOne(dynasty);
      } else {
        ConfigurationFacts();
        ClearedNothing(storage.data, [], Users);
        for i := 0 to |Dynasties|
          invariant storage.data == Cleared(old(storage.data), Dynasties[..i], Users)
        {
          ClearedSnocDynasty(old(storage.data), Dynasties, i, Users);
          ClearDynasty(Dynasties[i]);
        }
        assert Dynasties[..|Dynasties|] == Dynasties;
        outcome := ResetAll;
      }
    }

    /** `status [dynasty]`: an unknown dynasty is an error; otherwise the
        user maps of the chosen dynasties, skipping empty ones. */
    method Status(arg: Option<string>) returns (outcome: StatusOutcome)
      ensures Given(arg) && Upper(arg.value) !in Dynasties ==> outcome == StatusNotFound(Upper(arg.value))
      ensures Given(arg) && Upper(arg.value) in Dynasties ==>
                outcome == StatusReport(StatusEntries(storage.data, [Upper(arg.value)]))
      ensures !Given(arg) ==> outcome == StatusReport(StatusEntries(storage.data, Dynasties))
    {
      var shown: seq<string>;
      if Given(arg) {
        var dynasty := Upper(arg.value);
        if dynasty !in Dynasties {
          return StatusNotFound(dynasty);
        }
        shown := [dynasty];
      } else {
        shown := Dynasties;
      }
      var entries := [];
      for i := 0 to |shown|
        invariant entries == StatusEntries(storage.data, shown[..i])
      {
        StatusEntriesSnoc(storage.data, shown, i);
        var status := storage.GetDynastyStatus(shown[i]);
        if status != map[] {
          entries := entries + [(shown[i], status)];
        }
      }
      assert shown[..|shown|] == shown;
      outcome := StatusReport(entries);
    }

    /** `notify [dynasty]`: an unknown dynasty is an error; otherwise the
        not-ready roster of the chosen dynasties, or "all caught up" when it
        is empty. The table is only read. */
    method Notify(arg: Option<string>) returns (outcome: NotifyOutcome)
      ensures Given(arg) && Upper(arg.value) !in Dynasties ==> outcome == NotifyNotFound(arg.value)
      ensures Given(arg) && Upper(arg.value) in Dynasties ==>
                outcome == AnswerFor(NotReadyRoster(storage.data, [Upper(arg.value)]))
      ensures !Given(arg) ==> outcome == AnswerFor(NotReadyRoster(storage.data, Dynasties))
    {
      var toCheck := if Given(arg) then [Upper(arg.value)] else Dynasties;
      if Given(arg) && Upper(arg.value) !in Dynasties {
        return NotifyNotFound(arg.value);
      }
      var notifications: Roster := map[];
      for i := 0 to |toCheck|
        invariant notifications == NotReadyRoster(storage.data, toCheck[..i])
      {
        NotReadyRosterSnoc(storage.data, toCheck, i);
        var d := toCheck[i];
        var notReady := NotReady(storage.data, Users, d);
        if notReady != [] {
          notifications := notifications[d := notReady];
        }
      }
      assert toCheck[..|toCheck|] == toCheck;
      outcome := AnswerFor(notifications);
    }
  }
}
