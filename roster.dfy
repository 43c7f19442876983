/** The not-ready roster: which configured users are still outstanding, per
    dynasty. The `notify` command and the weekly reminder compute it alike. */
module Roster {
  import opened Config
  import opened Seqs
  import opened Storage

  /** dynasty -> users still to declare ready, in configuration order. */
  type Roster = map<string, seq<string>>

  /** `[user for user in users if not is_ready(user, dynasty)]`. */
  function NotReady(t: Table, users: seq<string>, dynasty: string): (r: seq<string>)
    ensures forall u :: u in r <==> u in users && !ReadyIn(t, u, dynasty)
    ensures |r| <= |users|
  {
    if users == [] then []
    else
      var last := users[|users| - 1];
      NotReady(t, users[..|users| - 1], dynasty) + (if ReadyIn(t, last, dynasty) then [] else [last])
  }

  /** The not-ready list keeps the order of `users` and, when `users` has no
      duplicates, has none either. */
  lemma {:induction false} NotReadyInOrder(t: Table, users: seq<string>, dynasty: string)
    requires Distinct(users)
    ensures InOrderOf(NotReady(t, users, dynasty), users)
    ensures Distinct(NotReady(t, users, dynasty))
  {
    if users != [] {
      var n := |users| - 1;
      var p := users[..n];
      NotReadyInOrder(t, p, dynasty);
      InOrderSnoc(NotReady(t, p, dynasty), users, !ReadyIn(t, users[n], dynasty));
    }
    InOrderIsDistinct(NotReady(t, users, dynasty), users);
  }

  /** When `u` is the only listed user not ready, the list is just `u`. */
  lemma {:induction false} NotReadyJustOne(t: Table, users: seq<string>, dynasty: string, u: string)
    requires Distinct(users)
    requires forall v | v in users :: ReadyIn(t, v, dynasty) <==> v != u
    ensures NotReady(t, users, dynasty) == if u in users then [u] else []
  {
    if users != [] {
      var n := |users| - 1;
      var p, last := users[..n], users[n];
      assert users == p + [last];
      assert Distinct(p) && forall v | v in p :: v in users;
      NotReadyJustOne(t, p, dynasty, u);
      assert (if u in users then [u] else []) ==
             (if u in p then [u] else []) + (if ReadyIn(t, last, dynasty) then [] else [last]) by {
        if last == u {
          forall k | 0 <= k < n ensures p[k] != u {
            assert users[k] != users[n];
          }
        }
      }
    }
  }

  /** A dynasty's not-ready list is non-empty exactly when someone is outstanding. */
  lemma NotReadyNonEmpty(t: Table)
    ensures forall d :: NotReady(t, Users, d) != [] <==> exists u :: u in Users && !ReadyIn(t, u, d)
  {
    forall d | exists u :: u in Users && !ReadyIn(t, u, d)
      ensures NotReady(t, Users, d) != []
    {
      var u :| u in Users && !ReadyIn(t, u, d);
      assert u in NotReady(t, Users, d);
    }
    forall d | NotReady(t, Users, d) != []
      ensures exists u :: u in Users && !ReadyIn(t, u, d)
    {
      var u := NotReady(t, Users, d)[0];
      assert u in NotReady(t, Users, d);
    }
  }

  /** The dictionary built by the reminder loop over `dynasties`: an entry for
      each dynasty with at least one configured user not ready. */
  function NotReadyRoster(t: Table, dynasties: seq<string>): (m: Roster)
    ensures forall d :: d in m <==> d in dynasties && exists u :: u in Users && !ReadyIn(t, u, d)
    ensures forall d | d in m :: m[d] == NotReady(t, Users, d) && m[d] != []
  {
    NotReadyNonEmpty(t);
    map d | d in dynasties && NotReady(t, Users, d) != [] :: NotReady(t, Users, d)
  }

  /** When exactly one configured user is not ready, for exactly one listed
      dynasty, the roster names that dynasty and that user only. */
  lemma RosterJustOne(t: Table, dynasties: seq<string>, d: string, u: string)
    requires Distinct(Users)
    requires d in dynasties && u in Users
    requires forall dd, v | dd in dynasties && v in Users :: ReadyIn(t, v, dd) <==> !(dd == d && v == u)
    ensures NotReadyRoster(t, dynasties) == map[d := [u]]
  {
    var roster := NotReadyRoster(t, dynasties);
    assert !ReadyIn(t, u, d);
    forall dd ensures dd in roster <==> dd == d {
      if dd in dynasties && dd != d {
        assert forall v | v in Users :: ReadyIn(t, v, dd);
      }
    }
    NotReadyJustOne(t, Users, d, u);
    var expected := map[d := [u]];
    assert roster.Keys == expected.Keys && roster[d] == expected[d];
  }

  /** One more dynasty looked at by the loop adds at most its own entry. */
  lemma NotReadyRosterSnoc(t: Table, dynasties: seq<string>, i: nat)
    requires i < |dynasties|
    ensures NotReadyRoster(t, dynasties[..i + 1]) ==
              var late := NotReady(t, Users, dynasties[i]);
              if late != [] then NotReadyRoster(t, dynasties[..i])[dynasties[i] := late]
              else NotReadyRoster(t, dynasties[..i])
  {
    assert dynasties[..i + 1] == dynasties[..i] + [dynasties[i]];
  }

  /** The roster is empty exactly when every configured user is ready for
      every listed dynasty. */
  lemma {:induction false} RosterEmptyIffAllReady(t: Table, dynasties: seq<string>)
    ensures NotReadyRoster(t, dynasties) == map[] <==>
              forall d, u | d in dynasties && u in Users :: ReadyIn(t, u, d)
  {
    var m := NotReadyRoster(t, dynasties);
    if m == map[] {
      forall d, u | d in dynasties && u in Users ensures ReadyIn(t, u, d) {
        assert d !in m;
      }
    } else {
      var d :| d in m;
      var u :| u in Users && !ReadyIn(t, u, d);
    }
  }
}
