/** The readiness table and the store object that owns it (storage.py),
    without the JSON snapshot file, the writer thread and the lock. */
module Storage {
  import opened Config
  import opened Text

  /** dynasty -> (user -> ready). */
  type Table = map<string, map<string, bool>>

  /** The table holds exactly the configured dynasties, each with exactly the
      configured users. Only the default table is guaranteed to be like this: a
      loaded snapshot is not validated. */
  ghost predicate WellFormed(t: Table)
  {
    && (forall d :: d in t <==> d in Dynasties)
    && (forall d | d in t :: forall u :: u in t[d] <==> u in Users)
  }

  /** Every listed user mapped to false. */
  function Falses(users: seq<string>): (m: map<string, bool>)
    ensures forall u :: u in m <==> u in users
    ensures forall u | u in m :: !m[u]
  {
    map u | u in users :: false
  }

  /** The table with every listed dynasty mapping every listed user to false. */
  function AllFalse(dynasties: seq<string>, users: seq<string>): (t: Table)
    ensures forall d :: d in t <==> d in dynasties
    ensures forall d | d in t :: forall u :: u in t[d] <==> u in users
    ensures forall d, u | d in t && u in t[d] :: !t[d][u]
  {
    map d | d in dynasties :: Falses(users)
  }

  lemma FalsesSnoc(users: seq<string>, j: nat)
    requires j < |users|
    ensures Falses(users[..j + 1]) == Falses(users[..j])[users[j] := false]
  {
    assert users[..j + 1] == users[..j] + [users[j]];
  }

  lemma AllFalseSnoc(dynasties: seq<string>, i: nat, users: seq<string>)
    requires i < |dynasties|
    ensures AllFalse(dynasties[..i + 1], users) == AllFalse(dynasties[..i], users)[dynasties[i] := Falses(users)]
  {
    assert dynasties[..i + 1] == dynasties[..i] + [dynasties[i]];
  }

  /** One step of filling a dynasty's entry with false for each user. */
  lemma FalsesStep(built: Table, dynasty: string, users: seq<string>, j: nat, t: Table)
    requires j < |users| && t == built[dynasty := Falses(users[..j])]
    ensures t[dynasty := t[dynasty][users[j] := false]] == built[dynasty := Falses(users[..j + 1])]
  {
    FalsesSnoc(users, j);
  }

  /** The table built on first run, or when the snapshot cannot be read. */
  function DefaultTable(): (t: Table)
    ensures WellFormed(t)
    ensures forall d, u | d in t && u in t[d] :: !t[d][u]
  {
    AllFalse(Dynasties, Users)
  }

  /** Whether the table has an entry for `user` under the dynasty named
      `dynasty` in any case. */
  predicate Known(t: Table, user: string, dynasty: string): (k: bool)
    ensures k ==> Upper(dynasty) in t
  {
    Upper(dynasty) in t && user in t[Upper(dynasty)]
  }

  /** `is_ready` on a table value: the entry under the upper-cased dynasty,
      or false when there is none. */
  predicate ReadyIn(t: Table, user: string, dynasty: string): (ready: bool)
    ensures ready ==> Known(t, user, dynasty)
  {
    Known(t, user, dynasty) && t[Upper(dynasty)][user]
  }

  /** The table after `set_ready`: the one entry rewritten when it exists,
      otherwise the same table. */
  function Assign(t: Table, user: string, dynasty: string, ready: bool): (r: Table)
    ensures r.Keys == t.Keys
    ensures forall d | d in r :: r[d].Keys == t[d].Keys
    ensures ReadyIn(r, user, dynasty) == (Known(t, user, dynasty) && ready)
    ensures forall d, u | d in r && u in r[d] && (d != Upper(dynasty) || u != user) :: r[d][u] == t[d][u]
    ensures forall d | d in r && d != Upper(dynasty) :: r[d] == t[d]
    ensures !Known(t, user, dynasty) ==> r == t
  {
    var d := Upper(dynasty);
    if d in t && user in t[d] then t[d := t[d][user := ready]] else t
  }

  /** What `get_dynasty_status` returns: the user map of the upper-cased
      dynasty, or an empty map for an unknown one. */
  function StatusIn(t: Table, dynasty: string): (s: map<string, bool>)
    ensures Upper(dynasty) !in t ==> s == map[]
    ensures forall u :: u in s <==> Known(t, u, dynasty)
    ensures forall u | u in s :: s[u] == ReadyIn(t, u, dynasty)
  {
    if Upper(dynasty) in t then t[Upper(dynasty)] else map[]
  }

  /** Dynasty lookups ignore case; user lookups do not. */
  lemma ReadyInIgnoresDynastyCase(t: Table, user: string, dynasty: string)
    ensures ReadyIn(t, user, dynasty) == ReadyIn(t, user, Upper(dynasty))
    ensures StatusIn(t, dynasty) == StatusIn(t, Upper(dynasty))
  {
    UpperIdempotent(dynasty);
  }

  /** In a well-formed table an entry exists exactly for a configured user
      name, as written, under any case of a configured dynasty. */
  lemma KnownInWellFormed(t: Table, user: string, dynasty: string)
    requires WellFormed(t)
    ensures Known(t, user, dynasty) <==> user in Users && Upper(dynasty) in Dynasties
  {
  }

  /** User lookups do not ignore case: the upper-cased form of a tracked
      name is never known, so never ready, in a well-formed table. */
  lemma ReadyInUserCaseSensitive(t: Table, dynasty: string)
    requires WellFormed(t)
    ensures forall u | u in Users :: !Known(t, Upper(u), dynasty) && !ReadyIn(t, Upper(u), dynasty)
  {
    UsersHaveLowerCase();
    forall u | u in Users ensures Upper(u) !in Users {
      UpperAt(u);
    }
  }

  /** An unknown dynasty or user reads as not ready; no entry is invented. */
  lemma ReadyInUnknown(t: Table, user: string, dynasty: string)
    requires Upper(dynasty) !in t || user !in t[Upper(dynasty)]
    ensures !ReadyIn(t, user, dynasty)
  {
  }

  /** Writing a known entry and reading it back gives the written value, and
      every other (user, dynasty) reads as before. */
  lemma AssignThenRead(t: Table, user: string, dynasty: string, ready: bool, u: string, d: string)
    requires Known(t, user, dynasty)
    ensures ReadyIn(Assign(t, user, dynasty, ready), user, dynasty) == ready
    ensures Upper(d) != Upper(dynasty) || u != user ==>
              ReadyIn(Assign(t, user, dynasty, ready), u, d) == ReadyIn(t, u, d)
  {
  }

  /** Assignments never add or remove keys, so a well-formed table stays so. */
  lemma AssignKeepsWellFormed(t: Table, user: string, dynasty: string, ready: bool)
    requires WellFormed(t)
    ensures WellFormed(Assign(t, user, dynasty, ready))
  {
  }

  /** The store: one readiness table, updated in place. */
  class DynastyStorage {
    var data: Table

    /** A store whose table is the default one (no snapshot on disk). */
    constructor ()
      ensures data == DefaultTable()
    {
      data := map[];
      new;
      CreateDefaultData();
    }

    /** A store whose table was read from a snapshot, as it was read. */
    constructor Loaded(snapshot: Table)
      ensures data == snapshot
    {
      data := snapshot;
    }

    /** `_create_default_data`: rebuild the table with every configured user
        not ready for every configured dynasty. */
    method CreateDefaultData()
      modifies this
      ensures data == DefaultTable()
    {
      data := map[];
      for i := 0 to |Dynasties|
        invariant data == AllFalse(Dynasties[..i], Users)
      {
        var dynasty := Dynasties[i];
        ghost var built := data;
        assert Falses(Users[..0]) == map[];
        data := data[dynasty := map[]];
        for j := 0 to |Users|
          invariant data == built[dynasty := Falses(Users[..j])]
        {
          FalsesStep(built, dynasty, Users, j, data);
          data := data[dynasty := data[dynasty][Users[j] := false]];
        }
        assert Users[..|Users|] == Users;
        AllFalseSnoc(Dynasties, i, Users);
      }
      assert Dynasties[..|Dynasties|] == Dynasties;
    }

    /** `is_ready`: never fails; an unknown dynasty or user reads as false. */
    method IsReady(user: string, dynasty: string) returns (ready: bool)
      ensures ready == ReadyIn(data, user, dynasty)
      ensures !Known(data, user, dynasty) ==> !ready
    {
      var d := Upper(dynasty);
      if d !in data {
        return false;
      }
      if user !in data[d] {
        return false;
      }
      return data[d][user];
    }

    /** `set_ready`: refuses an unknown dynasty or user (returning false and
        changing nothing); otherwise rewrites that one entry and returns true. */
    method SetReady(user: string, dynasty: string, ready: bool) returns (ok: bool)
      modifies this
      ensures ok == Known(old(data), user, dynasty)
      ensures data == Assign(old(data), user, dynasty, ready)
      ensures ok ==> ReadyIn(data, user, dynasty) == ready
      ensures !ok ==> data == old(data)
    {
      var d := Upper(dynasty);
      if d !in data {
        return false;
      }
      if user !in data[d] {
        return false;
      }
      data := data[d := data[d][user := ready]];
      return true;
    }

    /** `get_dynasty_status`: a copy of one dynasty's user map, empty when the
        dynasty is unknown. */
    method GetDynastyStatus(dynasty: string) returns (status: map<string, bool>)
      ensures status == StatusIn(data, dynasty)
      ensures Upper(dynasty) in data ==> status == data[Upper(dynasty)]
      ensures Upper(dynasty) !in data ==> status == map[]
    {
      var d := Upper(dynasty);
      if d !in data {
        return map[];
      }
      return data[d];
    }

    /** `get_all_statuses`: a copy of the whole table. */
    method GetAllStatuses() returns (all: Table)
      ensures all == data
    {
      return data;
    }
  }
}
