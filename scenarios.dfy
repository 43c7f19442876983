/** Facts about the sample texts used below, kept apart from the tracker so
    that only the text operations are in scope when they are proved. */
module SampleText {
  import opened Text

  /** The tracked name chaseisntonfire occurs in the author name
      chaseisntonfire99. */
  lemma AuthorHasChase(author: string, name: string)
    requires author == "chaseisntonfire99" && name == "chaseisntonfire"
    ensures Contains(Upper(author), Upper(name))
  {
    ContainsUpperPrefix(author, name, "99");
  }

  /** Samsonite000 does not occur in chaseisntonfire99: it has an M. */
  lemma AuthorLacksSamsonite(author: string, name: string)
    requires author == "chaseisntonfire99" && name == "Samsonite000"
    ensures !Contains(Upper(author), Upper(name))
  {
    UpperLacksUpperPiece(author, name, 2, 'M');
  }

  /** "ADHNN is READY now", upper-cased, contains ADHNN. */
  lemma ContentHasADHNN(content: string)
    requires content == "ADHNN is READY now"
    ensures Contains(Upper(content), "ADHNN")
  {
    ContainsUpperPiece(content, "", "ADHNN", " is READY now");
  }

  /** "ADHNN is READY now", upper-cased, contains READY. */
  lemma ContentHasReady(content: string)
    requires content == "ADHNN is READY now"
    ensures Contains(Upper(content), "READY")
  {
    ContainsUpperPiece(content, "ADHNN is ", "READY", " now");
  }

  /** "ADHNN is READY now", upper-cased, does not contain ADHOC: it has no C. */
  lemma ContentLacksADHOC(content: string)
    requires content == "ADHNN is READY now"
    ensures !Contains(Upper(content), "ADHOC")
  {
    UpperLacksPiece(content, "ADHOC", 4, 'C');
  }

  /** "ADHNN is READY now", upper-cased, does not contain ADTBB: it has no B. */
  lemma ContentLacksADTBB(content: string)
    requires content == "ADHNN is READY now"
    ensures !Contains(Upper(content), "ADTBB")
  {
    UpperLacksPiece(content, "ADTBB", 3, 'B');
  }

  /** "ADHNN is READY now", upper-cased, does not contain ADTBS: it has no B. */
  lemma ContentLacksADTBS(content: string)
    requires content == "ADHNN is READY now"
    ensures !Contains(Upper(content), "ADTBS")
  {
    UpperLacksPiece(content, "ADTBS", 3, 'B');
  }

  /** "ADHNN ALREADY", upper-cased, contains ADHNN, and READY inside ALREADY. */
  lemma AlreadyHasADHNNReady(content: string)
    requires content == "ADHNN ALREADY"
    ensures Contains(Upper(content), "ADHNN")
    ensures Contains(Upper(content), "READY")
  {
    ContainsUpperPiece(content, "", "ADHNN", " ALREADY");
    ContainsUpperPiece(content, "ADHNN AL", "READY", "");
  }

  /** "hello world", upper-cased, does not contain READY: it has no Y. */
  lemma ChatterLacksReady(content: string)
    requires content == "hello world"
    ensures !Contains(Upper(content), "READY")
  {
    UpperLacksPiece(content, "READY", 4, 'Y');
  }
}

/** What the readiness rules give on concrete inputs over the configured
    users and dynasties, stated and proved: the classifier on sample
    messages, and a dynasty filling up and resetting itself. */
module Scenarios {
  import opened Wrappers
  import opened Config
  import opened Text
  import opened Storage
  import opened Roster
  import opened Tracker
  import opened Reminders
  import SampleText

  /** The scan stops at the second user when the first does not match and
      the second does. */
  lemma MatchSecond(users: seq<string>, author: string)
    requires 2 <= |users| && !UserMatches(users[0], author) && UserMatches(users[1], author)
    ensures MatchIndex(users, author, 0) == 1
  {
    assert MatchIndex(users, author, 1) == 1;
  }

  /** The author "chaseisntonfire99" resolves to chaseisntonfire, the second
      configured user, since the first does not occur in it. */
  lemma AuthorResolves(author: string)
    requires author == "chaseisntonfire99"
    ensures ResolveUser(author) == Some("chaseisntonfire")
  {
    assert Users[0] == "Samsonite000" && Users[1] == "chaseisntonfire";
    SampleText.AuthorHasChase(author, Users[1]);
    SampleText.AuthorLacksSamsonite(author, Users[0]);
    MatchSecond(Users, author);
  }

  /** "ADHNN is READY now" declares ADHNN and no other configured dynasty. */
  lemma ContentDeclaresADHNN(content: string)
    requires content == "ADHNN is READY now"
    ensures forall i | 0 <= i < |Dynasties| :: IsDeclaration(content, Dynasties[i]) <==> i == 0
  {
    assert Dynasties[0] == "ADHNN" && Dynasties[1] == "ADHOC" && Dynasties[2] == "ADTBB" && Dynasties[3] == "ADTBS";
    SampleText.ContentHasADHNN(content);
    SampleText.ContentHasReady(content);
    SampleText.ContentLacksADHOC(content);
    SampleText.ContentLacksADTBB(content);
    SampleText.ContentLacksADTBS(content);
    forall i | 0 <= i < |Dynasties| ensures IsDeclaration(content, Dynasties[i]) <==> i == 0 {
      assert i == 0 || i == 1 || i == 2 || i == 3;
    }
  }

  /** "ADHNN is READY now" from "chaseisntonfire99" in a server channel
      declares ADHNN for chaseisntonfire, and nothing else. */
  lemma ClassifierDeclares(msg: Message)
    requires msg == Message("chaseisntonfire99", "ADHNN is READY now", false, true)
    ensures Signals(msg) == [Signal("chaseisntonfire", "ADHNN")]
  {
    AuthorResolves(msg.author);
    ContentDeclaresADHNN(msg.content);
    SingleDeclaration(msg, 0);
  }

  /** The test is on substrings, not words: "ADHNN ALREADY" declares ADHNN. */
  lemma AlreadyIsDeclaration(content: string)
    requires content == "ADHNN ALREADY"
    ensures IsDeclaration(content, "ADHNN")
  {
    SampleText.AlreadyHasADHNNReady(content);
  }

  /** "hello world" declares nothing, whoever sends it and wherever. */
  lemma ClassifierIgnoresChatter(msg: Message)
    requires msg.content == "hello world"
    ensures Signals(msg) == []
  {
    SampleText.ChatterLacksReady(msg.content);
    NoReadyWordNoSignals(msg);
  }

  /** A dynasty filling up: starting from a table where every configured
      user has an entry for the dynasty and none is ready, the users declare
      in turn; the first two only get their confirmation, the third also
      triggers the broadcast, and the table is back where it started. */
  lemma FullRound(t0: Table, dynasty: string)
    requires forall u | u in Users :: Known(t0, u, dynasty) && !ReadyIn(t0, u, dynasty)
    ensures var s1 := MarkReadyStep(t0, Users[0], dynasty);
            var s2 := MarkReadyStep(s1.table, Users[1], dynasty);
            var s3 := MarkReadyStep(s2.table, Users[2], dynasty);
            && s1.notices == [Confirmed(Users[0], dynasty)]
            && s2.notices == [Confirmed(Users[1], dynasty)]
            && s3.notices == [Confirmed(Users[2], dynasty), ReadyToAdvance(dynasty)]
            && s3.table == t0
  {
    var u0, u1, u2 := Users[0], Users[1], Users[2];
    assert u0 in Users && u1 in Users && u2 in Users;
    assert u0 != u1 && u0 != u2 && u1 != u2;
    var d := Upper(dynasty);
    var m1 := Assign(t0, u0, dynasty, true);
    MarkReadyPending(t0, u0, dynasty, u1);
    AssignThenRead(t0, u0, dynasty, true, u2, dynasty);
    var m2 := Assign(m1, u1, dynasty, true);
    MarkReadyPending(m1, u1, dynasty, u2);
    AssignThenRead(m1, u1, dynasty, true, u0, dynasty);
    MarkReadyCompletes(m2, u2, dynasty);
    var m3 := Assign(m2, u2, dynasty, true);
    ClearedRestores(t0, m3, d, Users);
  }
}
