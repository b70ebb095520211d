/**
 The promises of account creation and login, for every run: what the stores agree on, when a
 login succeeds, where every invite code is, and what a failure halfway leaves behind for good.
 */
module ProtocolTheorems {
  import opened Text
  import opened Normalise
  import opened Protocol
  import opened ProtocolSafety

  // ---------- agreement of the stores ----------

  /** Local rows are backed by PDS accounts, and those by users of the auth service. */
  lemma HandleChain(s: State)
    requires Reachable(s)
    ensures s.rows.Keys <= s.accounts.Keys <= Handles(s.server, s.authUsers)
    ensures forall h :: h in s.rows ==>
              && s.rows[h].handle == s.accounts[h].handle == h
              && s.rows[h].did == s.accounts[h].did
              && s.rows[h].password == s.accounts[h].password
              && s.rows[h].email == s.accounts[h].email
              && s.rows[h].inviteCode == s.accounts[h].inviteCode
    ensures forall h :: h in s.accounts ==> IsRandSeq(s.accounts[h].password, 16)
  {
    ReachableInv(s);
    assert forall h :: h in s.accounts ==> AccountOk(s, h);
  }

  /** A pending local insert is for a handle the table does not have, and no other request waits to insert it. */
  lemma PendingInsertIsNew(s: State, id: nat, username: string, user: PdsUser)
    requires Reachable(s) && id in s.requests && s.requests[id] == HasAccount(username, user)
    ensures user.handle == HandleOf(s, username) && user.handle !in s.rows
    ensures forall j, u, v :: j in s.requests && j != id && s.requests[j] == HasAccount(u, v) ==> v.handle != user.handle
    ensures var t := Step(s, InsertReply(id, Done));
            t.rows == s.rows[user.handle := user] && t.requests[id] == Registered(username)
  {
    ReachableInv(s);
    assert RequestOk(s, s.requests[id]);
    assert forall j :: j in s.requests && j != id ==> Apart(s.requests[id], s.requests[j]);
  }

  // ---------- what later steps leave alone ----------

  ghost predicate Grows(s: State, t: State) {
    && t.server == s.server
    && s.authUsers <= t.authUsers && s.issued <= t.issued && s.abandoned <= t.abandoned
    && (forall h :: h in s.accounts ==> h in t.accounts && t.accounts[h] == s.accounts[h])
    && (forall h :: h in s.rows ==> h in t.rows && t.rows[h] == s.rows[h])
  }

  lemma GrowsOn(s: State, t: State, u: State)
    requires Grows(s, t) && Grows(t, u)
    ensures Grows(s, u)
  {
  }

  lemma StepGrows(s: State, e: Event)
    ensures Grows(s, Step(s, e))
  {
  }

  lemma {:induction false} RunGrows(s: State, es: seq<Event>)
    ensures Grows(s, Run(s, es))
    decreases |es|
  {
    if es != [] {
      StepGrows(s, es[0]);
      RunGrows(Step(s, es[0]), es[1..]);
    }
  }

  ghost predicate LeavesAlone(es: seq<Event>, id: nat) {
    forall e :: e in es ==> e.id != id
  }

  lemma StepLeavesOthers(s: State, e: Event, id: nat)
    requires e.id != id
    ensures id in Step(s, e).requests <==> id in s.requests
    ensures id in s.requests ==> Step(s, e).requests[id] == s.requests[id]
  {
  }

  lemma {:induction false} RunLeavesOthers(s: State, es: seq<Event>, id: nat)
    requires LeavesAlone(es, id)
    ensures id in Run(s, es).requests <==> id in s.requests
    ensures id in s.requests ==> Run(s, es).requests[id] == s.requests[id]
    decreases |es|
  {
    if es != [] {
      assert es[0] in es;
      StepLeavesOthers(s, es[0], id);
      hide Step;
      RunLeavesOthers(Step(s, es[0]), es[1..], id);
    }
  }

  lemma RunReachable(s: State, es: seq<Event>)
    requires Reachable(s)
    ensures Reachable(Run(s, es))
  {
    var fs :| s == Run(Init(s.server), fs);
    RunConcat(Init(s.server), fs, es);
    RunGrows(s, es);
    assert Run(s, es) == Run(Init(s.server), fs + es);
  }

  lemma RunOne(s: State, e: Event)
    ensures Run(s, [e]) == Step(s, e)
  {
  }

  // ---------- login ----------

  /** The lookup hands on a usable password exactly when the table has a row for the handle; then it is the PDS's own. */
  lemma LookupHitsIff(s: State, id: nat, username: string)
    requires Reachable(s) && id in s.requests && s.requests[id] == LoggingIn(username)
    ensures var h := HandleOf(s, username);
            var password := GetPdsUserByHandle(s.rows, h).password;
            && Step(s, LookupReply(id, Done)).requests[id] == Connecting(h, password)
            && (password != "" <==> h in s.rows)
            && (h in s.rows ==> h in s.accounts && s.accounts[h].handle == h && password == s.accounts[h].password)
  {
    ReachableInv(s);
    var h := HandleOf(s, username);
    assert h in s.rows ==> AccountOk(s, h);
  }

  /** The PDS grants the session exactly when the lookup had hit. */
  lemma ConnectGrantedIff(s: State, id: nat, h: string, password: string)
    requires Reachable(s) && id in s.requests && s.requests[id] == Connecting(h, password)
    ensures var r := Step(s, ConnectReply(id, Done)).requests[id];
            && (r.LoggedIn? <==> password != "")
            && (r.LoggedIn? ==> h in s.rows && h in s.accounts && r == LoggedIn(h, s.accounts[h].did))
  {
    ReachableInv(s);
    assert RequestOk(s, s.requests[id]);
    assert h in s.accounts ==> AccountOk(s, h);
  }

  /** In every reachable state a session belongs to a handle with a local row. */
  lemma SessionOnlyWithRow(s: State, id: nat, h: string, did: string)
    requires Reachable(s) && id in s.requests && s.requests[id] == LoggedIn(h, did)
    ensures h in s.rows && h in s.accounts && did == s.accounts[h].did
  {
    ReachableInv(s);
    assert RequestOk(s, s.requests[id]);
  }

  /**
   Once a registration has returned success for a username, a login with an accepted credential
   gets that account's session: whatever ran in between, and whatever runs between its steps.
   */
  lemma LoginAfterRegistration(s: State, id: nat, username: string, before: seq<Event>, lid: nat,
                               during: seq<Event>, after: seq<Event>)
    requires Reachable(s) && id in s.requests && s.requests[id] == Registered(username)
    requires lid !in Run(s, before).requests
    requires LeavesAlone(during, lid) && LeavesAlone(after, lid)
    ensures var h := HandleOf(s, username);
            var looked := Run(Step(Run(s, before), BeginLogin(lid, username)), during);
            var connecting := Run(Step(looked, LookupReply(lid, Done)), after);
            && h in s.accounts && lid in connecting.requests
            && connecting.requests[lid] == Connecting(h, s.accounts[h].password)
            && Step(connecting, ConnectReply(lid, Done)).requests[lid] == LoggedIn(h, s.accounts[h].did)
  {
    var login := BeginLogin(lid, username);
    var s1 := Run(s, before);
    var s2 := Step(s1, login);
    RegisteredHasRow(s, id, username);
    RunReachable(s, before);
    RunGrows(s, before);
    StepReachable(s1, login);
    StepGrows(s1, login);
    assert s2.requests[lid] == LoggingIn(username);
    hide Step, Run, Reachable;
    LoginGoesThrough(s2, lid, username, during, after);
  }

  lemma RegisteredHasRow(s: State, id: nat, username: string)
    requires Reachable(s) && id in s.requests && s.requests[id] == Registered(username)
    ensures HandleOf(s, username) in s.rows && HandleOf(s, username) in s.accounts
  {
    ReachableInv(s);
    assert RequestOk(s, s.requests[id]);
  }

  lemma LoginGoesThrough(s: State, lid: nat, username: string, during: seq<Event>, after: seq<Event>)
    requires Reachable(s) && lid in s.requests && s.requests[lid] == LoggingIn(username)
    requires HandleOf(s, username) in s.rows && HandleOf(s, username) in s.accounts
    requires LeavesAlone(during, lid) && LeavesAlone(after, lid)
    ensures var h := HandleOf(s, username);
            var looked := Run(s, during);
            var connecting := Run(Step(looked, LookupReply(lid, Done)), after);
            && lid in connecting.requests
            && connecting.requests[lid] == Connecting(h, s.accounts[h].password)
            && Step(connecting, ConnectReply(lid, Done)).requests[lid] == LoggedIn(h, s.accounts[h].did)
  {
    hide Run, Reachable;
    var h := HandleOf(s, username);
    var looked := Run(s, during);
    RunReachable(s, during);
    RunGrows(s, during);
    RunLeavesOthers(s, during, lid);
    LookupHitsIff(looked, lid, username);
    var lookup := LookupReply(lid, Done);
    StepReachable(looked, lookup);
    StepGrows(looked, lookup);
    var next := Step(looked, lookup);
    assert lid in next.requests && next.requests[lid] == Connecting(h, s.accounts[h].password);
    hide Step;
    RunReachable(next, after);
    RunGrows(next, after);
    RunLeavesOthers(next, after, lid);
    ConnectGrantedIff(Run(next, after), lid, h, s.accounts[h].password);
  }

  lemma StepReachable(s: State, e: Event)
    requires Reachable(s)
    ensures Reachable(Step(s, e))
  {
    RunOne(s, e);
    RunReachable(s, [e]);
  }

  // ---------- invite codes ----------

  function Consumed(s: State): set<string> {
    set h | h in s.accounts :: s.accounts[h].inviteCode
  }

  function Holding(s: State): set<nat> {
    set id | id in s.requests && s.requests[id].HasCode?
  }

  function Held(s: State): set<string> {
    set id | id in Holding(s) :: s.requests[id].code
  }

  function Image<A(==), B(==)>(keys: set<A>, m: map<A, B>): set<B>
    requires keys <= m.Keys
  {
    set a | a in keys :: m[a]
  }

  lemma {:induction false} ImageSize<A, B>(keys: set<A>, m: map<A, B>)
    requires keys <= m.Keys
    requires forall a, b :: a in keys && b in keys && a != b ==> m[a] != m[b]
    ensures |Image(keys, m)| == |keys|
    decreases |keys|
  {
    if keys == {} {
      assert Image(keys, m) == {};
    } else {
      var k :| k in keys;
      ImageSize(keys - {k}, m);
      assert Image(keys, m) == Image(keys - {k}, m) + {m[k]};
    }
  }

  /**
   Issued codes are, without overlap, those accounts have used up, those requests hold and those
   lost; each is used by one account and held by one request. No two local rows carry one code.
   */
  lemma CodesConserved(s: State)
    requires Reachable(s)
    ensures s.issued == Consumed(s) + Held(s) + s.abandoned
    ensures Consumed(s) !! Held(s) !! s.abandoned
    ensures |s.issued| == |s.accounts| + |Holding(s)| + |s.abandoned|
    ensures forall h, k :: h in s.rows && k in s.rows && h != k ==> s.rows[h].inviteCode != s.rows[k].inviteCode
  {
    ReachableInv(s);
    CodesPartition(s);
    CodesCounted(s);
    hide Inv, Reachable;
    assert |Consumed(s) + Held(s) + s.abandoned| == |Consumed(s)| + |Held(s)| + |s.abandoned|;
  }

  lemma CodesPartition(s: State)
    requires Inv(s)
    ensures s.issued == Consumed(s) + Held(s) + s.abandoned
    ensures Consumed(s) !! Held(s) !! s.abandoned
    ensures forall h, k :: h in s.rows && k in s.rows && h != k ==> s.rows[h].inviteCode != s.rows[k].inviteCode
  {
  }

  lemma CodesCounted(s: State)
    requires Inv(s)
    ensures |Consumed(s)| == |s.accounts| && |Held(s)| == |Holding(s)|
  {
    ConsumedCount(s);
    HeldCount(s);
  }

  lemma ConsumedCount(s: State)
    requires CodesDistinct(s)
    ensures |Consumed(s)| == |s.accounts|
  {
    var used := map h | h in s.accounts :: s.accounts[h].inviteCode;
    var image := Image(s.accounts.Keys, used);
    ImageSize(s.accounts.Keys, used);
    assert Consumed(s) == image by {
      forall c ensures c in Consumed(s) <==> c in image {
        if c in Consumed(s) {
          var h :| h in s.accounts && s.accounts[h].inviteCode == c;
          assert used[h] == c;
        }
      }
    }
    assert |s.accounts| == |s.accounts.Keys|;
  }

  lemma HeldCount(s: State)
    requires RequestsApart(s)
    ensures |Held(s)| == |Holding(s)|
  {
    var held := map id | id in Holding(s) :: s.requests[id].code;
    var image := Image(Holding(s), held);
    forall i, j | i in Holding(s) && j in Holding(s) && i != j ensures held[i] != held[j] {
      assert Apart(s.requests[i], s.requests[j]);
    }
    ImageSize(Holding(s), held);
    assert Held(s) == image by {
      forall c ensures c in Held(s) <==> c in image {
        if c in Held(s) {
          var id :| id in Holding(s) && s.requests[id].code == c;
          assert held[id] == c;
        }
      }
    }
  }

  // ---------- what a failure halfway leaves behind ----------

  /** An account on the PDS that has no local row, and no request left that would insert one. */
  ghost predicate Stranded(s: State, h: string) {
    && h in s.accounts && h !in s.rows
    && forall id :: id in s.requests && s.requests[id].HasAccount? ==> s.requests[id].user.handle != h
  }

  lemma StepKeepsStranded(s: State, e: Event, h: string)
    requires Stranded(s, h)
    ensures Stranded(Step(s, e), h)
  {
  }

  lemma {:induction false} RunKeepsStranded(s: State, es: seq<Event>, h: string)
    requires Stranded(s, h)
    ensures Stranded(Run(s, es), h)
    decreases |es|
  {
    if es != [] {
      StepKeepsStranded(s, es[0], h);
      hide Stranded, Step;
      RunKeepsStranded(Step(s, es[0]), es[1..], h);
    }
  }

  /** Stranding is for good: no later registration for the name succeeds, and no login ever gets a session. */
  lemma StrandedForever(s: State, es: seq<Event>, h: string)
    requires Reachable(s) && Stranded(s, h)
    ensures var t := Run(s, es);
            forall id :: id in t.requests ==>
              && (t.requests[id].LoggedIn? ==> t.requests[id].handle != h)
              && (t.requests[id].Registered? ==> HandleOf(t, t.requests[id].username) != h)
  {
    var t := Run(s, es);
    RunKeepsStranded(s, es, h);
    RunReachable(s, es);
    ReachableInv(t);
    forall id | id in t.requests
      ensures t.requests[id].LoggedIn? ==> t.requests[id].handle != h
      ensures t.requests[id].Registered? ==> HandleOf(t, t.requests[id].username) != h
    {
      assert RequestOk(t, t.requests[id]);
    }
  }

  /**
   The events that cut a registration off between the PDS account and the local row: the reply
   that carries the account is lost, the insert is refused, or the request stops before it.
   */
  ghost predicate CutsShort(s: State, e: Event, h: string) {
    && e.id in s.requests
    && match s.requests[e.id]
       case HasAccount(_, user) => user.handle == h && (e == Abort(e.id) || e == InsertReply(e.id, Refused))
       case HasCode(u, _, _) =>
         && HandleOf(s, u) == h && h !in s.accounts
         && e.AccountReply? && e.outcome == ReplyLost && IsRandSeq(e.password, 16)
       case _ => false
  }

  /** An account becomes stranded by exactly those events. */
  lemma StrandedExactlyBy(s: State, e: Event, h: string)
    requires Reachable(s)
    ensures !Stranded(s, h) && Stranded(Step(s, e), h) <==> CutsShort(s, e, h)
  {
    ReachableInv(s);
    if CutsShort(s, e, h) {
      CutShortStrands(s, e, h);
    } else if !Stranded(s, h) && Stranded(Step(s, e), h) {
      StrandedWasCutShort(s, e, h);
    }
  }

  lemma CutShortStrands(s: State, e: Event, h: string)
    requires Inv(s) && CutsShort(s, e, h)
    ensures !Stranded(s, h) && Stranded(Step(s, e), h)
  {
    var r := s.requests[e.id];
    assert RequestOk(s, r);
    forall j | j in s.requests && j != e.id && s.requests[j].HasAccount? ensures s.requests[j].user.handle != h {
      assert Apart(r, s.requests[j]);
      assert RequestOk(s, s.requests[j]);
    }
  }

  lemma StrandedWasCutShort(s: State, e: Event, h: string)
    requires Inv(s) && !Stranded(s, h) && Stranded(Step(s, e), h)
    ensures CutsShort(s, e, h)
  {
    var t := Step(s, e);
    if h in s.accounts && h !in s.rows {
      var id :| id in s.requests && s.requests[id].HasAccount? && s.requests[id].user.handle == h;
      assert RequestOk(s, s.requests[id]);
      if id != e.id {
        StepLeavesOthers(s, e, id);
        assert false;
      }
    } else {
      StepGrows(s, e);
      NewAccountEvent(s, e, h);
    }
  }

  lemma NewAccountEvent(s: State, e: Event, h: string)
    requires h !in s.accounts && h in Step(s, e).accounts
    ensures e.AccountReply? && e.id in s.requests && s.requests[e.id].HasCode? && e.outcome != Refused
    ensures HandleOf(s, s.requests[e.id].username) == h && IsRandSeq(e.password, 16)
    ensures e.id in Step(s, e).requests
    ensures e.outcome == Done ==>
              Step(s, e).requests[e.id].HasAccount? && Step(s, e).requests[e.id].user.handle == h
  {
  }

  lemma InitReachable(server: string)
    ensures Reachable(Init(server))
  {
    assert Run(Init(server), []) == Init(server);
  }

  lemma RunSnoc(s: State, es: seq<Event>, n: nat)
    requires |es| == n + 1
    ensures Run(s, es) == Step(Run(s, es[..n]), es[n])
  {
    assert es == es[..n] + [es[n]];
    RunConcat(s, es[..n], [es[n]]);
    RunOne(Run(s, es[..n]), es[n]);
  }

  ghost predicate CutShortAt(server: string, es: seq<Event>, i: nat, h: string)
    requires i < |es|
  {
    CutsShort(Run(Init(server), es[..i]), es[i], h)
  }

  /** Over whole runs: an account is stranded at the end exactly when some event of the run cut its registration short. */
  lemma {:induction false} StrandedIffCutShort(server: string, es: seq<Event>, h: string)
    ensures Stranded(Run(Init(server), es), h) <==> exists i :: 0 <= i < |es| && CutShortAt(server, es, i, h)
    decreases |es|
  {
    if es != [] {
      hide Stranded, CutsShort, Run, Step, Reachable;
      var n := |es| - 1;
      var before := Run(Init(server), es[..n]);
      InitReachable(server);
      RunReachable(Init(server), es[..n]);
      RunSnoc(Init(server), es, n);
      StrandedExactlyBy(before, es[n], h);
      StrandedIffCutShort(server, es[..n], h);
      assert CutShortAt(server, es, n, h) <==> CutsShort(before, es[n], h);
      forall i | 0 <= i < n ensures CutShortAt(server, es, i, h) <==> CutShortAt(server, es[..n], i, h) {
        assert es[..n][..i] == es[..i];
      }
      if Stranded(before, h) {
        StepKeepsStranded(before, es[n], h);
        var i :| 0 <= i < n && CutShortAt(server, es[..n], i, h);
        assert CutShortAt(server, es, i, h);
      }
    }
  }

  /** It happens: the PDS creates the account, its reply is lost, and the account is stranded. */
  lemma StrandedWitness(server: string) returns (s: State, h: string)
    ensures Reachable(s) && s.server == server && Stranded(s, h)
  {
    hide Reachable, Run, GetHandleFromUsername;
    var password := seq(16, i => LETTERS[0]);
    var s0, email := Init(server), "bob@example.org";
    var s1 := Step(s0, BeginRegister(0, PasskeyForm(email)));
    var s2 := Step(s1, AuthReply(0, "bob", Done));
    var s3 := Step(s2, InviteReply(0, "code", Done));
    InitReachable(server);
    StepReachable(s0, BeginRegister(0, PasskeyForm(email)));
    StepReachable(s1, AuthReply(0, "bob", Done));
    StepReachable(s2, InviteReply(0, "code", Done));
    StepReachable(s3, AccountReply(0, password, "did", ReplyLost));
    assert s3.requests == map[0 := HasCode("bob", email, "code")] && s3.accounts == map[] && s3.rows == map[];
    s, h := Step(s3, AccountReply(0, password, "did", ReplyLost)), HandleOf(s0, "bob");
  }

  // ---------- requests that are over ----------

  predicate Ended(r: Request) {
    r.Registered? || r.Transferred? || r.LoggedIn? || r.Failed?
  }

  /** A request that has returned stays as it is, whatever happens, and whatever is sent for it. */
  lemma {:induction false} EndedForever(s: State, es: seq<Event>, id: nat)
    requires id in s.requests && Ended(s.requests[id])
    ensures id in Run(s, es).requests && Run(s, es).requests[id] == s.requests[id]
    decreases |es|
  {
    if es != [] {
      var t := Step(s, es[0]);
      if es[0].id != id {
        StepLeavesOthers(s, es[0], id);
      }
      assert id in t.requests && t.requests[id] == s.requests[id];
      hide Step;
      EndedForever(t, es[1..], id);
    }
  }

  /** A request can stop anywhere before it has returned: it fails, and a code in its hands is lost with it. */
  lemma AbortEnds(s: State, id: nat)
    requires id in s.requests
    ensures var r, t := s.requests[id], Step(s, Abort(id));
            && Ended(t.requests[id]) && (Ended(r) ==> t.requests[id] == r) && (!Ended(r) ==> t.requests[id] == Failed)
            && t.abandoned == s.abandoned + (if r.HasCode? then {r.code} else {})
            && t.accounts == s.accounts && t.rows == s.rows && t.issued == s.issued && t.authUsers == s.authUsers
  {
  }

  /** The handle of an accepted password form gives the username back: it is what stands before the first dot. */
  lemma AcceptedNameCutsBack(server: string, form: Form)
    requires form.PasswordForm? && FormOk(form)
    ensures var h := GetHandleFromUsername(server, form.userName);
            Index(h, ".") == |form.userName| && h[..|form.userName|] == form.userName
  {
    HandleCut(server, form.userName);
  }

  // ---------- one registration per name ----------

  /** The handle a request has an account for, recorded or about to be. */
  function Owned(s: State, r: Request): Option<string> {
    match r
    case HasAccount(_, user) => Some(user.handle)
    case Registered(u) => Some(HandleOf(s, u))
    case _ => None
  }

  ghost predicate OneOwner(s: State) {
    forall i, j :: i in s.requests && j in s.requests && i != j && Owned(s, s.requests[i]).Some? ==>
      Owned(s, s.requests[i]) != Owned(s, s.requests[j])
  }

  /** A handle a request owns after its own step was its own before, or had no account yet. */
  lemma OwnerAfterStep(s: State, e: Event)
    requires Inv(s)
    ensures var t := Step(s, e);
            e.id in t.requests && Owned(t, t.requests[e.id]).Some? ==>
              || (e.id in s.requests && Owned(s, s.requests[e.id]) == Owned(t, t.requests[e.id]))
              || Owned(t, t.requests[e.id]).value !in s.accounts
  {
    hide GetHandleFromUsername, IsRandSeq, CodeUsed, GetPdsUserByHandle, SessionGranted, FormOk;
    if e.id in s.requests {
      assert RequestOk(s, s.requests[e.id]);
    }
    hide Inv;
  }

  lemma OwnerHasAccount(s: State, id: nat)
    requires Inv(s) && id in s.requests && Owned(s, s.requests[id]).Some?
    ensures Owned(s, s.requests[id]).value in s.accounts
  {
    assert RequestOk(s, s.requests[id]);
  }

  lemma StepKeepsOneOwner(s: State, e: Event)
    requires Inv(s) && OneOwner(s)
    ensures OneOwner(Step(s, e))
  {
    hide Inv, Step;
    var t := Step(s, e);
    OwnerAfterStep(s, e);
    StepGrows(s, e);
    forall i | i in t.requests && i != e.id
      ensures i in s.requests && Owned(s, s.requests[i]) == Owned(t, t.requests[i])
      ensures Owned(t, t.requests[i]).Some? ==> Owned(t, t.requests[i]).value in s.accounts
    {
      StepLeavesOthers(s, e, i);
      if Owned(s, s.requests[i]).Some? {
        OwnerHasAccount(s, i);
      }
    }
  }

  lemma {:induction false} RunKeepsOneOwner(s: State, es: seq<Event>)
    requires Inv(s) && OneOwner(s)
    ensures OneOwner(Run(s, es))
    decreases |es|
  {
    if es != [] {
      StepKeepsInv(s, es[0]);
      StepKeepsOneOwner(s, es[0]);
      hide Inv, OneOwner, Step;
      RunKeepsOneOwner(Step(s, es[0]), es[1..]);
    }
  }

  /**
   However often the auth service creates one name, at most one request for it has returned
   success, and none waits to insert its row beside that one.
   */
  lemma RegisteredOnce(s: State, i: nat, j: nat, username: string)
    requires Reachable(s) && i in s.requests && j in s.requests && s.requests[i] == Registered(username)
    requires s.requests[j].Registered? || s.requests[j].HasAccount?
    requires s.requests[j].username == username
    ensures i == j
  {
    var es :| s == Run(Init(s.server), es);
    RunKeepsOneOwner(Init(s.server), es);
    ReachableInv(s);
    assert RequestOk(s, s.requests[j]);
  }
}
