/**
 What holds in every reachable state of the protocol, whatever the interleaving and whatever fails.
 */
module ProtocolSafety {
  import opened Text
  import opened Normalise
  import opened Protocol

  // ---------- the invariant ----------

  function Handles(server: string, names: set<string>): set<string> {
    set n | n in names :: GetHandleFromUsername(server, n)
  }

  /** Every row agrees with a PDS account in handle, password, email, DID and invite code. */
  ghost predicate RowsBacked(s: State) {
    forall h :: h in s.rows ==> h in s.accounts && s.rows[h] == UserOf(s.accounts[h])
  }

  ghost predicate AccountOk(s: State, h: string)
    requires h in s.accounts
  {
    var a := s.accounts[h];
    a.handle == h && IsRandSeq(a.password, 16) && a.inviteCode in s.issued && a.inviteCode !in s.abandoned
    && h in Handles(s.server, s.authUsers)
  }

  ghost predicate AccountsOk(s: State) {
    forall h :: h in s.accounts ==> AccountOk(s, h)
  }

  ghost predicate CodesDistinct(s: State) {
    forall h, k :: h in s.accounts && k in s.accounts && h != k ==> s.accounts[h].inviteCode != s.accounts[k].inviteCode
  }

  ghost predicate RequestOk(s: State, r: Request) {
    match r
    case Claimed(u, _) => u in s.authUsers
    case HasCode(u, _, code) => u in s.authUsers && code in s.issued && code !in s.abandoned && !CodeUsed(s, code)
    case HasAccount(u, user) =>
      && user.handle == HandleOf(s, u) && user.handle in s.accounts
      && user == UserOf(s.accounts[user.handle]) && user.handle !in s.rows
    case Registered(u) => HandleOf(s, u) in s.rows
    case Transferred(u) => u in s.authUsers
    case Connecting(h, password) => password == "" || (h in s.rows && password == s.rows[h].password)
    case LoggedIn(h, did) => h in s.rows && did == s.rows[h].did
    case _ => true
  }

  ghost predicate RequestsOk(s: State) {
    forall id :: id in s.requests ==> RequestOk(s, s.requests[id])
  }

  /** No two requests hold the same code or wait to insert the same handle. */
  predicate Apart(r: Request, q: Request) {
    && (r.HasCode? && q.HasCode? ==> r.code != q.code)
    && (r.HasAccount? && q.HasAccount? ==> r.user.handle != q.user.handle)
  }

  ghost predicate RequestsApart(s: State) {
    forall i, j :: i in s.requests && j in s.requests && i != j ==> Apart(s.requests[i], s.requests[j])
  }

  /** Where an issued code is: spent on an account, in a request's hands, or lost. */
  predicate Accounted(s: State, code: string) {
    CodeUsed(s, code) || code in s.abandoned ||
    exists id :: id in s.requests && s.requests[id].HasCode? && s.requests[id].code == code
  }

  ghost predicate CodesAccounted(s: State) {
    s.abandoned <= s.issued && forall c :: c in s.issued ==> Accounted(s, c)
  }

  ghost predicate Core(s: State) {
    RowsBacked(s) && AccountsOk(s) && CodesDistinct(s) && RequestsOk(s) && RequestsApart(s)
  }

  ghost predicate Inv(s: State) {
    Core(s) && CodesAccounted(s)
  }

  // ---------- changes to one store, while request id is set aside ----------

  function Without(s: State, id: nat): State {
    s.(requests := s.requests - {id})
  }

  lemma WithoutKeepsCore(s: State, id: nat)
    requires Core(s)
    ensures Core(Without(s, id))
    ensures id in s.requests ==> RequestOk(Without(s, id), s.requests[id])
    ensures id in s.requests ==> forall j :: j in Without(s, id).requests ==> Apart(s.requests[id], s.requests[j])
  {
  }

  lemma AddUserKeepsCore(s: State, name: string)
    requires Core(s)
    ensures Core(s.(authUsers := s.authUsers + {name}))
  {
  }

  lemma IssueKeepsCore(s: State, code: string)
    requires Core(s) && code !in s.issued
    ensures Core(s.(issued := s.issued + {code}))
    ensures !CodeUsed(s, code)
    ensures forall j :: j in s.requests && s.requests[j].HasCode? ==> s.requests[j].code != code
  {
  }

  lemma AbandonKeepsCore(s: State, code: string)
    requires Core(s) && !CodeUsed(s, code)
    requires forall j :: j in s.requests && s.requests[j].HasCode? ==> s.requests[j].code != code
    ensures Core(s.(abandoned := s.abandoned + {code}))
  {
  }

  lemma AddAccountKeepsCore(s: State, u: string, a: Account)
    requires Core(s) && u in s.authUsers && a.handle == HandleOf(s, u) && a.handle !in s.accounts
    requires IsRandSeq(a.password, 16) && a.inviteCode in s.issued && a.inviteCode !in s.abandoned
    requires !CodeUsed(s, a.inviteCode)
    requires forall j :: j in s.requests && s.requests[j].HasCode? ==> s.requests[j].code != a.inviteCode
    ensures Core(s.(accounts := s.accounts[a.handle := a]))
    ensures forall j :: j in s.requests && s.requests[j].HasAccount? ==> s.requests[j].user.handle != a.handle
    ensures a.handle !in s.rows
  {
  }

  lemma AddRowKeepsCore(s: State, user: PdsUser)
    requires Core(s) && user.handle in s.accounts && user == UserOf(s.accounts[user.handle]) && user.handle !in s.rows
    requires forall j :: j in s.requests && s.requests[j].HasAccount? ==> s.requests[j].user.handle != user.handle
    ensures Core(s.(rows := s.rows[user.handle := user]))
  {
    var t := s.(rows := s.rows[user.handle := user]);
    forall h | h in t.accounts ensures AccountOk(t, h) {
      assert AccountOk(s, h);
    }
    forall j | j in t.requests ensures RequestOk(t, t.requests[j]) {
      assert RequestOk(s, s.requests[j]);
    }
  }

  /** Puts the request back, with its new program counter. */
  lemma PutKeepsCore(s: State, id: nat, r: Request)
    requires Core(Without(s, id)) && RequestOk(Without(s, id), r)
    requires forall j :: j in Without(s, id).requests ==> Apart(r, s.requests[j])
    ensures Core(Put(s, id, r))
  {
    var b, t := Without(s, id), Put(s, id, r);
    forall h | h in t.accounts ensures AccountOk(t, h) {
      assert AccountOk(b, h);
    }
    forall j | j in t.requests ensures RequestOk(t, t.requests[j]) {
      if j != id {
        assert RequestOk(b, b.requests[j]);
      }
    }
    forall i, j | i in t.requests && j in t.requests && i != j ensures Apart(t.requests[i], t.requests[j]) {
      if i != id && j != id {
        assert Apart(b.requests[i], b.requests[j]);
      } else if i == id {
        assert j in b.requests;
      } else {
        assert i in b.requests;
      }
    }
  }

  /** The ledger of codes, when request id moves on to r and the stores of s have grown to those of t. */
  lemma PutKeepsLedger(s: State, t: State, id: nat, r: Request)
    requires CodesAccounted(s) && t.requests == s.requests
    requires s.abandoned <= t.abandoned <= t.issued
    requires forall h :: h in s.accounts ==> h in t.accounts && t.accounts[h] == s.accounts[h]
    requires forall c :: c in t.issued && c !in s.issued ==> c in t.abandoned || (r.HasCode? && r.code == c)
    requires id in s.requests && s.requests[id].HasCode? ==>
               s.requests[id].code in t.abandoned || CodeUsed(t, s.requests[id].code)
    ensures CodesAccounted(Put(t, id, r))
  {
    var v := Put(t, id, r);
    forall c | c in v.issued ensures Accounted(v, c) {
      if c !in s.issued {
        assert c in t.abandoned || v.requests[id] == r;
      } else if CodeUsed(s, c) {
        var h :| h in s.accounts && s.accounts[h].inviteCode == c;
        assert h in v.accounts && v.accounts[h].inviteCode == c;
      } else if c !in s.abandoned {
        assert Accounted(s, c);
        var j :| j in s.requests && s.requests[j].HasCode? && s.requests[j].code == c;
        if j != id {
          assert v.requests[j] == s.requests[j];
        } else if CodeUsed(t, c) {
          var h :| h in t.accounts && t.accounts[h].inviteCode == c;
          assert h in v.accounts;
        }
      }
    }
  }

  // ---------- one step ----------

  lemma QuietPut(s: State, id: nat, r: Request)
    requires Inv(s) && RequestOk(s, r) && !r.HasCode? && !r.HasAccount?
    requires id in s.requests ==> !s.requests[id].HasCode?
    ensures Inv(Put(s, id, r))
  {
    WithoutKeepsCore(s, id);
    PutKeepsCore(s, id, r);
    PutKeepsLedger(s, s, id, r);
  }

  lemma AfterAuthKeepsInv(s: State, id: nat, form: Form, name: string, outcome: Outcome)
    requires Inv(s) && id in s.requests && s.requests[id] == Registering(form)
    ensures Inv(AfterAuth(s, id, form, name, outcome))
  {
    if outcome == Refused {
      QuietPut(s, id, Failed);
    } else {
      var t := s.(authUsers := s.authUsers + {name});
      AddUserKeepsCore(s, name);
      QuietPut(t, id, AfterAuth(s, id, form, name, outcome).requests[id]);
    }
  }

  lemma AfterInviteKeepsInv(s: State, id: nat, u: string, email: string, code: string, outcome: Outcome)
    requires Inv(s) && id in s.requests && s.requests[id] == Claimed(u, email)
    ensures Inv(AfterInvite(s, id, u, email, code, outcome))
  {
    if outcome == Refused {
      QuietPut(s, id, Failed);
    } else if code !in s.issued {
      IssueKeepsCore(s, code);
      var t := s.(issued := s.issued + {code});
      assert RequestOk(s, s.requests[id]);
      var r := if outcome == ReplyLost then Failed else HasCode(u, email, code);
      if outcome == ReplyLost {
        AbandonKeepsCore(t, code);
        t := t.(abandoned := t.abandoned + {code});
      }
      WithoutKeepsCore(t, id);
      PutKeepsCore(t, id, r);
      PutKeepsLedger(s, t, id, r);
    }
  }

  lemma AfterAccountKeepsInv(s: State, id: nat, r: Request, password: string, did: string, outcome: Outcome)
    requires Inv(s) && id in s.requests && s.requests[id] == r && r.HasCode?
    ensures Inv(AfterAccount(s, id, r, password, did, outcome))
  {
    var b := Without(s, id);
    var h := HandleOf(s, r.username);
    WithoutKeepsCore(s, id);
    if IsRandSeq(password, 16) {
      if outcome == Refused || h in s.accounts || CodeUsed(s, r.code) {
        LoseCode(s, id, r);
      } else {
        var account := Account(h, password, r.email, did, r.code);
        var t := s.(accounts := s.accounts[h := account]);
        var next := if outcome == Done then HasAccount(r.username, UserOf(account)) else Failed;
        AddAccountKeepsCore(b, r.username, account);
        assert Without(t, id) == b.(accounts := b.accounts[h := account]);
        PutKeepsCore(t, id, next);
        assert CodeUsed(t, r.code) by { assert t.accounts[h].inviteCode == r.code; }
        PutKeepsLedger(s, t, id, next);
      }
    }
  }

  /** The request ends and the code it held is abandoned. */
  lemma LoseCode(s: State, id: nat, r: Request)
    requires Inv(s) && id in s.requests && s.requests[id] == r && r.HasCode?
    ensures Inv(Put(s.(abandoned := s.abandoned + {r.code}), id, Failed))
  {
    var b := Without(s, id);
    var t := s.(abandoned := s.abandoned + {r.code});
    WithoutKeepsCore(s, id);
    AbandonKeepsCore(b, r.code);
    assert Without(t, id) == b.(abandoned := b.abandoned + {r.code});
    PutKeepsCore(t, id, Failed);
    PutKeepsLedger(s, t, id, Failed);
  }

  lemma AfterInsertKeepsInv(s: State, id: nat, u: string, user: PdsUser, outcome: Outcome)
    requires Inv(s) && id in s.requests && s.requests[id] == HasAccount(u, user)
    ensures Inv(AfterInsert(s, id, u, user, outcome))
  {
    var b := Without(s, id);
    WithoutKeepsCore(s, id);
    if outcome == Refused || user.handle in s.rows {
      QuietPut(s, id, Failed);
    } else {
      var t := s.(rows := s.rows[user.handle := user]);
      var next := if outcome == Done then Registered(u) else Failed;
      AddRowKeepsCore(b, user);
      assert Without(t, id) == b.(rows := b.rows[user.handle := user]);
      PutKeepsCore(t, id, next);
      PutKeepsLedger(s, t, id, next);
    }
  }

  lemma ConnectKeepsInv(s: State, id: nat, h: string, password: string, outcome: Outcome)
    requires Inv(s) && id in s.requests && s.requests[id] == Connecting(h, password)
    ensures Inv(Step(s, ConnectReply(id, outcome)))
  {
    assert RequestOk(s, s.requests[id]);
    if outcome == Done && SessionGranted(s, h, password) {
      assert AccountOk(s, h);
      QuietPut(s, id, LoggedIn(h, s.accounts[h].did));
    } else {
      QuietPut(s, id, Failed);
    }
  }

  lemma StepKeepsInv(s: State, e: Event)
    requires Inv(s)
    ensures Inv(Step(s, e))
  {
    hide Inv, AfterAuth, AfterInvite, AfterAccount, AfterInsert;
    if e.BeginRegister? || e.BeginLogin? {
      BeginKeepsInv(s, e);
    } else if e.id in s.requests {
      match (e, s.requests[e.id])
      case (AuthReply(id, name, outcome), Registering(form)) => AfterAuthKeepsInv(s, id, form, name, outcome);
      case (InviteReply(id, code, outcome), Claimed(u, email)) => AfterInviteKeepsInv(s, id, u, email, code, outcome);
      case (AccountReply(id, password, did, outcome), HasCode(u, email, code)) =>
        AfterAccountKeepsInv(s, id, HasCode(u, email, code), password, did, outcome);
      case (InsertReply(id, outcome), HasAccount(u, user)) => AfterInsertKeepsInv(s, id, u, user, outcome);
      case (LookupReply(id, outcome), LoggingIn(u)) => LookupKeepsInv(s, id, u, outcome);
      case (ConnectReply(id, outcome), Connecting(h, password)) => ConnectKeepsInv(s, id, h, password, outcome);
      case (Abort(id), r) => AbortKeepsInv(s, id, r);
      case _ =>
    }
  }

  lemma BeginKeepsInv(s: State, e: Event)
    requires Inv(s) && (e.BeginRegister? || e.BeginLogin?)
    ensures Inv(Step(s, e))
  {
    if e.id !in s.requests {
      QuietPut(s, e.id, Step(s, e).requests[e.id]);
    }
  }

  lemma LookupKeepsInv(s: State, id: nat, u: string, outcome: Outcome)
    requires Inv(s) && id in s.requests && s.requests[id] == LoggingIn(u)
    ensures Inv(Step(s, LookupReply(id, outcome)))
  {
    QuietPut(s, id, Step(s, LookupReply(id, outcome)).requests[id]);
  }

  lemma AbortKeepsInv(s: State, id: nat, r: Request)
    requires Inv(s) && id in s.requests && s.requests[id] == r
    ensures Inv(AfterAbort(s, id, r))
  {
    if r.HasCode? {
      LoseCode(s, id, r);
    } else if !(r.Registered? || r.Transferred? || r.LoggedIn?) {
      QuietPut(s, id, Failed);
    }
  }

  // ---------- every run ----------

  lemma {:induction false} RunKeepsInv(s: State, es: seq<Event>)
    requires Inv(s)
    ensures Inv(Run(s, es))
    decreases |es|
  {
    if es != [] {
      StepKeepsInv(s, es[0]);
      hide Inv, Step;
      RunKeepsInv(Step(s, es[0]), es[1..]);
    }
  }

  /** The states some run of events leads to from the empty system. */
  ghost predicate Reachable(s: State) {
    exists es :: s == Run(Init(s.server), es)
  }

  lemma ReachableInv(s: State)
    requires Reachable(s)
    ensures Inv(s)
  {
    var es :| s == Run(Init(s.server), es);
    RunKeepsInv(Init(s.server), es);
  }
}
