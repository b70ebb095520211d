/**
 Account creation and login (webserver/api_auth.go and its helpers) as a transition system.
 Any number of requests are in flight; each holds its program counter and locals. A remote call
 is one event: it can succeed, be refused without effect, or take effect and lose its reply.

 What is assumed of the outside is written into the events: the auth service returns the name it
 created; an invite code is fresh and good for one account; the PDS keeps handles unique, echoes
 them unchanged, and grants a session exactly for the account's password; accounts are created
 only here and never deleted.
 */
module Protocol {
  import opened Text
  import opened Normalise

  // ---------- stores ----------

  /** A row of the local table; NO_USER is the zero value a lookup without a hit leaves behind. */
  datatype PdsUser = PdsUser(handle: string, password: string, email: string, did: string, inviteCode: string)

  const NO_USER := PdsUser("", "", "", "", "")

  /** An account on the PDS. */
  datatype Account = Account(handle: string, password: string, email: string, did: string, inviteCode: string)

  function UserOf(a: Account): PdsUser {
    PdsUser(a.handle, a.password, a.email, a.did, a.inviteCode)
  }

  // ---------- requests ----------

  datatype Form =
    | PasswordForm(userName: string, password: string, email: string)
    | PasskeyForm(email: string)
    | TransferForm

  predicate IsAlphanumeric(c: char) {
    'a' <= c <= 'z' || 'A' <= c <= 'Z' || '0' <= c <= '9'
  }

  predicate FormOk(f: Form) {
    match f
    case PasswordForm(name, password, _) =>
      4 <= |name| <= 32 && (forall c :: c in name ==> IsAlphanumeric(c)) && password != ""
    case PasskeyForm(email) => email != ""
    case TransferForm => true
  }

  datatype Request =
    | Registering(form: Form)                              // next: the auth service
    | Claimed(username: string, email: string)             // next: an invite code
    | HasCode(username: string, email: string, code: string) // next: the PDS account
    | HasAccount(username: string, user: PdsUser)          // next: the local row
    | Registered(username: string)
    | Transferred(username: string)
    | LoggingIn(username: string)                          // credential accepted; next: the local row
    | Connecting(handle: string, password: string)         // next: the PDS session
    | LoggedIn(handle: string, did: string)
    | Failed

  datatype State = State(
    server: string,
    authUsers: set<string>,
    issued: set<string>,
    abandoned: set<string>,
    accounts: map<string, Account>,
    rows: map<string, PdsUser>,
    requests: map<nat, Request>)

  function Init(server: string): State {
    State(server, {}, {}, {}, map[], map[], map[])
  }

  // ---------- events ----------

  datatype Outcome = Done | Refused | ReplyLost

  datatype Event =
    | BeginRegister(id: nat, form: Form)
    | AuthReply(id: nat, name: string, outcome: Outcome)
    | InviteReply(id: nat, code: string, outcome: Outcome)
    | AccountReply(id: nat, password: string, did: string, outcome: Outcome)
    | InsertReply(id: nat, outcome: Outcome)
    | BeginLogin(id: nat, name: string)
    | LookupReply(id: nat, outcome: Outcome)
    | ConnectReply(id: nat, outcome: Outcome)
    | Abort(id: nat)

  function Put(s: State, id: nat, r: Request): State {
    s.(requests := s.requests[id := r])
  }

  function HandleOf(s: State, username: string): string {
    GetHandleFromUsername(s.server, username)
  }

  predicate CodeUsed(s: State, code: string) {
    exists h :: h in s.accounts && s.accounts[h].inviteCode == code
  }

  function AfterAuth(s: State, id: nat, form: Form, name: string, outcome: Outcome): State {
    match outcome
    case Refused => Put(s, id, Failed)
    case ReplyLost => Put(s.(authUsers := s.authUsers + {name}), id, Failed)
    case Done =>
      var next := match form
        case TransferForm => Transferred(name)
        case PasskeyForm(email) => Claimed(name, email)
        case PasswordForm(_, _, email) => Claimed(name, email);
      Put(s.(authUsers := s.authUsers + {name}), id, next)
  }

  /** A code that was issued before cannot be the reply; such an event does nothing. */
  function AfterInvite(s: State, id: nat, username: string, email: string, code: string, outcome: Outcome): State {
    if outcome == Refused then Put(s, id, Failed)
    else if code in s.issued then s
    else if outcome == ReplyLost then
      Put(s.(issued := s.issued + {code}, abandoned := s.abandoned + {code}), id, Failed)
    else Put(s.(issued := s.issued + {code}), id, HasCode(username, email, code))
  }

  /** The password was drawn before the call; one that RandSeq(16) cannot yield makes no event. */
  function AfterAccount(s: State, id: nat, r: Request, password: string, did: string, outcome: Outcome): State
    requires r.HasCode?
  {
    var h := HandleOf(s, r.username);
    if !IsRandSeq(password, 16) then s
    else if outcome == Refused || h in s.accounts || CodeUsed(s, r.code) then
      Put(s.(abandoned := s.abandoned + {r.code}), id, Failed)
    else
      var account := Account(h, password, r.email, did, r.code);
      Put(s.(accounts := s.accounts[h := account]), id,
          if outcome == Done then HasAccount(r.username, UserOf(account)) else Failed)
  }

  /** The table has a unique index on the handle. */
  function AfterInsert(s: State, id: nat, username: string, user: PdsUser, outcome: Outcome): State {
    if outcome == Refused || user.handle in s.rows then Put(s, id, Failed)
    else Put(s.(rows := s.rows[user.handle := user]), id, if outcome == Done then Registered(username) else Failed)
  }

  /** Find leaves the zero value and no error when no row has the handle. */
  function GetPdsUserByHandle(rows: map<string, PdsUser>, handle: string): PdsUser {
    if handle in rows then rows[handle] else NO_USER
  }

  predicate SessionGranted(s: State, handle: string, password: string) {
    handle in s.accounts && s.accounts[handle].password == password
  }

  /** A request that stops anywhere: a code in hand is lost with it. */
  function AfterAbort(s: State, id: nat, r: Request): State {
    match r
    case Registered(_) => s
    case Transferred(_) => s
    case LoggedIn(_, _) => s
    case HasCode(_, _, code) => Put(s.(abandoned := s.abandoned + {code}), id, Failed)
    case _ => Put(s, id, Failed)
  }

  /** One event. An event that does not fit the request's program counter does nothing. */
  function Step(s: State, e: Event): State {
    if e.BeginRegister? || e.BeginLogin? then
      if e.id in s.requests then s
      else if e.BeginLogin? then Put(s, e.id, LoggingIn(e.name))
      else Put(s, e.id, if FormOk(e.form) then Registering(e.form) else Failed)
    else if e.id !in s.requests then s
    else
      match (e, s.requests[e.id])
      case (AuthReply(id, name, outcome), Registering(form)) => AfterAuth(s, id, form, name, outcome)
      case (InviteReply(id, code, outcome), Claimed(u, email)) => AfterInvite(s, id, u, email, code, outcome)
      case (AccountReply(id, password, did, outcome), HasCode(u, email, code)) =>
        AfterAccount(s, id, HasCode(u, email, code), password, did, outcome)
      case (InsertReply(id, outcome), HasAccount(u, user)) => AfterInsert(s, id, u, user, outcome)
      case (LookupReply(id, outcome), LoggingIn(u)) =>
        if outcome != Done then Put(s, id, Failed)
        else Put(s, id, Connecting(HandleOf(s, u), GetPdsUserByHandle(s.rows, HandleOf(s, u)).password))
      case (ConnectReply(id, outcome), Connecting(h, password)) =>
        Put(s, id, if outcome == Done && SessionGranted(s, h, password) then LoggedIn(h, s.accounts[h].did) else Failed)
      case (Abort(id), r) => AfterAbort(s, id, r)
      case _ => s
  }

  function Run(s: State, es: seq<Event>): State
    decreases |es|
  {
    if es == [] then s else Run(Step(s, es[0]), es[1..])
  }

  lemma {:induction false} RunConcat(s: State, es: seq<Event>, fs: seq<Event>)
    ensures Run(s, es + fs) == Run(Run(s, es), fs)
    decreases |es|
  {
    if es == [] {
      assert es + fs == fs;
    } else {
      assert (es + fs)[1..] == es[1..] + fs;
      RunConcat(Step(s, es[0]), es[1..], fs);
    }
  }
}
