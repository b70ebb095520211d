/**
 webserver/api_auth.go: the registration and login handlers as the imperative code they are.
 Each remote call moves the shared world by one event of the protocol, and between two calls of
 a handler any events of other requests may happen. So every execution of the handlers is a run
 of the protocol, and what is proved of all runs holds of them.
 */
module Handlers {
  import opened Text
  import opened Normalise
  import opened Protocol
  import opened ProtocolSafety
  import opened ProtocolTheorems

  datatype AuthInfo = AuthInfo(handle: string, did: string)

  /** What the surroundings do during an account creation: how calls end, and what others do before each. */
  datatype Surroundings = Surroundings(
    beforeInvite: seq<Event>, code: string, invite: Outcome,
    beforeAccount: seq<Event>, did: string, create: Outcome,
    beforeInsert: seq<Event>, insert: Outcome)
  {
    ghost predicate For(id: nat) {
      LeavesAlone(beforeInvite, id) && LeavesAlone(beforeAccount, id) && LeavesAlone(beforeInsert, id)
    }

    /** The world at the call for an invite code, and at the call for an account. */
    ghost function AtInvite(s: State): State {
      Run(s, beforeInvite)
    }

    ghost function AtCreate(s: State, id: nat): State {
      Run(Step(AtInvite(s), InviteReply(id, code, Done)), beforeAccount)
    }

    /** All three calls go through: the code is new when it is issued, and the handle free when the PDS is asked. */
    ghost predicate GoesWell(s: State, id: nat, username: string) {
      && invite == Done && code !in AtInvite(s).issued
      && create == Done && HandleOf(s, username) !in AtCreate(s, id).accounts
      && insert == Done
    }
  }

  /** The world without its requests. */
  function Stores(s: State): State {
    s.(requests := map[])
  }

  class Api {
    var world: State
    ghost var log: seq<Event>

    ghost predicate Valid()
      reads this
    {
      world == Run(Init(world.server), log)
    }

    constructor (server: string)
      ensures Valid() && log == [] && world == State(server, {}, {}, {}, map[], map[], map[])
    {
      world := Init(server);
      log := [];
    }

    predicate At(id: nat, r: Request)
      reads this
    {
      id in world.requests && world.requests[id] == r
    }

    // ---------- the world moves ----------

    method Perform(e: Event)
      requires Valid()
      modifies this
      ensures Valid() && world == Step(old(world), e) && log == old(log) + [e]
    {
      RunConcat(Init(world.server), log, [e]);
      RunOne(world, e);
      StepGrows(world, e);
      world := Step(world, e);
      log := log + [e];
    }

    /** Other requests move on; request id stays where it is. */
    method Interleave(id: nat, es: seq<Event>)
      requires Valid() && LeavesAlone(es, id)
      modifies this
      ensures Valid() && world == Run(old(world), es) && log == old(log) + es
      ensures Grows(old(world), world) && world.server == old(world.server)
      ensures id in old(world).requests ==> At(id, old(world).requests[id])
    {
      RunConcat(Init(world.server), log, es);
      RunGrows(world, es);
      RunLeavesOthers(world, es, id);
      var i := 0;
      ghost var start := world;
      assert es[0..] == es;
      while i < |es|
        invariant 0 <= i <= |es| && log == old(log)
        invariant Run(start, es) == Run(world, es[i..])
      {
        assert es[i..][1..] == es[i + 1..];
        world := Step(world, es[i]);
        i := i + 1;
      }
      assert es[i..] == [];
      log := log + es;
    }

    // ---------- remote calls ----------

    method ReceiveForm(id: nat, form: Form) returns (ok: bool)
      requires Valid() && id !in world.requests
      modifies this
      ensures Valid() && old(log) <= log && Grows(old(world), world) && world.server == old(world.server)
      ensures world == Step(old(world), BeginRegister(id, form))
      ensures match form
              case PasswordForm(name, password, _) =>
                ok <==>
                  && 4 <= |name| <= 32 && password != ""
                  && forall c :: c in name ==> 'a' <= c <= 'z' || 'A' <= c <= 'Z' || '0' <= c <= '9'
              case PasskeyForm(email) => ok <==> email != ""
              case TransferForm => ok
      ensures At(id, if ok then Registering(form) else Failed)
      ensures Stores(world) == Stores(old(world))
    {
      ok := FormOk(form);
      StepGrows(world, BeginRegister(id, form));
      Perform(BeginRegister(id, form));
    }

    /** The auth service creates the user and returns the name it created. */
    method RegisterUser(id: nat, form: Form, name: string, outcome: Outcome) returns (ok: bool)
      requires Valid() && At(id, Registering(form))
      modifies this
      ensures Valid() && old(log) <= log && Grows(old(world), world) && world.server == old(world.server)
      ensures world == Step(old(world), AuthReply(id, name, outcome))
      ensures ok <==> outcome == Done
      ensures At(id, if !ok then Failed else if form.TransferForm? then Transferred(name) else Claimed(name, form.email))
      ensures Stores(world) ==
                Stores(old(world)).(authUsers := old(world).authUsers + if outcome == Refused then {} else {name})
    {
      ok := outcome == Done;
      StepGrows(world, AuthReply(id, name, outcome));
      Perform(AuthReply(id, name, outcome));
    }

    /** The auth service accepts the credential; the claim names the user. */
    method AcceptCredential(id: nat, name: string)
      requires Valid() && id !in world.requests
      modifies this
      ensures Valid() && old(log) <= log && Grows(old(world), world) && world.server == old(world.server)
      ensures At(id, LoggingIn(name)) && world == Step(old(world), BeginLogin(id, name))
      ensures Stores(world) == Stores(old(world))
    {
      StepGrows(world, BeginLogin(id, name));
      Perform(BeginLogin(id, name));
    }

    /** A code that was issued before breaks the service's contract; the call then counts as refused. */
    method CreateInviteCode(id: nat, username: string, email: string, code: string, outcome: Outcome)
      returns (r: Option<string>)
      requires Valid() && At(id, Claimed(username, email))
      modifies this
      ensures Valid() && old(log) <= log && Grows(old(world), world) && world.server == old(world.server)
      ensures r.Some? <==> outcome == Done && code !in old(world).issued
      ensures r.Some? ==> r.value == code && world == Step(old(world), InviteReply(id, code, Done))
      ensures r.Some? ==> At(id, HasCode(username, email, code))
      ensures r.None? ==> At(id, Failed)
      ensures Stores(world) ==
                if outcome == Refused || code in old(world).issued then Stores(old(world))
                else Stores(old(world)).(issued := old(world).issued + {code},
                                         abandoned := old(world).abandoned + if outcome == Done then {} else {code})
    {
      var o := if code in world.issued then Refused else outcome;
      StepGrows(world, InviteReply(id, code, o));
      Perform(InviteReply(id, code, o));
      r := if o == Done then Some(code) else None;
    }

    method CreateAccount(id: nat, username: string, password: string, email: string, code: string,
                         did: string, outcome: Outcome)
      returns (r: Option<AuthInfo>)
      requires Valid() && At(id, HasCode(username, email, code)) && IsRandSeq(password, 16)
      modifies this
      ensures Valid() && old(log) <= log && Grows(old(world), world) && world.server == old(world.server)
      ensures r.Some? <==> outcome == Done && HandleOf(old(world), username) !in old(world).accounts
      ensures r.Some? ==>
                && r.value == AuthInfo(HandleOf(old(world), username), did)
                && At(id, HasAccount(username, PdsUser(r.value.handle, password, email, r.value.did, code)))
      ensures r.None? ==> At(id, Failed)
      ensures var h := HandleOf(old(world), username);
              Stores(world) ==
                if outcome == Refused || h in old(world).accounts
                then Stores(old(world)).(abandoned := old(world).abandoned + {code})
                else Stores(old(world)).(accounts := old(world).accounts[h := Account(h, password, email, did, code)])
    {
      var handleStr := GetHandleFromUsername(world.server, username);
      ReachableInv(world);
      assert RequestOk(world, world.requests[id]);
      var granted := outcome == Done && handleStr !in world.accounts && !CodeUsed(world, code);
      StepGrows(world, AccountReply(id, password, did, outcome));
      Perform(AccountReply(id, password, did, outcome));
      r := if granted then Some(AuthInfo(handleStr, did)) else None;
    }

    /** The insert fails on a refusal, and would fail on a handle the table already has. */
    method CreatePdsUser(id: nat, username: string, user: PdsUser, outcome: Outcome) returns (ok: bool)
      requires Valid() && At(id, HasAccount(username, user))
      modifies this
      ensures Valid() && old(log) <= log && Grows(old(world), world) && world.server == old(world.server)
      ensures ok <==> outcome == Done
      ensures At(id, if ok then Registered(username) else Failed)
      ensures ok ==> user.handle in world.rows && world.rows[user.handle] == user
      ensures Stores(world) ==
                if outcome == Refused then Stores(old(world))
                else Stores(old(world)).(rows := old(world).rows[user.handle := user])
    {
      ok := outcome == Done && user.handle !in world.rows;
      PendingInsertIsNew(world, id, username, user);
      StepGrows(world, InsertReply(id, outcome));
      Perform(InsertReply(id, outcome));
    }

    method LookupPdsUser(id: nat, username: string, outcome: Outcome) returns (r: Option<PdsUser>)
      requires Valid() && At(id, LoggingIn(username))
      modifies this
      ensures Valid() && old(log) <= log && Grows(old(world), world) && world.server == old(world.server)
      ensures r.Some? <==> outcome == Done
      ensures r.Some? ==>
                && r.value == (var h := HandleOf(old(world), username);
                               if h in old(world).rows then old(world).rows[h] else PdsUser("", "", "", "", ""))
                && At(id, Connecting(HandleOf(old(world), username), r.value.password))
                && (r.value.password != "" <==> HandleOf(old(world), username) in old(world).rows)
      ensures r.None? ==> At(id, Failed)
      ensures Stores(world) == Stores(old(world))
    {
      LookupHitsIff(world, id, username);
      r := if outcome == Done then Some(GetPdsUserByHandle(world.rows, HandleOf(world, username))) else None;
      StepGrows(world, LookupReply(id, outcome));
      Perform(LookupReply(id, outcome));
    }

    method Connect(id: nat, handle: string, password: string, outcome: Outcome) returns (r: Option<AuthInfo>)
      requires Valid() && At(id, Connecting(handle, password))
      modifies this
      ensures Valid() && old(log) <= log && Grows(old(world), world) && world.server == old(world.server)
      ensures r.Some? <==> outcome == Done && password != ""
      ensures r.Some? ==>
                && handle in world.rows && handle in world.accounts
                && r.value == AuthInfo(handle, world.accounts[handle].did)
                && At(id, LoggedIn(handle, r.value.did))
      ensures r.None? ==> At(id, Failed)
      ensures Stores(world) == Stores(old(world))
    {
      ConnectGrantedIff(world, id, handle, password);
      r := if outcome == Done && SessionGranted(world, handle, password)
           then Some(AuthInfo(handle, world.accounts[handle].did)) else None;
      StepGrows(world, ConnectReply(id, outcome));
      Perform(ConnectReply(id, outcome));
    }

    // ---------- handlers ----------

    /** Creates the PDS account of a claimed username and records it locally. */
    method CreateBlueskyPdsAccount(id: nat, username: string, email: string, env: Surroundings)
      returns (r: Option<AuthInfo>)
      requires Valid() && At(id, Claimed(username, email)) && env.For(id)
      modifies this
      ensures Valid() && old(log) <= log && world.server == old(world.server)
      ensures r.Some? <==> env.GoesWell(old(world), id, username)
      ensures if r.Some? then At(id, Registered(username)) else At(id, Failed)
      ensures r.Some? ==>
                var h := HandleOf(world, username);
                && r.value.handle == h && h in world.rows && h in world.accounts
                && world.rows[h] == UserOf(world.accounts[h])
                && world.rows[h].did == r.value.did && world.rows[h].email == email
                && world.rows[h].inviteCode == env.code && IsRandSeq(world.rows[h].password, 16)
    {
      hide Valid, Step, Run, Grows, Stores, GetHandleFromUsername, IsRandSeq;
      Interleave(id, env.beforeInvite);
      var inviteCode := CreateInviteCode(id, username, email, env.code, env.invite);
      if inviteCode.None? {
        return None;
      }
      var passRandom := RandSeq(16);
      Interleave(id, env.beforeAccount);
      var accountRes := CreateAccount(id, username, passRandom, email, inviteCode.value, env.did, env.create);
      if accountRes.None? {
        return None;
      }
      var pdsUser := PdsUser(accountRes.value.handle, passRandom, email, accountRes.value.did, inviteCode.value);
      Interleave(id, env.beforeInsert);
      var ok := CreatePdsUser(id, username, pdsUser, env.insert);
      if !ok {
        return None;
      }
      AgreesWithAccount(pdsUser.handle);
      return Some(accountRes.value);
    }

    lemma AgreesWithAccount(h: string)
      requires Valid() && h in world.rows
      ensures h in world.accounts && world.rows[h] == UserOf(world.accounts[h])
    {
      ReachableInv(world);
    }

    /**
     The register and FinishPasskeyRegister handlers: the form, the auth service, the PDS account.
     They succeed exactly when the form is valid and every call goes through.
     */
    method Register(id: nat, form: Form, name: string, auth: Outcome, beforeAuth: seq<Event>, env: Surroundings)
      returns (r: Option<AuthInfo>)
      requires Valid() && id !in world.requests && LeavesAlone(beforeAuth, id) && env.For(id)
      requires !form.TransferForm?
      modifies this
      ensures Valid() && old(log) <= log && world.server == old(world.server)
      ensures r.Some? <==>
                && auth == Done
                && (form.PasskeyForm? ==> form.email != "")
                && (form.PasswordForm? ==>
                      && 4 <= |form.userName| <= 32 && form.password != ""
                      && forall c :: c in form.userName ==> 'a' <= c <= 'z' || 'A' <= c <= 'Z' || '0' <= c <= '9')
                && env.GoesWell(Step(Run(Step(old(world), BeginRegister(id, form)), beforeAuth), AuthReply(id, name, Done)), id, name)
      ensures if r.Some? then At(id, Registered(name)) else At(id, Failed)
      ensures r.Some? ==>
                var h := HandleOf(world, name);
                && r.value.handle == h && h in world.rows && h in world.accounts
                && world.rows[h] == UserOf(world.accounts[h]) && world.rows[h].did == r.value.did
                && world.rows[h].email == form.email
    {
      hide Valid, Step, Run, FormOk, Grows, Stores;
      var formOk := ReceiveForm(id, form);
      if !formOk {
        return None;
      }
      Interleave(id, beforeAuth);
      var created := RegisterUser(id, form, name, auth);
      if !created {
        return None;
      }
      r := CreateBlueskyPdsAccount(id, name, form.email, env);
    }

    /** FinishPasskeyTransferRegister: only the auth service is called, so no account and no row comes of it. */
    method TransferRegister(id: nat, name: string, auth: Outcome) returns (ok: bool)
      requires Valid() && id !in world.requests
      modifies this
      ensures Valid() && old(log) <= log && Grows(old(world), world)
      ensures ok <==> auth == Done
      ensures At(id, if ok then Transferred(name) else Failed)
      ensures Stores(world) ==
                Stores(old(world)).(authUsers := old(world).authUsers + if auth == Refused then {} else {name})
    {
      var _ := ReceiveForm(id, TransferForm);
      ok := RegisterUser(id, TransferForm, name, auth);
    }

    /** The tail of the login and AssertionResult handlers, for the name the auth service accepted. */
    method Login(id: nat, name: string, beforeLookup: seq<Event>, lookup: Outcome,
                 beforeConnect: seq<Event>, connect: Outcome)
      returns (r: Option<AuthInfo>)
      requires Valid() && id !in world.requests
      requires LeavesAlone(beforeLookup, id) && LeavesAlone(beforeConnect, id)
      modifies this
      ensures Valid() && old(log) <= log && Grows(old(world), world)
      ensures r.Some? ==>
                var h := HandleOf(world, name);
                h in world.rows && h in world.accounts && r.value == AuthInfo(h, world.accounts[h].did)
      ensures r.Some? <==>
                && lookup == Done && connect == Done
                && HandleOf(old(world), name) in Run(Step(old(world), BeginLogin(id, name)), beforeLookup).rows
    {
      hide Valid, Step, Run, Grows, Stores, GetHandleFromUsername;
      ghost var start := world;
      AcceptCredential(id, name);
      ghost var accepted := world;
      Interleave(id, beforeLookup);
      GrowsOn(start, accepted, world);
      ghost var asked := world;
      var handle := GetHandleFromUsername(world.server, name);
      var pdsUser := LookupPdsUser(id, name, lookup);
      GrowsOn(start, asked, world);
      if pdsUser.None? {
        return None;
      }
      ghost var answered := world;
      Interleave(id, beforeConnect);
      GrowsOn(start, answered, world);
      ghost var connecting := world;
      r := Connect(id, handle, pdsUser.value.password, connect);
      GrowsOn(start, connecting, world);
    }
  }
}
