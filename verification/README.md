# Verified model of the social backend

The backend lists records with client-chosen sorting and paging, builds rich-text posts,
and creates PDS accounts for users of an auth service. This project models that logic in Dafny
and proves what its parts promise together.

* `Text.dfy`: leftmost search, split, join and trimming, by their simple definitions.
* `SnakeCase.dfy`, `SortField.dfy`, `Paging.dfy`: a list request. Its order text is checked
  against a grammar, each field name is snake-cased by two regular-expression scans, and page and
  size become a window of rows. Integers are 64 bits wide and wrap around.
* `Utf8.dfy`, `RichText.dfy`: a post builder whose facets live in a shared growable buffer, and
  the byte ranges it emits, over UTF-8 as in sections 3 and 4 of RFC 3629.
* `Normalise.dfy`: date texts, RPC error texts, account handles, random passwords.
* `Protocol.dfy`, `ProtocolSafety.dfy`, `ProtocolTheorems.dfy`: registration and login as a
  transition system with any number of interleaved requests; a remote call may succeed, be refused
  without effect, or take effect and lose its reply, and a request may stop anywhere.
* `Handlers.dfy`: the handlers as imperative code. Each remote call is one event of the transition
  system and other requests may act in between, so an execution of the handlers is a run of it.

## Hypotheses

Lower-casing of single characters is a parameter `lower` restricted by `SnakeCase.CaseMap`: ASCII
as usual, and no capital or foreign ASCII character as a result elsewhere. Outside the text
modules, the following is assumed of the services and written into the events of `Protocol.dfy`:

* the auth service returns the name it created (it may create one name twice);
* an invite code was never issued before and is good for one account;
* the PDS keeps handles unique, echoes the handle it is given unchanged, and grants a session
  exactly for the password of the account;
* PDS accounts are created only through this backend, and neither accounts nor rows are deleted;
* the claim a login starts from may carry any name at all, even the empty one that
  `AssertionResult` falls back to when the reply holds no user.

## What turned out not to hold

* A page beyond the last one need not be empty: when `(Page-1)*Size` does not fit 64 bits the
  offset wraps round, and `Paging.WrappedPageShowsFirst` gives a page that shows the first rows
  again. With `w` the product modulo 2^64, a page of a non-empty list of n rows is empty exactly
  when n <= w < 2^63 (`Paging.WindowEmptyIff`). For the same reason a row can be on a second page:
  row 0 is on page 1 and on page 0x4000_0000_0000_0001 at size 4. `Paging.RowOnPageIff` says which
  rows any page shows.
* Two `WithFacet` calls on one builder can overwrite each other:
  `RichText.ForkedWithFacet` says exactly when, and `RichText.ForkLosesFacet` makes it happen on a
  builder whose buffer has grown to two cells for one facet.
* A registration that fails halfway is not always repeatable: the PDS account can be left without
  a local row for good. `ProtocolTheorems.StrandedWitness` is a run of four events that ends so;
  `ProtocolTheorems.StrandedExactlyBy` names the events that do it,
  `ProtocolTheorems.StrandedIffCutShort` says that a run ends so exactly when it holds one of them,
  and `ProtocolTheorems.StrandedForever` what follows.
* Printing a list of sort keys and reading it back fails when the list prints as nothing, or
  starts with a blank: that is, when the first key has an empty name and either has a direction or
  is the only one (`SortField.Printable`, `SortField.PrintThenParse`, and
  `SortField.EmptyNameNotReadBack` for one such list). Only a map of fields that allows the empty
  name can fail so; the one `Sortable` of the repository (webserver/portal/user.go:58-60) returns an
  empty map.
* `GetPdsUserByHandle` has a branch for a row that is not found, but the query it makes reports no
  error in that case; the model follows the code, which goes on with the zero value.

## Model

| member | source | states |
|---|---|---|
| `Text.SplitParts` | utils/string.go:28 | joining the pieces of a split restores the text, and no piece contains the separator |
| `Text.SplitJoin` | utils/string.go:28-30 | splitting a join of pieces free of the separator gives the pieces back |
| `Text.TrimSpaceCuts` | utils/string.go:21 | trimming removes exactly the white space at the two ends, by its list of code points |
| `SnakeCase.MatchLenIsGreedy` | utils/string.go:9-10 | the scan's match is the longest prefix in the pattern's language, and it misses none |
| `SnakeCase.MatchAt` | utils/string.go:9-10 | the loop over small letters finds the length of that match |
| `SnakeCase.ReplaceAllString` | utils/string.go:14-15 | the left-to-right, non-overlapping scan computes the rewrite of the whole text |
| `SnakeCase.ToSnakeCase` | utils/string.go:13-17 | the two scans in order, then lower-casing; the result is, character by character, the lower-casing of the input marked by the local rule, whose letter and digit ranges are written out |
| `SnakeCase.AllCapIsLocal` | utils/string.go:15 | the second scan loses no match to overlap |
| `SnakeCase.PassesAreLocal` | utils/string.go:14-15 | every break the first scan loses to overlap is recovered by the second |
| `SnakeCase.SnakeCaseIsLocal` | utils/string.go:13-17 | for every string the result is one rule: an underscore before s[i], i > 0, exactly when s[i] is in A-Z and s[i-1] is in a-z or 0-9, or s[i-1] is no newline and s[i+1] is in a-z |
| `SnakeCase.SnakeCaseInserts` | utils/string.go:13-17 | with underscores erased, output and lower-cased input agree; at most one underscore per capital is added |
| `SnakeCase.SnakeCaseIdempotent` | utils/string.go:13-17 | a second application changes nothing exactly when lower-casing twice equals lower-casing once on the characters present |
| `SnakeCase.SnakeCaseIdempotentOnAscii` | utils/string.go:13-17 | idempotent on every ASCII string |
| `SnakeCase.SnakeCaseSuffix` | utils/string.go:13-17 | an ASCII suffix that starts with a blank and has no capitals is unchanged and does not change what stands before it |
| `SnakeCase.SnakeFieldsIffWhole` | storage/common.go:33-37 | field by field equals the whole text at once exactly when no comma is followed by a capital and then a small letter |
| `SortField.ValidateSortField` | utils/string.go:20-45 | accepts exactly the grammar of order texts; otherwise the error is the unsupported case or names the first wrong field, with every known name once |
| `SortField.ListNames` | utils/string.go:37-40 | lists every known field name exactly once, in some order |
| `SortField.GrammarByFields` | utils/string.go:28-43 | the field-by-field checks hold exactly when some non-empty list of allowed keys prints as the text |
| `SortField.PrintParseKey` | utils/string.go:30-35 | a field in valid format is its parsed key printed, with a name free of blanks |
| `SortField.ParsePrintKey` | utils/string.go:30-35 | a printed key with a blank-free name is in valid format and parses to itself |
| `SortField.AcceptedOrderParses` | utils/string.go:20-45 | an accepted order is the print of its keys, each name a key of the map with the value true |
| `SortField.PrintThenParse` | utils/string.go:20-45 | a printed list of allowed plain names is accepted and read back unchanged exactly when the list is printable |
| `SortField.EmptyNameNotReadBack` | utils/string.go:20-45 | an input for which it is not: the empty name, allowed, with a direction |
| `SortField.AcceptedOrderText` | storage/common.go:31-37 | for an accepted order the ORDER text is the comma-join of the snake-cased allowed names with their directions untouched, in request order |
| `Paging.Sort.BindQuery` | storage/common.go:22-40 | keeps a page and a size from 1 up and turns others into 1 and 20, in place; sets the limit, and the offset that is (page-1)*size modulo 2^64; adds the rewritten order unless it is blank, and keeps the order field |
| `Paging.Sort.BindAgain` | storage/common.go:22-30 | binding the normalised request a second time asks for the same query |
| `Paging.Sort.ValidateAndBind` | webserver/webserver.go:116-127 | a list request is bound only when its order is accepted, and then orders by allowed columns only |
| `Paging.OffsetExact` | storage/common.go:29 | the offset equals (page-1)*size exactly when that product fits 64 bits |
| `Paging.WindowIsSlice` | storage/common.go:29-30 | such a window is the slice of rows from (page-1)*size, at most size long |
| `Paging.PagesPartition` | storage/common.go:22-30 | pages 1 to ceil(n/size), concatenated, are the whole list |
| `Paging.FetchEveryPage` | storage/common.go:22-30 | binding and fetching requests for pages 1 to ceil(n/size), with 20 for a size below 1, gives the whole list |
| `Paging.RowOnOnePage` | storage/common.go:22-30 | row r is on page r/size+1 and on no other whose offset fits 64 bits |
| `Paging.RowOnPageIff` | storage/common.go:22-30 | for every page and size, with w = (page-1)*size modulo 2^64: row r is shown exactly when w <= r < w + size, or, for w from 2^63 up, when r < size |
| `Paging.LaterPageEmpty` | storage/common.go:22-30 | a page beyond the last is empty when its offset fits 64 bits |
| `Paging.WrappedPageShowsFirst` | storage/common.go:29-30 | an input whose offset wraps to 0 and shows the first page again |
| `Paging.WindowEmptyIff` | storage/common.go:29-30 | for every page and size the window on n rows is empty exactly when n is 0 or n <= (page-1)*size modulo 2^64 < 2^63 |
| `Utf8.DecodeEncode` | atlib/atpost.go:151-159 | encoded code points are well-formed and decode to themselves |
| `Utf8.EncodeDecode` | atlib/atpost.go:151-159 | well-formed bytes are the encoding of what they decode to |
| `Utf8.BoundaryByByte` | atlib/atpost.go:222-228 | in well-formed text a position is a code-point boundary exactly when it is the end or holds no continuation byte |
| `Utf8.OccurrenceOnBoundaries` | atlib/atpost.go:222-228 | a non-empty occurrence in well-formed text lies on boundaries at both ends exactly when the text sought is well-formed |
| `Utf8.OccurrenceDecodes` | atlib/atpost.go:222-228 | the text decodes to what is before the occurrence, the code points of the text sought, and what is after |
| `RichText.NewPostBuilder` | atlib/atpost.go:56-61 | a builder with the text and no facets, on an empty buffer of its own |
| `RichText.WithFacet` | atlib/atpost.go:64-73 | appends one facet, in place when there is spare capacity and otherwise in a new buffer of the grown capacity; the old builder still shows the same facets |
| `RichText.WithFacets` | atlib/atpost.go:64-73 | a linear chain of calls collects the facets in call order |
| `RichText.ForkedWithFacet` | atlib/atpost.go:64-73 | of two calls on one builder the second is right, and the first exactly when the buffer was full or the facets are equal; without that the first shows the second's facet |
| `RichText.ForkLosesFacet` | atlib/atpost.go:56-73 | from a new builder, one call that leaves spare capacity and two calls on its result: the first of them shows the other's facet and not its own |
| `RichText.FindSubstring` | atlib/atpost.go:222-228 | the byte range of the leftmost occurrence, or nothing exactly when there is none |
| `RichText.Build` | atlib/atpost.go:96-165 | succeeds exactly when every facet text occurs, with one facet per call in order at the leftmost occurrence, holding the one link, mention or tag feature its type 1, 2 or 3 asks for, or an empty one; otherwise names the first missing text and returns no facets |
| `RichText.EmittedRangeDecodes` | atlib/atpost.go:151-159 | for well-formed post and facet text the emitted range lies on code-point boundaries and decodes to the facet's code points |
| `RichText.EmittedRangeWellFormedIff` | atlib/atpost.go:151-159 | a non-empty facet text that is not well-formed always yields a range that cuts a code point |
| `Normalise.HandlerDateFormat` | utils/helper.go:191-205 | with three parts or more, puts a 0 before a second or third part of one character and leaves every other part; else returns the text; the result is a fixed point |
| `Normalise.DateFormatIdempotent` | utils/helper.go:191-205 | formatting a formatted text changes nothing, for every text |
| `Normalise.DateFormatOrder` | utils/helper.go:190-205 | two date texts have equal outputs exactly when they denote one date, and outputs sort as strings in the order of the dates |
| `Normalise.HandlerRPCErrorByMarker` | utils/helper.go:248-262 | a text without the prefix or the marker is unchanged; any other becomes what stands between its first marker and the next, or the end, trimmed |
| `Normalise.HandlerRPCErrorStatus` | utils/helper.go:253-259 | a status error becomes its description, cut before the first marker in it and trimmed |
| `Normalise.HandlerRPCErrorIdempotent` | utils/helper.go:248-262 | a second application changes nothing, for every error text |
| `Normalise.HandlerRPCErrorMessage` | utils/helper.go:253-259 | the message of a status error comes back unchanged exactly when it is trimmed and free of the marker |
| `Normalise.HandleOfServer` | utils/helper.go:272-281 | username, dot, and the server: for a text that starts with http and has a double slash, what stands between the first one and the next, or the end |
| `Normalise.HandleInjective` | utils/helper.go:272-281 | for one server, different usernames have different handles |
| `Normalise.HandleCut` | utils/helper.go:272-281 | cutting at the first dot gives username and server name back exactly when the username has no dot |
| `Normalise.HandleIgnoresScheme` | utils/helper.go:274-279 | http and https give one handle; the bare host gives the same one exactly when it has no double slash, or starts with http and its first two pieces agree |
| `Normalise.RandSeq` | utils/helper.go:264-270 | a string of the requested length over the letter table |
| `Normalise.RandSeqAlphabet` | utils/consts.go:12 | such strings are exactly those of the length over a-z, A-Z and 0-9 |
| `ProtocolSafety.AfterAuthKeepsInv` | webserver/api_auth.go:160-186 | the auth service's reply, for all three kinds of form, keeps the invariant |
| `ProtocolSafety.AfterInviteKeepsInv` | webserver/api_auth.go:205-209 | the invite code's reply keeps the invariant |
| `ProtocolSafety.AfterAccountKeepsInv` | webserver/api_auth.go:210-215 | the PDS account's reply keeps the invariant |
| `ProtocolSafety.AfterInsertKeepsInv` | webserver/api_auth.go:226-229 | the local insert keeps the invariant |
| `ProtocolSafety.ConnectKeepsInv` | webserver/api_auth.go:138-144 | the session request keeps the invariant |
| `ProtocolSafety.StepKeepsInv` | webserver/api_auth.go:94-236 | every event keeps the invariant |
| `ProtocolSafety.ReachableInv` | webserver/api_auth.go:94-236 | every state any run leads to satisfies it |
| `ProtocolTheorems.HandleChain` | webserver/api_auth.go:202-229 | in every reachable state, handles of rows are among those of PDS accounts and these among those of auth users; a row agrees with its account in handle, DID, password, email and invite code |
| `ProtocolTheorems.PendingInsertIsNew` | storage/storage_user.go:21-43 | a pending insert is for a handle not in the table and pending nowhere else, so it never meets the unique index |
| `ProtocolTheorems.LookupHitsIff` | webserver/service/pdsuser.go:11-21 | a lookup hands on a usable password exactly when a row exists, and then the one the PDS holds for that handle |
| `ProtocolTheorems.ConnectGrantedIff` | webserver/api_auth.go:136-144 | the session is granted exactly when the lookup had hit |
| `ProtocolTheorems.SessionOnlyWithRow` | webserver/api_auth.go:434-450 | in every reachable state a session belongs to a handle with a local row |
| `ProtocolTheorems.LoginAfterRegistration` | webserver/api_auth.go:128-144 | after a successful registration and any further run, a login for the name connects with the PDS's own handle and password and gets that account's session, whatever interleaves |
| `ProtocolTheorems.CodesConserved` | webserver/api_auth.go:204-223 | issued codes are, without overlap, those used by accounts, held by requests and lost; their number adds up, and no two rows share a code |
| `ProtocolTheorems.StrandedForever` | webserver/api_auth.go:211-229 | an account without a row and without a pending insert never gets a session or a successful registration again |
| `ProtocolTheorems.StrandedExactlyBy` | webserver/api_auth.go:211-229 | the events that leave an account so are exactly a lost account reply, a refused insert and a stop before the insert |
| `ProtocolTheorems.StrandedIffCutShort` | webserver/api_auth.go:211-229 | after any run from the empty system an account is stranded exactly when some event of the run was one of those |
| `ProtocolTheorems.StrandedWitness` | webserver/api_auth.go:211-215 | a reachable state with a stranded account: the PDS created it and its reply was lost |
| `ProtocolTheorems.RegisteredOnce` | webserver/api_auth.go:202-236 | in every reachable state at most one request has registered a username, and then none holds an account for it, although the auth service may create one name twice |
| `ProtocolTheorems.EndedForever` | webserver/api_auth.go:153-236 | a request that has returned never changes again, in any run |
| `ProtocolTheorems.AbortEnds` | webserver/api_auth.go:202-236 | a request that stops before it has returned fails, and loses a code it holds but changes no other store |
| `ProtocolTheorems.AcceptedNameCutsBack` | webserver/portal/user.go:9-14 | the handle of an accepted password form gives the username back before its first dot |
| `Handlers.Api.ReceiveForm` | webserver/api_auth.go:153-159 | a password form passes exactly with a name of 4 to 32 characters in a-z, A-Z, 0-9 and a non-empty password, a passkey form exactly with an email; no store changes |
| `Handlers.Api.RegisterUser` | webserver/api_auth.go:160-167 | the user exists unless the call is refused, even when its reply is lost; success claims the name with the email of the form |
| `Handlers.Api.CreateInviteCode` | atlib/atmain.go:116-128 | a code on success moves the request on with that code in hand, a failure ends it; a code whose reply is lost is issued and lost |
| `Handlers.Api.CreateAccount` | atlib/atmain.go:130-147 | success yields the handle computed from server and username, with the password, email and code passed in; a lost reply leaves the account, a refusal loses the code |
| `Handlers.Api.CreatePdsUser` | storage/storage_user.go:41-43 | the row is in the table unless the call is refused, and only a refused or lost call fails |
| `Handlers.Api.LookupPdsUser` | webserver/service/pdsuser.go:11-21 | the row, or the zero value without an error when there is none |
| `Handlers.Api.Connect` | atlib/atmain.go:82-103 | a session for exactly a usable password, and then for a handle with row and account |
| `Handlers.Api.CreateBlueskyPdsAccount` | webserver/api_auth.go:202-236 | succeeds exactly when all calls go through, the code is new and the handle free; then the row exists, agrees with the PDS account and the reply, and holds the code and a random password of 16 letters |
| `Handlers.Api.Register` | webserver/api_auth.go:153-200 | the register and FinishPasskeyRegister handlers succeed exactly when the form is valid (a name of 4 to 32 letters and digits and a password, or the passkey email) and every call goes through, and then the account is recorded |
| `Handlers.Api.TransferRegister` | webserver/api_auth.go:277-320 | only the auth service gains a user; no code, account or row comes of it |
| `Handlers.Api.Login` | webserver/api_auth.go:128-150 | a session exactly when the row is there at the lookup and no call fails, and then that account's |

## Left out

- SnakeCase.Snake: texts are sequences of Unicode characters, so byte strings that are not UTF-8 are not covered.
- Paging.Fetch: what a database does with limit and offset is this definition, in which an offset that is not positive does not cut.
- Protocol.FormOk: does not check the syntax of an email address, which the validation library decides.
- Protocol.Step: sessions expire and tokens are issued outside the model; JSON decoding of replies is part of a call's outcome.
- Normalise.RandSeq: the choice of letters is arbitrary, so nothing is said about its distribution.
- RichText.Build: the embed section and its package-level variable are not modelled, nor are WithExternalLink and WithImages.
- Case folding of handles by a PDS: handles are assumed to come back as sent.
- UpdatePdsUser: no handler calls it.
- Image upload and fetching, timelines and posting: input and output without logic of their own.
- The generated RPC code, middleware, sockets, mail, configuration and logging: not modelled.
