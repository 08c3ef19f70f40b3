# A model of the AI gateway's stateful core

The gateway is several Go processes that share files: `tls-proxy` issues client certificates and enforces
revocation, `webui` administers tokens, devices and users, the ICAP server inspects and masks requests, and
`connect` writes proxy settings into shell start-up files. This project models the parts whose correctness
depends on state, order or text formats, and proves what they promise. `dafny verify dfyconfig.toml` checks it.

| Module | What it models |
|---|---|
| `Text` | Go's string searching, trimming, line reading and number syntax, on bytes |
| `FileLock` | the poll loop of both `WithFlock` functions |
| `LockedFile` | any number of workers running a read-modify-write body under the lock: try, busy, sleep, time out, read, rename, release, crash, in any interleaving |
| `TokenFile`, `EnrollTokens` | enroll-tokens.json: tls-proxy's consumption and webui's store, each with its own schema |
| `DeviceFile` | devices.json as tls-proxy appends to it |
| `ChunkedBody`, `IcapMessage`, `IcapRequests`, `MaskedReply` | ICAP framing: chunked bodies (section 4.1 of RFC 7230), requests of every method and pipelines (sections 4.4.1 and 4.5 of RFC 3507), the edited reply |
| `Lockout`, `Throttle`, `AccessModel`, `AccessControl`, `AccessRules` | users, sessions, lockout and rate limit; the handlers as one step relation, and what each step does in terms of cookies, users and sessions alone |
| `SerialHex`, `Revocation` | the two serial normalisers and the three stores that must agree on revocation |
| `ShellQuote`, `ManagedBlock`, `AppliedBlocks`, `BlockDrift` | the managed block in rc files, how a shell reads it, and what the drift check sees |
| `AsyncExporter` | the bounded queue with its two workers and the draining close |
| `JsonMask`, `SystemTags` | masking a JSON tree, and stripping inserted tags |

Code that changes state is a class or a method with the source's loops; its contract ties the new state to a
function, and the theorems are about that function or about whole runs. The environment - lock attempts, clock
readings, disk faults, password checks, fresh identifiers - is a parameter, so every theorem holds for all of it.
Functions that only compute have no row below; the rows are the methods proved against them and the lemmas that say
what they mean.

## Where the code and its comments differ

- tls-proxy says that webui writes the token records it consumes (tls-proxy/enroll.go:55-58). The two programs
  use different schemas for the same path: `TokenFile.WebTokensAreNeverConsumed`.
- The block pattern is meant to keep successive applications from accumulating blank lines
  (connect/envvars/unix.go:26-27), and `Apply` is called idempotent (connect/envvars/envvars.go:21). Every
  application adds one newline and always rewrites the file: `AppliedBlocks.ApplyAccumulates`,
  `AppliedBlocks.AlwaysRewrites`.
- What stands behind a start marker without an end marker, as after hand-editing, is deleted by the second
  application, or by the first if a block follows: `AppliedBlocks.UnmatchedStartLosesText`,
  `AppliedBlocks.LostEndLosesText`. Exactly when the user's text is kept: `AppliedBlocks.FirstApplyKeepsIff` for one
  application, `AppliedBlocks.TextIsKeptIff` for good.
- The drift check ignores every line that starts like its time stamp, also inside values. In a file in which removing
  blocks left no start marker, and for applied values without an end marker, it reports exactly the changes if and
  only if no applied value has a newline: `BlockDrift.DriftIff`; otherwise `BlockDrift.DriftIsMissed` gives a change
  that it misses. With a start marker left in the file, the compared span begins at that marker.
- The check for the last administrator (webui/handler.go:588-593) refuses only an actor who is no administrator any
  more: `AccessModel.LastAdminRefusalIff`. A role change has no such check, and this is the one way to lose the last
  administrator: `AccessModel.LosesAdminIff`. It takes a stale session, which takes a failed save:
  `AccessModel.KeepsCurrentIff`, and `AccessModel.FailedDeleteStep` for a run.
- Repeating a revocation is called idempotent and safe (webui/devicestore.go:163-165). After a failed write of the list
  it reports success and the certificate stays valid: `Revocation.RetryHidesTheFailure`. Opening the page that lists
  revoked serials reads the list again; when that heals it: `Revocation.ReloadHealsIff`. When one call of `Revoke` or
  `UnRevoke` reaches tls-proxy, exactly: `Revocation.RevokeRefusesIff`, `Revocation.UnRevokeRefusesIff`.
- The header edit replaces text up to a CRLF, over bare newlines, and an insertion drops what follows the last blank line: `MaskedReply.JoinedLinesGo`,
  `MaskedReply.InsertedAtLastBlankLine`.
- A masked body that is empty is sent as two zero chunks; five bytes stay unread: `MaskedReply.ReplyRoundTrip`.
- Stripping both tags in sequence can leave the first one in the result: `SystemTags.ReminderSurvivesIff` says exactly
  when, `SystemTags.ReminderCanSurvive` gives a message.

## Model

| member | source | states |
|---|---|---|
| FileLock.PollLoop | tls-proxy/filelock.go:56-69 | the poll loop ends in exactly the outcome described without a loop: every attempt but the last was busy and in time, the last one decides; with the exact maximum number of attempts |
| FileLock.ProxyLock | tls-proxy/filelock.go:45-69 | one attempt if the timeout is zero or less, otherwise at most floor(timeout / 50 ms) + 2 |
| FileLock.WebLock | webui/filelock.go:39-63 | the same with 25 ms and a five second default |
| FileLock.PolledOnce | tls-proxy/filelock.go:56-69 | for one lock history and one clock there is exactly one outcome |
| FileLock.BoundIsReached | tls-proxy/filelock.go:56-69 | for every timeout some clock and a busy lock use the bound up, so it cannot be lowered |
| LockedFile.MutualExclusion | tls-proxy/filelock.go:41-76 | in every interleaving, with timeouts and crashes at any step, no two workers are inside the section |
| LockedFile.Serialisable | tls-proxy/filelock.go:46-76 | at every moment of every run the file is the fold of the decided bodies in lock order, each worker at most once; every answer is the one its place in that order gives, and workers that timed out or failed had no effect |
| LockedFile.HeldWhileInside | tls-proxy/filelock.go:54-75 | the lock is held exactly while some worker is inside, so no crash leaves it behind |
| TokenFile.ConsumeExactly | tls-proxy/enroll.go:386-406 | if and only if: consumption succeeds exactly when the first record of the token is unconsumed and unexpired; that record gets its time and one more use, and every other field and record keeps value and place |
| TokenFile.RevokeExactly | webui/enrolltoken.go:235-255 | if and only if: a revocation changes the file exactly when the first record of the ID is not revoked; that record alone gets its flag and time |
| TokenFile.RevokeOtherwise | webui/enrolltoken.go:243-255 | it has nothing to do exactly if that record is revoked already, and is refused exactly if there is none |
| TokenFile.RevokedStays | webui/enrolltoken.go:235-274 | no operation but its deletion takes a revocation back |
| TokenFile.RevokedForGood | webui/enrolltoken.go:235-274 | in every interleaved run, whatever the crashes and failed writes: a record whose revocation was told success is revoked at every later moment until its ID is deleted |
| TokenFile.DeleteExactly | webui/enrolltoken.go:259-274 | if and only if: a deletion takes exactly the first record of the ID out |
| TokenFile.DeletedIsGone | webui/enrolltoken.go:259-274 | where IDs are unique, no record of the ID is left |
| TokenFile.CreateExactly | webui/enrolltoken.go:171-190 | a creation appends, a missing or empty file counting as an empty list, and is refused for any other content |
| TokenFile.SpentStays | tls-proxy/enroll.go:387-406 | no operation on the file, of either program, makes a spent token consumable again |
| TokenFile.SingleUse | tls-proxy/enroll.go:366-412 | in every run, whatever the crashes, failed writes and duplicate records, at most one consumption of a token string is told success |
| TokenFile.WebTokensAreNeverConsumed | tls-proxy/enroll.go:55-81 | as the two schemas stand, no token created in webui is ever consumed, in any run |
| TokenFile.WebLeavesProxyObject | webui/enrolltoken.go:90-109 | webui refuses, and so never overwrites, a file in tls-proxy's schema |
| TokenFile.UsesAreKept | webui/enrolltoken.go:171-185 | in every serial order a record's use count is its first value plus the uses recorded by any lock holder |
| TokenFile.UsesAreKeptInRuns | webui/enrolltoken.go:171-274 | for a record there at the start, the same for every interleaved run with creations, revocations, deletions of other records, timeouts and crashes |
| TokenFile.UsesOfCreated | webui/enrolltoken.go:171-185 | a record created at some place of a serial order is counted exactly from there |
| TokenFile.UsesOfCreatedInRuns | webui/enrolltoken.go:171-274 | in every interleaved run, a token whose creation was told success, under an ID that nobody else uses or deletes, has been counted exactly since then |
| EnrollTokens.ConsumeEnrollToken | tls-proxy/enroll.go:376-445 | the loop, the in-place update and the write: file, returned record and error for every input, lock outcome and disk fault |
| EnrollTokens.NewRecord | webui/enrolltoken.go:137-169 | which options are accepted, the defaults of 24 hours and one use, the exact expiry, and the range of both |
| EnrollTokens.EnrollTokenStore.ReloadFromDisk | webui/enrolltoken.go:90-109 | success exactly for a readable file of webui's schema; memory is the file then and unchanged otherwise |
| EnrollTokens.EnrollTokenStore.Append | webui/enrolltoken.go:171-190 | the locked part of `Create`: reload, append, save, and the roll-back that leaves memory equal to the file after a failed save |
| EnrollTokens.EnrollTokenStore.Create | webui/enrolltoken.go:137-190 | limits first; success exactly if they hold, the lock is obtained and the file is read and written; then the file is the previous one with the new record appended, and otherwise untouched |
| EnrollTokens.EnrollTokenStore.Revoke | webui/enrolltoken.go:235-255 | the effect on the file under every lock outcome and disk fault, that of `TokenFile.RevokeExactly` |
| EnrollTokens.EnrollTokenStore.Delete | webui/enrolltoken.go:259-274 | the same for removing a record, by `TokenFile.DeleteExactly` |
| EnrollTokens.EnrollTokenStore.Reload | webui/enrolltoken.go:213-219 | memory becomes what the lock holder before left in the file |
| DeviceFile.AppendDevice | tls-proxy/devicestore.go:55-105 | scan and append: refused exactly for a known ID or an unreadable file, otherwise the list with the record at its end |
| DeviceFile.NoLostAppends | tls-proxy/devicestore.go:51-69 | in every run the old records stay first and unchanged, every enrollment told success is listed, nothing else is, and IDs stay unique |
| ChunkedBody.ReadChunk | icap-server/icap/server.go:350-378 | one turn of the loop with its errors in the order of the code, and exactly the input it uses |
| ChunkedBody.ReadChunked | icap-server/icap/server.go:347-381 | the whole loop on the remaining input: body, remaining bytes or error |
| ChunkedBody.DecodePieces | icap-server/icap/server.go:347-381 | any sequence of size line, data, ignored line decodes to its data, or is refused for its total size alone |
| ChunkedBody.DecodesExactly | icap-server/icap/server.go:347-381 | the accepted language, for size lines whose white space is ASCII: an input decodes to a body and a rest if and only if it is such a sequence carrying that body, at most 32 MiB, followed by that rest |
| ChunkedBody.DecodedIsBounded | icap-server/icap/server.go:347-381 | a success stays within 32 MiB, leaves a suffix of the input, and always uses input up |
| ChunkedBody.ChunkingIsIrrelevant | icap-server/icap/server.go:346-381 | every split into chunks, with any letter case, leading zeros, padding and newline-free extensions, decodes to the same body and leaves exactly the bytes that follow |
| ChunkedBody.OneChunkDecodes | icap-server/icap/server.go:178-180 | what the writers' single chunk decodes to for every body length: itself up to 16 MiB, refusal beyond; an empty body leaves five bytes |
| IcapMessage.ParseEncapsulated | icap-server/icap/server.go:325-344 | the loop over the comma-separated parts computes the layout |
| IcapMessage.ReadHeaderLines | icap-server/icap/server.go:248-262 | header lines up to the blank one, as a map in which the last of equal names counts |
| IcapMessage.ReadRequestFrom | icap-server/icap/server.go:222-316 | for every input the request and the remaining bytes, or the error; which inputs those are is `IcapRequests.ReadsExactly` |
| IcapRequests.ReadsExactly | icap-server/icap/server.go:222-319 | the accepted language, for white space that is ASCII: a request with a rest is read if and only if the text is blank lines, a start line of three parts with the version, header lines that state its headers, a blank line, and, for any method but OPTIONS, the sections that the last deciding part of the Encapsulated value announces, with that rest behind them |
| IcapRequests.EnteredIs | icap-server/icap/server.go:247-262 | a header has a value if and only if the last line with that name in front of its first colon states it; lines without one state nothing |
| IcapRequests.EncapsulatedSays | icap-server/icap/server.go:325-344 | the layout of a value is that of the last of its comma-separated parts that places a body or says that there is none |
| IcapRequests.OffsetOfDigits | icap-server/icap/server.go:333-333 | an offset is its number with its sign, limited to 64 bits |
| IcapRequests.OffsetOfJunk | icap-server/icap/server.go:333-333 | digits with something else behind them count as zero as long as they fit 64 bits, and so does text without digits |
| IcapRequests.MessageRoundTrip | icap-server/icap/server.go:222-319 | every method but OPTIONS, every URL, all header lines, request or response sections, all lengths: raw section and body are read back, however the body is split into chunks, up to 32 MiB, and exactly what follows is left |
| IcapRequests.OptionsLeaves | icap-server/icap/server.go:264-266 | an OPTIONS request leaves exactly what follows its head, whatever its headers say |
| IcapRequests.BareRequest | icap-server/icap/server.go:276-295 | a request without an Encapsulated line has no sections |
| IcapRequests.PrintedHeads | icap-server/icap/server.go:224-262 | a printed head is read as printed: method, URL and, of equal names, the last header |
| IcapRequests.BadStart | icap-server/icap/server.go:239-242 | a first line that is no start line is refused as such, blank lines in front or not |
| IcapRequests.CutOff | icap-server/icap/server.go:224-252 | input that stops within a head is no request, wherever it stops |
| IcapRequests.TooShort | icap-server/icap/server.go:279-284 | nor is one with fewer bytes than its header section announces |
| IcapMessage.RequestConsumes | icap-server/icap/server.go:86-95 | every request read uses input up, so serving a connection ends |
| IcapMessage.HeaderRead | icap-server/icap/server.go:257-261 | a printed header line is read back under its lower-case name |
| IcapMessage.EncapsulatedRead | icap-server/icap/server.go:325-344 | a printed Encapsulated value is read back as its offset and body kind (section 4.4.1 of RFC 3507) |
| IcapMessage.PrintedSections | icap-server/icap/server.go:279-295 | printed header and body sections are read back whole, for every body length |
| IcapMessage.BuildREQMOD | icap-server/cmd/e2etest/main.go:148-174 | the printer's buffer operations give the message text the round trips are about |
| IcapMessage.RequestRoundTrip | icap-server/cmd/e2etest/main.go:146-174 | `readRequest` undoes `buildREQMOD`, whatever follows on the connection; bodies over 16 MiB are refused |
| IcapMessage.PipelinedRoundTrip | icap-server/icap/server.go:86-95 | any list of printed messages is read back in order and reading goes on with exactly the bytes behind them |
| IcapMessage.WholePipeline | icap-server/icap/server.go:86-95 | after the last of them the connection is at its end: nothing is left over |
| MaskedReply.FoundIff | icap-server/icap/server.go:191-198 | the search finds a line exactly when there is a CRLF-ended Content-Length line after the first line, said without searching |
| MaskedReply.OnlyTheLineChanges | icap-server/icap/server.go:191-198 | all bytes of ASCII headers outside the first such line stay as they are; the line runs up to the next CRLF, bare newlines included |
| MaskedReply.JoinedLinesGo | icap-server/icap/server.go:191-198 | header lines that only a bare newline divides from that line go with it, without a trace |
| MaskedReply.InsertedAtLastBlankLine | icap-server/icap/server.go:199-203 | an inserted line goes to the last blank line: the text up to there is kept, what stands behind it is dropped |
| MaskedReply.LastWriteWins | icap-server/icap/server.go:186-205 | update(update(h, a), b) = update(h, b) for all ASCII headers |
| MaskedReply.ReadsBackIff | icap-server/icap/server.go:186-205 | in ASCII headers the new length can be read back if and only if there was a Content-Length line or a blank line to edit at |
| MaskedReply.KeepsBlankLine | icap-server/icap/server.go:196-203 | an ASCII header section that ends with its blank line still does |
| MaskedReply.WriteMasked | icap-server/icap/server.go:137-181 | the bytes sent in each of the three cases, for ASCII raw headers |
| MaskedReply.ReplyRoundTrip | icap-server/icap/server.go:172-180 | what a client decodes from the reply for every body length, with the exact bytes left over |
| MaskedReply.MaskedEndToEnd | icap-server/icap/server.go:135-205 | from a request with ASCII headers on the wire to its masked reply: same headers but for the new length, which reads back, and the masked body; nothing left over unless that body is empty |
| Lockout.FailuresAreRemembered | webui/auth.go:164-176 | the failure count grows by every comparison and is not cleared when a lock ends |
| Lockout.AttemptExactly | webui/auth.go:164-179 | if and only if: an attempt is granted exactly for a matching password on an unlocked account, and clears the count; a locked account is left alone; anything else counts, and from the tenth failure on locks for half an hour |
| Lockout.LockoutBound | webui/auth.go:164-176 | over a time D without a success, comparisons for one account number at most 10 + floor(D / 30 min), whatever state it starts in |
| Lockout.LockoutBoundIsReached | webui/auth.go:164-176 | for every number of half hours some attempts use the bound up |
| Throttle.RateLimitBound | webui/auth.go:408-443 | without success or clearing a bucket never counts more than 5, and any 15 minutes hold at most 10 failed attempts, across all window alignments |
| Throttle.WindowsExactly | webui/auth.go:408-443 | a login is let through exactly after the window's end or below five failures; both operations' new windows and counts |
| Throttle.RateLimitBoundIsReached | webui/auth.go:408-443 | ten failures within one nanosecond around a window's end |
| AccessModel.KeepsCurrentIff | webui/handler.go:514-605 | if and only if: a request keeps every session naming an existing user with its present role exactly when it is not a role change or deletion whose save fails while the target has a session |
| AccessModel.LosesAdminIff | webui/handler.go:561-598 | the exact condition, with stale sessions and failed saves: a request takes the last administrator away if and only if it demotes the only one through a session of another user that still says administrator |
| AccessModel.KeepsAdmin | webui/handler.go:569-597 | so no request takes the last administrator away while sessions are current |
| AccessModel.AdminThroughoutIff | webui/handler.go:477-605 | whole runs, whatever the saves do: an administrator exists at every moment if and only if no request makes such a demotion |
| AccessModel.AlwaysAnAdmin | webui/handler.go:477-605 | whole runs in which no failed save leaves a stale session: sessions stay current and an administrator remains |
| AccessModel.LastAdminRefusalIff | webui/handler.go:582-593 | the guard against deleting the last administrator refuses exactly if the target is the only one and not the actor, who then is none any more; so never while sessions are current |
| AccessModel.FailedDeleteStep | webui/handler.go:594-598 | a concrete run of that kind: after one failed save a deleted administrator demotes the only other one |
| AccessModel.SessionsEnd | webui/handler.go:557-598 | a changed password, role or deletion ends exactly that user's sessions |
| AccessModel.NamesStayUnique | webui/auth.go:213-231 | user names stay unique through every request, saved or not |
| AccessModel.AccountFrame | webui/auth.go:147-291 | only a login as a user, its unlocking and its deletion touch its lockout fields |
| AccessModel.ComparedIs | webui/auth.go:147-180 | in any run, whatever its saves do, the comparisons for a user are those of its own attempts, whatever else happens between them |
| AccessModel.BesiegedUser | webui/auth.go:145-180 | the lockout bound for whole dashboard runs, whatever their saves do |
| AccessControl.UserStore.FindByName | webui/auth.go:151-157 | the search over the unordered map finds a user of that name if there is one |
| AccessControl.UserStore.Authenticate | webui/auth.go:147-180 | success if and only if the user was found, its account is not locked and the password matches; then its failures are cleared. Its new lockout fields otherwise; nobody else changes |
| AccessControl.UserStore.Create | webui/auth.go:202-231 | which users are accepted, and that memory keeps the user even when the save fails |
| AccessControl.UserStore.UpdateRole | webui/auth.go:234-247 | new users and answer in every case |
| AccessControl.UserStore.UpdatePassword | webui/auth.go:250-267 | the same for a password |
| AccessControl.UserStore.Delete | webui/auth.go:270-278 | the same for a deletion |
| AccessControl.UserStore.UnlockUser | webui/auth.go:281-291 | both lockout fields are cleared, of that user only |
| AccessControl.UserStore.AdminCount | webui/auth.go:308-318 | the loop counts the administrators |
| AccessControl.SessionStore.Create | webui/auth.go:339-352 | one new session, living eight hours |
| AccessControl.SessionStore.Lookup | webui/auth.go:355-367 | a session exactly if there is one that has not expired; an expired one is dropped |
| AccessControl.SessionStore.DeleteByUserID | webui/auth.go:377-385 | the deleting loop leaves exactly the other users' sessions |
| AccessControl.RateLimiter.Allow | webui/auth.go:408-417 | the bucket and answer of the throttle model; other addresses untouched |
| AccessControl.RateLimiter.RecordFailure | webui/auth.go:434-443 | the same for a failure |
| AccessControl.RateLimiter.Clear | webui/auth.go:420-450 | one address is forgotten, on success or on request; the others stay |
| AccessControl.RateLimiter.ClearAll | webui/auth.go:427-431 | every address is forgotten |
| AccessControl.SessionStore.Drop | webui/auth.go:370-374 | one session goes, the others stay |
| AccessControl.Dashboard.RequireAuth | webui/handler.go:330-347 | the session a cookie names, if there is one that has not expired |
| AccessControl.Dashboard.RequireAdmin | webui/handler.go:350-360 | the same, only for an administrator's session |
| AccessControl.Dashboard.HandleLogin | webui/handler.go:379-421 | success if and only if the address is below its limit, the body parses, a user was found, its account is not locked and the password matches; only then is there a new session, and the failures are cleared. Everything else is one step of the model and of the limiter |
| AccessControl.Dashboard.HandleLogout | webui/handler.go:440-449 | one step of the model, the one of `AccessRules.LogoutExactly` |
| AccessControl.Dashboard.HandleCreateUser | webui/handler.go:484-502 | one step of the model, the one of `AccessRules.CreateExactly` |
| AccessControl.Dashboard.HandleUnlock | webui/handler.go:532-536 | one step of the model, the one of `AccessRules.UnlockExactly` |
| AccessControl.Dashboard.HandlePassword | webui/handler.go:540-557 | one step of the model, the one of `AccessRules.PasswordExactly` |
| AccessControl.Dashboard.HandleRole | webui/handler.go:561-578 | one step of the model, the one of `AccessRules.RoleExactly` |
| AccessControl.Dashboard.HandleDelete | webui/handler.go:582-598 | one step of the model, the one of `AccessRules.DeleteExactly` |
| AccessRules.LoginExactly | webui/handler.go:379-421 | if and only if: a login creates a session, of the user and for eight hours, exactly when it proves the password of an unlocked account, and clears its failures; otherwise no session changes |
| AccessRules.SessionOrigin | webui/handler.go:379-421 | whole runs: every session was there at the start or was created by a login of the run for its user, with that user's password and while its account was not locked |
| AccessRules.LogoutExactly | webui/handler.go:440-449 | logging out ends the session of the cookie and no other |
| AccessRules.CreateExactly | webui/handler.go:484-502 | only an administrator creates a user, with a name not taken, at least 12 characters of password and one of two roles |
| AccessRules.UnlockExactly | webui/handler.go:532-536 | only an administrator unlocks, both fields of that user |
| AccessRules.PasswordExactly | webui/handler.go:540-557 | only an administrator sets a password of at least 12 characters; a saved change ends that user's sessions |
| AccessRules.RoleExactly | webui/handler.go:561-578 | only an administrator changes a role, not its own away; a saved change ends that user's sessions |
| AccessRules.DeleteExactly | webui/handler.go:582-598 | only an administrator deletes a user, not itself and not the only administrator; a saved change ends that user's sessions |
| ShellQuote.ReadsBack | connect/envvars/unix.go:100-104 | a shell reads every quoted value back as itself, whatever characters it holds |
| ShellQuote.Sources | connect/envvars/unix.go:78-94 | sourcing export lines performs exactly their assignments, in order |
| ShellQuote.EscapeContains | connect/envvars/unix.go:101-104 | quoting neither makes nor breaks an occurrence of a text without quotes and backslashes |
| ShellQuote.LinesContain | connect/envvars/unix.go:78-94 | such text occurs in the lines only if a value or what follows holds it |
| ManagedBlock.RenderBlock | connect/envvars/unix.go:73-98 | the builder's writes give the block |
| ManagedBlock.Export | connect/envvars/unix.go:78-94 | one export line, or none without a value |
| ManagedBlock.RcFiles.RewriteFile | connect/envvars/unix.go:117-153 | exactly when the file changes and when it fails; its new content: what removing blocks leaves, an empty line unless nothing stands in front, and the block |
| ManagedBlock.RcFiles.RewriteAll | connect/envvars/unix.go:161-177 | the loop over the candidates: each existing file is rewritten on its own; which paths are touched and which fail, exactly and in order |
| ManagedBlock.RcFiles.Apply | connect/envvars/unix.go:155-178 | the rewriting loop with the block for these variables: files, touched paths and errors |
| ManagedBlock.RcFiles.Remove | connect/envvars/unix.go:180-201 | the rewriting loop without a block: files, touched paths and errors |
| ManagedBlock.RcFiles.CheckIntegrity | connect/envvars/unix.go:203-231 | a path is listed if and only if its file exists and does not consist of text without a start marker, the expected block up to its first end marker and newline, stamp lines aside, and a rest; no list because an existing file cannot be read |
| ManagedBlock.DriftedIff | connect/envvars/unix.go:217-229 | if and only if: drift is reported exactly for a text that is not such a front, block and rest, said without searching |
| ManagedBlock.MissingIsDrift | connect/envvars/unix.go:222-225 | a text without a start marker, or without an end marker behind one, is always drift |
| ManagedBlock.RemovalIsDrift | connect/envvars/unix.go:180-231 | so a removal is noticed, as long as no start marker is left |
| ManagedBlock.StripsAt | connect/envvars/unix.go:28-32 | removing blocks from any text: what stands in front of the first block stays, the block goes with its newline if it has one, the rest is treated in the same way; without a block all stays |
| ManagedBlock.StripExact | connect/envvars/unix.go:28-32 | a block goes from the first start marker up to the first end marker behind it and its newline; the rest is treated in the same way |
| ManagedBlock.RemovesExactly | connect/envvars/unix.go:106-111 | text before a written block stays, the whole block goes, whatever it sets, as long as no value holds the end marker |
| ManagedBlock.LeavesNothingIff | connect/envvars/unix.go:28-32 | for values without the start marker, a block is removed without residue if and only if no value holds the end marker |
| AppliedBlocks.ApplyAccumulates | connect/envvars/unix.go:26-32 | after n applications of any versions, if removing blocks left no start marker: what it left of the file, ended by a newline, exactly n newlines, exactly one block, the last |
| AppliedBlocks.RemoveAfterApply | connect/envvars/unix.go:180-201 | removal then leaves what was left and the n newlines |
| AppliedBlocks.AlwaysRewrites | connect/envvars/unix.go:140-142 | an application never finds its work done, whatever the file holds |
| AppliedBlocks.StripShortens | connect/envvars/unix.go:28-32 | whatever stands in front of a block, removing blocks leaves no more than that, and less by at least a marker if a start marker is in it |
| AppliedBlocks.UserTextAround | connect/envvars/unix.go:106-111 | around a written block whose values hold no marker, the rest of a file is the user's text and nothing is nested by it |
| AppliedBlocks.LeftoverIsUserTextIff | connect/envvars/unix.go:106-111 | what removing blocks leaves is the user's text if no removed span holds a second start marker, and otherwise less by at least a marker |
| AppliedBlocks.FirstApplyKeepsIff | connect/envvars/unix.go:113-138 | for every file: one application keeps the user's text in front of the block if and only if no removed span holds a second start marker |
| AppliedBlocks.TextIsKeptIff | connect/envvars/unix.go:106-153 | for every file: an application and a removal give the user's text back if and only if no removed span holds a second start marker and no start marker is left; a block begins at the last start marker in front of its end marker |
| AppliedBlocks.UserTextAccumulates | connect/envvars/unix.go:106-178 | under that condition, after any number of applications: the user's text, one newline for each, and the last block |
| AppliedBlocks.LeftoverIsKeptIff | connect/envvars/unix.go:106-153 | for every file: what the first removal of blocks leaves is given back by an application and a removal if and only if no start marker is left in it |
| AppliedBlocks.UnmatchedStartLosesText | connect/envvars/unix.go:106-153 | a start marker without its end marker: the second application deletes all text behind it |
| AppliedBlocks.LostEndLosesText | connect/envvars/unix.go:106-153 | with a written block behind it already, one application does |
| AppliedBlocks.TextBelowIsKept | connect/envvars/unix.go:106-138 | text written below the block, without its own blocks, is kept, in order, above the new block |
| AppliedBlocks.EachFileOnItsOwn | connect/envvars/unix.go:155-178 | over any run of applications each usable rc file goes through every version and every other file stays |
| AppliedBlocks.BlockSetsExactly | connect/envvars/unix.go:73-98 | sourcing a block performs exactly its assignments, for all values |
| AppliedBlocks.Environment | connect/envvars/unix.go:78-94 | which variable then has which value |
| BlockDrift.StampIsIgnored | connect/envvars/unix.go:208-210 | the comparison does not see when a block was written |
| BlockDrift.NoDriftAfterApply | connect/envvars/unix.go:203-231 | if removing blocks left no start marker in the file and no applied value holds the end marker: right after an application the check reports no drift, at any later time |
| BlockDrift.DriftOfPlainLines | connect/envvars/unix.go:226-228 | under the same conditions, for values on both sides in which no line starts like the time stamp's: drift is reported exactly if the variables differ |
| BlockDrift.OneLineSeesAll | connect/envvars/unix.go:226-228 | under the same conditions, for applied values without a newline: drift is reported exactly if the variables differ, whatever the expected values hold |
| BlockDrift.DriftIff | connect/envvars/unix.go:203-237 | under the same conditions, exactly: after an application the check reports exactly the changes of variables, for all expected ones, if and only if no applied value has a newline |
| BlockDrift.GeneratedLineIsInvisible | connect/envvars/unix.go:233-237 | a line that starts like the time stamp's is removed from the comparison wherever it stands |
| BlockDrift.DriftIsMissed | connect/envvars/unix.go:226-237 | under the same conditions, for all applied variables with a newline in some value: other variables that go unreported |
| AsyncExporter.NothingLost | icap-server/siem/async.go:22-58 | in every interleaving: accepted = queued + in flight + processed as multisets, first in first out, at most 1000 + 2 accepted entries unprocessed |
| AsyncExporter.CloseDrains | icap-server/siem/async.go:43-58 | when `Close` returns every accepted entry was given to the sender exactly once |
| AsyncExporter.DropsOnlyWhenFull | icap-server/siem/async.go:35-41 | an entry is dropped if and only if the queue is full |
| AsyncExporter.DrainDecreases | icap-server/siem/async.go:43-58 | after `Close` every step decreases a measure |
| AsyncExporter.DrainNeverStuck | icap-server/siem/async.go:43-58 | until it returns some step is possible |
| AsyncExporter.DrainBound | icap-server/siem/async.go:43-58 | the drain takes at most 2007 steps, however it is scheduled |
| AsyncExporter.Exporter.TrySend | icap-server/siem/async.go:35-41 | a `Send` is one step of the model and never blocks |
| AsyncExporter.Exporter.Receive | icap-server/siem/async.go:53-53 | what a worker takes from the queue, or that it leaves the loop |
| AsyncExporter.Exporter.Deliver | icap-server/siem/async.go:54-56 | a sender's return is one step, whether it failed or not |
| AsyncExporter.Exporter.BeginClose | icap-server/siem/async.go:44-44 | closing the queue is one step |
| AsyncExporter.Exporter.AwaitOne | icap-server/siem/async.go:46-48 | one received signal is one step |
| AsyncExporter.Exporter.FinishClose | icap-server/siem/async.go:43-49 | returning after two signals is one step |
| SerialHex.KeyIsNumber | tls-proxy/crl.go:182-213 | a spelling is accepted exactly when it stands for a number, and its key is that number in lower-case hexadecimal without leading zeros |
| SerialHex.SameKeyIff | tls-proxy/crl.go:191-213 | two accepted spellings share a key if and only if they denote the same integer |
| SerialHex.RenderingIsKey | tls-proxy/crl.go:118-126 | the rendering of every number is its own key |
| SerialHex.Idempotent | tls-proxy/crl.go:191-213 | normalising twice is normalising once, for all texts |
| SerialHex.WebPreservesKey | webui/crlstore.go:90-96 | webui's normaliser in front never loses or changes a key |
| SerialHex.WebOfDigits | webui/crlstore.go:90-96 | of hexadecimal digits, with white space around them and perhaps a prefix, webui stores the digits in lower case |
| SerialHex.WebIsTidy | webui/crlstore.go:90-96 | what it stores is in lower case and has no colon and no blank |
| Revocation.CrlStore.Load | webui/crlstore.go:56-72 | when the list is replaced by the file's and when it stays |
| Revocation.CrlStore.Reload | webui/crlstore.go:169-177 | memory becomes a list that the file holds and stays otherwise; a missing file is no error |
| Revocation.CrlStore.Save | webui/crlstore.go:75-85 | the file becomes the list in memory, or nothing happens |
| Revocation.CrlStore.Add | webui/crlstore.go:103-121 | the list gets one entry with key, subject and time exactly if the serial is usable and not listed; the file follows if the write works; the answer in each case |
| Revocation.CrlStore.Remove | webui/crlstore.go:125-139 | the first entry of the key goes, with the same cases |
| Revocation.CrlStore.Has | webui/crlstore.go:144-157 | true exactly for serials in the list |
| Revocation.DeviceStore.Reload | webui/devicestore.go:85-106 | memory is the file or unchanged |
| Revocation.DeviceStore.Add | webui/devicestore.go:144-158 | one step of the three-store model, under any disk fault; when it is refused, and that nothing changes on disk then |
| Revocation.DeviceStore.Find | webui/devicestore.go:172-178 | the loop finds the first record of an ID |
| Revocation.DeviceStore.Revoke | webui/devicestore.go:166-206 | one step of the three-store model, that of `Revocation.RevokeExactly`, under any disk fault |
| Revocation.DeviceStore.UnRevoke | webui/devicestore.go:211-246 | the same for lifting a revocation |
| Revocation.RevokeExactly | webui/devicestore.go:166-206 | the first record of the ID alone is flagged, with the time, unless it was flagged already; its serial goes to the list once the flag is on disk; the answer under any disk fault |
| Revocation.UnRevokeExactly | webui/devicestore.go:211-246 | the same for lifting: flag and time go, then the serial leaves the list |
| Revocation.NobodyRevoked | webui/devicestore.go:166-178 | without such a record or a readable file nothing changes |
| Revocation.RevokedStore.ReloadFrom | tls-proxy/crl.go:79-113 | afterwards a serial number is refused if and only if some entry of the file stands for it; none without entries; a failed reload keeps the previous set |
| Revocation.RevokedIffListed | tls-proxy/crl.go:101-126 | whatever spellings the file uses, a certificate is refused if and only if some entry stands for its serial number |
| Revocation.SignIsDropped | tls-proxy/crl.go:118-126 | a negative serial has the key of its absolute value |
| Revocation.ListFollows | webui/crlstore.go:103-139 | adding adds a serial once, removing takes exactly it away |
| Revocation.KeepsAgreement | webui/devicestore.go:160-246 | every operation keeps: the list holds exactly the serials of flagged devices, without duplicates, in memory and on disk |
| Revocation.AlwaysAgreed | webui/devicestore.go:160-246 | the same over whole runs of enrolling, revoking and lifting |
| Revocation.EnforcedIffFlagged | tls-proxy/crl.go:116-126 | after the next reload a serial is refused if and only if a device with it is flagged |
| Revocation.DeviceHistory | webui/devicestore.go:166-246 | no device is lost, moved or altered, and each is flagged exactly if the last command about it was a revocation |
| Revocation.EnrolledHistory | webui/devicestore.go:144-246 | the same for a device enrolled during the run, counted from its enrollment |
| Revocation.Origin | webui/devicestore.go:144-246 | every device listed after a run was there before it or was enrolled by one of its steps |
| Revocation.Enforcement | tls-proxy/crl.go:79-126 | end to end: after any run, a store that has reloaded the list refuses a device's certificate if and only if the last command about the device was a revocation |
| Revocation.EnforcementOfEnrolled | tls-proxy/crl.go:79-126 | the same for a device enrolled during the run |
| Revocation.AddReachesFileIff | webui/crlstore.go:103-121 | after an addition the serial is in the file if and only if it was there, or the write works and memory did not hold it |
| Revocation.RemoveReachesFileIff | webui/crlstore.go:125-139 | after a removal it is not in the file if and only if it was not there, or the write works and memory held it |
| Revocation.AddRefusesIff | webui/crlstore.go:103-121 | the same condition for what tls-proxy refuses, whatever spellings the file holds |
| Revocation.RevokeRefusesIff | webui/devicestore.go:160-206 | from any state of memory and file: after `Revoke` tls-proxy refuses the certificate if and only if it did before, or the list can be written and memory did not hold the serial |
| Revocation.UnRevokeRefusesIff | webui/devicestore.go:211-246 | the exact effect of one `UnRevoke` on enforcement, from any state of memory and file |
| Revocation.RemoveRefusesIff | webui/crlstore.go:125-139 | the same for the list alone, whatever spellings it holds |
| Revocation.RetryHidesTheFailure | webui/devicestore.go:160-206 | after a revocation whose list write failed, every repetition before the list is read again answers success, changes nothing, and leaves the certificate valid for tls-proxy |
| Revocation.ReloadHealsIff | webui/handler.go:147-160 | reading the list again heals this if and only if it can be read, there is a list in the file, and the repetition can write it |
| Revocation.InStepIff | webui/crlstore.go:98-139 | a file in step with memory stays so if and only if the change has nothing to do or the write works; a saved change also carries out earlier unsaved ones |
| JsonMask.ApplyMaskPatterns | icap-server/detection/mask.go:192-206 | the result is at the end of a sequence of texts, one per rule: an inactive rule repeats its text, an active one replaces all its matches, by `[REDACTED]` if it names no replacement |
| JsonMask.MaskedLeads | icap-server/detection/mask.go:192-206 | if and only if: a text is the masked one exactly if such a sequence leads to it |
| JsonMask.SecretIsGone | icap-server/detection/mask.go:192-206 | what one active rule removes from every text and no later active one brings back is in no masked text |
| JsonMask.SecretIsGoneEverywhere | icap-server/detection/mask.go:155-206 | nor in any string of a masked tree, at whatever depth |
| JsonMask.NoActiveRule | icap-server/detection/mask.go:192-206 | without an active rule a tree stays as it is |
| JsonMask.MaskAny | icap-server/detection/mask.go:157-190 | the walk gives the masked tree, which `JsonMask.MaskedIff` describes, and its flag is true if and only if the tree changed |
| JsonMask.MaskFields | icap-server/detection/mask.go:168-177 | the loop over an object, in any order of its keys |
| JsonMask.MaskItems | icap-server/detection/mask.go:178-187 | the loop over an array |
| JsonMask.MaskedAt | icap-server/detection/mask.go:155-190 | what masking leaves at every path |
| JsonMask.MaskedIff | icap-server/detection/mask.go:155-190 | if and only if: the result is the one tree that has, at every path, the string to which the rules lead, the same other leaf, the same keys or the same length |
| JsonMask.ChangedIff | icap-server/detection/mask.go:155-190 | the tree changes if and only if some string at some depth is changed by the rules |
| JsonMask.TwiceIsOnce | icap-server/detection/mask.go:155-190 | masking a tree twice is masking it once whenever that holds for strings |
| SystemTags.StripTag | icap-server/detection/patterns.go:424-435 | the inner loop ends and computes the removal |
| SystemTags.StripSystemTags | icap-server/detection/patterns.go:421-438 | both passes and the trim |
| SystemTags.NoTagLeft | icap-server/detection/patterns.go:424-436 | no opening tag is left, even where removals join text into new ones |
| SystemTags.NeverLeaks | icap-server/detection/patterns.go:421-438 | the result never holds `<system>` and the second pass never sees `<system-reminder>` |
| SystemTags.OnlyRemoves | icap-server/detection/patterns.go:421-438 | the result is a subsequence of the message |
| SystemTags.StripsBlocks | icap-server/detection/patterns.go:419-435 | any number of well-formed blocks between any texts: exactly the texts are left, in order |
| SystemTags.UnclosedTakesTheRest | icap-server/detection/patterns.go:428-433 | an opening tag without a closing one takes everything behind it and nothing in front |
| SystemTags.CleanTextIsTrimmed | icap-server/detection/patterns.go:421-438 | a message without tags is only trimmed |
| SystemTags.SecondPassIff | icap-server/detection/patterns.go:424-436 | the second pass brings a `<system-reminder>` in if and only if one of its removals joins one, and what is joined is never taken away again |
| SystemTags.ReminderSurvivesIff | icap-server/detection/patterns.go:421-438 | the result holds a `<system-reminder>` if and only if a removal of the second pass joins one |
| SystemTags.JoinMakesTagIff | icap-server/detection/patterns.go:434-434 | one removal brings a text in if and only if the front ends in its beginning and the rest continues it |
| SystemTags.ReminderCanSurvive | icap-server/detection/patterns.go:421-438 | a message whose result is `<system-reminder>` |

## Left out

- TLS, X.509, CSR signing, key generation and bcrypt: a password check is a parameter; a hashing failure, as bcrypt reports for very long passwords, is not modelled.
- `encoding/json`, `net/http`, `net/url` and `mime` parsing: files and requests are modelled as parsed values, with one case for text that does not parse.
- The regular-expression engine: a masking rule is any function from text and replacement to text. The two patterns for rc files are written out.
- Real files: writing replaces a file as a whole or does nothing; permissions, directories and leftover temporary files are not modelled. users.json is written in place by the program; a write that stops halfway is not modelled.
- Opening the lock file and creating its directory: an error there is the lock error `Error` on the first attempt.
- `strings.ToLower`, `strings.TrimSpace` and letter case beyond ASCII: header edits require ASCII headers, and white space is the ASCII one.
- Chunk sizes below zero and header lengths that cannot be allocated: the program panics; the model reports an error of its own (`ChunkSizeNegative`) or a short read, and no theorem about valid messages depends on it.
- Parsing the encapsulated HTTP headers, rebuilding them with Go's header writer, and the replies for OPTIONS, blocked and unknown requests.
- In-process mutexes: each store operation is one step. Two administrators' requests handled at the same moment are not interleaved.
- webui's own writes to devices.json take no file lock (webui/devicestore.go:166-246); nothing is claimed about them racing with tls-proxy, and `Revocation` takes each operation as one step.
- User time stamps (created, updated), last-seen times, log lines, response bodies and status codes, the two-second delay of refused logins.
- The command-line unlock by user name, listing functions, the first administrator's creation.
- A device store without a revocation list, which only tests use.
- The JSON tree is a value: `MaskAny` returns the tree that the program leaves in place; sharing between parts of a decoded tree does not occur there and is not modelled.
- Resolving the home directory, Windows settings and the WSL script; the shell model reads comments, blank lines and export lines only.
- `Send` after `Close`, which panics, and a sender that never returns.
- User interface, notifications, mail, Splunk and Elasticsearch senders, certificate stores, policies, caches and command-line wiring.
- Easy members: severity ordering, match-window clamping, identity priority and policy lookup.
- AccessControl.Dashboard.HandleLogin: the user found among equal names is reported by the method, because a Go map has no order; names are unique in every run (AccessModel.NamesStayUnique).
- AppliedBlocks.ApplyAccumulates: files in which a start marker is left after removing blocks are outside it; there text behind that marker is deleted (AppliedBlocks.LeftoverIsKeptIff, AppliedBlocks.TextIsKeptIff). For values that hold the end marker, parts of a block stay behind (ManagedBlock.LeavesNothingIff).
- IcapRequests.ReadsExactly: lines padded with white space beyond ASCII, and header names with letters beyond it, are read by the program's wider rules.
- ChunkedBody.DecodesExactly: size lines padded with white space beyond ASCII are accepted by the program and refused by the model.
- MaskedReply.LastWriteWins: headers with bytes beyond ASCII are outside it and outside the other results on header edits, because Go's lower-casing can change their length.
- AppliedBlocks.TextIsKeptIff: of a written block whose own values hold the start marker, the part in front of its last start marker counts as the user's text; for other written blocks AppliedBlocks.UserTextAround shows that the rest of the file does.
