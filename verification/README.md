# AtomCode: a model of its protocols, parsers and folds

AtomCode is a coding agent with a terminal and a web front end. This project models, in Dafny, the parts of
it in which being right is not visible in one function: protocols that several processes or callbacks run at
once, loops that are faster than what they mean, and a reconciliation that is run again and again over
somebody's own configuration. `dafny verify dfyconfig.toml` checks all of it.

| module | what it models |
|---|---|
| `AuthStore` | the credential file shared by every process, its lock, and a broker that rotates refresh tokens, as a transition system with any number of processes in any interleaving, with crashes, timeouts, refused, late and lost answers and failed writes |
| `LoginPoller` | the login poller thread, its channel and the foreground loop of `login` |
| `Glob` | the two-pointer tool-name matcher with its last-star mark, against the meaning of a pattern |
| `HookGate`, `PostTool` | the PreToolUse fold with its short circuit and in-place rewrites; the map that carries tool names from `before` to `post_tool` |
| `Jsonc`, `Utf8` | the comment-blanking loop, against a lexer and against a document grammar; UTF-8 as sections 3 and 4 of RFC 3629 give it |
| `Provisioning` | the OpenRouter reconciliation over a configuration that is otherwise the person's |
| `FreeModels` | choosing and ordering the free models a run is given |
| `Percent` | percent-encoding (sections 2.1 and 2.3 of RFC 3986), decoding, and the request line that carries a code |
| `EventStream` | the two event-stream readers of the web UI, over arbitrary chunk boundaries (they read a subset of section 9.2.6 of the WHATWG HTML Living Standard) |
| `RefreshingList` | the list with generations, stale completions, invalidation and listeners |
| `EditApplication` | right-to-left splicing of edits, against simultaneous substitution |
| `Ordering` | sorting by any total order, for the library sorts the sources call |
| `Bytes` | byte strings and the few library operations on them the Rust code uses |

Code that updates variables step by step is a method or a class proved against a specification; code that only
computes is functions. The two protocols of `oauth.rs` and the promise callbacks of the list are state machines
whose steps are the points where something else can get in between, and their results hold in every state some
run leads to. A Rust `&str` is the sequence of its UTF-8 bytes; a JavaScript string is its UTF-16 code units.

## Where the code and its description differ

- `matches_tool` documents an absent, an empty and a `*` matcher alike as "all tools"; with no tool name,
  `post_tool_matches` fires only for the first and the last, and not for others that take every tool, such as
  `**` (`PostTool.NamelessExactly`, `PostTool.NamelessWitnesses`).
- `load_with_extra` calls the gate fold order-independent. Its kind is (`HookGate.GateKindIsOrderFree`). The gate
  itself is exactly when all denials give one reason (`HookGate.GateOrderFreeExactly`,
  `HookGate.ReasonDependsOnOrder`). The arguments it leaves and the number of hooks that run depend on the order
  too, because a denial ends the asking (`HookGate.ArgumentsOrderFreeExactly`, `HookGate.ArgumentsDependOnOrder`,
  `HookGate.AskedOrderFreeExactly`).
- `ModelProfileConfig::origin` and `provision` say that an entry without the mark is never removed;
  `provision_with_listed` removes it when OpenRouter has stopped offering its model, and
  `Provisioning.UnmarkedIsKeptOrRetired` says exactly when (`Provisioning.UnmarkedIsRemoved` is such a run).
- "Every old must occur exactly once": `str.count` steps over an occurrence it has counted, so it shows that an
  excerpt is unique exactly when the excerpt does not end the way it begins (`EditApplication.CountMeansUnique`).
- `streamLive` and `streamChat` read the same format, but a payload of `null` is delivered by the first and
  swallowed by the second (`EventStream.LiveIsChatWithoutTheRest`, `EventStream.NullIsLiveOnly`).
- The comment on the refresh lock says windows must not consume one refresh token twice. That holds when every
  granted refresh is kept; `AuthStore.LostAnswerRefreshesTwice` and `AuthStore.LateGrantAfterTimeout` are runs in
  which one is not.
- The list is described as never a permanent empty-on-error cache. It is not permanent, but a plain refresh made
  after the failure is shown and before the failed chain's `finally` joins that chain and loads nothing
  (`RefreshingList.RetryExactly`, `RefreshingList.RefreshInTheWindowIsLost`).
- `recover_auth_after_unauthorized` is described as account-checked. The check is made on the stored credential
  before the refresh, not on the answer (`AuthStore.ReturnedIsStoredAndNew`, `AuthStore.AnotherAccountIsReturned`).

## Model

| member | source | states |
|---|---|---|
| AuthStore.StepInv | crates/atomcode-auth/src/oauth.rs:943-1230 | every step of every process and of the broker (unlocked look, lock, re-read, send, grant, answer, giving up, write, removal, release, crash) keeps: one lock holder, the file unchanged since the holder's read, token ownership and spending, a serial history |
| AuthStore.MutualExclusion | crates/atomcode-auth/src/oauth.rs:1214-1230 | in every reachable state at most one process is between taking and releasing the lock, also after crashes |
| AuthStore.SentTokenIsStored | crates/atomcode-auth/src/oauth.rs:1051-1072 | whenever a refresh request is sent, the credential in it is the one in the file at that moment, carries a refresh token, and is the one the caller had rejected |
| AuthStore.ReadDecides | crates/atomcode-auth/src/oauth.rs:1051-1072 | in every reachable state a caller that has the lock sends the stored credential exactly when that can be read, is of the account it named, is the rejected one and can be refreshed; is given it exactly when it can be read, is of that account and is not the rejected one; otherwise fails; and the file stays as it is |
| AuthStore.AnswerReachesFile | crates/atomcode-auth/src/oauth.rs:995-1020 | whatever the broker grants a request with, and however the run goes on, once the process that has that grant writes, the file holds the new access token, the new refresh token and account where the answer gave them and the old ones where it did not, in the place of the credential that was sent |
| AuthStore.RotatedTokenIsSentNext | crates/atomcode-auth/src/oauth.rs:995-999 | a run with rotation in which the second refresh sends the refresh token the first one brought |
| AuthStore.RefreshBoughtTwice | crates/atomcode-auth/src/oauth.rs:1026-1072 | of two granted refreshes for one rejected access token at most one is kept (written to the file, or still on its way to a waiting process), also when a grant comes after its sender timed out or died; of two for one refresh token, also, unless the broker did not rotate it |
| AuthStore.OneRefreshPerRejectedToken | crates/atomcode-auth/src/oauth.rs:1048-1072 | when no grant is lost, any number of callers with the same rejected token cause at most one successful refresh, and under rotation no refresh token succeeds twice |
| AuthStore.LateGrantAfterTimeout | crates/atomcode-auth/src/oauth.rs:173-176 | a run in which a caller times out, another refreshes and saves, and the broker then grants the first request too: two grants for one token, the earlier one saved |
| AuthStore.LostAnswerRefreshesTwice | crates/atomcode-auth/src/oauth.rs:955-985 | a run in which a granted answer is lost on the way back and the same tokens buy a second refresh: that nothing is lost is needed |
| AuthStore.UnrotatedTokenIsSentAgain | crates/atomcode-auth/src/oauth.rs:995-999 | a run with nothing lost in which a broker that leaves out the refresh token sees it twice: the rotation assumption is needed |
| AuthStore.ReturnedIsStoredAndNew | crates/atomcode-auth/src/oauth.rs:1033-1072 | a caller is given the credential then in the file, never the rejected one; if it named an account, one of that account exactly when no written answer to a refresh of the rejected token for that account named another |
| AuthStore.AnotherAccountIsReturned | crates/atomcode-auth/src/oauth.rs:1008-1017 | the exception does occur: a broker that answers for another account has its answer saved and returned to a caller that named its own |
| AuthStore.WaiterAdoptsWinner | crates/atomcode-auth/src/oauth.rs:1048-1069 | in every reachable state, once the refresh of a rejected token is in the file, any caller that rejected it and gets the lock sends nothing, and is given what is stored if that can be read and is of the account it asked for |
| AuthStore.FinishedTookEffect | crates/atomcode-auth/src/oauth.rs:1143-1190 | a login or logout that reports success has taken effect, and nothing has changed it while its lock is held |
| AuthStore.StoreIsSerialised | crates/atomcode-auth/src/oauth.rs:1187-1230 | every run's changes of the file form one serial history in which each refresh replaced exactly the credential that was there, and the file is what that history leaves |
| AuthStore.StoredDescendsFromLogin | crates/atomcode-auth/src/oauth.rs:1191-1194 | a stored credential is the latest login's or descends from it by refreshes alone, so a refresh in flight never overwrites a login |
| AuthStore.LogoutStays | crates/atomcode-auth/src/oauth.rs:1143-1157 | once a logout took effect the store stays empty until a login saves: no refresh in flight undoes it |
| AuthStore.LoginRuns | crates/atomcode-auth/src/oauth.rs:1187-1193 | an undisturbed login leaves the credential it was issued in the file unless the write fails before the rename, and reports success exactly when the whole write succeeded |
| AuthStore.LogoutRuns | crates/atomcode-auth/src/oauth.rs:1143-1157 | an undisturbed logout empties the file unless it cannot be removed, reports success exactly when it is empty, and does nothing when nobody is logged in |
| AuthStore.LogoutFindsNothing | crates/atomcode-auth/src/oauth.rs:1143-1157 | a logout that finds somebody else has logged out meanwhile succeeds and changes nothing |
| AuthStore.ProactiveRefreshRuns | crates/atomcode-auth/src/oauth.rs:1074-1111 | an undisturbed refresh before expiry goes on to send the stored credential, of whatever account |
| AuthStore.HolderReleases | crates/atomcode-auth/src/oauth.rs:1214-1230 | in every run from a reachable state in which the lock's holder makes five steps or dies, whatever the broker answers, whoever else moves and however the writes end, the lock is free at some point |
| AuthStore.HolderIsNotStuck | crates/atomcode-auth/src/oauth.rs:1214-1230 | the holder can always make those steps: from any reachable state it alone can give the lock back, in at most four, without an answer of the broker |
| LoginPoller.StepInv | crates/atomcode-auth/src/oauth.rs:523-554 | every step of the poller and the foreground keeps the shape of the channel and who may still run |
| LoginPoller.ChannelCarriesPendingThenOne | crates/atomcode-auth/src/oauth.rs:535-551 | in every run the channel carries `Pending`s and then at most one other answer, in order and without loss, after which the poller is done; and the receiver lives exactly as long as the foreground loops |
| LoginPoller.NeverStopsUnexpectedly | crates/atomcode-auth/src/oauth.rs:752-769 | with a client and no panic the foreground never reaches "login poller stopped unexpectedly" |
| LoginPoller.StopsUnexpectedlyOtherwise | crates/atomcode-auth/src/oauth.rs:527-534 | both conditions are needed: runs without a client, and with a panic, that do reach it |
| LoginPoller.ExchangeOnlyAfterAuthorized | crates/atomcode-auth/src/oauth.rs:752-776 | the token exchange happens only after `Authorized` was received, after nothing but `Pending`, with the receiver dropped |
| LoginPoller.EscapeEndsLogin | crates/atomcode-auth/src/oauth.rs:764-767 | once the escape key is seen, nothing more is received or sent and no token is exchanged, whatever the two threads do after |
| LoginPoller.WithoutClient | crates/atomcode-auth/src/oauth.rs:526-534 | in every run without a client `Pending` is sent at most once, after which the poller is done, and the login neither succeeds nor fails |
| LoginPoller.CanStillSucceed | crates/atomcode-auth/src/oauth.rs:535-554 | in every run with a client, while the foreground loops and the poller has no final answer, there is a continuation that ends in the token exchange, however many `Pending`s are queued |
| LoginPoller.AuthorizedAtOnce | crates/atomcode-auth/src/oauth.rs:520-541 | in every run whose first check answers `Authorized` no `Pending` is sent, the login neither fails nor reports a stopped poller, and at any point, unless cancelled, one more step of each kind ends in the exchange |
| Glob.GlobMatch | crates/atomcode-capabilities/src/cc_hooks.rs:335-359 | the fast scan answers true exactly when the recursive meaning of the pattern accepts the string, and its main loop makes fewer than (length + 1) * (pattern length + 1) rounds |
| Glob.LaterStarSuffices | crates/atomcode-capabilities/src/cc_hooks.rs:340-350 | whatever an earlier star could still reach, a later star reaches: backtracking only to the last one loses no match |
| Glob.MatchTool | crates/atomcode-capabilities/src/cc_hooks.rs:323-331 | the matcher as it runs decides exactly: no matcher, empty, `*`, or some trimmed alternative that matches |
| Glob.AlternativesMean | crates/atomcode-capabilities/src/cc_hooks.rs:316-331 | alternatives joined by bars take a tool exactly when one of them does |
| Bytes.TrimMeans | crates/atomcode-capabilities/src/cc_hooks.rs:330-330 | trimming takes off whitespace only, at both ends, and all of it |
| HookGate.PreToolGate | crates/atomcode-capabilities/src/cc_hooks.rs:1256-1348 | over the configured hooks, those of the event whose matcher takes the tool: one that says no denies, for the reason of the first that does; failing that one that asks makes it ask, failing that one that allows makes it allow; the arguments are those printed last among the hooks up to that first no, or as they were |
| HookGate.SelectMatching | crates/atomcode-capabilities/src/cc_hooks.rs:988-995 | the result is the hooks at strictly increasing places, and a place is among them exactly when its hook is of the event and its matcher takes the tool |
| HookGate.AnswerMeans | crates/atomcode-capabilities/src/cc_hooks.rs:1306-1345 | one hook denies exactly when it says no, in its permission, its decision, its action or by a deliberate exit 2, for the reason with the permission, else its own, else that a hook blocked the tool; it asks or allows exactly when it prints so and nothing stronger |
| HookGate.RewriteMeans | crates/atomcode-capabilities/src/cc_hooks.rs:1285-1301 | one hook rewrites the arguments to the updated input it prints, else to the arguments of a `modify`, else not |
| HookGate.GateKindIsOrderFree | crates/atomcode-capabilities/src/cc_hooks.rs:1434-1452 | stopping at the first denial gives the same kind of outcome as the full fold over all hooks, in any order of them |
| HookGate.GateIsDetermined | crates/atomcode-capabilities/src/cc_hooks.rs:1277-1348 | the answers of the hooks leave exactly one possible gate |
| HookGate.ReasonDependsOnOrder | crates/atomcode-capabilities/src/cc_hooks.rs:955-959 | two denials in the two orders give two gates: the fold is not order-independent as its description has it |
| HookGate.GateOrderFreeExactly | crates/atomcode-capabilities/src/cc_hooks.rs:955-959 | for any answers hooks can give, the gate is the same in every order exactly when all denials give one reason |
| HookGate.AskedOrderFreeExactly | crates/atomcode-capabilities/src/cc_hooks.rs:1277-1345 | how many hooks run is the same in every order exactly when none of them denies or all do |
| HookGate.ArgumentsOrderFreeExactly | crates/atomcode-capabilities/src/cc_hooks.rs:1277-1345 | the arguments the gate leaves are the same in every order of the hooks exactly when: where some deny, all that deny leave the same text and, if one of them rewrites nothing, no hook rewrites to anything new; where none denies, no two rewrites differ |
| HookGate.ArgumentsDependOnOrder | crates/atomcode-capabilities/src/cc_hooks.rs:1285-1345 | with a hook that proceeds and one that denies and rewrites nothing, the first one's rewrite is left in one order and the original arguments in the other |
| HookGate.FoldAllKeepsLastReason | crates/atomcode-capabilities/src/cc_hooks.rs:1343-1345 | what the short circuit changes, for every list: without it the last denier's reason would be given |
| HookGate.GateWithoutDecisions | crates/atomcode-capabilities/src/cc_hooks.rs:760-803 | when no hook prints a decision the gate denies in the words of the first hook that exits 2 and says something that is no launch failure, proceeds if there is none, and the arguments stay as they were |
| HookGate.GateMeans | crates/atomcode-capabilities/src/cc_hooks.rs:1279-1348 | over everything all matching hooks print: the gate denies exactly when one says no (in any of the ways it can), asks exactly when none does and one asks, allows exactly when neither and one allows |
| HookGate.Before | crates/atomcode-capabilities/src/cc_hooks.rs:1215-1237 | returns the gate of the hooks, or what the asking came to where that gate asks, with the arguments as the hooks that ran left them |
| HookGate.BeforeDenies | crates/atomcode-capabilities/src/cc_hooks.rs:1195-1237 | no `ask` leaves `before`; it denies exactly when some hook said no or one asked and approval did not come; a no keeps the first denier's reason whatever the approval; an ask alone gives the allow, the refusal naming the tool or the channel's own failure |
| PostTool.NamesAreInFlight | crates/atomcode-capabilities/src/cc_hooks.rs:1359-1377 | for any interleaving of calls with distinct ids the map holds exactly the calls noted as not denied and not finished, each under the name it was noted with |
| PostTool.PostSeesItsOwnCall | crates/atomcode-capabilities/src/cc_hooks.rs:1368-1377 | each `post_tool` finds the name its own call recorded, or none if that call was denied or had its result already |
| PostTool.NamelessMatchesAll | crates/atomcode-capabilities/src/cc_hooks.rs:1015-1020 | a matcher that fires with no name fires for every name |
| PostTool.NamelessExactly | crates/atomcode-capabilities/src/cc_hooks.rs:1009-1020 | a matcher fires without a name exactly when it is absent or a single star; every other one that is empty or has an alternative of stars alone takes every named tool and does not fire without a name |
| PostTool.NamelessWitnesses | crates/atomcode-capabilities/src/cc_hooks.rs:1015-1020 | so the converse fails, for the empty matcher and for `**` |
| PostTool.Engine.NoteCallForPost | crates/atomcode-capabilities/src/cc_hooks.rs:1359-1365 | keeps the map equal to what the run of calls so far leaves in it |
| PostTool.Engine.constructor | crates/atomcode-capabilities/src/cc_hooks.rs:930-945 | an engine starts with no call under way and knows whether any post-tool hook would read the map |
| PostTool.Engine.Before | crates/atomcode-capabilities/src/cc_hooks.rs:1215-1237 | the gate, the arguments and the note together: the run of calls goes on with this call, as denied exactly when the gate is a denial |
| PostTool.Engine.PostToolFold | crates/atomcode-capabilities/src/cc_hooks.rs:1368-1429 | the call's name is taken back; over the hooks of the result's event that match it, the output printed last stands and the block printed last is reported with its reason; with none the content is as it was and the outcome is to proceed |
| PostTool.DeniedHasNoName | crates/atomcode-capabilities/src/cc_hooks.rs:1350-1377 | a call one of its hooks said no to, or whose prompt was not approved, has no name at `post_tool`, whatever other calls come in between |
| Jsonc.StripComments | crates/atomcode-capabilities/src/jsonc.rs:19-82 | on UTF-8 input the loop computes exactly the text with the lexer's comment bytes blanked, and the result is UTF-8, so the fallback is never taken |
| Jsonc.BlankLine | crates/atomcode-capabilities/src/jsonc.rs:50-55 | the line-comment loop blanks as the lexer says and leaves the newline to the caller |
| Jsonc.BlankBlock | crates/atomcode-capabilities/src/jsonc.rs:56-69 | the block-comment loop blanks as the lexer says, past the closing mark or to the end |
| Jsonc.StrippedKeepsUtf8 | crates/atomcode-capabilities/src/jsonc.rs:76-81 | blanking never splits a character, from any lexer state: unterminated comments and strings and a backslash before a multi-byte character included |
| Jsonc.StrippedOffsets | crates/atomcode-capabilities/src/jsonc.rs:11-16 | same length, newlines at exactly the same offsets, every byte unchanged or a space, only comment bytes changed |
| Jsonc.StrippedRelexes | crates/atomcode-capabilities/src/jsonc.rs:15-16 | the stripped text has the same string literals at the same offsets and no comment |
| Jsonc.StripIdempotent | crates/atomcode-capabilities/src/jsonc.rs:19-82 | stripping twice is stripping once |
| Jsonc.DocumentStripped | crates/atomcode-capabilities/src/jsonc.rs:25-74 | for any document of code, literals and comments, the last of which may be unterminated, code and literals survive as written and each comment is blanked, newlines of block comments kept |
| Jsonc.EveryTextIsADocument | crates/atomcode-capabilities/src/jsonc.rs:25-74 | every text is such a document |
| Utf8.LossyIsIdentityOnValid | crates/atomcode-auth/src/openrouter.rs:634-634 | the lossy reading of bytes is always UTF-8, and is the input exactly when the input was |
| Utf8.LossyReplaces | crates/atomcode-auth/src/openrouter.rs:634-634 | what is well-formed is copied and each ill-formed piece gives one U+FFFD |
| Utf8.BadLenMeans | crates/atomcode-auth/src/openrouter.rs:634-634 | an ill-formed piece is the longest start of a character that is there, or one byte |
| Utf8.EncodedIsCharacter | crates/atomcode-auth/src/openrouter.rs:634-634 | the encoding of every scalar value is one character of the grammar, whatever follows |
| Utf8.CharacterIsEncoded | crates/atomcode-auth/src/openrouter.rs:634-634 | and every character of the grammar is the encoding of a scalar value |
| Utf8.SpaceIsWhite | crates/atomcode-capabilities/src/cc_hooks.rs:330-330 | the bytes trimming takes for whitespace are the encodings of the characters with the White_Space property and no others |
| Percent.UrlEncodeComponent | crates/atomcode-auth/src/openrouter.rs:63-74 | the loop computes the encoding that the round trip is about |
| Percent.PercentDecode | crates/atomcode-auth/src/openrouter.rs:617-635 | the loop computes the decoding that the round trip is about, incomplete and ill-formed escapes standing for themselves |
| Percent.RoundTrip | crates/atomcode-auth/src/openrouter.rs:63-74 | percent-decoding undoes percent-encoding for every string |
| Percent.EncodedAlphabet | crates/atomcode-auth/src/openrouter.rs:62-74 | an encoded text holds only unreserved characters and percent signs, and is not empty for a text that is not |
| Percent.EncodeByteMeans | crates/atomcode-auth/src/openrouter.rs:63-74 | a letter, a digit or one of `-._~` is written as it is, any other byte as a percent sign and its two hexadecimal digits in upper case |
| Percent.EscapeIsRead | crates/atomcode-auth/src/openrouter.rs:617-634 | an escape, its digits in either case, is read as the byte it names |
| Percent.OtherIsRead | crates/atomcode-auth/src/openrouter.rs:617-634 | whatever opens no escape is read as it is |
| Percent.FromHexMeans | crates/atomcode-auth/src/openrouter.rs:622-625 | a digit is one of the sixteen in either case, and nothing else is |
| Percent.RequestLineRoundTrip | crates/atomcode-auth/src/openrouter.rs:599-613 | a request line with any other parameters around an encoded code parses back to the code, as long as none before it gives `code` a value |
| Percent.RequestLineWithoutCode | crates/atomcode-auth/src/openrouter.rs:599-613 | a request line parses to no code exactly when none of its parameters gives `code` a value |
| Provisioning.Configuration.ProvisionWithListed | crates/atomcode-auth/src/openrouter.rs:420-597 | the in-place run leaves exactly the configuration, and reports exactly what, the declarative swap of the owned set defines |
| Provisioning.Configuration.RemoveAll | crates/atomcode-auth/src/openrouter.rs:515-517 | takes out exactly the given entries |
| Provisioning.UnmarkedIsKeptOrRetired | crates/atomcode-auth/src/openrouter.rs:470-517 | an entry that is not on the account with the mark is never altered, and is removed exactly when the run has models and a list, and the entry is on the account, has the selection id of none of the models, names a model of a judged shape, and that model is not offered |
| Provisioning.UnmarkedIsRemoved | crates/atomcode-auth/src/openrouter.rs:403-419 | a configuration and a run in which an entry without the mark is removed |
| Provisioning.UnmarkedThroughRuns | crates/atomcode-auth/src/openrouter.rs:493-507 | through any sequence of runs it stays as it was up to the run, if any, that retires it |
| Provisioning.KeysBalance | crates/atomcode-auth/src/openrouter.rs:508-572 | the new ids are the old ones minus `removed` plus `added`, which are really gone and really new; `retired` are exactly the removed ones without the mark |
| Provisioning.OwnedIsCurrent | crates/atomcode-auth/src/openrouter.rs:527-541 | every owned entry is wanted, and has the rank of the last place its id has in the list, from one, with the name and window given there |
| Provisioning.OwnedKeepsTheRest | crates/atomcode-auth/src/openrouter.rs:531-540 | an owned entry that stays keeps everything but name, window and rank |
| Provisioning.AddedIsOwned | crates/atomcode-auth/src/openrouter.rs:542-572 | what a run adds is on the account with the mark, under `openrouter/` and the model's id, with nothing else set |
| Provisioning.AddedExactly | crates/atomcode-auth/src/openrouter.rs:527-572 | what a run adds is exactly what is wanted and answers to nothing, once each, in the order it is wanted |
| Provisioning.ProvisionIdempotent | crates/atomcode-auth/src/openrouter.rs:420-597 | a second run with the same input changes nothing and reports nothing added, removed, retired or replaced |
| Provisioning.DefaultStaysValid | crates/atomcode-auth/src/openrouter.rs:574-589 | after a run the default names an existing selection exactly when it did before or the run added what it named |
| Provisioning.ChosenDefaultIsKept | crates/atomcode-auth/src/openrouter.rs:574-596 | the default changes only from none, or away from a removed model, to the first of the models; the old one is reported exactly when it changed, and the new one always |
| Provisioning.DefaultAfterRun | crates/atomcode-auth/src/openrouter.rs:574-589 | a run with models and no default before leaves none exactly when the legacy default names a provider or an entry that the run leaves, and else the first of the models; a default that named an entry the run removed becomes the first of the models, and any other stays |
| Provisioning.KeyIsAllThatChanges | crates/atomcode-auth/src/openrouter.rs:428-467 | no account but OpenRouter's is added or touched, and of that one only the key; the legacy part of the configuration is not touched; and without models nothing but the key changes |
| Provisioning.KeyReadsBack | crates/atomcode-auth/src/openrouter.rs:439-460 | after a run the saved key reads back as the one given exactly when it was already there, or is not blank and is a text that reading leaves as it is |
| Provisioning.SavedKeyMeans | crates/atomcode-auth/src/openrouter.rs:742-765 | the saved key is the account's own, if that is more than whitespace, trimmed and as it is read, else the environment's, and none if what comes of it is only whitespace |
| Provisioning.SameButForCase | crates/atomcode-auth/src/openrouter.rs:478-487 | ids are compared byte by byte with the two cases of an ASCII letter taken as one |
| Provisioning.JudgedMeans | crates/atomcode-auth/src/openrouter.rs:480-485 | a judged id is a non-empty vendor, a slash and a non-empty name, with no `@` or `~` in front |
| Provisioning.OfferedMeans | crates/atomcode-auth/src/openrouter.rs:486-492 | an offered model is listed, or is a variant other than `free` of a listed base, case aside |
| FreeModels.SelectTop | crates/atomcode-auth/src/openrouter.rs:130-218 | returns, in order, as many eligible rows as limit and list allow, none more often than listed, and leaves out nothing that comes before one it chose |
| FreeModels.SortedRows | crates/atomcode-auth/src/openrouter.rs:212-217 | puts rows in the order of ranking, longer context and id, keeping every row |
| FreeModels.OrderMeans | crates/atomcode-auth/src/openrouter.rs:207-217 | of two rows the one the ranking names first, or alone, comes first; where it does not decide, the longer context, then the id |
| FreeModels.RankingOnlyOrders | crates/atomcode-auth/src/openrouter.rs:126-206 | only rows that take tools, answer in text and have no price or the `:free` mark are chosen, wherever the ranking puts them, and such a row is left out only when the limit is reached |
| FreeModels.ListingOrderDoesNotMatter | crates/atomcode-auth/src/openrouter.rs:208-217 | with distinct ids the rows chosen, and their order, are the same whatever order the API lists the rows in |
| EventStream.StreamChat | webui/src/api.ts:203-271 | the events depend only on the text the chunks make up: they are those of the whole text cut once at blank lines; it returns normally exactly when not aborted and a `done`, `stopped` or `error` was delivered |
| EventStream.StreamLive | webui/src/api.ts:1142-1180 | delivers the events of the finished frames of the whole text, cut off at the first one the handler throws on |
| EventStream.EmitFrame | webui/src/api.ts:208-241 | one frame adds its event, if its first data line parses to one, and the terminal flag is true exactly when a `done`, `stopped` or `error` has been delivered |
| EventStream.FrameMeans | webui/src/api.ts:226-237 | a frame delivers an event exactly when the text its first `data:` line carries, white space around it taken off, parses to it |
| EventStream.HandOver | webui/src/api.ts:1164-1171 | the frames of one chunk are handed over in order up to the first the handler throws on |
| EventStream.UpToThrowMeans | webui/src/api.ts:1164-1171 | what is delivered is a start of the events in which only the last can make the handler throw, and all of them if none does |
| EventStream.FramesAppend | webui/src/api.ts:217-225 | cutting is incremental: finished frames stay and only the last part goes on with the next chunk |
| EventStream.FramesOfSent | webui/src/api.ts:219-222 | cutting what a server sends gives back its frames |
| EventStream.SentByItsFrames | webui/src/api.ts:219-222 | every text is what its own frames, sent, make up |
| EventStream.LiveIsChatWithoutTheRest | webui/src/api.ts:1158-1172 | the live events are the chat events minus the unfinished last frame exactly when no finished frame of the text has a payload that parses to `null` |
| EventStream.ReadersAgree | webui/src/api.ts:1158-1172 | the same of what the two readers deliver, for a live handler that throws on nothing the finished frames carry |
| EventStream.NullIsLiveOnly | webui/src/api.ts:208-237 | the frame that differs: `data:null` reaches the live handler and not the chat one |
| RefreshingList.EveryReachableList | webui/src/refreshingList.ts:2-41 | in every reachable state: items are none or from a load called after the last invalidation, and those of the current load once it is fulfilled; loading exactly while it is unresolved; failed, with the first 300 characters of its message, exactly when it was rejected; the promise kept is its own, exactly while its chain is unfinished; every listener last saw the current snapshot |
| RefreshingList.StepInv | webui/src/refreshingList.ts:9-39 | every method and callback keeps that, and that failure and its cut message show exactly when the current load was rejected |
| RefreshingList.FailureKeepsItems | webui/src/refreshingList.ts:13-23 | over any stretch of any run without an invalidation, what is shown stays through failures, refreshes and stale loads until a load is fulfilled, and something shown never turns into nothing |
| RefreshingList.RetryExactly | webui/src/refreshingList.ts:13-25 | in every failed state a plain refresh loads again exactly when the failed chain's `finally` has run; before that it changes nothing |
| RefreshingList.RefreshInTheWindowIsLost | webui/src/refreshingList.ts:19-23 | a run that ends between the two callbacks, in which a plain refresh of a failed list loads nothing |
| RefreshingList.InvalidationReloads | webui/src/refreshingList.ts:34-39 | in every reachable state invalidation drops the items, makes every load under way stale, and starts a load exactly when somebody listens |
| RefreshingList.ForcedRefreshLoads | webui/src/refreshingList.ts:13-25 | in every reachable state a refresh that asks for a fresh load starts one, whatever is under way, and keeps what is shown |
| RefreshingList.UnsubscribedIsSilent | webui/src/refreshingList.ts:28-31 | a listener that has left is not called again by any run in which it does not come back |
| RefreshingList.StaleLoadIsIgnored | webui/src/refreshingList.ts:17-23 | taking the callbacks of a load that is no longer current out of any run changes nothing anyone can see |
| RefreshingList.List.RefreshNow | webui/src/refreshingList.ts:13-25 | takes the list to the next state, keeps the invariant, and returns the pending promise when there is one and no fresh load is asked for |
| RefreshingList.List.InvalidateNow | webui/src/refreshingList.ts:34-39 | likewise for invalidation, with the refresh it starts when somebody listens |
| RefreshingList.List.OnOutcome | webui/src/refreshingList.ts:17-20 | likewise for the callbacks of a load that ends, current or stale |
| RefreshingList.List.OnCallLoad | webui/src/refreshingList.ts:17-17 | likewise for the microtask that calls `load`, which is what makes a load later than an invalidation |
| RefreshingList.List.OnFinally | webui/src/refreshingList.ts:21-23 | likewise for the end of a chain, which frees the kept promise only when it is the current one |
| RefreshingList.List.SubscribeNow | webui/src/refreshingList.ts:28-30 | likewise for a new listener, which is called with the current snapshot at once |
| RefreshingList.List.UnsubscribeNow | webui/src/refreshingList.ts:31-31 | likewise for a listener that leaves |
| RefreshingList.List.Publish | webui/src/refreshingList.ts:9-12 | every listener, and nobody else, is called with the new snapshot |
| EditApplication.ApplyEdits | evals/design-convergence/verify_minimal_edits.py:14-37 | applies exactly when there are places at which the edits fit: at most five, each with an excerpt of 1 to 500 characters that stands at its place and elsewhere only overlapping it, a different replacement of at most 500, one of the two kinds, a quotation that stands in the turn it names (or none, for an unsupported fact alone), and no two touching; the answer is the simultaneous substitution at those places; a rejection names the first thing the first unsound edit fails, or the overlap |
| EditApplication.CheckMeans | evals/design-convergence/verify_minimal_edits.py:19-29 | the checks, in their order, pass exactly the sound edits and name the first thing any other fails |
| EditApplication.NeighboursSuffice | evals/design-convergence/verify_minimal_edits.py:31-33 | once sorted, checking neighbours is checking all pairs |
| EditApplication.Splice | evals/design-convergence/verify_minimal_edits.py:34-37 | splicing from right to left equals simultaneous substitution |
| EditApplication.SortedSpans | evals/design-convergence/verify_minimal_edits.py:31-31 | keeps every span and puts them in the order of start, end and replacement |
| EditApplication.NoLaterMeans | evals/design-convergence/verify_minimal_edits.py:31-31 | the earlier start comes first, then the earlier end, then the replacement in character order |
| EditApplication.OutsideIsUnchanged | evals/design-convergence/verify_minimal_edits.py:34-37 | for accepted edits in any order, the answer is the draft's own stretches with the replacements between them, and its length differs by the sum of the differences of replacement and excerpt |
| EditApplication.OrderDoesNotMatter | evals/design-convergence/verify_minimal_edits.py:14-37 | reordering the edits changes neither the verdict nor the answer |
| EditApplication.CountIsOne | evals/design-convergence/verify_minimal_edits.py:20-20 | a count of one means an occurrence that every other occurrence overlaps |
| EditApplication.CountMeansUnique | evals/design-convergence/verify_minimal_edits.py:20-21 | counting to one shows uniqueness in every draft exactly when the excerpt has no border |

## Left out

- Network, browser, terminal, file permissions, processes and the loopback listener: what they answer is an input or a step of the model.
- JSON and TOML parsing, hashing, signing: a parsed value is given, and `EventStream` takes `JSON.parse` as any function.
- The broker in `AuthStore` never issues a token twice and grants one request at most once; when it grants a request that was sent, whether it does, and whether the answer arrives are in the model.
- A corrupt `auth.toml` in `AuthStore`: a read that fails is a step, a file that stays unreadable is not a state of its own.
- `get_valid_auth_info` after its refresh, in `AuthStore`: when it decides to refresh is any moment; that a legacy credential is used as it is when the refresh fails is not modelled.
- `DenyTurn` outcomes of other middleware: they are ranked in `HookGate`, but hooks never give them.
- Hook payloads and the spawning of hooks: what running a hook on the call gives is part of the hook.
- Mutex poisoning of the name map.
- The order of `removed` and `retired` in `Provisioning`: the source takes a hash map's, here they are sets.
- Price parsing in `FreeModels`: whether a row costs nothing, takes tools and emits text is given; `parse_discover_free_ranking` and `undated`, page scanning, would only add easy members.
- Byte decoding in `EventStream`: chunks are decoded text, so a character cut by the end of the stream and a byte order mark are not in it; nor are frames ended by carriage returns, which the readers do not recognise.
- Listeners of `RefreshingList` that throw, or call back into the list while it publishes.
- Values of the wrong JSON type in `EditApplication`: edits are well-typed, every other check is made.
