# A verified model of isabelle-core

isabelle-core is a server over a generic store of items. This project models the parts of it that hold
state or arithmetic, and proves what they promise over all inputs, all runs and all failures of a write.

| files | what they model |
|---|---|
| `Common`, `Items`, `Sorting`, `Text` | 64-bit counters, the item record with its merge and its owner, sorted enumerations, and the string operations of the source |
| `Secrets`, `SecretLaws`, `AdoptLaws` | the encrypted secret store: loading with migration, `set`, `del`, adoption of the system's names, and the laws of its runs |
| `SecretEndpoint`, `SecretRuns`, `SecretPrivacy`, `SecretAnswers` | the requests that reach that store, from people and from plugins, with restarts between them: what they may change over whole runs, exactly which answers disclose something, and what each is answered and stores in terms of literal names and fields |
| `Accounts`, `Principals`, `SessionLaws`, `OtpLaws`, `LoginLaws` | user records, one-time codes and session generations as a state machine; which record a session's address leads to; revocation and the guessing budget over whole runs; who is let in, and what becomes of the session a login answers |
| `ListFilter`, `Listing`, `FilterLaws` | the filter a client may send with a listing, what a filter means, and redaction; the joining of filter texts, and what a listing is restricted to; the same rules in plain terms |
| `OpenApi` | operation ids of the generated API description |
| `PendingFlows` | the table of sign-ins in flight |
| `LocalStore`, `StoreRuns` | writes and paging of the file store; id allocation over its runs, with restarts |
| `SignIn`, `DirectoryLogin`, `Registration`, `ApiToken` | blocked mail domains, identities vouched for elsewhere, logins through a directory, self-registration, access tokens |

Code that updates fields is a class whose methods are proved equal to functions of the state before;
the theorems are about those functions and about runs of them. A flush, a write or a counter file that
may fail is an input of the step, so every theorem about runs covers every pattern of failures.

## What is assumed

- `Item::merge` belongs to another crate. It is taken as a per-key overlay in which the incoming side wins
  and the id stays, as src/state/secrets.rs:179-181 describes it.
- Encrypting then decrypting, and encoding then decoding JSON, give back what went in. A file that does
  not decrypt or parse is the blob `Unreadable`.
- Each request handler is one step, and the clock never goes back within a run.
- A session holds an address and a stamp, and the guard looks the address up by login or address. The
  store may answer with any record that answers to it, or not at all; how it compares names (exactly, or
  ignoring case) is a parameter.
- `u64::MAX` stands for "no id" and counters stop there. Nothing is assumed away silently: where a
  law needs room below it, the law says so, and `OthersKeptIffUnsaturated`, `AllocationIsFreshIff` and
  `LogoutRevokesIff` prove that the room is needed.

## Where the code does less than its comments say

- Adopting the system's names is meant to happen once (src/state/secrets.rs:272-283). For a list that
  names nothing twice this holds on every store iff no name on the list is the prefixed form of another
  (`AdoptingTwiceIsOnceIff`); the list of src/lib.rs:307 is such a list (`StartUpListIsIndependent`).
- The system's names are adopted at every start, and an account's own secret under one of the bare names
  is carried into the reserved space then, and stays that account's (`RestartCrossesIff`).
- A secret the caller may not see is to be answered for as one that is not there
  (src/server/secret.rs:93-95). Reads and deletions keep this. For an ordinary account an edit keeps it
  iff its answer is settled by what the account may touch (`EditKeepsPromiseIff`): it asks for a reserved
  name, edits a reserved entry of its own, keeps the name of its own entry, or asks for an empty name or
  one that another of its own entries has. Creating an entry, sending an id that is not one's own, and
  any other renaming tell something.
- The guard looks up an address, not an account. A revoked session passes again as another account that
  has taken its address (`AddressChangesHands`; `RevokedSessionDiesIff` has the exact condition), and an
  account that moves to another address is signed out (`AddressEditEndsSession`,
  `EditKeepsSessionIff`).
- A user record saved whole as it was read before a logout undoes that logout
  (`ReplacementRevivesSession`), and one saved whole without its password loses it unflagged
  (`ReplacementDropsPassword`); `EditKeepsGenerationIff` and `UnflaggedWriteKeepsPasswordIff` have the
  exact conditions.
- What a client may not ask about is meant not to be handed out either (src/server/list_filter.rs:104-105).
  Redaction looks at the names of fields only, so keys inside a map under a plain name are handed out
  (`InnerPasswordIsHandedOut`; `RefusedIsWithheldIff` has the exact condition).
- The filters of a listing are joined as texts, and a text that the store cannot read as a query restricts
  nothing, so that the plugins' filters are dropped with the client's. A client's text of white space
  (`BlankTextListsEverything`) and one with an integer above 2^63 - 1 (`BigNumberListsEverything`) are
  accepted and have that effect; `ListingIsRestrictedIff` proves that no other accepted text has, as long as there is room for the
  plugins' filters. On the
  plugins' side an empty text after another does it (`EmptyTextListsEverything`), and more filters than
  the JSON reader follows levels of nesting for (`ManyFiltersListEverything`; `QueryReadsIff` and `RoomIff`
  have the exact condition).
- An address that no account answers to any more can be registered, and every session stamped for it before
  any revocation then stands for the new account (`AbandonedAddressIsRegistered`).
- Two failed creations and a write by id can leave an item that the counter file does not cover,
  and a creation after a restart gets its id (`FailedCreationsUncoverAnId`; `FileCoversRunIff` has the
  exact condition).
- A page asked for from position 2^64 - 1 on is the first page (`LastSkipStartsOver`).
- The file store looks for a deleted item in another place than it writes items to
  (src/state/store_local.rs:280-281, 322), so a deleted item leaves listings and is still read by its id
  (`DeletedIsStillRead`).

## Model

| member | source | states |
|---|---|---|
| `Items.StampDecidesOwner` | src/server/owner.rs:58-74 | whatever owner a request claims, the written record has the owner it had, and a new one has its creator; merged or replaced |
| `Items.StoredIs` | src/state/store_local.rs:240-278 | field by field, what is kept of a write: each map as sent, or laid key by key over the one there was, without the flag "__security_preserve" |
| `Secrets.BuildNameIndex` | src/state/secrets.rs:331-350 | succeeds iff no two entries share a non-empty name, and then yields the exact inverse of the names |
| `Secrets.AgreesIsUnique` | src/state/secrets.rs:331-350 | an index that mirrors the entries exists only when names are unique, and is the only one |
| `Secrets.RepairEntries` | src/state/secrets.rs:364-372 | the loader's loop: every entry gets its own key as id, and the largest id (0 when there is none) is found |
| `Secrets.MigrateLegacy` | src/state/secrets.rs:377-392 | the migration loop numbers the entries of a legacy file in the order of their sorted keys |
| `Secrets.DecryptAndParse` | src/state/secrets.rs:352-393 | entries and counter of either format, and an error exactly for an unreadable blob |
| `SecretAnswers.CurrentFileLoads` | src/state/secrets.rs:356-376 | a current file opens iff no two entries share a name; each entry is then as stored, and the counter is past all of them |
| `Secrets.SecretStore.Open` | src/state/secrets.rs:108-133 | opens iff the file is absent, or readable with unique names; the store is then the loaded one |
| `Secrets.SecretStore.Get` | src/state/secrets.rs:138-140 | the raw entry of an id, or none |
| `Secrets.SecretStore.GetNamed` | src/state/secrets.rs:144-147 | the raw entry the index gives for a name, or none |
| `SecretLaws.LookupByNameIsExact` | src/state/secrets.rs:144-147 | looking a name up finds an entry iff an entry with that name is in the store |
| `Secrets.SecretStore.GetMasked` | src/state/secrets.rs:153-161 | the entry with every value outside the metadata keys replaced by the placeholder |
| `SecretLaws.MaskedDisclosesExactlyMetadata` | src/state/secrets.rs:149-161 | two entries look the same masked iff they agree on everything but the values under secret keys |
| `SecretAnswers.EntryIsShown` | src/state/secrets.rs:41-59 | what `GET` answers: nothing unless the entry is there and the caller's; of its strings those under "name", "comment" and "description", in any casing, and "<hidden>" for every other |
| `Secrets.RestoreHidden` | src/state/secrets.rs:212-230 | the loop that puts stored values back for placeholders and drops those with nothing behind them |
| `Secrets.SecretStore.Compose` | src/state/secrets.rs:191-230 | target id, previous entry and the entry to be written |
| `Secrets.SecretStore.Set` | src/state/secrets.rs:190-270 | the whole new state and answer, for success and for each of the three refusals, which change nothing |
| `SecretLaws.SetStoresPerKey` | src/state/secrets.rs:174-189 | per key: sent in clear is stored, a placeholder keeps the old value or stays absent, not sent is kept by a merge and dropped by a replacement; no other entry changes |
| `SecretLaws.ComposedName` | src/state/secrets.rs:232 | the name an entry ends up with is the one sent, or the one a merge keeps |
| `SecretAnswers.ReplacementStoresTheItem` | src/state/secrets.rs:199-210 | an accepted replacement stores every field but the id and the strings exactly as sent |
| `SecretAnswers.MergeStoresPerKey` | src/state/secrets.rs:199-210 | an accepted merge holds, in each of those maps and per key, the sent value where one was sent and the old one elsewhere |
| `SecretAnswers.WriteIsAnswered` | src/state/secrets.rs:232-255 | which write is accepted, and which of the three errors answers any other, in terms of the names in the store |
| `SecretAnswers.WriteMovesCounter` | src/state/secrets.rs:257-270 | the counter after a write is the least that is past both its old value and the id, and the file holds it all |
| `Secrets.SecretStore.FlushState` | src/state/secrets.rs:317-328 | the file holds the new contents, or what it held when the write fails |
| `Secrets.SecretStore.Del` | src/state/secrets.rs:301-315 | the whole new state; an absent id and a failed flush change nothing |
| `SecretAnswers.DeletionIs` | src/state/secrets.rs:301-315 | in terms of the entries: one goes, its name can be used again, the others and the counter stay |
| `Secrets.SecretStore.AdoptGlobalNames` | src/state/secrets.rs:284-299 | the loop's state and reported names, stopping at the first failed write |
| `SecretLaws.SetPreserves` | src/state/secrets.rs:190-270 | `set` keeps ids equal to keys and below the counter, the index the inverse of the names, and the file equal to memory, whether or not the flush succeeds |
| `SecretLaws.DelPreserves` | src/state/secrets.rs:301-315 | the same for `del` |
| `SecretLaws.AdoptPreserves` | src/state/secrets.rs:284-299 | the same for adoption, wherever it stops |
| `SecretLaws.EveryReachableStoreIsSound` | src/state/secrets.rs:190-329 | from any file that opens and after any run, including failed flushes and restarts: all invariants, and reopening yields the same entries, index and counter |
| `SecretLaws.WrittenReloads` | src/state/secrets.rs:317-328 | a flushed store with a counter of at least 1 is read back as it is |
| `SecretLaws.AllocationIsFreshIff` | src/state/secrets.rs:191-195 | an item without an id gets an unused one iff no entry stands at the top of the id range |
| `SecretLaws.CounterNeverFalls` | src/state/secrets.rs:257 | over any run the counter never falls |
| `SecretLaws.IdsAreNeverReused` | src/state/secrets.rs:191-257 | an id once used is below every id allocated later, also after deletion and restarts |
| `SecretLaws.MaskedRoundTrip` | src/state/secrets.rs:182-230 | a masked entry sent back with changed metadata, by merge or replacement, changes exactly those keys of that entry; accepted iff the name left is non-empty and free and the file can be written |
| `SecretLaws.MaskedWriteBackIsIdentity` | src/state/secrets.rs:182-230 | sent back unchanged, it changes nothing: not entries, index or counter |
| `SecretLaws.PlaceholderIsNeverStored` | src/state/secrets.rs:182-230 | from an empty store no run ever stores the placeholder as a secret |
| `SecretLaws.LegacyMigration` | src/state/secrets.rs:377-392 | a legacy file of n entries becomes ids 0 to n-1 in key order, one for each key, named by it and otherwise untouched |
| `Text.StrLessIff` | src/state/secrets.rs:383-384 | the order of the keys: a proper prefix first, else by the first character that differs |
| `AdoptLaws.AdoptRenamesExactly` | src/state/secrets.rs:284-299 | adoption of an independent list renames exactly the listed entries whose prefixed name is free, and keeps every other entry and value |
| `SecretAnswers.AdoptionIs` | src/state/secrets.rs:284-299 | the names in plain text: "global." before each listed name whose prefixed form is free, and nothing else touched |
| `AdoptLaws.AdoptingTwiceIsOnce` | src/state/secrets.rs:272-299 | for an independent list the second adoption changes nothing and reports nothing, whichever of its writes would fail |
| `AdoptLaws.AdoptingTwiceIsOnceIff` | src/state/secrets.rs:272-299 | for lists without repeats, adoption is idempotent on all stores iff no listed name is the prefixed form of another |
| `AdoptLaws.StartUpListIsIndependent` | src/lib.rs:307 | the server's own list meets the condition |
| `SecretEndpoint.SecretEdit` | src/server/secret.rs:154-190 | new store and answer for each refusal and outcome |
| `SecretAnswers.EditIsAnswered` | src/server/secret.rs:154-190 | when an edit is done and how any other is answered, in terms of the stored owner, the names and what is sent |
| `SecretAnswers.EditStores` | src/server/secret.rs:177-190 | what an edit that is done stores: the sent fields over the old ones, under the owner there was |
| `SecretEndpoint.SecretGet` | src/server/secret.rs:213-218 | the masked entry, only for those who may touch it; asking the masked copy is as good as asking the entry |
| `SecretEndpoint.SecretDel` | src/server/secret.rs:245-261 | new store and answer; it answers "deleted" exactly when the entry was there and is gone |
| `SecretAnswers.DeletionIsAnswered` | src/server/secret.rs:245-261 | when a deletion is done and how any other is answered, in terms of the stored owner and name |
| `SecretEndpoint.SystemSecretSet` | src/state/core_task.rs:321-334 | new store and answer: refused iff the trimmed name is outside the reserved space; otherwise the entry of that name is replaced whole, without an owner, or the error of the write is passed on |
| `SecretAnswers.SystemWriteStores` | src/state/core_task.rs:303-334 | refused iff the trimmed name is not "global." and more; one that is done stores every map as sent, and the owner it had is gone |
| `SecretEndpoint.SystemSecretDel` | src/state/core_task.rs:337-349 | new store and answer: refused iff the name is outside the reserved space; removed, absent, or failed |
| `SecretAnswers.SystemDeletionIs` | src/state/core_task.rs:337-349 | the entry of that name goes and nothing else, or the answer says why not |
| `SecretEndpoint.SystemNameIsReserved` | src/state/core_task.rs:303-314 | every name a plugin may write is one the HTTP endpoints refuse |
| `Text.TrimTakesSpace` | src/state/core_task.rs:303-314 | the trimming of names takes the white space off both ends, and nothing else |
| `SecretEndpoint.EditChangesTargetOnly` | src/server/secret.rs:154-182 | an edit changes at most its target, which is the caller's to touch and not reserved, or new |
| `SecretEndpoint.EditKeepsReserved` | src/server/secret.rs:151-176 | no edit creates, alters or removes a reserved entry |
| `SecretEndpoint.EditKeepsOwners` | src/server/secret.rs:177-182 | an edit changes no owner, and a new entry belongs to the caller |
| `SecretEndpoint.SystemSetKeepsPersonal` | src/state/core_task.rs:316-334 | a plugin's write creates, alters and removes nothing outside the reserved space |
| `SecretEndpoint.SystemDelKeepsPersonal` | src/state/core_task.rs:336-349 | nor does its deletion |
| `SecretEndpoint.OthersKeptIffUnsaturated` | src/server/secret.rs:163-182 | an ordinary account's edits leave everybody else's entries alone iff no entry has the id `u64::MAX` |
| `SecretEndpoint.SaturationLosesOwnership` | src/server/secret.rs:163-182 | the concrete edit that shows the condition is needed |
| `SecretEndpoint.SystemSetLeavesNoOwner` | src/state/core_task.rs:327-331 | a plugin's write takes the owner off the reserved entry it writes |
| `SecretRuns.StartUp` | src/lib.rs:301-316 | the store as a start leaves it: opened, with the system's names adopted as far as the writes go; refused iff the file does not open |
| `SecretRuns.RestartMoves` | src/lib.rs:304-316 | whichever of its writes fail, a restart changes only entries under the system's bare names, and only by prefixing them |
| `SecretRuns.RestartCrossesIff` | src/lib.rs:307 | when its writes succeed, a restart carries a personal entry into the reserved space iff its name is listed and no entry has the prefixed one; the owner stays |
| `SecretRuns.ServePreserves` | src/server/secret.rs:182-257 | every request and every restart keeps the store's invariants and the file in step with memory |
| `SecretRuns.SpacesStayApart` | src/server/secret.rs:118-126 | over any run of people's requests and restarts, reserved entries stay as they are and none comes up but under a name restarts give; over any run of plugins' requests and restarts, personal entries stay as they are except under a name restarts take, and none comes up |
| `SecretRuns.ForeignEntriesSurvive` | src/server/secret.rs:62-68 | a personal entry is unchanged by any run of requests, plugins' and restarts included, in which neither its owner nor an administrator takes part and no restart takes its name |
| `SecretRuns.OwnerIsForLife` | src/server/owner.rs:58-74 | over any run of requests by people and plugins and of restarts, the owner of an entry is the same for as long as it exists outside the reserved space |
| `SecretRuns.RoomyRunsAreUnsaturated` | src/state/secrets.rs:191-195 | the top of the id range stays free over any run that is shorter than the distance from it of the counter and of the ids people choose |
| `SecretRuns.TopIsReachedInTwo` | src/state/secrets.rs:191-195 | without that bound, one account brings an entry there in two edits of an empty store |
| `SecretPrivacy.GetSeesOnlyVisible` | src/server/secret.rs:213-218 | two stores that agree on what a caller may touch answer its reads alike |
| `SecretPrivacy.DeleteSeesOnlyVisible` | src/server/secret.rs:245-261 | and its deletions, and agree again afterwards |
| `SecretPrivacy.DiscreetEditSeesOnlyVisible` | src/server/secret.rs:154-190 | and its edits that are settled by what it may touch |
| `SecretPrivacy.RunsSeeOnlyVisible` | src/server/secret.rs:93-100 | whole runs of reads, deletions and such edits get the same answers from both stores, and show the same entries afterwards |
| `SecretPrivacy.EditKeepsPromiseIff` | src/server/secret.rs:154-190 | for an ordinary account, exactly the edits and creations that are settled by what it may touch are answered alike by every store that agrees on that |
| `SecretPrivacy.EditTellsForeignFromMissing` | src/server/secret.rs:163-183 | an edit with an id that one store does not have and another keeps for somebody else is accepted by the first and refused by the second |
| `Accounts.UserStore.SetItem` | src/state/store_local.rs:239-279 | the store's contract for one write: merged or replaced, marker dropped, or nothing when it fails |
| `Accounts.UserStore.GenOtp` | src/server/login.rs:82-100 | a code is stored iff the account is active and the last one is a minute old; the record is otherwise kept |
| `LoginLaws.IssuedCodeIs` | src/server/user_control.rs:199-202 | a code is issued iff the account is active and 60 seconds have passed since its last; the record then holds it for 600 seconds with no guesses, and is otherwise as it was |
| `Accounts.UserStore.LocalLogin` | src/server/login.rs:298-324 | who is let in, who is inactive, and when a failed guess is counted |
| `LoginLaws.LocalAnswerIff` | src/server/login.rs:298-326 | somebody is let in iff the account is active and the text verifies against its non-empty password, or is its non-empty code, unexpired and guessed at fewer than 5 times |
| `LoginLaws.FailedGuessIs` | src/server/login.rs:318-324 | a failed attempt raises the count of guesses by one iff there is a live code, and changes nothing else |
| `LoginLaws.NoCredentialNoSession` | src/server/login.rs:221-283 | with neither credential, and no record that a directory vouches for, no session is started |
| `LoginLaws.CodesExpire` | src/server/user_control.rs:192-197 | over any run without another issue, a code lets nobody in from 600 seconds after its own on: only the password does |
| `Accounts.UserStore.Login` | src/server/login.rs:221-283 | users and session after a login, local or entering the record that a directory's answer was found to mean; the session holds the record's address and generation, and any login burns the code |
| `LoginLaws.LocalLoginIs` | src/server/login.rs:266-283 | a login by password or code leaves the record with the code burned and the mark of a first login, and otherwise as it was |
| `LoginLaws.LoginSessionIs` | src/server/login.rs:247-264 | the session a login answers holds the address and the generation of the record in the store, and nobody else's |
| `LoginLaws.LoginSessionStands` | src/server/guards.rs:124-142 | that session passes the guard as the account signed in as, if no other record answers to its address |
| `LoginLaws.LoginSessionIsRevoked` | src/server/guards.rs:124-142 | and it is dropped in every state of a careful run after a revocation of the account |
| `Accounts.UserStore.Logout` | src/server/login.rs:411-422 | raises the generation of the account, if it exists |
| `LoginLaws.LogoutIs` | src/server/user_control.rs:348-367 | the generation rises by one, up to the top, and nothing else changes |
| `Accounts.UserStore.Edit` | src/server/itm.rs:172-185 | an edit carries a raised generation iff it revokes something; a new record revokes nothing |
| `LoginLaws.EditedGenerationIs` | src/server/user_control.rs:375-411 | the generation an edit leaves: raised iff it sets another password, sends a role with another value or drops one that is held, and else as sent or kept |
| `SessionLaws.RevocationRaises` | src/server/user_control.rs:421-444 | a logout or a revoking edit that lands raises the generation by exactly one below the top |
| `SessionLaws.EditKeepsGenerationIff` | src/state/core_task.rs:127-153 | an edit keeps the generation from falling iff it revokes, merges without naming the field, or carries one as high |
| `SessionLaws.RunKeepsGeneration` | src/server/user_control.rs:348-358 | over any run in which edits meet that condition, a record's generation never falls, and a deleted account stays deleted |
| `Principals.AnsweringAfterStep` | src/server/user_control.rs:233-245 | only an edit that lands changes who answers to an address, and only its target |
| `Principals.AddressIsTakenIff` | src/server/user_control.rs:233-245 | an edit of another account takes an address iff a name it carries is that address |
| `Principals.RunKeepsSole` | src/server/user_control.rs:233-245 | over any run in which no edit does, at most the one account answers to the address |
| `Principals.DroppedIff` | src/server/guards.rs:124-142 | a session is dropped whatever the store answers iff no record that answers to its address is at its generation, and, if it has no stamp, some record answers |
| `LoginLaws.GuardDropsIff` | src/server/guards.rs:124-142 | the guard drops a session iff every record that its address can mean, by login or by address, is at another generation, and, where there is none, the session has a stamp |
| `SessionLaws.RevokedSessionDiesIff` | src/server/guards.rs:110-158 | after a revocation, in any later state in which the store answers, a session stamped before is dropped iff no other record that answers to its address is at its generation |
| `SessionLaws.RevokedSessionStaysDead` | src/server/guards.rs:110-158 | so it is dropped in all of them as long as no edit gives its address to another account |
| `SessionLaws.AddressChangesHands` | src/server/guards.rs:116-129 | the run that shows this is needed: a revoked session passes as the account that took its address |
| `SessionLaws.UnstampedSessionEndsIff` | src/server/guards.rs:121-131 | a session without a stamp is dropped after a revocation iff the account still exists and answers to its address |
| `SessionLaws.LogoutRevokesIff` | src/server/login.rs:404-422 | a logout ends the account's sessions iff its write lands and the generation has room |
| `SessionLaws.OrdinaryRunsKeepSessions` | src/server/user_control.rs:368-374 | a session stands for its account through any run of logins, code requests, edits that revoke nothing and leave the address with the account, and anything else done to other accounts |
| `SessionLaws.StandingSessionPasses` | src/server/guards.rs:124-142 | a session that stands for an account passes the guard, as that account, also when the store does not answer |
| `SessionLaws.EditKeepsSessionIff` | src/server/guards.rs:124-131 | exactly when one edit leaves a session standing: it takes the address neither to nor from another account, and leaves the generation |
| `SessionLaws.AddressEditEndsSession` | src/server/guards.rs:130-131 | an unflagged edit that moves the account to another address drops its sessions |
| `SessionLaws.TakenAddressEndsSession` | src/server/guards.rs:126-129 | another account that takes the address can get them dropped |
| `SessionLaws.ReplacementRevivesSession` | src/server/user_control.rs:375-411 | for every record: saved whole as read before a logout, it is not flagged, lowers the generation, and the revoked session stands again |
| `SessionLaws.ReplacementDropsPassword` | src/server/user_control.rs:388-411 | for every record with a password: saved whole without it, it is not flagged and the password is gone |
| `SessionLaws.UnflaggedWriteKeepsRoles` | src/server/user_control.rs:375-411 | a write the test does not flag changes neither activity nor any role in the stored record, merged or replaced |
| `SessionLaws.UnflaggedWriteKeepsPasswordIff` | src/server/user_control.rs:388-411 | and keeps the password iff it merges, names one, or there was none |
| `SessionLaws.EffectiveChangeEndsSessions` | src/server/user_control.rs:360-374 | an edit that changes the activity or a role, or sets another password, drops the account's sessions whatever the store answers |
| `OtpLaws.StepBalance` | src/server/login.rs:307-323 | per step: guesses taken and guesses left are covered by those left before, five for a new code, and one for a lost write |
| `OtpLaws.ComparisonsArePaidFor` | src/server/user_control.rs:446-453 | over any run: comparisons are at most the guesses left at the start, five per code issued, and one per lost write |
| `OtpLaws.GuessesArePaidFor` | src/server/login.rs:268-280 | over any run: each code lets its holder in at most once, and one more time per lost write |
| `OtpLaws.IssuesAreThrottled` | src/server/user_control.rs:199-202 | codes of one account are issued at least a minute apart |
| `OtpLaws.GuessingBudget` | src/server/user_control.rs:29-36 | over a span of T seconds starting without a live code: at most 5·(T/60+1) comparisons and T/60+1 successes, plus one per lost write |
| `OtpLaws.BudgetIsReached` | src/server/user_control.rs:29-36 | for every number of minutes some run makes all the comparisons of that budget |
| `OtpLaws.SuccessesAreReached` | src/server/user_control.rs:29-36 | and some run has all its successes |
| `OtpLaws.OneCodeFiveGuesses` | src/server/user_control.rs:192-196 | one code, whatever it replaced, is compared at most five times and lets in at most once |
| `ListFilter.AcceptedIff` | src/server/list_filter.rs:172-259 | the validator accepts exactly the filters of the allowed shape whose combinators nest at most four deep |
| `FilterLaws.FieldIsAllowedIff` | src/server/list_filter.rs:134-152 | which paths may be named: no operator sign, no empty segment, and none of the nine words anywhere in any casing |
| `FilterLaws.AnyCasingIsCredential` | src/server/list_filter.rs:85-109 | a name with one of the nine words inside it, in any casing, is a credential's |
| `FilterLaws.RedactedIs` | src/server/list_filter.rs:124-131 | a redacted record keeps its id and, in each of the six maps, exactly the fields that name no credential |
| `ListFilter.ComparisonsAcceptedIff` | src/server/list_filter.rs:225-258 | the operators of a leaf are accepted iff each is a comparison with a scalar or a membership test of at most 256 scalars |
| `ListFilter.MarkerInSegmentIff` | src/server/list_filter.rs:79-95 | a path carries a credential marker iff one of its segments does |
| `ListFilter.FieldRulesAgree` | src/server/list_filter.rs:101-152 | the two tests of names agree: a well-formed path may be asked about iff its whole name is not a credential's |
| `ListFilter.RefusedIsWithheldIff` | src/server/list_filter.rs:111-131 | a well-formed path that may not be asked about leads nowhere in every redacted record iff it does not lead into a map under a plain name |
| `ListFilter.InnerPasswordIsHandedOut` | src/server/list_filter.rs:124-126 | a password inside a map: refused in a filter, and handed out |
| `ListFilter.AllowedSegmentIsKept` | src/server/list_filter.rs:124-152 | no segment of an allowed path is removed by redaction |
| `ListFilter.AcceptedFilterSeesRedacted` | src/server/list_filter.rs:24-55 | a filter of the allowed shape, at any depth, matches a record iff it matches the redacted record |
| `ListFilter.CountSeesRedacted` | src/server/list_filter.rs:26-33 | the count answered for an accepted filter is the count over redacted records |
| `ListFilter.CredentialFilterIsRefused` | src/server/list_filter.rs:198-200 | a filter that would tell a record from its redacted copy, and is refused |
| `FilterLaws.CounterComparison` | src/server/list_filter.rs:58-66 | each of the six comparisons of a counter matches exactly as the numbers compare |
| `FilterLaws.MembershipIs` | src/server/list_filter.rs:68-71 | `$in` matches exactly the texts of the list, and `$nin` all others |
| `Listing.ListingSeesRedacted` | src/server/list_filter.rs:26-33 | whatever accepted text a client sends, blank and unreadable ones included, which records it lists on its own depends on the redacted records only |
| `Listing.ClientPartSeesRedacted` | src/server/itm.rs:412-420 | in a joined text that the store can read, the client's part still depends on the redacted record only, and every plugin's part holds |
| `Listing.FoldFilters` | src/server/itm.rs:484-491 | the loop joins the texts in order: leading empty ones vanish, and the rest is a document only if every text is |
| `Listing.QueryReadsIff` | src/state/store_mongo.rs:369-393 | the joined text can be read iff something is asked, the client's text is not blank and has no integer above 2^63 - 1, and no document sinks below the levels the reader follows |
| `Listing.RoomIff` | src/server/itm.rs:489 | how deep the joining sinks each document, by its position |
| `FilterLaws.FitsIff` | src/server/itm.rs:485-491 | a document fits iff arrays and objects do not nest one deeper than the reader follows |
| `FilterLaws.ConvertibleIff` | src/util/bson_wrapper.rs:25-28 | a document can be a query iff no integer anywhere in it is above 2^63 - 1 |
| `Listing.ReadOrUnrestricted` | src/state/store_mongo.rs:637-647 | a joined text that is read restricts a listing to exactly what the client's document and every plugin's match; any other restricts nothing |
| `Listing.ListingIsRestrictedIff` | src/server/itm.rs:463-504 | for an accepted client's text: whatever filters plugins add, as long as there is room, the listing is what all of them match iff the text is empty, or a document without an integer above 2^63 - 1 |
| `Listing.BlankTextListsEverything` | src/server/list_filter.rs:160-162 | white space is accepted, and drops every plugin's filter |
| `Listing.BlankAloneIsHarmless` | src/server/list_filter.rs:156-162 | it does no harm where no plugin adds a filter |
| `Listing.BigNumberListsEverything` | src/util/bson_wrapper.rs:25-28 | a filter on a counter at 2^63 is accepted, and drops every plugin's filter and its own |
| `Listing.EmptyTextListsEverything` | src/server/itm.rs:485-491 | so does an empty text that a plugin adds after another |
| `Listing.ManyFiltersListEverything` | src/server/itm.rs:485-491 | so do more filters than the JSON reader follows levels of nesting for |
| `OpenApi.NormalizePath` | src/server/openapi.rs:287-298 | the loop computes one word per non-empty segment, each led by an underscore |
| `OpenApi.PathBecomes` | src/server/openapi.rs:287-298 | a path of non-empty segments becomes those segments, each led by an underscore, with letters and digits as they are |
| `OpenApi.TakenCandidatesAreFew` | src/server/openapi.rs:274-278 | the pigeonhole argument: n candidates for one operation take n different ids |
| `OpenApi.UniqueId` | src/server/openapi.rs:273-278 | the search ends, with the first candidate that is not taken |
| `OpenApi.AssignOperationIds` | src/server/openapi.rs:264-285 | one id for each operation, in order, each the first candidate no earlier operation has |
| `OpenApi.AssignedIdsAreDistinct` | src/server/openapi.rs:256-263 | no two operations share an id, whatever the paths and methods |
| `OpenApi.AssignmentIsDetermined` | src/server/openapi.rs:256-263 | the ids depend on the operations and their order only |
| `OpenApi.BareIdIff` | src/server/openapi.rs:273-279 | an operation keeps its bare id iff no earlier operation has it |
| `OpenApi.IdIs` | src/server/openapi.rs:264-285 | each id in plain text: verb and path, and if that is taken the least number from 2 on that makes it new |
| `OpenApi.IdsAreWords` | src/server/openapi.rs:287-298 | ids hold letters, digits and underscores only, if the verbs do |
| `PendingFlows.Flows.Prune` | src/server/oauth.rs:128-131 | keeps exactly the flows within their time limit |
| `PendingFlows.Flows.Insert` | src/server/oauth.rs:100-119 | the eviction loop ends after at most one eviction, of an oldest flow, and the table stays within its limit |
| `PendingFlows.Flows.Take` | src/server/oauth.rs:123-126 | hands out a live flow and removes it |
| `PendingFlows.RunStaysBounded` | src/server/oauth.rs:69-73 | after any run of starts and callbacks the table holds at most 512 flows |
| `PendingFlows.InsertionSparesTheYoung` | src/server/oauth.rs:102-117 | an insertion drops a live flow only from a full table, at most one, and none younger than a survivor |
| `PendingFlows.EachFlowIsTakenOnce` | src/server/oauth.rs:121-126 | over any run a state is answered at most as often as it was inserted |
| `PendingFlows.TableHoldsLastInserted` | src/server/oauth.rs:118 | what the table holds for a state is the last insertion for it, with no callback since |
| `PendingFlows.AnswerIsTheFreshLatest` | src/server/oauth.rs:123-131 | a callback gets the latest unspent flow of its state, within its time limit |
| `PendingFlows.FreshFlowIsAnswered` | src/server/oauth.rs:100-131 | and an inserted flow is answered to its callback, if that comes within 600 seconds of its start, none came before it, and no insertion replaced or evicted it |
| `LocalStore.StoreLocal.GetItem` | src/state/store_local.rs:158-178 | the stored item, or none when it is missing or torn |
| `LocalStore.StoreLocal.Collect` | src/state/store_local.rs:222-233 | the counting loop reads exactly the positions skip to skip+limit |
| `LocalStore.StoreLocal.GetItems` | src/state/store_local.rs:180-237 | that window of the sorted ids in range, and a total that does not depend on the page |
| `LocalStore.PageIsByRank` | src/state/store_local.rs:201-236 | a page holds exactly the readable items of the range before which at least `skip` and fewer than `skip + limit` ids of the range come |
| `LocalStore.LaterPagesAreAbove` | src/state/store_local.rs:212-233 | every id on a page is below every id on a later one |
| `LocalStore.TotalIs` | src/state/store_local.rs:201-220 | the total is the number of known ids in the range |
| `LocalStore.StoreLocal.Number` | src/state/store_local.rs:240-272 | an item without an id gets the next one, and the counter moves with it |
| `LocalStore.StoreLocal.Record` | src/state/store_local.rs:280-318 | after a write that lands: the file, the id index, the counter and the counter file |
| `LocalStore.StoreLocal.SetItem` | src/state/store_local.rs:239-319 | whole state and answer, including unknown collections and failed writes |
| `LocalStore.WriteIsAnswered` | src/state/store_local.rs:261-318 | the id a write is given and answers, the counter, the counter file and the index it leaves, in terms of what they were |
| `LocalStore.StoreLocal.DelItem` | src/state/store_local.rs:321-336 | the id leaves the index and a directory beside the collections is removed; answers whether the id was in the index |
| `LocalStore.DeletionIs` | src/state/store_local.rs:321-336 | items, counters and other ids are untouched by it |
| `LocalStore.PagesTile` | src/state/store_local.rs:201-236 | consecutive pages below the last position share nothing and together are the longer page |
| `LocalStore.LastSkipStartsOver` | src/state/store_local.rs:201 | a page asked for from the last position on is the first page |
| `LocalStore.PagesAreThePrefix` | src/state/store_local.rs:222-233 | the first n pages together are one page n times as long |
| `LocalStore.PagesCoverTheRange` | src/state/store_local.rs:201-236 | paging through gives exactly the known, readable ids in range |
| `StoreRuns.CounterCoversRun` | src/state/store_local.rs:304-307 | over any run of writes and deletions between two starts the counter never falls and covers every id stored |
| `StoreRuns.AllocationIsFresh` | src/state/store_local.rs:261-272 | between two starts a created id exceeds every id known or used before in that collection |
| `StoreRuns.FailedCreationUsesItsId` | src/state/store_local.rs:267-296 | a creation whose write fails uses its id up |
| `LocalStore.WriteIsRead` | src/state/store_local.rs:274-296 | a write that lands is what the next read gives, and no other item changes |
| `LocalStore.DeletedIsNotListed` | src/state/store_local.rs:327-335 | a deleted id is in no listing |
| `LocalStore.DeletedIsStillRead` | src/state/store_local.rs:321-326 | and its item is still read by its id |
| `StoreRuns.WriteIsCoveredIff` | src/state/store_local.rs:304-316 | a write that lands is covered by the counter file iff it was before, or the write raised the counter and its file was written |
| `StoreRuns.RestartReadsFile` | src/state/store_local.rs:92-107 | a restart sets the counter to what the file holds |
| `StoreRuns.RestartIs` | src/state/store_local.rs:92-128 | what a restart comes up with: the counter of the file and the ids on disk, or neither where there is no counter file |
| `StoreRuns.FileCoversRunIff` | src/state/store_local.rs:304-316 | over any run, restarts included: the counter file covers every id stored at every point iff each write was covered when it was made |
| `StoreRuns.FileCoversRun` | src/state/store_local.rs:304-316 | each is in a run in which no creation and no write of the counter file fails |
| `StoreRuns.AllocationIsFreshAcrossRestarts` | src/state/store_local.rs:261-272 | then a created id exceeds every id known or used before, across restarts too |
| `StoreRuns.FailedCreationsUncoverAnId` | src/state/store_local.rs:267-316 | from every state, two failed creations and a write by id leave an item whose id the first creation after a restart gets |
| `SignIn.CoversIffLabelSuffix` | src/server/signin.rs:122 | a listed domain covers another iff its labels are the last labels of the other |
| `SignIn.BlockedIffLabelSuffix` | src/server/signin.rs:101-123 | an address is blocked iff the labels of some listed domain end its domain |
| `SignIn.NamedDomainIsBlocked` | src/server/signin.rs:101-123 | a domain on the list, in any casing, with or without a leading "@" or "*." and trailing dots, blocks every address at it or under it |
| `SignIn.OneDomainBlocksIff` | src/server/signin.rs:108-123 | and a list of that one domain blocks no other address |
| `DirectoryLogin.RecordFor` | src/server/login.rs:361-401 | the record a directory's answer comes to, entered or created, and the write that goes with it |
| `LoginLaws.DecisionIs` | src/server/login.rs:361-401 | which record a directory's answer enters and when it makes a new one, in terms of fields and texts |
| `LoginLaws.NewAccountIs` | src/server/signin.rs:303-321 | every field of an account made for a directory's answer |
| `DirectoryLogin.LoginThroughDirectory` | src/server/login.rs:221-283 | users and session after a login, local first and then through a directory, account creation included |
| `DirectoryLogin.VouchedLoginIsARun` | src/server/signin.rs:284-325 | such a login changes the users exactly as a run of the steps that the laws of sessions and codes are about |
| `LoginLaws.VouchedSessionStands` | src/server/login.rs:247-264 | its session passes the guard as the account entered or made |
| `LoginLaws.VouchedSessionIsRevoked` | src/server/guards.rs:124-142 | and is dropped after a revocation of that account |
| `Registration.Register` | src/server/login.rs:136-193 | when a form is accepted, and when it creates a record, which is then the whole change |
| `Registration.FormIsAcceptedIff` | src/server/login.rs:136-193 | when a form is answered as a success and when it makes an account, in terms of texts and of the records found |
| `Registration.EmailIsRegistrableIff` | src/server/user_control.rs:81-96 | which addresses can be registered: usable texts with one "@" between a name and a domain of two labels or more, none of them empty |
| `Registration.RegistrationSpares` | src/server/user_control.rs:111-143 | a registration cannot take an address that any record answers to, so it is one of the steps under which revoked sessions stay dead |
| `Registration.RegistrationKeepsAnswering` | src/server/user_control.rs:158-186 | whoever answers to an address in use is the same after a registration |
| `Registration.AbandonedAddressIsRegistered` | src/server/user_control.rs:171-186 | an address nobody answers to can be registered, and a session stamped for it before any revocation then stands for the new account |
| `SignIn.LinkLasts` | src/server/signin.rs:295-302 | over any run of sign-ins a record's link never changes once set |
| `SignIn.IdentityEntersIff` | src/server/signin.rs:171-216 | who enters a record, who gets a new one, and who is refused, in terms of the fields of the record |
| `SignIn.EntryIs` | src/server/signin.rs:295-302 | entering links the record to the subject and changes nothing else but the mark of a first login |
| `SignIn.OneSubjectPerRecord` | src/server/signin.rs:162-165 | a record entered by one identity of a source is entered by no other of that source, whoever tries in between |
| `SignIn.EnteredAgainIff` | src/server/signin.rs:159-216 | after a first sign-in and any others tried since, exactly an identity vouched for under the same address by the same subject enters the record |
| `ApiToken.ParseOfAssembled` | src/server/api_token.rs:131-141 | what a printed token reads back as, for every id and secret |
| `ApiToken.TokenRoundTripIff` | src/server/api_token.rs:131-173 | it reads back as it was printed iff the secret is not empty and does not end in white space |
| `ApiToken.TokenText` | src/server/api_token.rs:171-173 | a token in plain text: "mid_", the id in digits, an underscore, the secret |
| `ApiToken.HeaderCarriesToken` | src/server/api_token.rs:144-152 | in a header, after the scheme in any casing, it reads as it does alone |
| `ApiToken.HeaderIsReadIff` | src/server/api_token.rs:144-152 | a header is read iff its first word is the scheme in some casing and what follows is a token |
| `ApiToken.AssembleInjective` | src/server/api_token.rs:171-173 | different tokens are printed differently, underscores in secrets included |
| `ApiToken.ParsedIsAssembled` | src/server/api_token.rs:125-141 | whatever is read as a token is one, up to surrounding white space and the spelling of its id |

## Left out

- Secrets.IsSecretKey: lower-casing is exact where the result holds ASCII letters (A to Z, the Kelvin sign, the dotted capital I), which is all that the comparisons with ASCII words here depend on; other letters are left as they are.
- Secrets.DecryptAndParse: a legacy file of more than 2^64 entries, which would overflow the counter, is excluded.
- AdoptLaws.AdoptRenamesExactly: stated for independent lists and a pass in which every write succeeds; what a pass that stops early leaves is stated by `AdoptGlobalNames` and `AdoptPreserves`.
- AdoptLaws.AdoptingTwiceIsOnceIff: lists that name something twice are covered in one direction only, by `AdoptingTwiceIsOnce`; the server's list names nothing twice.
- SecretRuns.SpacesStayApart: needs that no entry gets the id `u64::MAX`; `RoomyRunsAreUnsaturated` gives a bound that ensures it, and `SaturationLosesOwnership` and `TopIsReachedInTwo` show that it is needed.
- SecretRuns.OwnerIsForLife: nothing is promised once an entry is in the reserved space, where a plugin's write strips the owner (`SystemSetLeavesNoOwner`).
- SecretLaws.IdsAreNeverReused: needs a counter below `u64::MAX` at the end of the run.
- SecretPrivacy.EditKeepsPromiseIff: for a store with room for one more id, and below the top for a creation; an administrator may touch every entry, so for one it would speak of the counter only.
- SessionLaws.RevokedSessionStaysDead: a deleted account that is created again under its id is excluded, as are edits that lower the generation, and states in which the store does not answer, where the guard lets every session pass. The time for which the Mongo store answers lookups from a cache is not modelled.
- OtpLaws.GuessingBudget: other writes to the record in question are taken to merge and to name none of the code's fields; the sum `otp_issued_at + 60` does not wrap, which holds for every time the server itself stores.
- OtpLaws.StepBalance: a handler is one step; a code request interleaved with another write of the same record can lose that write, since it reads the record and replaces it whole.
- Accounts.UserStore.Login: the record a directory's answer means is an input here, and is worked out in `DirectoryLogin`; the lookup of a record by the name typed is an input. A session that cannot be attached is not modelled (to the record it is a burning that does not land).
- Accounts.UserStore.Edit: the item is what authorisation hooks, owner stamping and pre-edit hooks leave of the request; `verify_password` is an arbitrary function.
- ListFilter.Matches: comparisons are those of the database for the forms a client may use; every other operator is an arbitrary function of the whole record. Parsing of JSON text, sort keys and the one-id and id-list forms of a listing are not modelled.
- Listing.Folded: a plugin's text is empty, blank or a document; one that is broken in itself but is completed by its neighbours is not considered, nor are field names that a database document cannot hold. The file store ignores filters altogether (src/state/store_local.rs:207-208).
- ListFilter.AcceptedIff: modelled on values with a recursive function for the loops; redaction is a function of the item where the source removes keys in place.
- OpenApi.AssignOperationIds: the ids are returned as a list; putting each into its operation object is not modelled, and the suffix counter does not wrap.
- PendingFlows.Flows.Insert: the table is within its limit when called, which `RunStaysBounded` proves of every run from the empty table.
- StoreRuns.AllocationIsFreshAcrossRestarts: of `connect` the counter files and the items on disk are modelled; a directory that a failed write leaves behind, which `connect` would list, is not.
- SignIn.OneSubjectPerRecord: the runs between the two sign-ins are sign-ins of that source; an administrator's edit of the link is not part of them.
- Registration.Register: the store is taken to answer both lookups; the announcement to plugins is not modelled.
- The order of `SecretStore::list` and the listing endpoint over it, and `check_role`: single branches.
- Cryptography, randomness, JSON and query parsing, HTTP plumbing, mail, LDAP and identity-provider calls, plugin hooks, the Mongo store and its cache, disk budgets, and the records behind access tokens.
