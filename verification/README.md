# A model of sshw, with proofs

sshw runs commands and transfers files over SSH for registered servers. This project models the parts of
it whose correctness is decided by its own code, and proves properties of the model for every input, every
run and every reachable state. `dafny verify dfyconfig.toml` checks all of it.

| part | files | what is proved |
|---|---|---|
| the two stores | `config.dfy`, `home.dfy`, `storage.dfy`, `ledger.dfy`, `server.dfy`, `account.dfy`, `privilege.dfy`, `session.dfy` | a published configuration and a separate credential store stay consistent over runs of commands in which every effect may fail, take effect and still fail, or be cut off by a crash |
| processes | `lock.dfy` | with the home lock and the revision check, no update is lost, and no reference dangles at any moment of an interleaved run |
| credential keys | `keys.dfy` | a key names exactly one account |
| redaction | `text.dfy`, `redaction.dfy`, `secrets.dfy`, `removal.dfy`, `assignment.dfy`, `overlap.dfy`, `utf8.dfy`, `stream.dfy`, `writer.dfy` | redaction is idempotent, and what it takes away; the incremental form writes the same text as the whole-text form, exactly under a stated condition |
| captured output | `capture.dfy` | both streams are captured faithfully within a limit |
| su | `pty.dfy`, `framing.dfy` | the password is sent at most once and only at the prompt; framed output is recovered exactly |
| shell text | `shell.dfy`, `safety.dfy`, `detectors.dfy` | quoting is undone by the tokenizer; which plain commands are blocked, exactly; sequencing hides no blocked command, exactly under a stated condition |
| paths | `paths.dfy`, `policy.dfy` | a raw string prefix check means containment of paths |
| upload | `upload.dfy` | the destination is at every moment the old file or the complete new one |

How effects are modelled: a home (`HomeState.Home`) and an SFTP server (`AtomicUpload.Server`) are objects
whose methods choose their outcome freely. An effect that reports a failure may have happened; an effect may
end in a crash, after which the running command does nothing more. Since a crash may fall before or after
any effect, what is proved of the state in which a command ends holds at every moment of it. Both objects
have a constant `reliable` that excludes faults, so that the contracts also say what is achieved when
nothing goes wrong, and one for the deletions that work even where other things fail (`stuck`, `unlinks`),
so that they say what is cleaned up. A home has another one, `truthful`: whether the rename that publishes leaves the
destination alone when it reports a failure, as a local rename does. Everything is proved for both kinds of
home as far as it holds: in one that is not truthful the code would withdraw a secret behind a publication it
did not see; `UnsavedIsSafeExactlyWhen` says when that can happen, and `UnseenPublicationDangles` that it does.

Every command meets one contract in a truthful home, `Ledger.Obeys`: the published configuration is never
torn and gains no reference to a missing credential; it changes at most once, to a configuration that loads
again; only what the published change made stale is deleted; nothing is overwritten; and the store is
accounted for exactly when the command succeeds, and untouched when it changed nothing or withdrew what it
had stored. In any home it meets `Ledger.Keeps`, and `Ledger.Tidy`: a secret that was stored in vain is withdrawn,
and nothing stale is left, but for entries that the store does not delete.

Where a property fails for some inputs, the exact condition is proved, and a real input is given on which it
fails:

| property | exactly when | fails on |
|---|---|---|
| streaming equals redaction of the whole text | `StreamingAgreesExactlyWhen` | `SecretsThatDisagree`, `BufferedNoiseDiffers`, `FailedNoiseDiffers` |
| su output comes back unchanged | `SuRoundTripExactly` | `CarriageReturnIsLost` |
| sequencing keeps every block | `SequencingKeepsBlocksExactly` | `QuoteHidesSudo` |
| an unsaved command leaves no dangling reference | `UnsavedIsSafeExactlyWhen`, `AlwaysConsistentExactlyWhen` | `UnseenAddDangles`, `FirstAddDangles` |
| redaction leaves no assigned value | `EveryValueGoneExactlyWhen` | `EarlierValueStays` |
| masking removes a known secret | `MaskingRemovesExactlyWhen` | `OverhangStays`, for every secret that can overlap the mask |
| a known secret without angle brackets is gone | `KnownSecretIsGoneExactlyWhen` | any part of the mask, as `PartOfMaskStays` shows |

Two places where the streamed text and the redaction of the whole text part over the start-up message on
standard error: with a known secret that contains a line feed streaming keeps the message, and a successful
command's whole text loses it; without one streaming drops it, and a failed command's whole text keeps it.

## Model

| member | source | states |
|---|---|---|
| `Sessions.Run` | src/cli.rs:338-483 | Over any run of add, remove, default, account and privilege commands, each of which may fail or crash at any step, with any way of drawing fresh keys: what is published always loads again; no credential that it refers to is ever missing from the store, if renames are truthful or no command of the run stores a secret; and if moreover every command ended cleanly the store stays exact. |
| `Sessions.Execute` | src/cli.rs:379-483 | One command on any home, from loading to its last effect: stopped by a file that does not load, refused exactly when stated; otherwise it aims at its own configuration, meets the common contract, cleans up whatever can be (`Ledger.Tidy`), and does what it was asked to if nothing fails. |
| `Sessions.AcceptedIsPlanned` | src/cli/server.rs:115-147 | What every accepted command aims at can be published: it loads, and refers at each place to what was there or to what the command issues. |
| `Sessions.CommandKeeps` | src/cli.rs:387-387 | What the contracts mean for the home: safety and loadability are kept, and so is exactness on every clean ending. |
| `Sessions.Load` | src/cli.rs:556-566 | A configuration is loaded exactly if the file is absent, or complete and passes the ownership check. |
| `ServerCommands.AddServer` | src/cli/server.rs:21-223 | Store the secret, publish, delete what became stale: meets the common contract whatever fails; refused and unchanged exactly when stated, never changing a registered server without consent or storing an empty password; after publication the file has the endpoint, the default login and the login as given, everything else as it was, and the secret is in the store with the password given; a secret stored in vain is withdrawn wherever the store deletes it. |
| `ServerCommands.RemoveServer` | src/cli/server.rs:374-439 | Removes that server and no other, makes the first remaining name the default if it was the default, deletes its credentials, and meets the common contract. |
| `ServerCommands.DefaultServer` | src/cli/server.rs:283-322 | Publishes the choice, touches no server and no credential; unchanged exactly if it was the default already. |
| `AccountCommands.AddAccount` | src/cli/account.rs:18-154 | Adds or updates one login, keeping its privilege setting and everything else; same contract and exact conditions for refusal and no change, consent and withdrawal. |
| `AccountCommands.RemoveAccount` | src/cli/account.rs:253-336 | Removes one login that is not the default one, with consent, and deletes both of its credentials after publication; every other login is as it was; same contract. |
| `AccountCommands.DefaultAccount` | src/cli/account.rs:217-251 | Publishes the choice of the default login; every account stays as it was and the store is not touched. |
| `PrivilegeCommands.SetPrivilege` | src/cli/privilege.rs:19-194 | Sets how a login becomes another user, with the method, target user and credential asked for and nothing else changed; the key names the login user, the secret is kept under the target user; same contract and exact conditions, consent, one-line passwords and withdrawal. |
| `PrivilegeCommands.ClearPrivilege` | src/cli/privilege.rs:235-317 | Clears the setting of one login and nothing else, with consent, and deletes its secret after publication; unchanged exactly if there was none. |
| `Ledger.Commit` | src/cli/server.rs:148-175 | The common second half of a command: a failed save withdraws the secret, always if the store deletes it, and only if nothing is known to be published; stale entries go only after publication, and then every one that the store deletes; with truthful renames the whole meets the common contract, and without them it still publishes only what loads and is safe if there is no secret to withdraw. |
| `Ledger.UnsavedIsSafeExactlyWhen` | src/cli/server.rs:152-159 | After a save that is reported as failed every outcome is free of dangling references if and only if a rename that reports a failure has had no effect, or the command has no secret to withdraw; `Processes.UnseenPublicationDangles` reaches the dangling outcome. |
| `ServerCommands.UnseenAddDangles` | src/cli/server.rs:152-159 | A real command on which it fails otherwise: the first add in an empty home, its rename having taken effect unseen; `Processes.FirstAddDangles` is its run. |
| `Ledger.SaveOrWithdraw` | src/cli/server.rs:149-159 | A save that did not publish is followed by the compensating delete of the entry just stored, which succeeds wherever the store deletes it; nothing is deleted after a publication; where nothing fails the answer is saved, or not saved and withdrawn, exactly as a file or staging file is in the way. |
| `Ledger.DeleteAll` | src/cli/server.rs:160-165 | Every stale entry that the store deletes is gone, even if others before it were not deleted; nothing else is. |
| `Ledger.StoredCredentials` | src/cli/server.rs:451-468 | Exactly the login and privilege credentials of all accounts of a server, the latter under their target users. |
| `Ledger.SaveSameReferences` | src/cli/server.rs:283-322 | A change that leaves every reference alone keeps the store exact without touching it. |
| `Ledger.Settled` | src/cli/server.rs:136-175 | Deleting what only the old configuration referred to, after storing what was issued, leaves everything the new one refers to, and if all of it is deleted the accounting is exact. |
| `Ledger.ChangedIsUnreferenced` | src/config.rs:466-493 | Because no two places share a key and new keys are fresh, a reference that was changed at its place is referred to from nowhere, so its deletion is safe. |
| `Ledger.DerivedStaysSound` | src/config.rs:466-493 | A configuration whose references are old ones at their places or freshly issued ones keeps key ownership and the absence of sharing. |
| `Ledger.AccountedKeepsExact` | src/cli/server.rs:136-175 | Exact accounting carries an exact store over to the new configuration. |
| `ServerCommands.AddedServerLoadable` | src/cli/server.rs:121-147 | The configuration that add saves passes the loading check again. |
| `ServerCommands.RemovedServerLoadable` | src/cli/server.rs:398-404 | The configuration that remove saves passes the loading check again; its default is a server that is left. |
| `ServerCommands.DefaultServerLoadable` | src/cli/server.rs:283-322 | Choosing a registered default keeps the configuration loadable and every reference in place. |
| `AccountCommands.WithAccountLoadable` | src/cli/account.rs:79-90 | Setting an account to old or freshly issued credentials keeps the configuration loadable. |
| `AccountCommands.WithoutAccountLoadable` | src/cli/account.rs:291-299 | Removing an account that is not the default one keeps the configuration loadable. |
| `AccountCommands.DefaultUserLoadable` | src/cli/account.rs:217-251 | Choosing a registered default login keeps the configuration loadable and every reference in place. |
| `PrivilegeCommands.WithPrivilegePlan` | src/cli/privilege.rs:97-113 | Replacing the privilege setting of an account keeps the configuration loadable, and exactly its previous credential becomes stale. |
| `ServerCommands.StaleEntries` | src/cli/server.rs:136-142 | What the previous server stored and the new one does not retain, nothing more and nothing less. |
| `ServerCommands.ServerStale` | src/cli/server.rs:136-142 | That difference, computed on one server, is exactly what the whole new configuration no longer refers to. |
| `AccountCommands.AccountStale` | src/cli/account.rs:299-318 | The changed credentials of one account are exactly what the whole new configuration no longer refers to. |
| `Configuration.ValidateCredentialReferences` | src/config.rs:407-464 | Decides loadability: default server registered, names and endpoints valid, default login registered, privilege settings valid, every key owned by its account, no key referred to twice. |
| `Configuration.ValidateCredentialOwner` | src/config.rs:466-493 | One reference is accepted exactly if its key is owned by its place and was not met before. |
| `Storage.WriteOwnerOnlyAtomic` | src/storage.rs:125-157 | At every step the destination holds its complete old or complete new contents; success and the published error mean new, private and synced, and success that its directory is synced as well; every other error means old, provided that a rename that reports a failure has had no effect; no other existing file is touched; where nothing fails it succeeds exactly if no staging file is in the way. |
| `Storage.WriteTemp` | src/storage.rs:175-188 | The staging file is created exclusively, so one that is already there is left alone. |
| `Storage.SaveConfigIfUnchanged` | src/config.rs:390-405 | Nothing is written if the file is no longer what was loaded; otherwise the publication outcome; where nothing fails it is written exactly if neither the file nor a staging file is in the way. |
| `Processes.NoLostUpdate` | src/cli.rs:379-387 | For any number of processes interleaving lock, load, compute, check, publish and unlock, and stopping anywhere, the file ends up as if the published commands had run one after the other. |
| `Processes.PublicationReplacesItsBase` | src/config.rs:390-405 | Every publication replaces what its command was computed from, unless a writer that ignores the lock fell between that command's own check and its publication; what such a writer left before the check is never overwritten. |
| `Processes.MutualExclusion` | src/storage.rs:70-113 | At every moment of every run the lock is held by exactly the process that is inside. |
| `Processes.StaleCheckBlocks` | src/config.rs:397-403 | A process that finds other contents than it loaded does not publish in that turn. |
| `Processes.SafeAtEveryMoment` | src/cli/server.rs:115-175 | With storing, withdrawing and deleting as steps of their own in the interleaving: at every moment of every run the published file loads and refers to nothing missing, provided that a publication that goes unseen has no secret behind it and that a writer that ignores the lock refers to nothing missing nor about to be deleted. |
| `Processes.ConsistentAtEveryMoment` | src/cli.rs:379-387 | The same for truthful renames and no such writers: any number of processes, whatever fails and wherever they stop. |
| `Processes.UnseenThenWithdrawn` | src/cli/server.rs:149-159 | Wherever a checked command that has stored a secret publishes unseen, the withdrawal that follows leaves a reference to nothing. |
| `Processes.UnseenPublicationDangles` | src/cli/server.rs:115-159 | Every command that is accepted and stores a secret has a run, with nothing going wrong but that one rename, at whose end the new configuration is published and the store is as it was before. |
| `Processes.AlwaysConsistentExactlyWhen` | src/cli/server.rs:115-175 | Where some command that stores a secret can be carried out, every state of every run without such writers is consistent if and only if renames are truthful. |
| `Processes.FirstAddDangles` | src/cli/server.rs:149-159 | The whole run for the first add in an empty home. |
| `CredentialKeys.KeyNamesItsAccount` | src/home.rs:95-161 | A version 3 key is matched by exactly the namespace, purpose, server and user that it was built for, for all strings, provided that its generation is a hex string. |
| `CredentialKeys.KeysAreInjective` | src/home.rs:95-109 | Version 3 keys are equal only if all their parts are. |
| `CredentialKeys.RecognisedKeysAreMade` | src/home.rs:111-161 | A credential is matched exactly if it is a key built for that account with some hex generation. |
| `CredentialKeys.EarlierKeysNameTheirServer` | src/home.rs:163-215 | Keys of both earlier formats are matched for their own server, and one of version 2 for no other unless it happens to be that one's version 1 key. |
| `Base64Url.Decode64Encode64` | src/home.rs:102-104 | Unpadded URL-safe base64 (sections 5 and 3.2 of RFC 4648): decoding undoes encoding. |
| `Base64Url.DecodesOnlyEncodings` | src/home.rs:148-156 | Only encodings are decoded, so each byte string has one accepted spelling. |
| `Redaction.RedactSecretsIdempotent` | src/output.rs:369-485 | Redacting redacted text changes nothing, on every input, as fuzz/fuzz_targets/redact_secrets.rs promises. |
| `Redaction.RedactLineTwice` | src/output.rs:412-427 | A masked line has nothing left to mask: the bearer rule and the ordered keyword scan find the mask or nothing. |
| `Redaction.MaskedLineIsNoMarker` | src/output.rs:400-402 | Masking never turns a line into the beginning of a private key. |
| `Redaction.MaskedScan` | src/output.rs:454-485 | Scanning masked text for a keyword finds the value it found before, or still nothing. |
| `Redaction.PlaceholderUnchanged` | src/output.rs:374-398 | The placeholder for a private key is not itself redacted. |
| `Redaction.RedactPrivateKeyBlocks` | src/output.rs:374-398 | The loop keeps lines outside key blocks and puts one placeholder for each block, as the recursive specification says. |
| `Redaction.SensitiveValueStart` | src/output.rs:454-485 | The search loop returns the first non-blank value assigned to the keyword, over optional quotes and separators. |
| `Redaction.RedactSensitiveLines` | src/output.rs:404-410 | Line by line masking. |
| `Redaction.RedactSecretsInTwoPasses` | src/output.rs:369-372 | The two passes compute the specification that idempotence is proved about. |
| `Redaction.FilterStartupStderrNoise` | src/output.rs:487-498 | Drops exactly the lines that are the known start-up message. |
| `Redaction.NoiseExactlyWhen` | src/output.rs:487-498 | A line is dropped if and only if it is the message followed by line ending characters alone. |
| `KnownSecrets.RedactWithKnownSecrets` | src/cli.rs:1171-1185 | Pattern redaction, then every non-empty known secret, longest first. |
| `KnownSecrets.OrderedSecrets` | src/cli.rs:1173-1180 | Sorting and removing duplicates loses no secret and leaves longer ones first. |
| `KnownSecrets.CutSecretIsMasked` | src/cli.rs:1214-1232 | Text that breaks off within a known secret, even amid a character: nothing of the secret's beginning is left. |
| `KnownSecrets.NoCutIsKept` | src/cli.rs:1214-1232 | Text that does not end like the beginning of a secret is left alone. |
| `Removal.MaskedExactlyWhen` | src/output.rs:412-485 | A line is masked if and only if some keyword occurrence is assigned a value, or a bearer token follows; and the mask starts at one of them. |
| `Removal.EveryValueGoneExactlyWhen` | src/output.rs:412-485 | No assigned value or token is left beside the mask if and only if some value of the line is the leftmost one and of the first rank at once; bearer tokens rank first, then the keywords in list order. |
| `Removal.PickedExactlyWhen` | src/output.rs:412-427 | What the scan picks, by the line's own values: of the first rank that has any, the leftmost. |
| `Removal.ScanFindsLeftmost` | src/output.rs:454-485 | The search for one keyword returns the leftmost of all values that are assigned to it, although it passes over text without looking at it again. |
| `Removal.EarlierValueStays` | src/output.rs:416-424 | A real line on which it is not: a token before a password, whose value is left. |
| `Removal.ValueIsCut` | src/output.rs:412-427 | Everything from the picked value to the end of the line is replaced by the mask. |
| `Assignments.AssignedValueIsGone` | src/output.rs:454-485 | For every keyword in any capital and small letters, every gap (closing quote, white space, `=` or `:`, white space, opening quote) and every value without white space and separators, nothing of the value is left, as fuzz/fuzz_targets/redact_secrets.rs promises for three keywords. |
| `Assignments.AssignedExactlyWhen` | src/output.rs:454-485 | A value is assigned to a keyword if and only if the text between them is such a gap, whatever stands before and after. |
| `Assignments.CaseIsImmaterial` | src/output.rs:412-427 | What is masked of a line does not depend on capital and small letters. |
| `Assignments.BearerTokenIsGone` | src/output.rs:439-447 | Every token after `bearer`, in any letters and anywhere in a line: the rest of the line is gone from it or from an earlier token on. |
| `Assignments.AuthorizationIsGone` | src/output.rs:439-447 | The whole credential of an authorization header is gone. |
| `Assignments.KeyTextIsGone` | src/output.rs:374-402 | A private key of any kind, whatever its lines, leaves one placeholder line, and what follows is redacted on its own. |
| `Removal.KeyBlockIsGone` | src/output.rs:374-398 | A private key block leaves its placeholder and nothing else, wherever it stands. |
| `Overlap.KnownSecretIsGone` | src/cli.rs:1171-1185 | Every known secret that cannot overlap the mask (no shift of one against the other lets them agree wherever they meet) is nowhere in redacted text, whatever the text and whatever else is known. |
| `Overlap.MaskingRemovesExactlyWhen` | src/cli.rs:1173-1184 | For the masking of known secrets alone, applied to any text, this is exact for every secret: it is gone whatever the text and whatever else is known if and only if it cannot overlap the mask. |
| `Overlap.OverhangStays` | src/cli.rs:1181-1183 | The failing family: a text and a second, shorter secret whose mask completes the first one again. |
| `Overlap.KnownSecretIsGoneExactlyWhen` | src/cli.rs:1171-1185 | For redaction as a whole and a secret without angle brackets: it is gone in all cases if and only if it is not a part of the mask. |
| `Overlap.TouchingYetGone` | src/cli.rs:1171-1185 | For redaction as a whole the converse fails for other secrets: a real secret that can overlap the mask and that is in no redacted text, because pattern redaction takes its beginning away. |
| `Streaming.ChunkingIsImmaterial` | src/cli/stream.rs:53-79 | What is written depends on the bytes alone, not on how they are cut into pushes, for complete and for failed streams. |
| `Streaming.StreamingAgreesExactlyWhen` | src/cli/stream.rs:26-79 | For all secrets and both streams, streaming equals redaction of the whole text (src/cli.rs:957-959 for a command that succeeded, with the start-up message filtered from standard error, and src/cli.rs:1203-1209 for one that failed, unfiltered) on all inputs and all chunkings if and only if: with a secret that spans lines, the stream is standard output or the command failed; without one, no secret occurs in the private key placeholder and, if the command failed, the stream is standard output and no secret's beginning is at the placeholder's end. |
| `Streaming.StreamIsKeptText` | src/cli/stream.rs:26-79 | Failed standard error included: without a secret that spans lines, and with the placeholder condition alone, the stream is the redaction of the whole text with the start-up message filtered. |
| `Streaming.BufferedNoiseDiffers` | src/cli.rs:959-959 | With a secret that spans lines, standard error of a successful command that consists of the start-up message is streamed as something and redacted as nothing. |
| `Streaming.FailedNoiseDiffers` | src/cli.rs:1203-1209 | Without one, standard error of a failed command that consists of the start-up message is streamed as nothing and redacted as something. |
| `Streaming.SecretsThatDisagree` | src/cli/stream.rs:17-41 | Real secrets for each way of failing the condition, and for failed standard error none at all. |
| `Streaming.UnsafePlaceholderDiffers` | src/cli/stream.rs:33-41 | Without a secret that spans lines, a single key line shows the difference whenever the condition fails. |
| `Streaming.MultilineIsBuffered` | src/cli/stream.rs:53-77 | With a secret that spans lines all output is held back and redacted as a whole, standard error without its noise filter. |
| `Streaming.PushTwice` | src/cli/stream.rs:53-67 | Pushing two pieces is pushing them joined, in text and in state. |
| `Streaming.MaskCutSplits` | src/cli.rs:1214-1232 | Masking the secret cut off at the end never looks past a line feed. |
| `Streaming.Redactor.constructor` | src/cli/stream.rs:17-25 | A new redactor stands at the start. |
| `Streaming.Redactor.Line` | src/cli/stream.rs:26-52 | One line: nothing inside a key block, a placeholder where one starts, otherwise the redacted line. |
| `Streaming.Redactor.Push` | src/cli/stream.rs:53-67 | The text released and the state left are those of the specification. |
| `Streaming.Redactor.Finish` | src/cli/stream.rs:68-79 | The held rest is redacted, as cut off if the stream failed. |
| `StreamWriter.StreamAll` | src/cli/stream.rs:90-117 | Any interleaving of chunks on two streams: each side gets the streamed text of all that came on its own stream, and that is the redaction of its whole text whenever the condition holds for that side. |
| `StreamWriter.Writer.Push` | src/cli/stream.rs:98-107 | A chunk reaches the redactor and the output of its own stream only. |
| `StreamWriter.Writer.Finish` | src/cli/stream.rs:108-117 | Both sides end with the streamed text of all their bytes. |
| `Utf8.DecodeConcat` | src/cli/stream.rs:61-62 | Decoding with replacement (section 4 of RFC 3629) distributes over pieces that end in a line feed. |
| `Utf8.DecodeEncode` | src/cli/stream.rs:61-62 | Well-formed text is decoded to itself. |
| `Capture.DrainBothStreams` | src/ssh/ssh2_client.rs:1399-1471 | In any order of reads and on every ending, both buffers are their stream's part, in order, of a beginning of what arrived, together within the limit (a limit of the largest length is none), and the callback was given exactly that. Capture is cut short if and only if some round has a passed deadline, a fault, bytes over the limit or a callback that refuses, with exactly what had been stored by then; otherwise it is complete if and only if both streams ended. |
| `Capture.AppendOutputBounded` | src/ssh/ssh2_client.rs:1473-1492 | A chunk is accepted exactly if everything fits; at a limit of the machine's largest length nothing is ever refused. |
| `Capture.Accept` | src/ssh/ssh2_client.rs:1418-1425 | A chunk over the limit is neither stored nor handed on; it is accepted exactly if it fits and the callback accepts it. |
| `Capture.ReadStream` | src/ssh/ssh2_client.rs:1412-1435 | One read stops the run exactly if it is a fault, does not fit or is refused; a stream that has nothing yet does not. |
| `PtyLoop.PtyCollectLoop` | src/ssh/ssh2_client.rs:1176-1261 | Nothing is sent but one exchange, at the first moment at which it is due and of the kind then called for, all of it unless a write fails or a deadline passes, and then exactly up to there; the result is all that was read; and the run ends in the first turn that calls for it, in the way it calls for (`PtyLoop.EndsSo`): the deadline, the end, a fault, the limit, a failed exchange, or a wait for the prompt that is over while the command has not been seen to start. |
| `PtyLoop.OneEnding` | src/ssh/ssh2_client.rs:1196-1258 | The turns leave no choice: at most one ending, after at most one number of turns, meets that description. |
| `PtyLoop.PromptExactlyWhen` | src/ssh/ssh2_client.rs:1276-1281 | The prompt waits if and only if the unfinished line mentions a password, in any letters, and a colon is last on it but for white space. |
| `PtyLoop.PasswordSafety` | src/ssh/ssh2_client.rs:1214-1247 | The password is sent at most once, first, only while the prompt waits and nothing of the command has come; never once the command was seen to start; input is closed at most once and nothing follows. |
| `PtyLoop.FinishedLineIsNoPrompt` | src/ssh/ssh2_client.rs:1276-1281 | A finished line is no prompt, whatever it says. |
| `SuFraming.SuRoundTrip` | src/ssh/ssh2_client.rs:1297-1371 | Noise, the terminal's image of the framed output and anything after it: the parser returns the exit code and the output, its own carriage returns as line feeds, for every output without the nonce. |
| `SuFraming.SuRoundTripExactly` | src/ssh/ssh2_client.rs:1369-1370 | The output comes back unchanged if and only if it has no carriage return. |
| `SuFraming.CarriageReturnIsLost` | src/ssh/ssh2_client.rs:1369-1370 | A real output that does not. |
| `SuFraming.TruncatedIsError` | src/ssh/ssh2_client.rs:1329-1371 | A framed stream cut short anywhere is an error, never a shorter output or another exit code. |
| `SuFraming.NotStartedExactly` | src/ssh/ssh2_client.rs:1332-1337 | Authentication is reported as failed exactly if the first marker is absent. |
| `SuFraming.MarkersApart` | src/ssh/ssh2_client.rs:1297-1305 | Two occurrences of a marker overlap in at most its tail. |
| `SuFraming.FirstMarker` | src/ssh/ssh2_client.rs:1332-1352 | The first occurrence of a marker is the printed one if the text before it does not have the nonce, however that text ends. |
| `SuFraming.ImageUndone` | src/ssh/ssh2_client.rs:1369-1369 | The terminal's line ends are undone, whatever carriage returns the output has. |
| `Shell.QuotedIsOneWord` | src/cli.rs:1167-1169 | The tokenizer undoes quoting: one word for any non-empty value, nothing for the empty one. |
| `Shell.QuotedIsLiteral` | src/cli.rs:1167-1169 | By sections 2.2.2 and 2.2.3 of the POSIX shell language a quoted value stands for itself, whatever is in it. |
| `Shell.ShellishWordsAndSeparators` | src/safety.rs:157-191 | The character loop computes the state machine that the results are proved about. |
| `Shell.TokenizeAround` | src/safety.rs:157-185 | A separator or white space after closed quotes cuts a command in two. |
| `Shell.SudoNWords` | src/cli.rs:855-860 | In the password-less sudo command, user and command come back as one word each, at fixed places, for all values. |
| `Shell.SudoWords` | src/cli.rs:1122-1122 | The whole sudo script is one word of the command that is sent. |
| `Shell.SudoScriptWords` | src/cli.rs:1112-1121 | In the sudo script, the user (twice) and the command are one word each at places that depend on neither. |
| `Shell.SuWords` | src/cli.rs:1134-1141 | In the su command, the user and the framed script are one word each at fixed places. |
| `Shell.SuInnerWords` | src/cli.rs:1135-1140 | In the framed script, the command is one word between the two markers' printing. |
| `Safety.SequencingKeepsBlocksExactly` | src/safety.rs:9-54 | After a given first command sequencing keeps every block if and only if that command closes its quotes or is blocked for something an open quotation has no part in. |
| `Safety.SequencingKeepsBlocks` | src/safety.rs:9-54 | With closed quotes in the first command, a command blocked on its own is blocked in the sequence, for every separator. |
| `Safety.OpenSwallows` | src/safety.rs:157-185 | The failing family: after any other command with an open quotation a following sudo is not seen. |
| `Safety.QuoteHidesSudo` | src/safety.rs:157-185 | A real pair of commands of that family. |
| `Safety.StableSequence` | src/safety.rs:93-112 | What is found without regard to quotes, or in finished words, stays found whatever follows. |
| `Safety.BlockingGrows` | src/safety.rs:209-271 | No detector loses a finding when tokens are added before or after. |
| `Safety.TokensOfSequence` | src/safety.rs:93-112 | The quote-blind tokens of a sequence are those of its parts. |
| `Safety.ClassifyCommand` | src/safety.rs:9-54 | Blocks exactly the commands with a reason, unless confirmed, and names the first that holds in the order of the checks. |
| `Safety.HasRmRecursiveForce` | src/safety.rs:209-225 | The nested loops find an rm followed, anywhere later, by both kinds of flag. |
| `Safety.CommandPositionWords` | src/safety.rs:131-149 | The loop collects the words at command position, over assignments and prefix words. |
| `Safety.ShellishTokens` | src/safety.rs:93-112 | The loop computes the quote-blind tokens. |
| `Detectors.RmExactly` | src/safety.rs:209-238 | A plain `rm`, in any letters and under any directory, with any flag words is blocked if and only if an r and an f are among their letters, in one word or in several. |
| `Detectors.RecursiveChangeExactly` | src/safety.rs:226-238 | `chmod` and `chown` if and only if an r is among the letters. |
| `Detectors.Pm2Exactly` | src/safety.rs:240-244 | `pm2` with one argument if and only if that is delete. |
| `Detectors.WriterExactly` | src/safety.rs:246-250 | `tee`, `cp`, `mv` and `install` with a path if and only if it is /etc or leads into it. |
| `Detectors.DdExactly` | src/safety.rs:252-262 | `dd` if and only if its output path is. |
| `Detectors.RedirectExactly` | src/safety.rs:73-112 | A redirection written without blanks, simple or appending, to an absolute path if and only if that is. |
| `Detectors.SudoIsFound` | src/safety.rs:114-149 | `sudo` under any directory is blocked behind any assignments and prefix programs. |
| `Detectors.OneWordExactly` | src/safety.rs:114-149 | A word alone if and only if it calls sudo. |
| `Detectors.ShortFlagExactly` | src/safety.rs:236-238 | A short flag is found wherever it stands among others behind one dash. |
| `Detectors.ProgramBlocks` | src/safety.rs:9-54 | The same for each of the programs in general, by its arguments. |
| `PathPolicy.AcceptedStaysInside` | src/policy.rs:452-505 | An accepted path, with `.`, empty and `..` segments resolved, is under the reported rule resolved alike: with backslashes folded, and for rules that are not Windows paths also literally. |
| `PathPolicy.TraversalGrantsNothing` | src/policy.rs:455-457 | A rule with a `..` segment grants nothing. |
| `PathPolicy.PlainlyExact` | src/policy.rs:452-505 | On plainly written absolute paths a path is accepted exactly if it is under one of the rules. |
| `PathPolicy.WindowsExactly` | src/policy.rs:458-501 | A rule on a Windows drive grants exactly what is under it on that drive, however the separators of both are written. |
| `PathPolicy.ShareExactly` | src/policy.rs:458-501 | The same for a rule on a network share. |
| `PathPolicy.PaddedRule` | src/policy.rs:458-475 | White space around a rule and slashes at its end make no difference. |
| `PathPolicy.GrantedIsContained` | src/policy.rs:458-501 | The same for one rule: string prefix at a separator means containment of places. |
| `AtomicUpload.Upload` | src/ssh/atomic_upload.rs:47-198 | With replies that may be lost, the destination is always the old file or the complete new one with its mode; success means new; an error before the rename means old; a file already under the staging name survives; what is reported about the staging file is so; one that is known to be its own is gone again after every failure, if the server unlinks files at all; where nothing fails the outcome is determined by whether the name is free and the source long enough. |
| `AtomicUpload.StageAndRename` | src/ssh/atomic_upload.rs:63-163 | Until the rename is started nothing but a staging file that was not there is changed. |
| `AtomicUpload.Stage` | src/ssh/atomic_upload.rs:63-159 | Creation is reported as confirmed only for a file that was not there, and success means a complete staging file, even if acknowledged bytes were lost: the size check finds that out. |
| `AtomicUpload.SendSource` | src/ssh/atomic_upload.rs:105-138 | The nested loops send exactly the source, in parts of any size; what has arrived is all of it if it is as long. |
| `AtomicUpload.StagedBeside` | src/ssh/atomic_upload.rs:24-39 | The staging name leads to the directory of the destination. |
| `AtomicUpload.StagedApart` | src/ssh/atomic_upload.rs:66-83 | The staging name is another path than the destination. |
| `AtomicUpload.ParentShape` | src/ssh/atomic_upload.rs:24-39 | An accepted destination is its parent and a proper file name. |
| `AtomicUpload.DestinationIsAccepted` | src/ssh/atomic_upload.rs:24-39 | Every proper file name is accepted, with its directory as the parent. |

## Left out

- TCP, handshake, libssh2, known hosts, SCP, agents, connection retries and all timing: libraries and clocks. A deadline is an outcome that may occur at each place where the code asks for it.
- The real keyring, environment variables and prompts: the credential store is a map from (credential, user) to a secret, and answers are inputs. A store that only lasts for the session is not part of the model, and the purpose that is passed along with a store access is ignored.
- Durability after a power failure: a crash ends the process, and what was written stays written. That a file was synced is recorded, but nothing is concluded from it.
- JSON: a configuration file is absent, cut short, or holds a configuration; comparing revisions compares these values, not bytes. Migration of old files, messages, recovery hints, exit codes, the audit log and `doctor` are not part of the model.
- Freshness: that a drawn key generation is hex and not in use is required of the way it is drawn (`Sessions.FreshDrawsExist` shows that there is one); how the code mixes time, process and counter into it is not modelled. Nonces, time stamps and random names are inputs, required to be hex or to differ where the code relies on it.
- The command order of effects is that of the code, but `add`, `account` and `privilege` share one method for the steps that they have in common (publish, withdraw, delete stale entries), which the code writes out in each.
- Interleaving of the commands' methods: `Sessions.Run` takes the commands one at a time; the interleaved runs of `Processes` have the same loads, aims, secrets and stale entries as steps, and are related to the methods by these shared definitions. A writer that ignores the lock and replaces the file between a command's check and its publication is overwritten, as in the code.
- Renames that lie: in a home that is not truthful, `Sessions.Run` promises safety only for runs that store no secret; that more cannot be promised is `Ledger.UnsavedIsSafeExactlyWhen`.
- Bytes and characters: text is a sequence of characters, and an index counts characters where the code counts bytes. Lossy decoding is modelled on bytes.
- Redaction beyond the secrets: clap output, error chains and JSON rendering only call the functions modelled here.
- Overlap.KnownSecretIsGone: goes one way for secrets with an angle bracket, because the converse fails for redaction as a whole (`Overlap.TouchingYetGone`); which of them pattern redaction takes away on its own is not characterised. For the masking step the condition is exact.
- Idempotence of redaction with known secrets is not modelled.
- Detectors.RedirectExactly: the detectors are characterised exactly on plainly written commands (no quotes, no separators, one program); what they find in others follows from the tokens (`Safety.TokensOfSequence`, `Safety.BlockingGrows`). `Detectors.SudoIsFound` goes one way, since arguments behind a command that is not sudo can be reasons themselves.
- Symbolic links, and other clients that write to the staging file: a remote file is known by its path, and only the uploading process touches it.
- What the remote shell and terminal do: the framing results start from the text that the wrapper prints and from the terminal's translation of line feeds.
- Processes.NoLostUpdate: the timeout of the lock is a process that never enters.
- Commands other than those named (profiles, policy editing, listing, trusting, transfers by SCP, downloads) and the command allowlist: plain map rebuilding, or the same check-then-write pattern.
