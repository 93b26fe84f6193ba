# A verified model of parts of the GitHub CLI

This project models the parts of the GitHub CLI (`gh`) whose correctness depends on state, order or exact text, and
proves what they promise. `dafny verify dfyconfig.toml` checks all of it with Dafny 4.11.

**Credentials** (`internal/config`, `internal/authflow`, `internal/flock`). Several `gh` processes and goroutines share
a keyring and a configuration file; refresh tokens are single-use and rotate (section 6 of RFC 6749).
`CredentialStore` breaks every operation into the steps at which a keyring, file or server call can succeed or fail.
`StoreInvariants` proves what sequential runs keep; `OperationResults`, `AccountResults` and `RefreshResults` what each
operation's report means and what it leaves, whatever fails; `UndisturbedRuns` what it comes to if nothing does.
`RefreshProtocol` runs the same steps in any number of threads of any number of processes, with the mutex, the file
lock and the token server. A request, what the server makes of it and the arrival of its answer are separate events,
between which time passes and anything else can happen; requests and answers can be lost, and a request that its client
has given up can still be served. `Serialisation` and `TokenSafety` prove what holds over every interleaving.
`AuthConfig` is the imperative object, proved to follow the steps exactly. A lemma exhibits the run that goes wrong
without the file lock.

**Attachments** (`internal/attachments`). `MarkdownScan` holds the hand-written scanners, `MarkdownEdits` the sorting,
filtering and back-to-front application of edits, `AttachPlan`, `AttachRewrite`, `AttachPlaces`, `AttachDegrade` and
`Attach` the planning for one document and where its URLs end up, and `AttachDocuments` the uploads: a file that was
uploaded is never lost, whatever fails.

**State machines and printers.** `JsonColor` (the streaming colouriser), `MultiSelect` (the search multi-select field),
`Telemetry` (the telemetry service), `RootedPaths` and `RootedDirectories` (the rooted file system), `FormatSlice`,
`SafeUrl`, and `SearchReader`, `SearchQuery`, `SearchFormat`, `SearchMeaning`, `SearchKeywords` and `KeywordWords` (the search-query
formatter, with readers for its output). `Strings`, `Sorting` and `Wrappers` are shared.

Code that updates state is modelled by classes and loops that are proved against a specification function; the
properties are then proved of that function, for all inputs, runs or interleavings. Calls to the outside (keyring, file
system, server, decoder, clock) have arbitrary results.

## Where the code and its documentation differ

The model follows the code.

- The documentation of `FormatSlice` says that elements can be surrounded by custom strings; a single element is not.
- A limit of `FormatSlice` above the largest signed number becomes negative, and then every value is on its own line.
  `FitOnOneLine` shows it for all such limits.
- The documentation of the URL joining promises a single slash without doubling up; a first component that is empty, or
  a prefix that ends in two slashes, still gives two. `OneSlashBetween` has the exact condition, `DoubledSlashes` the
  inputs.
- A switch of users restores the previous active credential only if the previous user has a credential under their own
  name. `SwitchRollsBack` has the exact condition, `SwitchLosesUnkeyedToken` a run.
- A logout assumes that the name is one of the host's users. On a host with one user, another name removes the host and
  leaves that user's credential in the keyring. `LogoutOrphans` has the exact condition, `LogoutOrphansToken` a run.
- A refresh treats a credential without a recorded expiry as due; the comment at internal/authflow/refresh.go:84-85
  calls it non-expiring.
- White space at the end of the URL of an uploaded file can get lost when another paragraph is appended; only an empty
  URL is refused. `LastingIff` has the exact condition: nothing is lost of a URL that ends in no white space, or in one
  or two line breaks, and any other can be cut short.
- The colouriser takes a bare scalar for a key if the preface ends inside an object. No caller uses such a preface.
- The search formatter does not quote brackets. `TextMeaning` has the exact condition under which its output can be
  read, by a reader that takes brackets for markup only where a word starts or ends: an unquoted bracket in the middle
  of a value, as in `a)b`, does not mislead that reader. `MisreadUsers` has an input that does.
- The brackets around the keywords of an advanced search are to keep their operators from leaking. Keywords that close
  the bracket themselves still leak. `KeywordsStayInside` has the exact condition, for a reader to whom every bracket
  outside of quotations is markup; `BracketClosedEarly` has an input.
- Of a keyword with a colon only what follows the colon is quoted. A space or a quote before it can tear the keyword
  apart, or take in the next. `KeywordsReadBack` has the exact condition, `SwallowedKeyword` an input.

## Model

| member | source | states |
|---|---|---|
| `Serialisation.InterleavingsAreSequential` | internal/config/refreshable.go:79-112 | In every interleaving of lock-holding logins, refreshable logins, logouts and refreshes, the shared keyring and config file are what running the same operations one after the other, in lock order, would leave; once nobody is inside, every one of them has run to its end. |
| `Serialisation.RefreshAfterLogout` | internal/config/config.go:592-631 | In every interleaving, a refresh ordered after a logout whose deletions succeeded (and before the next refreshable login) never reaches the token endpoint and changes neither keyring nor file. |
| `Serialisation.LoginNeverDisplaced` | internal/config/refreshable.go:391-396 | In every interleaving, refreshes ordered after a login that succeeded and left no usable refreshable record of its user, however they end and whatever credential they began with, leave that login's token the active credential. |
| `Serialisation.LoginDisplacedIff` | internal/config/refreshable.go:182-191 | The condition is exact: beside a token of the active user, no refresh whatever displaces it if and only if there is no usable record of that user; otherwise a refresh whose token is rejected and whose first deletion fails does. |
| `Serialisation.RefreshableLoginSucceeded` | internal/config/refreshable.go:129-171 | In every interleaving, after a refreshable login that succeeded and could verify its removal of the other form, refreshes leave as the active credential that login's, or one that such a refresh was granted in its place, until one of them is refused and nothing is left; none brings back an older credential. |
| `Serialisation.SlotsOverInterleavings` | internal/config/config.go:652-685 | The slot invariant and the one-form-per-user invariant hold between critical sections of every interleaving whose keyring and file operations succeed. |
| `Serialisation.Serialisable` | internal/config/refreshable.go:79-112 | The simulation behind the above: at every moment of an interleaving the store is a sequential run, plus the partial run of whoever is inside. |
| `RefreshProtocol.ExclusionNext` | internal/config/refreshable.go:79-112 | Every event of the system keeps mutual exclusion, if everybody holds the file lock or there is one process; the mutex and the lock are owned by exactly the threads that hold them. |
| `RefreshProtocol.EntersAlone` | internal/config/refreshable.go:88-105 | Nobody is inside when a thread enters. |
| `TokenSafety.NeverSentAfterExchange` | internal/config/refreshable.go:381-470 | The server acts on a request at some later time, and its answer takes time too. If it serves no request that was given up, no reply is lost and what is received is stored, then in every interleaving no refresh token whose request the server has still to decide on was exchanged before, and between critical sections every stored refresh token is live at the server unless the server itself revoked it. |
| `TokenSafety.AcceptedNeverRemoved` | internal/config/refreshable.go:430-470 | Whatever is lost and whatever fails, and in every interleaving: if a step of a refresh makes the record of some user disappear, or hold another refresh token, then that user is the one who is refreshed and the server does not accept the refresh token that was there; disappearing also needs the file lock. |
| `TokenSafety.UnnecessaryMeansValid` | internal/config/refreshable.go:335-345 | In every interleaving, locks held or not, at the step at which a refresh ends with the status Unnecessary, the token it returns is valid at the server for more than ten further minutes. |
| `TokenSafety.FreshMeansValid` | internal/config/refreshable.go:335-345 | The same of any stored credential that passes the freshness test, as it is made before the locks are taken. |
| `TokenSafety.ExpiredMeansRefused` | internal/config/refreshable.go:413-450 | In every interleaving, locks held or not, a refresh goes on to report Expired only after the server has refused its refresh token, and the server does not accept that token any more when the refusal arrives. |
| `TokenSafety.HonestExpiries` | internal/authflow/refresh.go:86-100 | No recorded expiry is ever later than the true one, whatever the interleaving: the clock is read before the request, the server issues the token later, and the client receives it later still, with time passing in between. The same for tokens that a login was granted. |
| `TokenSafety.RecordedExpiry` | internal/authflow/refresh.go:74-105 | The recorded expiry of a token is earlier than the true one by exactly the time for which its request was on its way, when it is granted for a login and when a refresh is served; without a reported lifetime none is recorded. |
| `TokenSafety.SingleUseKept` | internal/config/refreshable.go:381-470 | No two places hold the same refresh token and none holds a spent one, where a renewal counts as stored as soon as the server has served it. |
| `TokenSafety.CurrentKept` | internal/config/refreshable.go:391-425 | A refresher inside always works on the record that is in the keyring, and every refresh token that is stored, granted, on its way or in use is one that the server issued. |
| `TokenSafety.UnlockedProcessesReuseTokens` | internal/config/refreshable.go:71-75 | A concrete run of two processes without the file lock, in which nothing is lost and nothing fails, in which the server still has to decide on a refresh token that it has already exchanged. |
| `StoreInvariants.SlotsOverRuns` | internal/config/config.go:652-685 | Over any sequence of logins, switches, logouts and refreshes whose keyring and file operations succeed, the host-level slot holds the active user's own token or nothing, no user has both credential forms, and the active credential is the active user's own. |
| `UndisturbedRuns.UndisturbedRun` | internal/config/config.go:491-685 | A login, refreshable login, logout or switch in which nothing fails reports and leaves exactly what a single step would: when it succeeds, what the slot, the per-user credentials and the file then hold, and what a switch that finds no credential has restored. |
| `StoreInvariants.SlotExec` | internal/config/config.go:558-685 | The invariant of a single operation, step by step, from a consistent store. |
| `OperationResults.LoginActivates` | internal/config/config.go:491-556 | A login that reports success, whatever failed on the way, leaves its token the active credential and its user active and listed. |
| `OperationResults.LoginRefreshableActivates` | internal/config/refreshable.go:129-171 | A refreshable login that reports success and could verify the removal of the other form leaves its credential active. |
| `AccountResults.LoginKeepsAccounts` | internal/config/config.go:505-556 | A successful login of either kind leaves in the file every account that was listed, in its order, and the new one behind them; the protocol changes only if one was given; of the plaintext tokens only the user's own and the host's are gone; the user is active. |
| `OperationResults.LoginLeavesNoRecord` | internal/config/refreshable.go:182-191 | A successful login leaves no usable refreshable record of the user, provided the verifying read was answered. |
| `OperationResults.LogoutForgets` | internal/config/config.go:592-631 | A logout whose deletions succeeded leaves no credential of the user; if it succeeds, the user is no longer listed or active. |
| `AccountResults.LogoutPicksSuccessor` | internal/config/config.go:592-631 | A successful logout leaves the other accounts as they were, in their order, with their plaintext tokens and the protocol, and if the user was active the first that remains has become active; on a host of at most one user nothing is left. |
| `OperationResults.LogoutOrphans` | internal/config/config.go:592-631 | A successful logout leaves a listed user's credential in the keyring with that user gone from the configuration if and only if that user was the only one and another name was logged out. |
| `OperationResults.LogoutOrphansToken` | internal/config/config.go:592-614 | Such a run, in which nothing fails: mona is logged in alone, hubot logs out, and only mona's token is left. |
| `OperationResults.SwitchActivates` | internal/config/config.go:558-588 | A successful switch makes the requested user active on disk and changes nothing but the slot and that choice. |
| `OperationResults.SwitchRollsBack` | internal/config/config.go:576-585 | However the attempt failed, if the restoring operations succeed the file, the active user and all per-user credentials are as before; the active credential is the same as before if and only if the previous user has a credential under their own name. |
| `OperationResults.SwitchLosesUnkeyedToken` | internal/config/config.go:576-585 | The other side occurs: a switch in which no call fails, to a user without a credential, from one whose token is in the unkeyed slot only, ends without an active credential. |
| `OperationResults.SwitchFailsCleanly` | internal/config/config.go:558-575 | A switch that fails before anything was restored has changed nothing. |
| `OperationResults.RefreshTruthful` | internal/config/refreshable.go:381-470 | Each status is reported exactly when it is true: Unnecessary if and only if the record that was read could be used and was to expire more than ten minutes after that moment; Expired if and only if the endpoint was asked and rejected the token; Done if and only if it granted a usable credential, counted from the instant before it was asked, and both writes succeeded. Unnecessary returns the stored record and Done what was stored; Expired returns an empty credential and removes at most that user's credentials, from the keyring and from the configuration file, and nothing without the lock; Failed changes nothing unless the last config write failed. |
| `RefreshResults.RenewalRecorded` | internal/authflow/refresh.go:74-105 | After Done the keyring holds the credential of the grant: both tokens, neither of them empty, both lifetimes as reported, and for each positive lifetime the expiry that long after the request, none otherwise. |
| `RefreshResults.RenewalLasts` | internal/config/refreshable.go:381-402 | A second refresh leaves the renewed credential alone exactly as long as more than ten minutes are left of the lifetime that was granted, counted from the request; a credential without a reported lifetime is renewed at once. |
| `RefreshResults.UnnecessaryIff` | internal/config/refreshable.go:381-402 | A refresh that can read is unnecessary, and changes nothing, if and only if the stored record has both tokens and is to expire in more than ten minutes. |
| `RefreshResults.ExpiredRemoves` | internal/config/refreshable.go:430-498 | After Expired, if the writes succeed, every credential of the user is gone from keyring and file if the lock was held, and nothing is otherwise. |
| `OperationResults.FailedAfterStoring` | internal/config/refreshable.go:489-498 | The exception: after Failed with a changed store, the renewed record is in the keyring and the config write is what failed. |
| `OperationResults.RefreshWithoutRecord` | internal/config/refreshable.go:391-410 | A refresh that finds no usable record under the lock fails without contacting the server or storing anything. |
| `OperationResults.RecordsComeFromLogins` | internal/config/refreshable.go:139-171 | Only a refreshable login of the user can make a usable record of the user appear. |
| `OperationResults.OthersUntouched` | internal/config/config.go:491-685 | No operation on one user changes the token or the record of another. |
| `AuthConfiguration.AuthConfig.Enter` | internal/config/refreshable.go:79-122 | Takes the locks, going on without the file lock, and reloads; the state from which the body starts. |
| `AuthConfiguration.AuthConfig.Login` | internal/config/config.go:491-556 | Follows the login steps exactly; on success the token is the active one, and the file is the old one with the user active and listed and nothing lost of the other accounts. |
| `AuthConfiguration.AuthConfig.PurgeRefreshableForLogin` | internal/config/refreshable.go:182-191 | Deletes the record and reports whether a usable one survives. |
| `AuthConfiguration.AuthConfig.LoginRefreshable` | internal/config/refreshable.go:129-171 | Follows the steps of the refreshable login exactly; on success the file is the old one with the user active and listed and nothing lost of the other accounts, and if the removal could be verified the credential is the active one. |
| `AuthConfiguration.AuthConfig.PurgeNonExpiringForRefreshableLogin` | internal/config/refreshable.go:202-214 | Deletes both non-expiring forms and reports whether the keyring token survives. |
| `AuthConfiguration.AuthConfig.CompleteLogin` | internal/config/config.go:537-556 | Sets the protocol if one is given, lists the user behind those who were listed unless it was one of them, and activates it; on success that is what the file holds. |
| `AuthConfiguration.AuthConfig.ActivateUser` | internal/config/config.go:633-646 | Moves the credential to the slot, then writes the active user. |
| `AuthConfiguration.AuthConfig.SetActiveCredential` | internal/config/config.go:652-685 | Empties the slot and fills it from the user's token, or leaves it empty for a valid record, following the steps exactly. |
| `AuthConfiguration.AuthConfig.Logout` | internal/config/config.go:592-631 | Follows the logout steps exactly; if the deletions took effect nothing of the user is left in the keyring, and on success nothing in the file, where the other accounts stay and the first of them is active if the user was. |
| `AuthConfiguration.AuthConfig.RefreshCredentialForUser` | internal/config/refreshable.go:381-470 | Returns at once, touching nothing, if and only if the given credential passes the freshness test at the clock reading; otherwise follows the refresh steps exactly, and its status says exactly what it met and its credential what is stored, which after Done has the tokens, the lifetimes and the expiries of the grant. |
| `AuthConfiguration.AuthConfig.RefreshBody` | internal/config/refreshable.go:391-470 | The part under the lock: read, test, exchange, store or remove. |
| `AuthConfiguration.AuthConfig.RemoveCredentialForUser` | internal/config/refreshable.go:478-484 | Removes both forms and writes, ignoring failures. |
| `AuthConfiguration.AuthConfig.PersistRefreshedCredential` | internal/config/refreshable.go:489-498 | Stores the renewed record, then writes; reports failure of either. |
| `AuthConfiguration.AuthConfig.ResolveUser` | internal/config/config.go:705-719 | Finds the credential of a user: token first, then a valid record. |
| `AuthConfiguration.AuthConfig.ActiveCredential` | internal/config/config.go:307-338 | Finds the active credential: the active user's own, else the slot, which is tried even if no user is configured; nothing if a read fails or the user's record cannot be used. |
| `AuthConfiguration.AuthConfig.SwitchUser` | internal/config/config.go:558-588 | Follows the switch steps exactly, rollback included; on failure the file and the active user are as before, and records and per-user tokens never change. |
| `MarkdownScan.VisitsTheUnescaped` | internal/attachments/references.go:733-739 | From an unescaped start, skipping the byte after each backslash going forwards stops at exactly the bytes that counting backslashes backwards calls unescaped. |
| `MarkdownScan.IsEscaped` | internal/attachments/references.go:733-739 | True exactly for an odd number of backslashes before the byte. |
| `MarkdownScan.SkipSpace` | internal/attachments/references.go:741-752 | Stops at the first byte that is not white space. |
| `MarkdownScan.ScanTitle` | internal/attachments/references.go:641-662 | Stops just past the first unescaped closer; fails only if there is none. |
| `MarkdownScan.ScanAngleDest` | internal/attachments/references.go:666-678 | Stops just past the first unescaped closing angle bracket, with no unescaped line break before it; fails only if the line ends first. |
| `MarkdownScan.ScanBareDest` | internal/attachments/references.go:614-635 | From an unescaped start, stops at the first unescaped white space or at the parenthesis that closes the link, and the nesting depth never becomes negative. |
| `MarkdownScan.ClosingBracket` | internal/attachments/references.go:552-568 | Finds the first bracket that balances the opening one, counting neither escaped brackets nor those in literal text. |
| `MarkdownScan.InlineDestination` | internal/attachments/references.go:601-609 | After a byte that is not a backslash: white space, then the angle-bracketed destination if it closes on its line, else the bare one. |
| `MarkdownScan.InlineRanges` | internal/attachments/references.go:517-548 | Finds the ranges of a link or image if and only if there are any; they are nested strictly as node < label <= label end < destination <= destination end < node end, between the right bytes. |
| `MarkdownScan.InlineUnique` | internal/attachments/references.go:517-548 | A link that starts at a given byte has one reading only. |
| `MarkdownScan.UnescapePunctuation` | internal/attachments/references.go:464-479 | Drops exactly the backslashes before ASCII punctuation. |
| `MarkdownScan.AltRoundTrip` | internal/attachments/userasset.go:198-200 | Every alt text, printed and unescaped, is itself with line breaks turned to spaces. |
| `MarkdownScan.AltBracketsEscaped` | internal/attachments/userasset.go:190-200 | Every bracket in a printed alt text is escaped. |
| `MarkdownScan.AltStaysInside` | internal/attachments/references.go:552-568 | The label opened before any printed alt text closes at the bracket after it and nowhere earlier. |
| `MarkdownScan.ImageReadsBack` | internal/attachments/userasset.go:88-90 | A printed image, whatever its alt text and wherever it stands in a text, is located by the package's own scanner as an image of exactly its bytes, whose label unescapes to the alt text and whose destination is the URL, for URLs without spaces, parentheses and backslashes and with no code span. |
| `MarkdownEdits.ApplyEdits` | internal/attachments/references.go:768-797 | Applying the kept edits back to front equals replacing all their ranges at once, and the reported arguments are exactly the owners of kept edits. |
| `MarkdownEdits.KeptIff` | internal/attachments/references.go:776-790 | An edit is kept if and only if it is in range and overlaps no kept earlier one. |
| `MarkdownEdits.SurvivorsDisjoint` | internal/attachments/references.go:776-790 | The kept edits are in order and disjoint. |
| `MarkdownEdits.BytesSurvive` | internal/attachments/references.go:791-797 | Every byte outside the kept ranges is in the result, moved by the edits before it and by nothing else. |
| `MarkdownEdits.TextsAppear` | internal/attachments/references.go:791-797 | Every kept replacement is in the result, at its own place moved by the edits before it. |
| `MarkdownEdits.SubstituteLength` | internal/attachments/references.go:791-797 | The length changes by exactly what the replacements add and remove. |
| `MarkdownEdits.SortSorts` | internal/attachments/references.go:769-775 | Sorting yields the same edits in the order that the code asks for. |
| `MarkdownEdits.SortStable` | internal/attachments/references.go:769-775 | Edits with the same range keep their order. |
| `AttachPlan.CheckStandsAlone` | internal/attachments/references.go:808-829 | True exactly if the reference is the whole content of a paragraph, but for white space. |
| `AttachRewrite.KeptTogether` | internal/attachments/references.go:97-180 | The edits of an inline reference are kept or dropped together: dropped exactly if the reference lies in the alt text of a player that is replaced as a whole. |
| `AttachPlaces.UrlInPlace` | internal/attachments/references.go:119-174 | Every inline reference to an uploaded file, unless it lies in the alt text of a player that is replaced as a whole, has the URL at the place of its own destination in the result, between the same two bytes as before; a player that stands alone has it in place of the whole reference. |
| `AttachPlaces.DefinitionInPlace` | internal/attachments/references.go:108-128 | Every link definition of an uploaded file whose destination could be located has the URL at that place in the result, also if several references share it. |
| `AttachPlaces.WrittenInPlace` | internal/attachments/references.go:176-196 | A file reported as written has its URL in the result at the place of the destination of a reference that names it. |
| `AttachDegrade.DegradedStaysLink` | internal/attachments/references.go:143-174 | Where the embed of a video degrades to a link, the bracket left behind has no exclamation mark that counts as markup before it in the result, whatever stood there, so that no embed is formed again; for definitions and players in other blocks that are on other lines. |
| `AttachDegrade.DegradedCaption` | internal/attachments/references.go:155-175 | An embed without alt text that becomes a link gets the alt text of the file: between its two brackets then stands a text that unescapes to it, is empty only if it is, and has no bracket that counts. |
| `Attach.PlanReference` | internal/attachments/references.go:110-174 | The edits of one reference: the whole reference for a player that is the whole content of a paragraph, a degraded link for a player elsewhere, else the destination. |
| `Attach.AttachAssetsToMarkdown` | internal/attachments/references.go:97-196 | The text is the planned edits substituted; every uploaded file is either counted as replaced, with its URL in the text, or handed on for appending. |
| `Attach.AppendUnreferenced` | internal/attachments/attach.go:243-270 | Appends a paragraph for each file: afterwards each is displayed by one of its own between blank lines, an image that reads back with its alt text and its URL, or the bare URL of a video; but for white space at the ends of URLs the result is the text and these paragraphs, in the order of the files. |
| `Attach.AppendedDisplays` | internal/attachments/attach.go:243-270 | Every appended file is displayed in the final text, however many follow it. |
| `Attach.AppendedText` | internal/attachments/attach.go:261-270 | The final text is the original one and one paragraph for each appended file, in their order, with a blank line before each. |
| `Attach.AppendedKeeps` | internal/attachments/attach.go:261-270 | Appending never removes a URL that the text already contains, if the white space at its end, if it has any, is no more than one or two line breaks. |
| `Attach.AppendedMentions` | internal/attachments/attach.go:243-270 | Every appended file's URL is in the result: whole if it lasts (no white space at its end but one or two line breaks), else but for the white space at its end. |
| `Attach.LastingIff` | internal/attachments/attach.go:261-270 | The condition is exact: appended for a video before that of another video, a URL is still there afterwards if and only if it lasts. |
| `AttachDocuments.UploadAndAttachDocuments` | internal/attachments/attach.go:117-144 | No upload is orphaned: unless the documents are refused, every file that uploaded is listed by some document; each document's text is its own with its references repointed and the rest appended, and every file that it lists stands at a destination that names it or is displayed by a paragraph of its own, with its URL whole if it lasts, else but for the white space at its end; as many files are counted as appended as are, and appended plus replaced equals listed; a document has failed exactly if one of its own files did not upload. |
| `AttachDocuments.UploadReached` | internal/attachments/attach.go:213-257 | An uploaded file is at a destination that names it, or displayed by a paragraph of its own. |
| `AttachDocuments.NothingOrphaned` | internal/attachments/attach.go:117-144 | The same as a fact about any results with that relation to the uploads. |
| `AttachDocuments.RefusalIff` | internal/attachments/attach.go:161-197 | Nothing is refused exactly when every document can be scanned and fixed and every file has a document to go to. |
| `AttachDocuments.NewAttachableDocuments` | internal/attachments/attach.go:161-197 | Refuses for the first reason there is; else each document owns its own copy of the arguments and exactly its attachments. |
| `AttachDocuments.AttachableDocument.AttachUrls` | internal/attachments/attach.go:213-237 | Fills in the URLs of the document's own attachments only; its text becomes the one with the references repointed and the other files appended, and every attachment is at a destination that names it or displayed. |
| `AttachDocuments.CheckVideoReferenceImages` | internal/attachments/references.go:201-218 | Lists, once each and in order, the videos embedded through a definition. |
| `AttachDocuments.BrokenFilesExact` | internal/attachments/references.go:201-218 | Those are exactly the files that some such reference names. |
| `AttachDocuments.Upload` | internal/attachments/attach.go:123-132 | Keeps the URLs before the first failure and stops there; an answer without a URL is a failure. |
| `JsonColor.StreamShown` | pkg/jsoncolor/jsoncolor.go:24-105 | For a stream of JSON values, the output without layout is exactly the values' tokens with commas between, with the key colour and the colon at object keys and nowhere else; this holds if and only if no bare scalar follows a preface that ends inside an object. The stack ends as it began. |
| `JsonColor.StreamLaid` | pkg/jsoncolor/jsoncolor.go:24-105 | With its layout the output is the pretty form of the values, defined by recursion over them: every element and member on a line of its own behind as many indents as it is deep, empty brackets closed on the same line, a space after each colon, and the five colours. |
| `JsonColor.ValueLaid` | pkg/jsoncolor/jsoncolor.go:45-103 | The same for one value, whatever was written before and whatever follows. |
| `JsonColor.RepeatEnd` | pkg/jsoncolor/jsoncolor.go:54-56 | The indentation of a level is that of the level above and one more indent. |
| `JsonColor.StreamText` | pkg/jsoncolor/jsoncolor.go:24-105 | Without colours and layout the output is the values' compact JSON text, defined without reference to the writer. |
| `JsonColor.ValueShown` | pkg/jsoncolor/jsoncolor.go:42-102 | One value, anywhere: its tokens write its lexemes, restore the stack and leave the parity counter ready for a key. |
| `JsonColor.MembersShown` | pkg/jsoncolor/jsoncolor.go:59-88 | The members of an object: the resettable counter finds every key. |
| `JsonColor.ScalarTakenForKey` | pkg/jsoncolor/jsoncolor.go:64-75 | The exception: a bare scalar after a preface that ends inside an object is shown as a key. |
| `JsonColor.ValuesNest` | pkg/jsoncolor/jsoncolor.go:50-55 | The tokens of a stream never close a delimiter that they did not open. |
| `JsonColor.WriteToken` | pkg/jsoncolor/jsoncolor.go:42-102 | One turn of the loop, which pops only from a stack that is not empty. |
| `JsonColor.Write` | pkg/jsoncolor/jsoncolor.go:24-105 | The loop writes, layout included, the pretty form of the stream, if and only if no bare scalar follows a preface that ends inside an object; its colours and lexemes are then the values' own, it pops no delimiter that it did not push, and leaves the stack as the preface. |
| `RootedPaths.LocalDescends` | internal/safepaths/root.go:283-289 | Whatever the name, once cleaned and accepted it is the root itself or a list of names that are neither empty nor dots. |
| `RootedPaths.LocalIff` | internal/safepaths/root.go:280-290 | A name is accepted if and only if it is relative and none of its parts leads above the root. |
| `RootedPaths.CleanMeaning` | internal/safepaths/root.go:280-290 | Cleaning leaves real names alone and drops, wherever they stand, empty parts, dots, and a name with the step up that follows it. |
| `RootedPaths.CleanIdempotent` | internal/safepaths/root.go:283-289 | Checking a checked name again changes nothing. |
| `RootedDirectories.Root.OpenDirectories` | internal/safepaths/root.go:291-356 | Whatever call fails, every handle opened is closed except the one returned; that one is new unless the name has no component, and was reached component by component, each verified. It fails only if a call failed or the way was obstructed. |
| `RootedDirectories.Root.Walk` | internal/safepaths/root.go:309-355 | The loop of the above over the parts of the name. |
| `RootedDirectories.Root.Advance` | internal/safepaths/root.go:315-354 | One component down; the owned parent is closed whatever happens. |
| `RootedDirectories.Root.Descend` | internal/safepaths/root.go:315-345 | Looks, creates the directory if it is missing, refuses redirects and files, and opens. |
| `RootedDirectories.Root.OpenVerified` | internal/safepaths/root.go:358-452 | A returned handle was opened between two looks that saw no redirect, all three seeing the same file; every other outcome closes what was opened and has a reason. |
| `RootedDirectories.Root.Confirm` | internal/safepaths/root.go:375-397 | The second look: the handle stays open only if nothing contradicts the first. |
| `RootedDirectories.Root.Sub` | internal/safepaths/root.go:121-139 | The sub-root's handle is its own, never that of the root. |
| `RootedDirectories.Root.MkdirAll` | internal/safepaths/root.go:142-155 | Leaves the same handles open whatever happens, the root's among them, and makes nothing but directories. |
| `RootedDirectories.Root.Create` | internal/safepaths/root.go:167-232 | One new handle on success, none on failure; without replacement nothing existing is touched; a file is emptied only once verified, and only a redirect is removed. |
| `RootedDirectories.Root.OpenForReplacement` | internal/safepaths/root.go:204-224 | Opens the existing file; empties it only after verification. |
| `RootedDirectories.Root.WriteFile` | internal/safepaths/root.go:236-249 | Leaves the same handles open whatever happens. |
| `RootedDirectories.OpenFile` | internal/safepaths/root.go:74-96 | The temporary root is closed on every path, and the file too if closing the root fails. |
| `MultiSelect.SelectionOverRuns` | internal/prompter/multi_select_with_search.go:219-311 | Over any run of searches, cursor moves and toggles, a key is selected at the end exactly according to the parity of its toggles; the list shows each selected key once, options stay distinct and the cursor stays on one. |
| `MultiSelect.OrderOverRuns` | internal/prompter/multi_select_with_search.go:127-204 | As long as nothing is toggled, the list of selected keys is the same sequence, whatever searches bring. |
| `MultiSelect.SearchKeepsSelection` | internal/prompter/multi_select_with_search.go:127-185 | A search result, good, failed or mismatched, leaves the list of selected keys unchanged as a sequence. |
| `MultiSelect.SelectedKeysExact` | internal/prompter/multi_select_with_search.go:187-204 | The list is exactly the selected set, without repeats. |
| `MultiSelect.ListAfterSearch` | internal/prompter/multi_select_with_search.go:143-176 | After a good search the options are the selected keys, then the new results, then the new persistent ones. |
| `MultiSelect.CaptionsAfterSearch` | internal/prompter/multi_select_with_search.go:127-204 | After a good search every option shows the caption given for its key, or else the one remembered, or its key where that is empty. |
| `MultiSelect.TypedSearch` | internal/prompter/multi_select_with_search.go:219-276 | Confirming a new text clears the input and starts a search, which ends with its result whatever is pressed meanwhile, a failed one leaving the list; confirming the last text opens the list. |
| `MultiSelect.LoadingIgnoresKeys` | internal/prompter/multi_select_with_search.go:238-241 | While a search is under way no key has an effect. |
| `MultiSelect.MovesDown` | internal/prompter/multi_select_with_search.go:293-297 | Moving down goes one option further each time, as far as the last. |
| `MultiSelect.MovesUp` | internal/prompter/multi_select_with_search.go:287-291 | Moving up goes one option back each time, as far as the first. |
| `MultiSelect.NextSelection` | internal/prompter/multi_select_with_search.go:276-311 | One message flips the key under the cursor or leaves the selection alone. |
| `MultiSelect.StartsValid` | internal/prompter/multi_select_with_search.go:78-111 | The first list is valid and the selection is the defaults without repeats. |
| `MultiSelect.FilterAdd` | internal/prompter/multi_select_with_search.go:143-204 | Filtering by the selection commutes with adding unseen keys. |
| `MultiSelect.MultiSelectSearchField.constructor` | internal/prompter/multi_select_with_search.go:78-111 | Starts in that state. |
| `MultiSelect.MultiSelectSearchField.ApplySearchResult` | internal/prompter/multi_select_with_search.go:127-185 | Rebuilds the options as the specification says, and keeps them on an error. |
| `MultiSelect.MultiSelectSearchField.ListSelected` | internal/prompter/multi_select_with_search.go:187-204 | The two loops list the specified keys. |
| `MultiSelect.MultiSelectSearchField.Update` | internal/prompter/multi_select_with_search.go:219-250 | Each message has the specified effect; keys are ignored while loading. |
| `MultiSelect.MultiSelectSearchField.UpdateSearch` | internal/prompter/multi_select_with_search.go:252-274 | The search part. |
| `MultiSelect.MultiSelectSearchField.UpdateSelect` | internal/prompter/multi_select_with_search.go:276-311 | The list part; the toggle finds an option under the cursor. |
| `Telemetry.FlushedOnce` | internal/telemetry/telemetry.go:254-405 | Over any sequence of calls the flusher runs at most once, and exactly once if the first Finish is sampled in; its payload is the recorded events in order, each with all its upserts before that Finish, or empty if disabled before it; no later call matters. |
| `Telemetry.ShareSent` | internal/telemetry/telemetry.go:328-333 | Of a hundred invocations, one in each bucket, as many are sent as the last rate before Finish says, those with the lowest buckets, and all of them if that rate is not between 1 and 99. |
| `Telemetry.DecimalReadsBack` | internal/telemetry/telemetry.go:306-317 | The rate recorded as a dimension reads back as the rate. |
| `Telemetry.RunRemembers` | internal/telemetry/telemetry.go:279-397 | Until Finish the service holds exactly what the history says, event by event. |
| `Telemetry.DimensionPrecedence` | internal/telemetry/telemetry.go:351-355 | An event's own dimension wins over a common one, and that over the time stamp. |
| `Telemetry.RecordedEvent.constructor` | internal/telemetry/telemetry.go:399-405 | Keeps fresh copies of the maps it was given. |
| `Telemetry.TelemetryService.constructor` | internal/telemetry/telemetry.go:213-247 | Starts with its own copy of the common dimensions. |
| `Telemetry.TelemetryService.RecordEvent` | internal/telemetry/telemetry.go:279-287 | Adds the event; everything the service gained is fresh, so that callers keep no way into it. |
| `Telemetry.TelemetryService.BeginEvent` | internal/telemetry/telemetry.go:291-304 | The same, with a handle to this event unless finished. |
| `Telemetry.TelemetryService.SetRate` | internal/telemetry/telemetry.go:308-317 | Changes rate and dimension together, unless finished. |
| `Telemetry.TelemetryService.SetDisabled` | internal/telemetry/telemetry.go:270-275 | Disables, even after Finish. |
| `Telemetry.TelemetryService.FinishOnce` | internal/telemetry/telemetry.go:321-366 | Sends the specified payload once. |
| `Telemetry.PendingEvent.UpsertDimensions` | internal/telemetry/telemetry.go:373-384 | Changes this event only, and nothing after Finish. |
| `Telemetry.PendingEvent.UpsertMeasures` | internal/telemetry/telemetry.go:386-397 | Changes this event only, and nothing after Finish. |
| `FormatSlice.Format` | internal/text/text.go:122-176 | The text is a layout of the wrapped values: each once and in order, several on a line only within the limit, a break only where the next would not fit. No list of the caller is changed; a single value is not wrapped. |
| `FormatSlice.FormatLines` | internal/text/text.go:145-175 | The loop with its step back terminates, and its text is that of such a layout. |
| `FormatSlice.LayoutUnique` | internal/text/text.go:145-175 | There is only one such layout. |
| `FormatSlice.FitOnOneLine` | internal/text/text.go:133-175 | Values that fit on one line are put on one line if and only if the limit is at most the largest signed number; beyond that each value is on a line of its own. |
| `Sorting.SortSorted` | internal/text/text.go:127-131 | Sorting yields the same strings in byte order. |
| `Sorting.SortForgetsOrder` | pkg/search/query.go:223-241 | Sorting forgets the order of its input. |
| `SafeUrl.PathRoundTrip` | internal/safeurl/safeurl.go:135-145 | Splitting a rendered path at the slashes and decoding gives back exactly the components, for every non-empty list. |
| `SafeUrl.EscapeRoundTrip` | internal/safeurl/safeurl.go:141-143 | Decoding an encoded value gives it back, for every sequence of bytes. |
| `SafeUrl.EscapeWellEncoded` | internal/safeurl/safeurl.go:135-145 | What comes out is made of the characters that section 3.3 of RFC 3986 allows in a segment, and of percent-encoded bytes with upper-case digits. |
| `SafeUrl.SegmentsStay` | internal/safeurl/safeurl.go:75-82 | A rendered path has a segment ".." if and only if a component is "..", which the constructors refuse. |
| `SafeUrl.PathHasNoMarks` | internal/safeurl/safeurl.go:135-145 | A rendered path starts neither a query nor a fragment. |
| `SafeUrl.OneSlashBetween` | internal/safeurl/safeurl.go:152-164 | A non-empty prefix and a non-empty path meet at one slash, which stands alone exactly if the prefix does not end in two and the first component is not empty. |
| `SafeUrl.DoubledSlashes` | internal/safeurl/safeurl.go:152-164 | Both ways to two slashes occur: a prefix that ends in two, and a first component that is empty. |
| `SafeUrl.QueryStart` | internal/safeurl/safeurl.go:97-103 | After the prefix, the first question mark is where the query starts. |
| `SafeUrl.QueryRoundTrip` | internal/safeurl/safeurl.go:97-103 | Parsing the rendered query gives exactly the parameters that were set. |
| `SafeUrl.JoinPath` | internal/safeurl/safeurl.go:54-59 | Refuses exactly the lists with a component "..". |
| `SafeUrl.JoinPathWithHostPrefix` | internal/safeurl/safeurl.go:64-69 | Refuses exactly the lists with a component "..". |
| `SafeUrl.MutableSafeUrl.SetQuery` | internal/safeurl/safeurl.go:87-92 | Replaces the value of the key. |
| `SafeUrl.MutableSafeUrl.Render` | internal/safeurl/safeurl.go:97-103 | Prefix, path and, if there are parameters, the query in the order of the keys. |
| `SearchQuery.TextMeaning` | pkg/search/query.go:175-243 | Read as an AND of clauses with OR inside brackets, the text of the qualifiers asks of every item what the map asks with the code's OR groups, with each value as often as it was given; a reader that takes brackets for markup where a word starts or ends reads the text so if and only if no value of several users or repositories, but the last, ends in an unquoted closing bracket. |
| `SearchQuery.MisreadUsers` | pkg/search/query.go:227-243 | The other side occurs: two users, the first of which ends in a closing bracket, are read as something else. |
| `SearchQuery.ClausesMeaning` | pkg/search/query.go:175-243 | The clauses ask of every item exactly what the map asks. |
| `SearchMeaning.QualifiersMeaning` | pkg/search/query.go:175-225 | Without the groups: every value of every qualifier asks for itself, or for one of the alternatives to it that were given too; alternatives are users among themselves, repositories, the three places of "in", and the six pairs of "is". |
| `SearchMeaning.TextForgetsOrder` | pkg/search/query.go:188-338 | The text is the same in whatever order the values of a qualifier are given. |
| `SearchQuery.KeyMeaning` | pkg/search/query.go:175-225 | The same for one qualifier. |
| `SearchQuery.EveryValueOnce` | pkg/search/query.go:188-225 | Every value of every qualifier is in the clauses as often as in the map, and nothing else is. |
| `SearchReader.ReadBack` | pkg/search/query.go:227-243 | Clauses written out are read back as exactly those clauses, if and only if no bracketed term but the last of its bracket ends in a closing bracket. |
| `SearchReader.TermRoundTrip` | pkg/search/query.go:286-291 | Any value, quoted or not, survives being written into a term and read back. |
| `SearchReader.QuotedIff` | pkg/search/query.go:286-291 | A value is quoted if and only if it has a quote, a space, a tab or a line break, and written as it is otherwise. |
| `SearchReader.WordsTerm` | pkg/search/query.go:286-291 | A term is part of one word, whatever spaces and quotes its value has. |
| `SearchFormat.GroupWithOr` | pkg/search/query.go:227-243 | The text of the group, whatever the order of the values. |
| `SearchFormat.FormatSpecialQualifiers` | pkg/search/query.go:188-225 | The texts of the group clauses and of the remaining values, sorted. |
| `SearchFormat.Deal` | pkg/search/query.go:189-206 | Deals each value to the first group that lists it. |
| `SearchFormat.FormatQualifiers` | pkg/search/query.go:298-338 | The texts of all clauses in the order of the qualifiers, the same for every order of iteration over the map. |
| `SearchKeywords.KeywordsStayInside` | pkg/search/query.go:166-169 | The bracket around the keywords keeps them apart: reading up to the bracket that closes the first one gives back exactly the keywords, and the qualifiers behind it at the top level, if and only if outside of quotations the keywords close no bracket that they did not open and leave none, and no quotation, open. |
| `SearchKeywords.WholeMeaning` | pkg/search/query.go:153-173 | Keywords and qualifiers are taken apart as they were put together, and the qualifiers then read as what the map asks, if and only if the keywords are self-contained and the qualifiers unambiguous. |
| `SearchKeywords.BracketClosedEarly` | pkg/search/query.go:166-169 | The other side occurs: the keywords `a) OR (b` close the bracket after the `a`, and the operator is outside. |
| `SearchKeywords.ListedKeywordsStay` | pkg/search/query.go:340-351 | Keywords given as a list are self-contained when brackets and quotes occur in them only in what gets quoted. |
| `KeywordWords.FormatKeywords` | pkg/search/query.go:340-351 | Each text says what its keyword says: the same qualifier before the first colon, and a value that reads back as the one given; and the texts are read back one by one, split at the spaces, if and only if the keywords stand apart. |
| `KeywordWords.KeywordsReadBack` | pkg/search/query.go:340-351 | The condition in full: before its colon a keyword has no space outside quotes, and leaves a quotation open only if the quotes of its value close it again; the last may leave one open. |
| `KeywordWords.PlainKeywords` | pkg/search/query.go:340-351 | For keywords with no quote before a colon it says that none has a space there. |
| `KeywordWords.SwallowedKeyword` | pkg/search/query.go:340-351 | The other side occurs: after the keyword `"a:b` the next one is not read as a word. |
| `SearchFormat.AdvancedIssueSearchString` | pkg/search/query.go:153-173 | Keywords in brackets when qualifiers follow, else whichever of the two there is; the immutable keywords come first, and the list counts only without them, with a text for each keyword that says what it says. |

## Left out

- One host stands for all: configuration and keyring keys include the host name, so hosts do not interact.
- The `Source` field of a credential, environment tokens, and the overrides that only tests and debugging set.
- Plaintext storage: `Login` and `LoginRefreshable` are modelled for secure storage, since records in the configuration
  are not read back at run time; plaintext tokens that are already there are read and removed as in the code.
- A missing refresher, for which every refresh is inapplicable.
- The keyring transport, its timeouts and the escaping of its keys: the keyring is a map that may fail at every call.
- The retry loop of the file lock: the lock is acquired or not, and acquired by one holder at a time.
- `SwitchUser` takes no lock, so it is part of the sequential results but not of the interleavings.
- The markdown parser, the lookup of paths and the reading of link reference definitions: references, their blocks and
  the ranges of definitions are inputs, assumed well nested (`WellNested`). Two attachments never have the same path,
  which internal/attachments/flags.go:73-78 sees to.
- Byte offsets are offsets into a string of characters; characters outside ASCII are not decomposed into bytes.
- The JSON decoder: the colouriser's input is the token stream of well-formed values; escape sequences of colours are
  represented by the colour itself, and a decoding error in the middle of the stream is not modelled.
- The telemetry service's mutex makes each call atomic; a missing map is recorded as an empty one, and the transport of
  the payload is not modelled.
- File modes, and path rules other than those of Unix; `CopyFile`, which is `WriteFile` with another source.
- Arithmetic overflow of line lengths in `FormatSlice`.
- The retention of the caller's component slice by the URL type.
- The `Map` function of the search qualifiers, which uses reflection: the map is the input.
  Characters outside ASCII count as printable when a value is quoted.
- Rendering, prompts, HTTP, GraphQL and command plumbing.
- ImageReadsBack: speaks of the scanner that relocates references; the check of the whole markdown parser that
  internal/attachments/userasset.go:209-215 makes before an upload is not modelled, since the parser is not.
