# CDP Quip Runbooker — a verified model of its core

CDP Runbooker is a command-line tool that sets up Quip engagement folders, documents and folder
members for CDP engagements. This project models, in Dafny, the parts of it that decide things:

- **Credential subsystem** (`SecureTokenManager`). It keeps the Quip API token encrypted in
  `config.json`. It validates the token against the Quip API, retrying transient failures. It
  finds and migrates tokens that older versions wrote into shell start-up files, then removes
  them. It guides the user through setting up a new token.
- **Workflow logic** of `cdpRunbooker.py`:
  - locating the package root;
  - engagement folder names and parents;
  - use-case names taken from template titles;
  - the template prompt;
  - the document-copy retry loop;
  - resolving e-mails to member ids in two phases;
  - splitting members into new and existing;
  - adding members in batches of 50 with counters;
  - trying the CSV folder ids in order.
- **Validators**: folder names, file names, SIM ids, e-mail addresses, `YYYY-MM` months.
- **CSV handling**: the `sep=` delimiter directive, telling a plain e-mail list from a table,
  picking the e-mail and login columns, mapping logins to addresses, case-insensitive order-keeping
  de-duplication, and the cleaned copy of a file.
- **Dependency checks**: parsing `requirements.txt`, collecting missing packages and their
  messages, and the "dependencies may have changed" warning.
- **Debug reporter**:
  - the recommendations derived from a debug report;
  - the execution-method classification;
  - sanitising `PATH` and `PYTHONPATH`;
  - the numbered recommendations in the markdown report.

The outside world is made of values:

- A file system is a map from path to text. `readlines()` splits the text after each newline
  (`Files.ReadLines`).
- Each remote call (Quip validation, document copy, bulk user lookup, `get_user`, adding folder
  members) is either a sequence of per-attempt outcomes or a function parameter.
- What the user types is a sequence of lines read from a position. Reading past its end is
  `input()`'s `EOFError`.
- Sleeps are recorded as a list of waits.
- Encryption and decryption are function values in `TokenStore.Env`.

`SecureTokenManager` is a Dafny class whose fields are that world. Each method is proved equal to
a function over a `World` value, and the properties are lemmas about those functions.

Python's string behaviour is written out in `Strings` and `Paths`:

- `strip()` uses Python's whitespace set;
- `lower()` and `isdigit()` are ASCII;
- `replace()` and `split()` behave as in Python;
- `os.path.dirname`, `basename` and `join` behave as posixpath.

Regular expressions are modelled by their matching semantics (`Validators.Run`,
`Validators.MatchesEmail`, `CsvHandler.MatchEnd`).

Modules (one file each): `Wrappers`, `Seqs`, `Strings`, `Paths`, `Files`, `Prompts`,
`TokenValidation`, `LegacyTokens`, `TokenStore`, `TokenFlows`, `TokenManager`, `DocumentRetry`,
`RunbookApp`, `RunbookMembers`, `Validators`, `CsvHandler`, `DependencyValidator`, `DebugReporter`.

Where the code and its documentation disagree, the model follows the code:

- `_validate_token` waits `(attempt + 1) * 2` seconds: 2, 4, ….
- `_cleanup_legacy_tokens` removes every marker line and its export line, not only the first pair.
- Validation succeeds as soon as the reply holds the key `id`, whatever its value.

## Model

| member | source | states |
|---|---|---|
| Prompts.Input | core/secure_token_manager.py:63-68 | a required answer is never empty; an answer moves the position forward within the lines; an optional prompt runs out of input only at the end of the lines |
| Prompts.InputValue | core/secure_token_manager.py:63-68 | the value returned is the stripped text of the last line consumed |
| Prompts.InputSkipsBlanks | core/secure_token_manager.py:63-68 | every line a required prompt skipped was blank |
| Prompts.GetUserInput | core/secure_token_manager.py:63-68 | the prompt loop returns what `Input` describes |
| Prompts.Response | core/secure_token_manager.py:70-82 | an answer is accepted iff it is empty with a default, or one of the choices ignoring case; the result is a lower-cased choice or the lower-cased default |
| Prompts.Choice | core/secure_token_manager.py:70-82 | a chosen value is always a lower-cased choice or the default |
| Prompts.GetUserChoice | core/secure_token_manager.py:70-82 | the choice loop returns what `Choice` describes |
| Prompts.YesNoAnswers | core/secure_token_manager.py:70-82 | for a y/n question defaulting to "y": an empty line gives "y", and "n" or "y" in any case and padding gives itself |
| Prompts.YesNoOutcome | core/secure_token_manager.py:70-82 | such a question only ever yields "y" or "n" |
| TokenValidation.ClassifyByKeywords | core/secure_token_manager.py:737-767 | a failure is transient iff its lower-cased message contains a transient keyword; it is an authentication failure iff it contains none of those but an authentication keyword |
| TokenValidation.Attempts | core/secure_token_manager.py:640-774 | never more attempts than remain; success always carries a reply with `id` |
| TokenValidation.Validate | core/secure_token_manager.py:620-623 | a token shorter than 30 characters gets no attempt and no wait; at most `max_retries` attempts |
| TokenValidation.ValidateToken | core/secure_token_manager.py:603-774 | the retry loop returns the user info, the attempts made and the waits slept, as `Validate` defines them |
| TokenValidation.Backoff | core/secure_token_manager.py:739 | the i-th wait is (i + 1) * 2 seconds |
| TokenValidation.AttemptsStopAt | core/secure_token_manager.py:640-774 | when the attempts before k were transient failures and attempt k is not (or is the last), exactly k + 1 attempts are made with waits 2, 4, …, and the result is attempt k's reply if that one was accepted |
| TokenValidation.StopIndex | core/secure_token_manager.py:640-774 | every run of attempts stops at some attempt k that is not a transient failure, or at the last attempt |
| TokenValidation.ValidateStopsAt | core/secure_token_manager.py:640-774 | when the loop stops at attempt k it has made k + 1 attempts and waited `Backoff(k)` |
| TokenValidation.ValidateSucceedsIff | core/secure_token_manager.py:704-709 | validation succeeds iff the token is long enough and some attempt within the limit is accepted after only transient failures |
| TokenValidation.AllTransientExhausts | core/secure_token_manager.py:738-751 | when every attempt fails transiently, all `max_retries` attempts are made, max - 1 waits happen, and None (not an exception) is returned |
| TokenValidation.FailureStopsAtOnce | core/secure_token_manager.py:753-767 | an authentication or unclassified failure ends validation at that attempt with no further wait |
| TokenValidation.SingleAttemptNeverWaits | core/secure_token_manager.py:904 | with one attempt (diagnose mode) nothing is waited |
| TokenValidation.AttemptsStep | core/secure_token_manager.py:738-745 | a transient failure before the last attempt waits (attempt + 1) * 2 and goes on with the next attempt |
| TokenValidation.AttemptsLast | core/secure_token_manager.py:746-767 | the last attempt, or one that is not a transient failure, ends the loop with its own outcome |
| LegacyTokens.ExtractTokenFromLine | core/secure_token_manager.py:405-429 | no `=` gives None; a token returned is longer than 30 characters |
| LegacyTokens.Inner | core/secure_token_manager.py:416 | `[1:-1]`: the string without its first and last character |
| LegacyTokens.ExtractQuotedExport | core/secure_token_manager.py:411-424 | a double-quoted export value is returned without its quotes iff it is longer than 30 characters |
| LegacyTokens.ExtractSingleQuotedExport | core/secure_token_manager.py:411-424 | the same for a single-quoted value |
| LegacyTokens.LoneQuoteRefused | core/secure_token_manager.py:415-424 | a value that is one quote character gives nothing |
| LegacyTokens.ExportPrefixEquals | core/secure_token_manager.py:411 | an export line splits at the `=` of its prefix |
| LegacyTokens.SentinelIsNotExport | core/secure_token_manager.py:360-364 | no line is both the marker comment and an export line |
| LegacyTokens.KindOf | core/secure_token_manager.py:516-520 | a line is classified as a marker iff its stripped text is the marker, and as an export iff it starts with the export prefix |
| LegacyTokens.Tokens | core/secure_token_manager.py:358-367 | the token each line position would yield: one after a marker line whose next line is an export that extracts |
| LegacyTokens.FirstSome | core/secure_token_manager.py:368 | the first token found comes from some position, and None means no position has one |
| LegacyTokens.FirstSomeIsEarliest | core/secure_token_manager.py:358-368 | the scan returns the earliest token in the file |
| LegacyTokens.FindTokenInLines | core/secure_token_manager.py:358-368 | the scan of one file's lines returns the first token, stopping there |
| LegacyTokens.Detect | core/secure_token_manager.py:349-375 | at most one entry per listed file |
| LegacyTokens.DetectEntries | core/secure_token_manager.py:349-375 | (f, t) is found iff f is a listed, existing file whose first token is t |
| LegacyTokens.DetectOnePerFile | core/secure_token_manager.py:368 | distinct files give entries for distinct files |
| LegacyTokens.DetectLegacyTokens | core/secure_token_manager.py:339-375 | the loop over the files computes `Detect`, in file-list order |
| LegacyTokens.Kinds | core/secure_token_manager.py:515-525 | one classification per line |
| LegacyTokens.KindsAt | core/secure_token_manager.py:515-525 | the i-th classification is that of the i-th line |
| LegacyTokens.KeptFromNoMarker | core/secure_token_manager.py:515-525 | no marker line survives cleaning |
| LegacyTokens.Cleaned | core/secure_token_manager.py:513-525 | the cleaned lines contain no marker line |
| LegacyTokens.CleanLines | core/secure_token_manager.py:513-525 | the index-driven loop computes `Cleaned` |
| LegacyTokens.MarkerPairs | core/secure_token_manager.py:517-522 | a marker drops itself and a following export line. A marker followed by another line drops only itself and keeps that line |
| LegacyTokens.KeptFromUnmarked | core/secure_token_manager.py:523-525 | without markers every line is kept in order |
| LegacyTokens.CleanedUnmarked | core/secure_token_manager.py:513-525 | a file without marker lines comes back unchanged |
| LegacyTokens.CleanedIdempotent | core/secure_token_manager.py:513-525 | cleaning twice is cleaning once |
| LegacyTokens.NothingLeftToDetect | core/secure_token_manager.py:358-368 | a cleaned file yields no legacy token |
| LegacyTokens.CleanTextUnmarked | core/secure_token_manager.py:509-529 | writing back a file without markers leaves its text as it was |
| LegacyTokens.Cleanup | core/secure_token_manager.py:495-537 | the set of files is unchanged; at most one cleaned name per found entry |
| LegacyTokens.CleanupOnlyFound | core/secure_token_manager.py:507 | files not found to hold a token are not touched |
| LegacyTokens.ShellConfigFiles | core/secure_token_manager.py:377-403 | two or four files; a zsh shell gives ~/.zshrc then ~/.zprofile |
| LegacyTokens.ShellConfigNames | core/secure_token_manager.py:384-401 | the base names of the files, in order, for zsh, bash and any other shell |
| LegacyTokens.JoinedNames | core/secure_token_manager.py:385-401 | joining a name without '/' to the home directory keeps the name as base name |
| TokenStore.ValidateIn | core/secure_token_manager.py:603-774 | validation consumes exactly its attempts from the remote replies and adds its waits to the sleep log, changing nothing else |
| TokenStore.Store | core/secure_token_manager.py:151-192 | the result is True iff the token validates and the file can be written. Then the file holds exactly the record built from the validation reply; otherwise the file is unchanged |
| TokenStore.StoredRecordFields | core/secure_token_manager.py:171-177 | the record has exactly the fields version "1.0", the encrypted token, created_at and last_used (both the current time), and user_name (the reply's name, "Unknown" when it has none) |
| TokenStore.Load | core/secure_token_manager.py:297-327 | loading changes nothing except, possibly, `last_used` of the record |
| TokenStore.Remove | core/secure_token_manager.py:329-337 | the config file is gone when it could be deleted, and unchanged otherwise |
| TokenStore.LoadRejectsRecord | core/secure_token_manager.py:306-313 | a record whose version is not "1.0" or whose `encrypted_token` is missing or falsy gives None and is left alone |
| TokenStore.LoadRewritesOnlyOnToken | core/secure_token_manager.py:315-322 | the record is rewritten only when decryption gives a non-empty token, and then only `last_used` changes |
| TokenStore.StoreThenLoad | core/secure_token_manager.py:151-192 | with a cipher that round-trips, a stored token loads back |
| TokenStore.RecordLoads | core/secure_token_manager.py:297-322 | a record for t loads t and still holds t afterwards |
| TokenStore.LoadAgain | core/secure_token_manager.py:297-322 | loading again gives the same token |
| TokenStore.ReadOnlyStore | core/secure_token_manager.py:190-192 | when the config file cannot be written, storing always fails and loading yields no token |
| TokenStore.StoreValidates | core/secure_token_manager.py:161-166 | a stored token is at least 30 characters long and was accepted by some attempt after transient failures only |
| TokenStore.ConfigDirectory | core/secure_token_manager.py:194-211 | ends in `cdp-runbooker`; under APPDATA on Windows and XDG_CONFIG_HOME elsewhere when those are set and non-empty |
| TokenStore.ConfigDirectoryFallback | core/secure_token_manager.py:203-211 | otherwise ~/AppData/Roaming/cdp-runbooker on Windows and ~/.config/cdp-runbooker elsewhere |
| TokenFlows.SetupLoop | core/secure_token_manager.py:581-601 | the setup loop ends with a token of at least 30 characters that is stored, or with the end of input and the config file unchanged |
| TokenFlows.Setup | core/secure_token_manager.py:539-601 | a token it yields is at least 30 characters long and stored in the config file, which is unchanged otherwise; setup is cancelled exactly when the first y/n answer is not yes |
| TokenFlows.SetupInTryFacts | core/secure_token_manager.py:490-493 | setup run inside the migration's handler, and run again when it raises, never yields "no token"; a token it yields is stored |
| TokenFlows.SelectFrom | core/secure_token_manager.py:462-467 | the selected token is one of the found tokens, at least 30 characters long; only remote calls and waits change |
| TokenFlows.SelectFromFirstValid | core/secure_token_manager.py:461-467 | the selected token is the first found token that validates, each tried in the world the earlier validations left. Every earlier one was refused, and nothing is selected iff every found token was refused |
| TokenFlows.RefusedShift | core/secure_token_manager.py:462-467 | after a refused token, the later ones are validated in the world its validation left |
| TokenFlows.SelectFromStep | core/secure_token_manager.py:463-467 | a refused token passes the search on to the next one; a valid one ends it with that token |
| TokenFlows.MigrationDeclined | core/secure_token_manager.py:455-459 | migration returns None iff the user declines; then nothing but the input position changes |
| TokenFlows.CleanupOnlyAfterStore | core/secure_token_manager.py:473-485 | when the shell files changed, migration returned a found token that is now stored |
| TokenFlows.MigrationStores | core/secure_token_manager.py:469-488 | a token migration returns is at least 30 characters long and stored in the config file |
| TokenFlows.StoredTokenFirst | core/secure_token_manager.py:126-134 | a stored token that validates is returned without touching shell files or reading input |
| TokenFlows.InvalidStoredRemovedFirst | core/secure_token_manager.py:135-149 | a stored token that fails validation is removed before the legacy scan |
| TokenFlows.SetupOnlyWithoutMigratedToken | core/secure_token_manager.py:141-146 | when migration yields a token, setup is not reached |
| TokenFlows.ReadOnlyConfigNeverSucceeds | core/secure_token_manager.py:110-149 | without a writable config file no token is ever obtained |
| TokenFlows.TokenIsKept | core/secure_token_manager.py:110-149 | with a cipher that round-trips, the token returned is the one the config file then loads |
| TokenFlows.Shape | core/secure_token_manager.py:893-900 | "no pipe" iff the token has no '\|'; an unusual shape has 2 or more parts, but not 3 |
| TokenFlows.ShapeByCount | core/secure_token_manager.py:893-898 | three parts iff exactly two '\|'; otherwise the parts are the '\|' count plus one |
| TokenFlows.Diagnose | core/secure_token_manager.py:844-916 | diagnosis passes only when DNS and HTTPS work and the single attempt is accepted; it makes at most one call and never waits |
| TokenFlows.DiagnosePassesIff | core/secure_token_manager.py:877-909 | for a given token: passes iff DNS and HTTPS work, the token has at least 30 characters and the single attempt is accepted; the config file is unchanged |
| TokenManager.SecureTokenManager.constructor | core/secure_token_manager.py:101-108 | a manager over the given world, nothing read or called yet |
| TokenManager.SecureTokenManager.GetUserInput | core/secure_token_manager.py:63-68 | the fields after the prompt are those `Prompts.Input` describes |
| TokenManager.SecureTokenManager.GetUserChoice | core/secure_token_manager.py:70-82 | the fields after the prompt are those `Prompts.Choice` describes |
| TokenManager.SecureTokenManager.ValidateToken | core/secure_token_manager.py:603-774 | the new state is that of `TokenStore.ValidateIn` |
| TokenManager.SecureTokenManager.LoadSecureToken | core/secure_token_manager.py:297-327 | the token and new state are those of `TokenStore.Load` |
| TokenManager.SecureTokenManager.StoreTokenSecurely | core/secure_token_manager.py:151-192 | the result and new state are those of `TokenStore.Store` |
| TokenManager.SecureTokenManager.RemoveSecureToken | core/secure_token_manager.py:329-337 | the new state is that of `TokenStore.Remove` |
| TokenManager.SecureTokenManager.DetectLegacyTokens | core/secure_token_manager.py:339-375 | the entries are those of `LegacyTokens.Detect` |
| TokenManager.SecureTokenManager.CleanupLegacyTokens | core/secure_token_manager.py:495-537 | the shell files and cleaned names are those of `LegacyTokens.Cleanup`; nothing else changes |
| TokenManager.SecureTokenManager.SetupNewToken | core/secure_token_manager.py:539-601 | the result and new state are those of `TokenFlows.Setup` |
| TokenManager.SecureTokenManager.SetupInTry | core/secure_token_manager.py:471-493 | the result and new state are those of `TokenFlows.SetupInTry` |
| TokenManager.SecureTokenManager.SelectToken | core/secure_token_manager.py:462-467 | the token and new state are those of `TokenFlows.SelectFrom` |
| TokenManager.SecureTokenManager.HandleMigration | core/secure_token_manager.py:431-493 | the result and new state are those of `TokenFlows.Migration` |
| TokenManager.SecureTokenManager.GetSecureToken | core/secure_token_manager.py:110-149 | the result and new state are those of `TokenFlows.GetSecureToken` |
| TokenManager.SecureTokenManager.DiagnoseToken | core/secure_token_manager.py:844-916 | the result and new state are those of `TokenFlows.Diagnose` |
| DocumentRetry.AttemptsFrom | cdpRunbooker.py:451-500 | between one and the remaining number of attempts are made |
| DocumentRetry.CreateDocumentFromTemplate | cdpRunbooker.py:445-500 | the retry loop gives the thread id or the error raised, the attempts made and the waits, as `CreateDocument` defines them |
| DocumentRetry.StopsAt | cdpRunbooker.py:451-500 | the creation ends at the first attempt that succeeds, or at the last attempt, after waits (attempt + 1) * 2 |
| DocumentRetry.CreatedAt | cdpRunbooker.py:488-491 | the first creating attempt k gives its thread id after k + 1 attempts and waits 2, …, 2k |
| DocumentRetry.AllAttemptsFail | cdpRunbooker.py:477-500 | three failures raise "Failed to create document after 3 attempts: …" naming the last failure, after waits 2 and 4 |
| DocumentRetry.CreatedIff | cdpRunbooker.py:451-500 | a document is created iff one of the three attempts creates it |
| DocumentRetry.FirstCreated | cdpRunbooker.py:451-500 | any creating attempt within the limit makes the whole creation succeed |
| RunbookApp.FindPackageRoot | cdpRunbooker.py:67-84 | the loop returns what `RootFrom` describes, starting from the script directory with five tries |
| RunbookApp.RootIsNearestAncestor | cdpRunbooker.py:72-84 | a root other than the fallback is the nearest ancestor, within the tries, holding `utils` and `core` |
| RunbookApp.PackageRootFound | cdpRunbooker.py:67-84 | the root is the script directory or its k-th parent with k < 5, the nearest one holding both folders |
| RunbookApp.ParentFolder | cdpRunbooker.py:544 | the parent is the test folder iff the folder is for testing |
| RunbookApp.ValidConcat | cdpRunbooker.py:539-541 | a concatenation is a valid folder name iff both parts are |
| RunbookApp.FolderNameShape | cdpRunbooker.py:539-541 | the name starts "CDP_<month>_" and ends "_<sim>" when a SIM id is given. It is a valid folder name iff all its parts are |
| RunbookApp.FolderNameValid | cdpRunbooker.py:539-541 | the folder name is valid iff customer, engagement, month and SIM id are |
| RunbookApp.UseCaseName | cdpRunbooker.py:1148-1155 | the use-case name has no surrounding whitespace |
| RunbookApp.ExtractUseCaseName | cdpRunbooker.py:1148-1155 | the loop of replacements computes `UseCaseName` |
| RunbookApp.RemoveEachAbsent | cdpRunbooker.py:1151-1154 | removing patterns that do not occur leaves the name unchanged |
| RunbookApp.UseCaseNameOfPlainTitle | cdpRunbooker.py:1150-1155 | a title with no prefix or suffix to remove is only stripped |
| RunbookApp.ParseInt | cdpRunbooker.py:1140 | `int()` accepts exactly an optional sign followed by digits with single underscores between digits. Plain digits give their decimal value, and a positive value never comes from a '-' |
| RunbookApp.DigitsOf | cdpRunbooker.py:1140 | leaving out the underscores gives only digits, and a string of digits is unchanged |
| RunbookApp.ParseIntUnderscore | cdpRunbooker.py:1140-1142 | "1_0" reads as 10, so it selects the tenth template |
| RunbookApp.ParseIntMisplacedUnderscore | cdpRunbooker.py:1140-1146 | a doubled, leading or trailing underscore is `int()`'s ValueError, so the question is asked again |
| RunbookApp.ParseIntOfDecimal | cdpRunbooker.py:1140 | `int()` reads back every number's decimal text |
| RunbookApp.Selected | cdpRunbooker.py:1141-1142 | a template is selected iff the answer is an integer from 1 to the number of templates, and it is `templates[n - 1]` |
| RunbookApp.TemplateChoice | cdpRunbooker.py:1136-1146 | the chosen template is one of the templates; with no templates input runs out |
| RunbookApp.GetTemplateSelection | cdpRunbooker.py:1136-1146 | the prompt loop computes `TemplateChoice` |
| RunbookApp.TemplateChoiceIsTyped | cdpRunbooker.py:1138-1146 | the template chosen is the one the last typed answer selects |
| RunbookApp.FolderIdsToTry | cdpRunbooker.py:1070-1073 | a given folder id alone, otherwise the default CSV folder ids |
| RunbookApp.FirstAccepting | cdpRunbooker.py:1076-1080 | the first folder id that accepts the users |
| RunbookApp.TryFoldersInOrder | cdpRunbooker.py:1075-1083 | the ids are tried in order; success iff some id accepts, and then the last id tried accepted and none before it did. On failure every id was tried |
| RunbookApp.AddUsersWorkflow | cdpRunbooker.py:1066-1083 | the loop's success and the ids tried are those of `TryFolders` |
| RunbookMembers.Chunk | cdpRunbooker.py:868-869 | `remaining[i:i + size]`: a non-empty slice of at most `size` emails |
| RunbookMembers.Found | cdpRunbooker.py:897-900 | every mapping is an e-mail of the batch found in the reply, with its id |
| RunbookMembers.FoundAll | cdpRunbooker.py:897-900 | every e-mail of the batch in the reply is mapped, and a batch without repeats maps none twice |
| RunbookMembers.Phase1From | cdpRunbooker.py:866-904 | every e-mail phase 1 maps is among those looked up |
| RunbookMembers.Unresolved | cdpRunbooker.py:907-908 | the e-mails not yet resolved, in order |
| RunbookMembers.VariantsInOrder | cdpRunbooker.py:936-947 | a variant id is the first domain's (in list order) that `get_user` knows; with none, no domain is known |
| RunbookMembers.Phase2 | cdpRunbooker.py:928-951 | a mapping of phase 2 comes from a domain variant, and the failed e-mails are exactly those no variant resolves |
| RunbookMembers.Phase1Distinct | cdpRunbooker.py:860-904 | phase 1 maps each e-mail at most once |
| RunbookMembers.UnresolvedDistinct | cdpRunbooker.py:908 | the unresolved e-mails have no repeats |
| RunbookMembers.Phase2Distinct | cdpRunbooker.py:928-951 | phase 2 maps each e-mail at most once and fails each at most once |
| RunbookMembers.ResolveDistinct | cdpRunbooker.py:838-958 | the resolved map has distinct keys and the failed list no repeats |
| RunbookMembers.ResolveAccountsForAll | cdpRunbooker.py:838-958 | every e-mail is resolved or failed, and no failed e-mail is a key of the resolved map |
| RunbookMembers.Phase2Has | cdpRunbooker.py:939-945 | a phase-1 failure that some variant resolves is mapped to that variant's id |
| RunbookMembers.FailedAreUnresolved | cdpRunbooker.py:907-951 | an e-mail fails iff phase 1 missed it and no domain variant resolves it; phase-2 mappings come from variants |
| RunbookMembers.ResolveEmailsToMemberIds | cdpRunbooker.py:838-958 | the method computes `Resolve` |
| RunbookMembers.LookUpAsProvided | cdpRunbooker.py:866-904 | the bulk-lookup loop computes `Phase1From` |
| RunbookMembers.FoundIn | cdpRunbooker.py:897-900 | the loop over one batch computes `Found` |
| RunbookMembers.TryDomainVariations | cdpRunbooker.py:913-951 | the loop over phase-1 failures computes `Phase2` |
| RunbookMembers.FindVariant | cdpRunbooker.py:939-947 | the loop over the domains computes `FirstVariant` |
| RunbookMembers.Partition | cdpRunbooker.py:691-698 | every resolved e-mail goes to exactly one list; new ids are not existing members, and the already-member e-mails have existing ids |
| RunbookMembers.PartitionPlacesEach | cdpRunbooker.py:694-698 | an e-mail whose id exists is listed as already a member; otherwise its id is new |
| RunbookMembers.PartitionMembers | cdpRunbooker.py:691-698 | the loop computes `Partition` |
| RunbookMembers.AddBatch | cdpRunbooker.py:714-745 | a batch adds all its members or counts all of them as errors, using one or two replies |
| RunbookMembers.JoinUnit | cdpRunbooker.py:703-704 | counts start at zero |
| RunbookMembers.JoinAssoc | cdpRunbooker.py:711-745 | tallies of consecutive batches combine associatively |
| RunbookMembers.AddFrom | cdpRunbooker.py:711-745 | the replies are consumed forward |
| RunbookMembers.Batches | cdpRunbooker.py:711-712 | every batch has 1 to 50 members |
| RunbookMembers.BatchesCover | cdpRunbooker.py:711-712 | the batches are consecutive slices covering the new ids in order |
| RunbookMembers.AddCountsEach | cdpRunbooker.py:711-745 | added + errors = number of new member ids |
| RunbookMembers.AllAcceptedAddsAll | cdpRunbooker.py:711-745 | when every call succeeds all members are added with one call per batch, and no rate-limit wait happens |
| RunbookMembers.AddBatchCall | cdpRunbooker.py:714-745 | one batch computes `AddBatch` |
| RunbookMembers.AddMembers | cdpRunbooker.py:706-745 | the batch loop gives the tally of `AddFrom` and sends exactly `Batches` |
| RunbookMembers.AddUsers | cdpRunbooker.py:606-784 | success always comes with a summary |
| RunbookMembers.AddUsersOutcome | cdpRunbooker.py:689-777 | success iff something was added or some e-mail already was a member; new + already = resolved; added + errors = new. The dict has no e-mail twice, no failure is listed twice, and each e-mail of the CSV is resolved or failed |
| RunbookMembers.AddUsersChecksFirst | cdpRunbooker.py:623-652 | a missing CSV, an unreachable folder, a reply without a folder or no e-mails give False before any prompt |
| RunbookMembers.UnknownMembersAsks | cdpRunbooker.py:663-676 | without the member list the run goes on iff the user answers yes |
| RunbookMembers.AddUsersFromCsv | cdpRunbooker.py:606-784 | the method computes `AddUsers` |
| Validators.MonthMatch | utils/validators.py:14-20 | `%m` takes one or two digits |
| Validators.DigitsValue4 | utils/validators.py:14-20 | a four-digit year's value, digit by digit |
| Validators.DigitsValueShort | utils/validators.py:14-20 | a one- or two-digit month's value |
| Validators.DateFormatIff | utils/validators.py:14-20 | accepted iff "YYYY-M" or "YYYY-MM" with year 1 to 9999 and month 1 to 12 |
| Validators.ValidateFolderName | utils/validators.py:23-25 | valid iff none of < > : " / \ \| ? * occurs |
| Validators.SanitizeFilename | utils/validators.py:57-59 | same length; each forbidden character becomes '_' and every other character stays |
| Validators.SanitizedIsValid | utils/validators.py:57-59 | the result is a valid folder name, and sanitising twice is sanitising once |
| Validators.SanitizeFixesValid | utils/validators.py:57-59 | sanitising changes nothing iff the name is already valid |
| Validators.Run | utils/validators.py:39 | a greedy `+` run: every character in the class, the next one not |
| Validators.RunUpTo | utils/validators.py:39 | a run ending before a character outside the class has exactly that length |
| Validators.FindSimMatchFrom | utils/validators.py:39 | the leftmost position where "Countdown-Premium-" is followed by a digit |
| Validators.SearchSim | utils/validators.py:39-41 | no match iff the pattern matches nowhere |
| Validators.SearchSimIsRef | utils/validators.py:39-41 | a match is "Countdown-Premium-" followed by digits only |
| Validators.SimIdShape | utils/validators.py:28-48 | empty only for empty input; otherwise starts with the prefix; all-digit input d gives the prefix followed by d |
| Validators.SimIdIdempotent | utils/validators.py:28-48 | validating an accepted SIM id again gives it back |
| Validators.SimRefFacts | utils/validators.py:33-45 | a SIM reference is not all digits and contains no host name |
| Validators.NoDotNoHost | utils/validators.py:38 | a string without '.' does not contain the host name |
| Validators.FindFirstSimMatch | utils/validators.py:39 | a match with none before it is the one found |
| Validators.SimIdFromUrl | utils/validators.py:38-41 | an issues URL followed by "Countdown-Premium-<digits>" gives that reference |
| Validators.SearchAfterUrl | utils/validators.py:39-41 | the search after a URL without 'C' finds the reference with all its digits |
| Validators.FirstMatchAfterUrl | utils/validators.py:39 | the first match is at the end of such a URL |
| Validators.DigitsToEnd | utils/validators.py:39 | `\d+` takes all the trailing digits |
| Validators.SearchSimAt | utils/validators.py:39-41 | the group is the match at the leftmost position |
| Validators.ContainsStill | utils/validators.py:38 | an extended string still contains the host name |
| Validators.NoSimMatchInUrl | utils/validators.py:39 | no match starts inside a URL without 'C' |
| Validators.EmailIff | utils/validators.py:51-54 | the direct check (split at the first '@' and the last '.') agrees with the pattern's backtracking over all splits |
| Validators.ValidateEmail | utils/validators.py:51-54 | accepted iff the pattern matches the whole string, or the string without one final newline (`$`) |
| Validators.EmailIffWithNewline | utils/validators.py:51-54 | the same agreement for the string without its last character |
| Validators.EmailOneAt | utils/validators.py:53 | an accepted address has exactly one '@' |
| CsvHandler.DetectDelimiter | utils/csv_handler.py:59-63 | at most one character; ',' unless the first stripped line contains "sep=" |
| CsvHandler.DirectiveNamesDelimiter | utils/csv_handler.py:59-63 | "sep=c" on the first line makes c the delimiter |
| CsvHandler.DataText | utils/csv_handler.py:67-83 | the data read is a suffix of the file, so skipping the directive line never invents text |
| CsvHandler.EmailListIff | utils/csv_handler.py:76-77 | a plain list iff '@' and ',' occur and none of email, name, login, user occurs, ignoring case |
| CsvHandler.LastTldDot | utils/csv_handler.py:88 | the last position where a top-level domain can start, as backtracking finds it |
| CsvHandler.MatchEnd | utils/csv_handler.py:88 | a match found is a whole address |
| CsvHandler.TldRun | utils/csv_handler.py:88 | `[a-zA-Z]{2,}` has at least two letters |
| CsvHandler.MatchSplit | utils/csv_handler.py:88 | a local part, '@', a domain, '.', and letters make an address |
| CsvHandler.FindAllEmails | utils/csv_handler.py:88 | every string `findall` returns is an address |
| CsvHandler.MatchEndWhole | utils/csv_handler.py:88 | on an address the match spans all of it |
| CsvHandler.FindsWholeAddress | utils/csv_handler.py:88 | `findall` on an address returns exactly that address |
| CsvHandler.StripNonEmpty | utils/csv_handler.py:89 | only non-empty strings are kept |
| CsvHandler.StripFoundUnchanged | utils/csv_handler.py:89 | stripping found addresses keeps them all as they are |
| CsvHandler.ParseRows | utils/csv_handler.py:115-133 | one row per data line |
| CsvHandler.FirstField | utils/csv_handler.py:125-130 | the first field in the list ignoring case, or None when none is |
| CsvHandler.FirstFieldSnoc | utils/csv_handler.py:125-130 | a later field only counts when no earlier one matched |
| CsvHandler.FindColumns | utils/csv_handler.py:125-130 | the column loop picks the first e-mail header and the first login header |
| CsvHandler.LastIndex | utils/csv_handler.py:115 | a repeated header names its last column, as DictReader keeps the last value |
| CsvHandler.RowEmail | utils/csv_handler.py:133-142 | a non-empty e-mail cell gives that cell stripped, even when only whitespace is left. Otherwise a non-empty login cell gives the stripped login when it holds '@', else the login with "@amazon.com"; with neither the row gives nothing |
| CsvHandler.BlankEmailCellDropsRow | utils/csv_handler.py:135-142 | a row whose e-mail cell holds only whitespace adds no address, even when its login cell is filled |
| CsvHandler.RowsEmailsFromRows | utils/csv_handler.py:133-142 | every address found is the one some non-blank data row gives |
| CsvHandler.RowsEmailsHasRow | utils/csv_handler.py:133-142 | every non-blank data row that gives an address has it among the addresses found |
| CsvHandler.RowsEmails | utils/csv_handler.py:133-142 | at most one non-empty address per row |
| CsvHandler.NoColumnsNoEmails | utils/csv_handler.py:133-142 | without an e-mail or login column no address is found |
| CsvHandler.ExtractFromRows | utils/csv_handler.py:133-142 | the row loop computes `RowsEmails` |
| CsvHandler.ExtractFromStructuredCsv | utils/csv_handler.py:110-148 | the method computes `StructuredEmails` |
| CsvHandler.LowerSet | utils/csv_handler.py:100-104 | holds the lower-cased form of every address |
| CsvHandler.LowerSetAppend | utils/csv_handler.py:101-104 | the seen set of a concatenation is the union |
| CsvHandler.KeepFirstFromInput | utils/csv_handler.py:98-104 | every address kept comes from the input |
| CsvHandler.KeepFirstSameForms | utils/csv_handler.py:98-104 | the kept addresses cover every address of the input ignoring case |
| CsvHandler.KeepFirstDistinct | utils/csv_handler.py:98-104 | no two kept addresses are equal ignoring case |
| CsvHandler.KeepFirstNoDuplicates | utils/csv_handler.py:98-104 | input without repeats ignoring case is returned unchanged |
| CsvHandler.LowerSetExcludes | utils/csv_handler.py:102 | a form not seen is not in the set |
| CsvHandler.DedupEmails | utils/csv_handler.py:98-104 | the loop with its `seen` set computes `KeepFirst` |
| CsvHandler.RawEmails | utils/csv_handler.py:85-92 | every address before de-duplication is non-empty |
| CsvHandler.ExtractEmailsFromCsv | utils/csv_handler.py:40-107 | the method gives [] for a missing file, else the raw addresses de-duplicated |
| CsvHandler.ExtractedDistinct | utils/csv_handler.py:98-107 | the result has no repeats ignoring case, and each address is non-empty and found in the file |
| CsvHandler.ListModeValid | utils/csv_handler.py:85-89 | in list mode every address returned passes `validate_email` |
| CsvHandler.CleanedCopy | utils/csv_handler.py:151-169 | the copy is written as "cleaned_<name>" beside the input. It never overwrites the input and holds the file without a first line containing "sep=" |
| DependencyValidator.CutAt | utils/dependency_validator.py:41 | the cut is a prefix of the line containing none of the operators |
| DependencyValidator.PackageName | utils/dependency_validator.py:41 | the name contains none of >=, ==, ~=, >, < |
| DependencyValidator.NameIsStrippedPrefix | utils/dependency_validator.py:41 | the name is the stripped form of a prefix of the stripped line |
| DependencyValidator.Parsed | utils/dependency_validator.py:37-43 | no empty name is listed |
| DependencyValidator.ParsedStep | utils/dependency_validator.py:37-43 | a line adds its name iff it is not blank, not a comment, and gives a non-empty name |
| DependencyValidator.ParsedAppend | utils/dependency_validator.py:37-43 | names keep file order: the names of two parts, concatenated |
| DependencyValidator.SkippedLine | utils/dependency_validator.py:38-43 | a blank line, a comment or an empty name adds nothing |
| DependencyValidator.NamesFromLines | utils/dependency_validator.py:37-43 | every name comes from a considered line of the file |
| DependencyValidator.GetRequirementsList | utils/dependency_validator.py:15-48 | the loop gives the parsed names, or the five fallback packages when the file is missing or unreadable |
| DependencyValidator.Check | utils/dependency_validator.py:81-86 | a package is missing iff it is a requirement that is not available; no more messages than missing packages |
| DependencyValidator.CheckPrefix | utils/dependency_validator.py:81-86 | each requirement extends the result by one step |
| DependencyValidator.AllSatisfiedIff | utils/dependency_validator.py:88 | satisfied iff every requirement is available, and then no message is reported |
| DependencyValidator.CheckAppend | utils/dependency_validator.py:81-86 | missing packages and messages keep requirement order |
| DependencyValidator.OneMessage | utils/dependency_validator.py:83-86 | a missing package is appended, and a message only when it has a non-empty error text |
| DependencyValidator.ValidateAllDependencies | utils/dependency_validator.py:70-88 | the loop computes `ValidateAll` |
| DependencyValidator.Newest | utils/dependency_validator.py:176-181 | at least 0 and at least every cached file's mtime |
| DependencyValidator.NewestIsSomeFile | utils/dependency_validator.py:176-181 | the newest is 0 or some cached file's mtime |
| DependencyValidator.NewestCache | utils/dependency_validator.py:176-181 | the `max` loop computes `Newest` |
| DependencyValidator.WarnsStaleIff | utils/dependency_validator.py:184 | the warning is printed iff the requirements are newer than 0 and than every cached file |
| DebugReporter.FailedImports | utils/debug_reporter.py:322-325 | only "failed" attempts are kept, and some are iff some attempt failed |
| DebugReporter.MissingPackages | utils/debug_reporter.py:332-335 | no more names than packages |
| DebugReporter.GenerateRecommendations | utils/debug_reporter.py:310-344 | the method appends the advice of each section in turn, giving `Advice` |
| DebugReporter.MissingPackagesAre | utils/debug_reporter.py:332-335 | a name is listed iff its package has status "missing" |
| DebugReporter.MissingPackagesAppend | utils/debug_reporter.py:332-335 | the missing names keep dict order |
| DebugReporter.RootPackageAdvised | utils/debug_reporter.py:315-318 | the root-package advice is given iff `__init__.py` is among the missing files |
| DebugReporter.ImportAdvised | utils/debug_reporter.py:321-328 | the import advice is given iff some attempt has status "failed", and both import recommendations come together and in order |
| DebugReporter.DependencyAdvised | utils/debug_reporter.py:331-337 | an install recommendation is given iff some package is missing, and it lists the missing names joined by ", " |
| DebugReporter.AdviceInOrder | utils/debug_reporter.py:310-344 | at most five recommendations, in the fixed order files, imports, dependencies, execution |
| DebugReporter.RanksByPart | utils/debug_reporter.py:310-344 | each section's advice sits at its position in that order |
| DebugReporter.RanksOfAdvice | utils/debug_reporter.py:318-342 | the five recommendations can be told apart |
| DebugReporter.InstallRank | utils/debug_reporter.py:337 | an install recommendation is recognised by its prefix |
| DebugReporter.NoSectionsNoAdvice | utils/debug_reporter.py:310-344 | a report with none of the sections gives no recommendation |
| DebugReporter.DependencyAdviceOfParts | utils/debug_reporter.py:331-337 | the install advice for two parts of the packages lists both parts' missing names |
| DebugReporter.DirectScriptAdvised | utils/debug_reporter.py:108-114 | with the classified method, the direct-script advice is given iff the main file is named cdpRunbooker.py |
| DebugReporter.ExecutionMethodKnown | utils/debug_reporter.py:95-114 | one of four methods; "unknown" iff there is no main file |
| DebugReporter.CollectVariables | utils/debug_reporter.py:72-86 | exactly the relevant variables that are set and non-empty, with `PATH` and `PYTHONPATH` sanitised |
| DebugReporter.SanitisedKeeps | utils/debug_reporter.py:82-85 | other variables, and values not containing the home directory, are kept |
| DebugReporter.NoHomeLeft | utils/debug_reporter.py:85 | after the replacement the home directory no longer occurs |
| DebugReporter.RecommendationsSection | utils/debug_reporter.py:501-511 | a header, a blank line, the recommendations numbered from 1 in order, and a blank line |
| DebugReporter.NumberedLineReadsBack | utils/debug_reporter.py:508-509 | the number and the recommendation can be read back from a numbered line |

## Left out

- Cryptography (Fernet, PBKDF2, base64, the machine-derived key): encryption and decryption are
  function values of `TokenStore.Env`. Results that need a round trip assume it as a `SoundFor`
  precondition.
- Network and client calls (QuipClient, requests, socket): each is a sequence of outcomes or a
  function parameter. The direct-request block of diagnose mode (core/secure_token_manager.py:671-699)
  is left out.
- Diagnose mode's extra logging of versions and SSL details is left out, because it only prints.
- `_validate_token` catching the exceptions of its own imports is left out; only the call's
  outcome is modelled.
- File and OS effects:
  - opening files, `chmod`, `mkdir`, `os.environ`, `platform`, `getpass`, `webbrowser`,
    `os.stat` and the clock become values;
  - `time.sleep` is recorded as a wait;
  - `_ensure_config_directory` and `_set_secure_permissions` are left out;
  - whether the config file can be written is the flag `Env.configWritable`.
- `TokenStore.Store`, `TokenStore.Load`: malformed JSON is the `Unreadable` config file. Exceptions
  other than a failed write are not modelled separately.
- JSON values other than strings are reduced to their truth value (`JOther`).
- `LegacyTokens.Detect`: an unreadable shell file counts as a missing one. Files are modelled as
  text already decoded as UTF-8.
- User interface and printing: messages, banners, progress bars, summaries and the markdown
  report beyond the numbered recommendations are left out. `KeyboardInterrupt`/`sys.exit` are not
  modelled; only end of input (`EOFError`) is.
- `utils/import_resolver.py`, the signal handlers and the SSL certificate setup are process set-up
  and are not part of this model.
- Debug collection (system information, import attempts, file structure, dependency status via
  `pip list`) is not modelled. The report it produces is the `DebugReporter.Report` value.
- `generate_full_report` is not modelled.
- DebugReporter.GenerateRecommendations: an import attempt without a `status` key would raise
  `KeyError` in Python. The model gives every attempt a status.
- The legacy-compatible wrappers `get_api_token`, `get_validated_token`,
  `get_validated_token_with_status`, `ensure_token_in_environment` and `set_token_config_flag` only
  call the modelled flows, and are left out.
- `add_users_from_csv`:
  - the folder-id format warning is left out, because it only logs;
  - `_add_members_direct_api` is not used by the modelled workflow and is left out;
  - the summary printing is left out.
- `RunbookMembers.Resolve`: `list(set(emails))` has an order Python does not define. The model
  takes the de-duplicated e-mails as an input sequence (`remaining`) and proves its results for
  any order. `SetListOf` requires that sequence to hold the CSV's e-mails, each once.
- `RunbookMembers.AddBatch`: the wait before every batch but the first (`RATE_LIMIT_DELAY`, 1.0
  second) is recorded as 1, and the rate-limit retry wait as 5.
- RunbookApp.AddUsersWorkflow: an exception raised by `add_users_from_csv` is re-raised by the
  workflow; the model only has `add_users_from_csv`'s boolean answer.
- `create_engagement_folder` is modelled only for the folder name and parent. The folder creation
  call and the URL are left out.
- `_get_validated_input`, `_get_date_input`, `_get_sim_id` and `_get_test_folder_preference` are
  prompt loops around the modelled validators, and are left out.
- CSV parsing: quoted fields of the `csv` module are not modelled. A row is its line split at the
  delimiter. A delimiter that is not one character makes `csv.DictReader` raise; the handler
  catches that, so no address is found.
- `clean_csv_file`: a failure to write the cleaned file is not modelled; only an unreadable
  (missing) input returns the input path.
- Strings: `lower()` and `isdigit()` are modelled on ASCII. Python's Unicode digits and case
  mappings outside ASCII are left out.
- Validators.DateFormatIff: `strptime` reads `%Y` and `%m` with `\d`, which also matches non-ASCII
  decimal digits such as Arabic-Indic ones. The model accepts ASCII digits only.
- RunbookApp.ParseInt: `int()` also accepts non-ASCII decimal digits, and the model does not. The
  underscore rule and the optional sign are modelled.
- `TokenStore.Env.shellFiles` is the list `_get_shell_config_files()` returns. The flows take it
  as given, and `LegacyTokens.ShellConfigFiles` states that list separately; no contract ties the
  two together.
- `check_installation_currency`: the exception handler is not modelled. A missing
  `requirements.txt` or `__pycache__` is `None`.
