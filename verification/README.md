# Custodia, modelled and verified

Custodia is a secrets server. An HTTP pipeline authenticates and authorizes a request and routes it
to a consumer; the `Secrets` consumer keeps a tree of containers and keys in one flat table of
string keys; an overlay can encrypt the values; forwarders pass requests on to other servers; KEM
messages protect requests and replies end to end.

This project models that machinery in Dafny and proves what holds for every input, every run and
every interleaving. One module per file:

| module | models |
|---|---|
| `Text` | the Python string and POSIX path operations everything is built from |
| `Sqlite` | the table, `LIKE`, and the store whose `list` is a prefilter plus a filter loop |
| `Base64` | the encoder and Python's lenient decoder |
| `Headers` | what the Accept and Content-Type headers mean |
| `Secrets` | the consumer, as functions from table to table and as methods on a mutable store |
| `Tree` | the effect of requests on clean trails: nothing, one row more, one row and its namespace more, one row less |
| `Answers` | what each status code says about the tree |
| `Runs` | sequential runs: parent closure, failures, the audit log, raw secrets |
| `Interleaving` | requests as small programs over the shared table, under every schedule |
| `Closure` | which store calls, under any schedule, leave a row without its parent's |
| `Authorizers` | `SimplePathAuthz` and `UserNameSpace` |
| `Routing` | path chains, the pipeline, sub-consumers |
| `NonInterference` | users kept apart by their namespaces, in sequential runs |
| `Isolation` | the same under every schedule |
| `Overlay` | the encrypting overlay, its pinning and its migration |
| `OverlaySecrets` | the consumer on top of the overlay |
| `OverlayRaces` | the overlay's migrating reads between the store calls of other requests |
| `Forwarder` | loop detection across any graph of forwarders |
| `Kem`, `KemProtocol` | the KEM messages, and the exchange over a hostile network |
| `Wiring` | two-phase plugin initialization over a graph of heap objects |
| `Vault` | vault names and their decoder |
| `Witnesses` | concrete inputs for promises the code does not keep |

`dafny verify dfyconfig.toml` checks everything.

## Conventions

- A *clean trail* has nonempty, slash-free components, with an optional final empty one (a request
  path that ends in a slash).  The request functions themselves are defined on all trails.
- A value column is `Null`, `Blank` (the empty string) or `Held`.  Rows that are not `Held` are the
  ones `list` marks as containers.
- A method that changes the store is proved equal to a function of the old table; what is promised
  about it is proved about that function.
- Clocks, the network, percent-decoding, JSON decoding and message validation, and the verdicts of
  other plugins are parameters.  Encryption and signatures are ideal constructors.

## Where the code and a promise part

- `SimplePathAuthz` returns for a path that starts with two slashes only on a strict match, or if an
  entry is met on the way up within as many turns as the path is long: `os.path.split` leaves a head
  of slashes unchanged (`Authorizers.WalkEndsExactly`, `Authorizers.DoubleSlashStays`,
  `Witnesses.StrictMatchOnly`).
- `_find_handler` pops the list it iterates, so it finds the handler that is meant exactly when no
  sub-consumer has subs of its own (`Routing.PoppingCorrectIffFlat`, `Witnesses.NestedSub`).
- Users are not kept apart by `UserNameSpace` alone.  It compares paths before percent-decoding, and
  the key is joined after it with `os.path.join`, which drops the namespace in front of a component
  that starts with a slash.  Two users with nonempty, slash-free names are kept apart exactly when
  their decoded names differ and no segment that gets through decodes to such a component
  (`NonInterference.KeptApartExactly`); `%2Fx` is one that does (`Witnesses.SharedSecret`).  The rows
  inside a namespace are never changed by anyone else (`NonInterference.ServeSpares`).
- A DELETE without a trailing slash removes a container from above its contents
  (`Runs.ParentClosureStep`, `Witnesses.Orphan`).  Concurrently a DELETE with a trailing slash does
  so too, when the contents arrive after it has looked (`Closure.ClosureStep`,
  `Closure.DestroyRaceExactly`, `Witnesses.RacedOrphan`).
- A refused creation has changed nothing, except where it created the caller's own namespace first:
  alone that takes an unclean trail (`Runs.RefusalChangesExactly`, `Witnesses.RefusedPut`,
  `Witnesses.RefusedPost`), under interleaving any other request that takes the row
  (`Interleaving.RefusedYetChanged`, `Interleaving.RefusedButChanged`).
- A DELETE with a trailing slash removes a secret without an audit record, so a SET_ALLOWED record
  without a later DEL_ALLOWED does not mean that the secret is there (`Runs.StoreExplainsAudit`,
  `Witnesses.SilentDeletion`).
- Vault keys that contain `_/` do not decode to themselves (`Vault.DecodesExactly`,
  `Witnesses.VaultMisread`).
- The overlay's documentation gives "encrypt" as the default protection; the code's default takes
  the pinning branches.  Reads are honest in every run in pinning mode, and in migrate mode exactly
  once no unpinned row is left: until then a migrating read pins whatever it finds
  (`Overlay.PinningExactly`, `Overlay.MigrationTrusts`).
- To clients the overlay is not there, with three exceptions (`OverlaySecrets.HandleMatches`): a
  container read as a key answers 500 instead of 406 (`OverlaySecrets.ContainerReadDiffers`), a null
  value cannot be stored, and an empty value is contents instead of a container
  (`OverlaySecrets.EmptyPutDiffers`).
- A read in migrate mode writes back what it fetched, in a second transaction, so a DELETE answered in
  between is undone and a new value is replaced by the old one.  Behind the
  overlay inserts minus cuts account for the rows, and values change only across cuts, exactly if no
  row is left to migrate (`OverlayRaces.KeepsCountExactly`, `OverlayRaces.KeepsValuesExactly`,
  `OverlayRaces.DeleteUndone`).
- That 409 and 200 mean the row was there does not survive two requests racing to create the same
  default namespace (`Interleaving.RaceRefusesFreshKey`), and survives where nobody creates one
  (`Interleaving.TakenMeansPresent`).  `Interleaving.TakenExactly` says when those answers are given.

## Model

| member | source | states |
|---|---|---|
| `Text.PosixJoinClean` | src/custodia/secrets.py:26-32 | On a clean trail `os.path.join` is joining with slashes. |
| `Text.PosixJoinExactly` | src/custodia/secrets.py:26-32 | On all slash-free components `os.path.join` joins the nonempty ones with slashes, a final empty one leaving a trailing slash. |
| `Text.PosixJoinRestarts` | src/custodia/secrets.py:32 | An absolute component discards everything before it, wherever it stands. |
| `Text.SplitJoin` | src/custodia/httpd/server.py:305-311 | Splitting undoes joining on slash-free components, so trails and paths determine each other. |
| `Text.SlashJoinBelow` | src/custodia/store/sqlite.py:108-112 | The string test "starts with path + '/'" is the component-wise test "is a longer trail". |
| `Text.SortedUnique` | src/custodia/store/sqlite.py:118-120 | A sorted result depends only on how often each name occurs, not on the order of rows. |
| `Text.StrLeExactly` | src/custodia/store/sqlite.py:118-120 | The order sorted by: the first difference decides, the smaller code point first, and a prefix comes first. |
| `Sqlite.PrefilterKeeps` | src/custodia/store/sqlite.py:94-99 | Whatever `%`, `_` or case the path contains, every key that starts with it matches the LIKE pattern. |
| `Sqlite.PrefilterIsWider` | src/custodia/store/sqlite.py:94-99 | The pattern also lets rows through that are not below the path: `_` in it stands for any character, letters for either case. |
| `Sqlite.BelowExactly` | src/custodia/store/sqlite.py:105-117 | A key is below a path iff it is the path, a slash and something more, and below the empty path iff it is not empty. |
| `Sqlite.ListOfIsListing` | src/custodia/store/sqlite.py:105-120 | A returned listing is sorted and holds each name as often as there are rows strictly below bearing it, `/` marking empty values. |
| `Sqlite.ListOfAbsent` | src/custodia/store/sqlite.py:118-128 | For a nonempty path None is returned iff no row is at or below it, and the empty list iff rows are only at it. |
| `Sqlite.ListOfLocal` | src/custodia/store/sqlite.py:90-128 | A listing depends only on which rows are at or below the path and which of them are empty. |
| `Sqlite.EntryRejoins` | src/custodia/store/sqlite.py:113-117 | On clean keys a listed name rejoins to its row. |
| `Sqlite.EntryNameExactly` | src/custodia/store/sqlite.py:113-117 | A row is listed under what follows the path, less any slashes in front, with a slash behind it if it is empty. |
| `Sqlite.ListedNamesDistinct` | src/custodia/store/sqlite.py:107-120 | On a clean table listed names are distinct and are exactly those of the rows strictly below. |
| `Sqlite.SqliteStore.Get` | src/custodia/store/sqlite.py:29-44 | The row's value; None for a missing row and for NULL. |
| `Sqlite.SqliteStore.Set` | src/custodia/store/sqlite.py:51-71 | Refuses a trailing slash, refuses an existing key unless replacing, otherwise stores exactly that row. |
| `Sqlite.SqliteStore.Span` | src/custodia/store/sqlite.py:73-88 | Adds an empty row under the stripped key, or reports that it exists. |
| `Sqlite.SqliteStore.List` | src/custodia/store/sqlite.py:90-128 | The prefilter and filter loop, rows in any order, return the simple subtree specification for every table and path. |
| `Sqlite.SqliteStore.Cut` | src/custodia/store/sqlite.py:130-145 | Removes exactly that row and says whether it was there. |
| `Base64.RoundTrip` | src/custodia/secrets.py:61-67 | Every byte string survives encoding and lenient decoding. |
| `Base64.TestVectors` | src/custodia/secrets.py:65 | The encoder agrees with vectors of section 10 of RFC 4648 for each kind of final group. |
| `Base64.AlphabetExactly` | src/custodia/secrets.py:65 | The alphabet: capitals, small letters, digits, plus and slash, in order. |
| `Base64.EncodesGroups` | src/custodia/secrets.py:65 | Each three bytes are written as the four digits of their number to the base of 64, missing ones as padding. |
| `Base64.DecodesThenRest` | src/custodia/secrets.py:125 | Encoded groups decode to their bytes and leave the rest of the text to itself. |
| `Base64.DecodesLast` | src/custodia/secrets.py:125 | A final padded group decodes to the bytes its digits fill, spare bits and any ASCII text behind it being ignored. |
| `Base64.DecodeSkips` | src/custodia/secrets.py:125 | An ASCII character outside the alphabet is as good as not there. |
| `Base64.UnpaddedExactly` | src/custodia/secrets.py:125 | Text without padding decodes iff it is ASCII and its digits fill their groups. |
| `Headers.StripExactly` | src/custodia/secrets.py:115-118 | Stripping a text gives the one core without whitespace at its ends that has only whitespace around it. |
| `Headers.ListedTypes` | src/custodia/secrets.py:113-115 | The types read from an Accept header are those its text lists, separated by commas, with any whitespace around each. |
| `Headers.KindExactly` | src/custodia/secrets.py:318-319 | The kind read from a Content-Type header is what stands before its first semicolon, without whitespace around it. |
| `Secrets.AcceptsBinary` | src/custodia/secrets.py:110-119 | For a header that lists media types with any whitespace around them, the loop picks binary iff application/octet-stream is listed and application/json is not; without a header never. |
| `Secrets.SecretsConsumer.CheckParent` | src/custodia/secrets.py:84-104 | Verdict and table of the parent check, with the automatic default namespace. |
| `Secrets.SecretsConsumer.DoList` | src/custodia/secrets.py:161-186 | Computes the specified listing answer. |
| `Secrets.SecretsConsumer.DoCreate` | src/custodia/secrets.py:188-223 | Computes the specified table and answer of POST. |
| `Secrets.SecretsConsumer.DoDestroy` | src/custodia/secrets.py:225-260 | Computes the specified table and answer of a container DELETE. |
| `Secrets.SecretsConsumer.DoGetKey` | src/custodia/secrets.py:285-308 | Computes the specified answer of a key GET, Accept handling included. |
| `Secrets.SecretsConsumer.DoSetKey` | src/custodia/secrets.py:314-364 | Computes the specified table and answer of PUT. |
| `Secrets.SecretsConsumer.DoDelKey` | src/custodia/secrets.py:370-400 | Computes the specified table and answer of a key DELETE. |
| `Secrets.SecretsConsumer.Serve` | src/custodia/secrets.py:131-159 | Dispatch: table, answer and appended audit records are those of the specified request. |
| `Tree.KeyOfComps` | src/custodia/secrets.py:26-32 | Row keys and clean trails determine each other. |
| `Tree.KeyOfBelow` | src/custodia/store/sqlite.py:108-112 | Being at or strictly below, read off the keys, is equality and proper prefix of trails. |
| `Tree.TrailKey` | src/custodia/secrets.py:26-49 | The key computed for a clean trail, with and without trailing slash. |
| `Tree.ParentEffect` | src/custodia/secrets.py:84-104 | The parent check succeeds iff some row is at or below the parent, or it is the caller's own namespace, which is then fresh and cannot collide with the key. |
| `Tree.HandleEffect` | src/custodia/secrets.py:131-400 | Every request on a clean trail leaves the table alone, adds one row, adds one row and its namespace, or removes one row; its status says which. |
| `Answers.PutAnswers` | src/custodia/secrets.py:314-364 | PUT of a body its media type can store: 404 iff no parent, else 409 iff a row exists, else 201, and then the row holds the octets in Base64 or the JSON value as sent. |
| `Answers.PayloadExactly` | src/custodia/secrets.py:51-75 | What a PUT stores, by media type, body and message: octets in Base64, a JSON value as it is, null and empty values as such; and whether a bad one is 400 or 406. |
| `Answers.PostAnswers` | src/custodia/secrets.py:195-223 | POST without a body or with an allowed message: 404 iff no parent, else 200 iff a row exists, else 201. |
| `Answers.DestroyAnswers` | src/custodia/secrets.py:231-260 | Container DELETE without a body or with an allowed message: 409 iff rows are below, else 204 iff the row exists, else 404. |
| `Answers.DeleteAnswers` | src/custodia/secrets.py:376-400 | Key DELETE without a body or with an allowed message: 204 iff the row exists, whatever is below it, else 404. |
| `Answers.BodyRefusedExactly` | src/custodia/secrets.py:76-82 | On all trails POST and DELETE answer 406, changing nothing, iff there is a body that is not an allowed message. |
| `Answers.ListAnswers` | src/custodia/secrets.py:167-176 | Container GET: 404 iff nothing is at or below, else the listing of the rows strictly below. |
| `Answers.DefaultListAnswers` | src/custodia/secrets.py:34-49 | GET without a container lists the default namespace, 403 without one. |
| `Answers.GetAnswers` | src/custodia/secrets.py:104-129 | Key GET on any trail: 404 without a value, 406 on a container, else the value, decoded iff the Accept header lists octets and not JSON; 500 if it does not decode or the name ends in an encoded slash. |
| `Answers.RefusedBeforeStore` | src/custodia/secrets.py:131-159 | On any trail, refused without looking at the table: 405 unsupported, 500 nameless client, 400 for a PUT with nothing to store, 406 for every other bad message and for a PUT message that is refused, 403 outside a container; nothing changes. |
| `Runs.FailureChangesNothing` | src/custodia/secrets.py:98-102 | On a clean trail a non-2xx answer, and a 200 to POST, leave the table unchanged. |
| `Runs.RefusalChangesExactly` | src/custodia/secrets.py:84-104 | On all trails, an answer other than 201 and 204 goes with a changed table iff the caller's missing namespace was created and the row to be written is there, is the namespace's own, or has a key ending in a slash; the namespace row is then the only change. |
| `Runs.ParentClosureStep` | src/custodia/secrets.py:188-400 | A request keeps every row's parent present iff it is not a slashless DELETE of a node with rows below. |
| `Runs.ParentClosure` | src/custodia/secrets.py:188-400 | From the empty table every run without such a DELETE keeps the parent row of each row at depth two or more. |
| `Runs.DestroyRemovesOneLeaf` | src/custodia/secrets.py:225-260 | A 204 on a container removed exactly one row, with nothing below it. |
| `Runs.OneRecordPerKeyRequest` | src/custodia/secrets.py:271-279 | A key request by a known client leaves one record with that client and the joined trail: GET_ALLOWED iff 200, SET_ALLOWED iff 201, DEL_ALLOWED iff 204, else the DENIED one of its kind; other requests leave none. |
| `Runs.AuditExplainsStore` | src/custodia/secrets.py:271-400 | After any run every secret present has a SET_ALLOWED record with no later DEL_ALLOWED record of the same key. |
| `Runs.StoreExplainsAudit` | src/custodia/secrets.py:131-159 | The converse, exactly: a row with a SET_ALLOWED record and no later DEL_ALLOWED is there iff its last change was not a DELETE with a trailing slash, which leaves no record. |
| `Runs.RowSurvives` | src/custodia/secrets.py:314-400 | A row keeps its value through every request but a successful DELETE of its own trail. |
| `Runs.RawRoundTrip` | src/custodia/secrets.py:285-364 | A nonempty octet-stream body comes back byte for byte to a GET that accepts octets and not JSON, after any requests that did not delete it. |
| `Runs.JsonRoundTrip` | src/custodia/secrets.py:285-364 | A nonempty JSON value comes back character for character to a GET that does not ask for octets, after any requests that did not delete it. |
| `Interleaving.AloneIsSequential` | src/custodia/secrets.py:131-400 | The store steps of a request, run alone, are the sequential request. |
| `Interleaving.TickKeeps` | src/custodia/httpd/server.py:55-64 | Every store step of every request keeps the table equal to the replay of a log whose inserts hit absent and whose cuts hit present keys. |
| `Interleaving.InsertsMinusCuts` | src/custodia/store/sqlite.py:51-88 | Under every schedule inserts minus cuts of a key is 1 if its row is present and 0 otherwise, namespaces included. |
| `Interleaving.ValueFixedBetweenCuts` | src/custodia/store/sqlite.py:130-145 | Under every schedule a key's value changes only across a successful cut of it. |
| `Interleaving.OneCreationBetweenCuts` | src/custodia/secrets.py:338-364 | Two requests that both answered 201 for the same row have a successful cut of it between their inserts. |
| `Interleaving.TakenExactly` | src/custodia/secrets.py:84-104 | Under every schedule a PUT ends in 409, a POST in 200, iff it found its row when about to write it, or another process created the default namespace between its parent check and its own attempt. |
| `Interleaving.TakenMeansPresent` | src/custodia/secrets.py:98-102 | Away from the creation of one's own namespace, 409 and 200 mean under every schedule that the row was there. |
| `Interleaving.CreatedOrParentless` | src/custodia/secrets.py:338-364 | Under every schedule 201 means that the row was absent when written, 404 that the parent was absent, and not to be created, when looked for. |
| `Interleaving.RefusedYetChanged` | src/custodia/secrets.py:84-104 | Under every schedule a request that answers neither 201 nor 204 has changed the table iff it created its caller's namespace and later could not write its row. |
| `Interleaving.RefusedButChanged` | src/custodia/secrets.py:98-102 | Two creations of one row in a missing namespace: a schedule in which the one that created the namespace is refused. |
| `Interleaving.RaceRefusesFreshKey` | src/custodia/secrets.py:98-102 | Two creations, PUT or POST, racing for one namespace: a schedule in which the second answers 409 or 200 though its key was never stored. |
| `Closure.ClosureStep` | src/custodia/secrets.py:188-400 | One store call keeps every row's parent present iff it neither cuts a row with rows below nor writes one whose parent is gone by then. |
| `Closure.ClosedThroughoutExactly` | src/custodia/httpd/server.py:55-64 | From the empty table, under every schedule, every row has its parent's at all times iff no step is such a call. |
| `Closure.DestroyRaceExactly` | src/custodia/secrets.py:231-260 | Under every schedule a container DELETE cuts a row from above others iff another process put one there since the DELETE found the container empty. |
| `Closure.PutDestroyRace` | src/custodia/secrets.py:338-364 | A PUT finds its parent, a container DELETE removes it, the PUT writes: both succeed and the row has no parent. |
| `Authorizers.WalkEndsExactly` | src/custodia/httpd/authorizers.py:36-45 | The upward walk ends iff the path does not start with two slashes or an entry is met within as many turns as the path is long. |
| `Authorizers.AncestorMatchInTime` | src/custodia/httpd/authorizers.py:36-45 | An entry is met on the way up iff one is met within as many turns as the path is long. |
| `Authorizers.DoubleSlashStays` | src/custodia/httpd/authorizers.py:42-45 | The walk never leaves the path of two slashes. |
| `Authorizers.HeadExactly` | src/custodia/httpd/authorizers.py:42-45 | One step up: the path without what follows its last slash and the slashes before that, unless only slashes are left. |
| `Authorizers.StrictMatchExactly` | src/custodia/httpd/authorizers.py:23-34 | A strict match is an entry equal to the path and ending in neither slash nor dot, or the path with a dot behind it. |
| `Authorizers.SimplePathAuthz` | src/custodia/httpd/authorizers.py:20-48 | Wherever it returns, it passes iff an entry not ending in a slash, less one dot, is the path, or an entry is the path or an ancestor. |
| `Authorizers.AncestorIsComponentPrefix` | src/custodia/httpd/authorizers.py:36-45 | On single-slash absolute paths the ancestor test is component-wise prefix. |
| `Authorizers.AncestorsExactly` | src/custodia/httpd/authorizers.py:36-45 | For any entries, a single-slash path is met iff an entry is the path or the path cut off after some component. |
| `Authorizers.ContainerAncestorsExactly` | src/custodia/httpd/authorizers.py:36-45 | For a path with a trailing slash, that path as it stands, or the same of the path without the slash. |
| `Authorizers.ContainerBelowEntry` | src/custodia/httpd/authorizers.py:36-45 | An entry of components admits a container's path iff they are a prefix of its components, all of them included. |
| `Authorizers.UserNameSpace` | src/custodia/httpd/authorizers.py:55-80 | Passes iff the path is below the base and the user's own name, abstains iff outside the base, and sets the default namespace only on a pass. |
| `Routing.ParsePath` | src/custodia/httpd/server.py:305-311 | The chain of unquoted segments. |
| `Routing.Pipeline` | src/custodia/httpd/server.py:440-492 | A consumer is reached iff the path is absolute, no authenticator or authorizer said False, one of each said True and a prefix is mounted; it is the longest one and mount plus trail is the chain; otherwise 400, 403 or 404. |
| `Routing.SelectionUnique` | src/custodia/httpd/server.py:481-490 | A chain selects at most one mount. |
| `Routing.Consumer.constructor` | src/custodia/plugin.py:428-431 | No subs, own root. |
| `Routing.Consumer.AddSub` | src/custodia/plugin.py:433-436 | The sub is entered under its name and takes over the root; nothing else changes. |
| `Routing.Consumer.FindHandler` | src/custodia/plugin.py:438-457 | The pop-while-iterating loop, and its agreement with the meant descent on one-level trees. |
| `Routing.PoppingCorrectIffFlat` | src/custodia/plugin.py:443-451 | The loop finds the meant handler on every trail iff no sub-consumer has subs. |
| `Routing.MakeRoot` | src/custodia/root.py:13-16 | A store brings one `secrets` sub without subs, rooted at the Root. |
| `Routing.SecretsSeesSameTrail` | src/custodia/root.py:13-16 | On every path below /secrets a sub of Root sees the trail a consumer mounted at /secrets sees. |
| `NonInterference.NamespacesDisjoint` | src/custodia/secrets.py:26-49 | Rows of distinct slash-free namespaces are disjoint. |
| `NonInterference.OwnsExactly` | src/custodia/secrets.py:26-32 | A trail that starts in a namespace gets a key inside it iff no component starts with a slash. |
| `NonInterference.HandleAlike` | src/custodia/secrets.py:84-400 | A request within a namespace sees and changes rows of that namespace only, for any trail without absolute components. |
| `NonInterference.ServeAlike` | src/custodia/httpd/authorizers.py:55-80 | The same for a call behind `UserNameSpace` and the mount none of whose decoded components starts with a slash. |
| `NonInterference.ServeSpares` | src/custodia/httpd/authorizers.py:55-80 | No call, whatever its path decodes to, changes a row of another user's namespace. |
| `NonInterference.OutsideRefused` | src/custodia/httpd/authorizers.py:55-80 | A call outside the base path or the caller's own name below it answers 403 and changes nothing. |
| `NonInterference.NonInterference` | src/custodia/httpd/authorizers.py:55-80 | From any table, deleting all of one user's requests, on any paths, from a run leaves every answer to another user unchanged, if that user's own paths decode to no absolute component and no other name decodes to theirs. |
| `NonInterference.KeptApartExactly` | src/custodia/httpd/server.py:305-311 | Over all runs of calls whose raw segments a front end lets through, two users are kept apart iff their decoded names differ and no such segment decodes to a component that starts with a slash. |
| `Isolation.AdvanceAlike` | src/custodia/secrets.py:84-400 | One store call of a request within a namespace depends on the rows of that namespace only. |
| `Isolation.AloneServes` | src/custodia/httpd/server.py:55-64 | A process that runs alone gives the answer and leaves the table of the call served at once. |
| `Isolation.Isolation` | src/custodia/httpd/server.py:55-64 | From any table and under every schedule, removing all of one user's processes leaves every step and answer of another user's processes unchanged. |
| `Overlay.EncryptedOverlay.Set` | src/custodia/store/encgen.py:91-99 | Stores the sealed value, pinned to the key except in encrypt mode, and overwrites the protected header. |
| `Overlay.EncryptedOverlay.Get` | src/custodia/store/encgen.py:66-89 | The specified result in each mode, rewriting an unpinned row in migrate mode. |
| `Overlay.EncryptedOverlay.Span` | src/custodia/store/encgen.py:101-102 | Passes through. |
| `Overlay.EncryptedOverlay.List` | src/custodia/store/encgen.py:104-105 | Passes through. |
| `Overlay.EncryptedOverlay.Cut` | src/custodia/store/encgen.py:107-108 | Passes through. |
| `Overlay.OverlaySimulatesStore` | src/custodia/store/encgen.py:66-108 | In every mode, from any table whose rows the overlay can read, rows still to be migrated included, runs with nonempty values and no reads of containers give the results of the plain store. |
| `Overlay.FittingReads` | src/custodia/store/encgen.py:66-89 | A sealed row reads back iff its pin is its own key, or the mode is encrypt, or the mode is migrate and it has no pin and can be rewritten. |
| `Overlay.GetExactly` | src/custodia/store/encgen.py:66-89 | A read is absent iff there is no row or NULL, a value iff the token is the overlay's own and its pin fits, an error otherwise; it writes only to pin an unpinned row in migrate mode. |
| `Overlay.PinnedStep` | src/custodia/store/encgen.py:77-99 | Every call and every rewriting of backing rows keeps each pinned token's content among what was stored under its pin, and in migrate mode makes no unpinned token. |
| `Overlay.PinningExactly` | src/custodia/store/encgen.py:26-32 | From any table whose pinned rows are pinned to their own keys: reads return only what was stored under that key, in all runs with arbitrary rewriting, iff the mode is pinning, or migrate and nothing is left to migrate. |
| `Overlay.MigrationTrusts` | src/custodia/store/encgen.py:79-84 | In migrate mode an unpinned row copied to another key is read there, pinned there, and read there in pinning mode from then on. |
| `Overlay.MigrateGet` | src/custodia/store/encgen.py:79-84 | A migrating read returns what encrypt mode would and removes exactly that key from the unpinned rows. |
| `Overlay.MigrationConverges` | src/custodia/store/encgen.py:77-99 | After reading every key, in any order, pinning mode reads what encrypt mode read before. |
| `OverlaySecrets.HandleMatches` | src/custodia/store/encgen.py:66-108 | In every mode and from any table the overlay can read, a request gets the same answer and audit record and leaves corresponding tables iff it neither reads a container as a key nor gets to write null, or an empty value to an absent row. |
| `OverlaySecrets.OverlayIsTransparent` | src/custodia/secrets.py:285-364 | From any such table, runs of such requests get the answers and leave the audit log of a server without overlay, in every mode and across migrating reads. |
| `OverlaySecrets.ContainerReadDiffers` | src/custodia/store/encgen.py:70-76 | A key GET is answered differently iff it reads a container: 406 without the overlay, 500 behind it. |
| `OverlaySecrets.EmptyPutDiffers` | src/custodia/secrets.py:338-364 | A null value answers 500 behind the overlay and 201 or 409 without it; an empty value answers 201 on both and is a container on one side only. |
| `OverlayRaces.FetchThenRewrite` | src/custodia/store/encgen.py:66-89 | The two transactions of a migrating read, run without interruption, are the read. |
| `OverlayRaces.KeepsCountExactly` | src/custodia/store/encgen.py:79-84 | Over every sequence of store calls behind the overlay, inserts minus cuts account for the rows iff the mode is not migrate or no row is left that a read would rewrite. |
| `OverlayRaces.KeepsValuesExactly` | src/custodia/store/encgen.py:79-84 | Exactly then, a value only changes across a successful cut. |
| `OverlayRaces.DeleteUndone` | src/custodia/store/encgen.py:79-84 | GET fetches an unpinned row, DELETE succeeds, and the rewrite brings the row back. |
| `OverlayRaces.PutOverwritten` | src/custodia/store/encgen.py:79-84 | GET fetches an unpinned row, it is deleted and stored anew, and the rewrite brings the old value back. |
| `OverlayRaces.RewriteHarmlessExactly` | src/custodia/store/encgen.py:79-84 | A rewrite leaves presence and reading of its row alone iff the row still reads as it was fetched. |
| `Forwarder.Forwarder.constructor` | src/custodia/forwarder.py:30-33 | The configured headers with the own id as loop header. |
| `Forwarder.Forwarder.Forward` | src/custodia/forwarder.py:43-60 | Refuses iff its id occurs in the X-LOOP-CUSTODIA header received, else sends its own headers with its id put in front of what that header held. |
| `Forwarder.Forwarder.Respond` | src/custodia/forwarder.py:51-56 | The status unchanged, content only with a success. |
| `Forwarder.RefusesIffVisited` | src/custodia/forwarder.py:59 | The substring test on the header is membership in the list of visited forwarders. |
| `Forwarder.ForwardingTerminates` | src/custodia/forwarder.py:43-62 | In any graph of n forwarders at most n are visited, refusal with 502 happens iff one is met again, and otherwise the final status reaches the first caller. |
| `Kem.ExpiryIsFiveMinutes` | src/custodia/message/kem.py:228 | The expiry is 300 seconds after the current second. |
| `Kem.KeysFiledApart` | src/custodia/message/kem.py:56-70 | Keys of different kids or uses never share a row. |
| `Kem.KEMKeysStore.GetServerKeys` | src/custodia/message/kem.py:72-81 | The pair registered under the configured kid, none if there is no kid or either key is missing, and kept once found. |
| `Kem.KEMKeysStore.GetAlgorithm` | src/custodia/message/kem.py:83-96 | The configured algorithm, else RS256 iff the server signs with RSA and ES256 iff with EC, kept once found. |
| `Kem.KEMHandler.Parse` | src/custodia/message/kem.py:133-183 | Accepts exactly the specified messages and records client keys, name and payload. |
| `Kem.KEMHandler.Reply` | src/custodia/message/kem.py:185-200 | A reply to the recorded name, or to a null subject after a failed parse, signed by the server and encrypted to the recorded client key; an error without keys, RSA or algorithm. |
| `Kem.AcceptsExactly` | src/custodia/message/kem.py:99-176 | A message is accepted iff it is, or the server's key finds in it, a token signed by the key registered under its kid, with both keys registered, the name as subject and an expiry neither past nor more than ten minutes ahead. |
| `Kem.RequestAcceptedExactly` | src/custodia/message/kem.py:133-183 | The same with two clock readings, encrypted or not, and for the request's own name only. |
| `Kem.ReplyGoesToSigner` | src/custodia/message/kem.py:165-198 | Whatever message is accepted, any client whatever understands the reply iff it holds the encryption key registered under the kid, trusts the server's signing key, asked about that name and reads it in time. |
| `Kem.ExchangeExactly` | src/custodia/message/kem.py:203-247 | A whole exchange yields v iff both windows hold and v is the output. |
| `KemProtocol.SignatureHasAuthor` | src/custodia/message/kem.py:226-241 | Every signature by an uncorrupted key that the network can present was made in a step of the run, for that name and value. |
| `KemProtocol.AcceptedWasMeant` | src/custodia/message/kem.py:164-176 | Over any run on a hostile network, what is accepted under an uncorrupted signing key was signed by its owner in a step of the run, for that name and value, within the window. |
| `KemProtocol.CorruptKeyForges` | src/custodia/message/kem.py:164-176 | With a corrupted registered signing key the network gets any value accepted for any name, signed only or encrypted as well. |
| `KemProtocol.RecoveredWasAnswered` | src/custodia/message/kem.py:218-223 | Over any run, a value a client recovers was signed by the server in a step of the run, for that name, within the window. |
| `KemProtocol.ReadableExactly` | src/custodia/message/kem.py:236-241 | Over any run, the network can read a value iff some step sent it unencrypted or to a corrupted key, or answered a kid whose registered encryption key is corrupted. |
| `Wiring.Plugin.AttachStore` | src/custodia/plugin.py:351-365 | Terminates on every graph; attaches soundly, keeps earlier attachments, settles what it newly attaches, touches only what is reachable, and fails only with a dangling name in reach. |
| `Wiring.Plugin.FinalizeInit` | src/custodia/plugin.py:367-376 | The same for a plugin that may name no store. |
| `Wiring.SettledSpreads` | src/custodia/plugin.py:351-376 | Settledness spreads along named stores, cycles included. |
| `Wiring.FinalizeAll` | src/custodia/server/__init__.py:122-127 | Unless a name in reach is dangling, exactly the plugins reached from the given ones are attached, each to the store it names, whatever the order. |
| `Vault.DecodesExactly` | src/custodia/ipa/vault.py:114-120 | For keys without `__`, decoding the mangled key gives it back iff it has no `_/`. |
| `Vault.NamesRoundTrip` | src/custodia/ipa/vault.py:190 | Decoding a slash-free name gives a recoverable key that mangles back to it. |
| `Vault.WidenParts` | src/custodia/ipa/vault.py:114-120 | Mangling replaces slashes one by one, wherever they stand. |
| `Vault.UnmangleParts` | src/custodia/ipa/vault.py:190 | Decoding replaces the leftmost pair of underscores, then goes on behind it. |
| `Vault.MangleIsInjectiveExactly` | src/custodia/ipa/vault.py:114-120 | Mangling is injective on the recoverable keys, and every other legal key shares its name with a recoverable one. |
| `Vault.List` | src/custodia/ipa/vault.py:187-194 | The last names of the decoded keys that pass the filter, in order. |
| `Vault.LastNameExactly` | src/custodia/ipa/vault.py:193 | The name listed is what stands behind the last slash of the key, or the whole key. |
| `Vault.LastNamesExactly` | src/custodia/ipa/vault.py:187-194 | A name is listed iff it is the last name of a key that starts with the filter, if there is one. |
| `Vault.ListingFindsKeys` | src/custodia/ipa/vault.py:187-194 | The decoded names are the stored keys iff all of them are recoverable. |
| `Witnesses.Orphan` | src/custodia/secrets.py:370-400 | POST a/, POST a/b/, PUT a/b/c, DELETE a/b leaves the secret without its container. |
| `Witnesses.RacedOrphan` | src/custodia/secrets.py:225-260 | POST a/, POST a/b/, then PUT a/b/c racing DELETE a/b/: 201 and 204, and the secret is left without its container. |
| `Witnesses.SilentDeletion` | src/custodia/secrets.py:131-159 | PUT a/k, DELETE a/k/: the log records the storing and nothing else, and the row is gone. |
| `Witnesses.RefusedPut` | src/custodia/secrets.py:84-104 | PUT <own name>/x%2F on an empty table answers 500 and creates the namespace. |
| `Witnesses.RefusedPost` | src/custodia/secrets.py:188-223 | POST <own name>// on an empty table answers 200 and creates the namespace. |
| `Witnesses.SharedSecret` | src/custodia/secrets.py:26-32 | Behind the server, one user stores a secret at /secrets/<own name>/%2Fx and any other user reads it at /secrets/<own name>/%2Fx, where there is 404 without the first. |
| `Witnesses.StrictMatchOnly` | src/custodia/httpd/authorizers.py:25-45 | With the entry "//x." the path "//x" passes though the walk up from it never ends. |
| `Witnesses.NestedSub` | src/custodia/plugin.py:443-451 | Built with two `add_sub` calls, a sub two levels down is not found: the loop stops at the first level. |
| `Witnesses.VaultMisread` | src/custodia/ipa/vault.py:114-120 | The key "a_/b" is listed as "a/_b". |

## Left out

- Sockets, TLS, systemd activation, forking and peer credentials: operating system plumbing.
- Backend errors (`CSStoreError`, `CSStoreDenied`, `CSStoreUnsupported` raised by the store itself): the table never fails.
- `allowed_keytypes` and KEM payloads inside `Secrets`: requests carry simple messages, already decoded and validated or refused.
- Commands other than GET, PUT, POST and DELETE, which answer 501.
- Service audit records (authentication and authorization): only key audit records are modelled.
- The HTTP layer's headers and JSON rendering: an answer is a code and an output.
- `Forwarder._path`, timeouts and TLS settings, and the page sent with an error status.
- `store/enclite.py`: the overlay's encrypt mode again.
- The JWT library's own claim checks, algorithm negotiation inside JWS and JWE, and JSON decoding of stored keys.
- JWE failures on `set` in the overlay, other than the one on a null value in `OverlaySecrets`.
- `ipa/interface.py`, `ipa/certrequest.py` and the remote calls of `ipa/vault.py`: almost all foreign code.
- `client.py`, `cli/`, `server/config.py`, `server/args.py`, `OptionHandler`: wrappers, argument and option parsing.
- `httpd/authenticators.py`: only the verdicts enter the pipeline.
