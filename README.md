# Helios cluster bootstrap, modelled in Dafny

The Helios bootstrap script lays down the skeleton of a new Helios namespace
in ZooKeeper. `bootstrap(client, namespace)` does four things:

1. It renders six node paths from the templates `/helios/%s`, `…/config`,
   `…/config/hosts`, `…/config/id`, `…/status` and `…/status/hosts`.
2. It commits one transaction that checks every path (any version). If any
   check reports the node as present, it logs those paths and returns 1.
3. It creates `/helios` outside any transaction when that node is absent.
4. It commits a second transaction that creates the six paths. If any
   create did not return its own path, it logs the paths not created and
   returns 1. Otherwise it returns `None`.

`main` exits with status 1 when the connection times out. Otherwise it
exits with status 0 exactly when `bootstrap` returned `None`.

The model has four modules:

- `Wrappers`: an `Option` type.
- `Paths`: the templates, Python's `%` for one string argument, the node
  list, and the parent relation the store enforces between paths.
- `Store`: the coordination store as a set of node paths.
  - `Perform` is one `exists`/`create`/`check` call.
  - `Run` is an atomic batch that reports one result per operation.
  - `Client` and `Transaction` are classes whose methods change that set or
    collect operations.
- `Bootstrap`:
  - `Protocol` is the whole call as a function of the store, the namespace
    id and what other clients do meanwhile (`Race`).
  - The method `Bootstrap` runs the same steps against a `Client` and is
    proved equal to `Protocol`.
  - `ExitStatus` is `main`'s exit status.
  - The lemmas state what a call guarantees.

The batch semantics follow the comment at `bootstrap.py:94-96`:

- Operations before the first failure report success: `True` for a check,
  the created path for a create.
- The failing operation reports its own error (`NoNode`, `NodeExists`,
  `BadArguments`).
- Every later operation reports a runtime inconsistency.
- A batch that fails changes nothing.

A create needs its parent node. The store checks path syntax first, then
the parent, then whether the node exists.

Behaviour as written, which the model keeps. The two report bullets hold
under the batch semantics of that comment; `## Left out` says what they
become under the results kazoo really returns.

- **Root race.** Suppose another client creates `/helios` between the
  `exists` and the `create`. Then `client.create("/helios")` raises a
  node-exists error that nothing catches. The call does not treat it as
  success. The model returns `RootCreateRaised`, which gives exit status 1
  (`Bootstrap.RootRaceRaises`).
- **Collision report.** The report names the present nodes at the front of
  the node list, up to the first absent one. It does not name every present
  node. The check after that absent node only reports a dependent failure
  (`Bootstrap.CollisionReportStopsAtFirstAbsent`).
- **Creation-failure report.** The report names the node list from the
  first failed create on. Later creates report dependent failures and count
  as not created. So when the namespace's own node appeared between the two
  transactions, all six paths are reported (`Bootstrap.CreateStepAfterRace`).

## Model

| member | source | states |
|---|---|---|
| `Paths.Format` | bootstrap.py:79 | Python's `%` with one argument: text without `%` renders to itself once the argument is consumed, and raises while it is left over |
| `Paths.Interpolate` | bootstrap.py:79 | `template % namespace` raises for a template without a placeholder; `TemplateRenders` gives the rendering of each of the six templates |
| `Paths.FormatLiteralPrefix` | bootstrap.py:79 | `%` copies text without a `%` through unchanged |
| `Paths.InterpolateOnePlaceholder` | bootstrap.py:79 | a template with one `%s` and no other `%` renders to the argument spliced in at the placeholder |
| `Paths.TemplateShape` | bootstrap.py:80-85 | each template is `/helios/%s` followed by a suffix without `%` |
| `Paths.TemplateRenders` | bootstrap.py:79-86 | template `i` renders to `/helios/` + namespace + its suffix |
| `Paths.NodeList` | bootstrap.py:79-86 | `node_list` has one entry per template; `NodeListRendersTemplates` ties each entry to `%` applied to its template |
| `Paths.NodeListRendersTemplates` | bootstrap.py:79-86 | `node_list[i]` is what `%` makes of template `i`, for all six templates |
| `Paths.NodeListDistinct` | bootstrap.py:79-86 | every node is a valid path other than `/helios`, and the six nodes are pairwise distinct |
| `Paths.EarlierParent` | bootstrap.py:80-85 | each of entries 1 to 5 hangs from a specific earlier entry |
| `Paths.NodeListParentFirst` | bootstrap.py:79-86 | the list is parent-first: entry 0 hangs from `/helios`, every later entry from an earlier one |
| `Paths.RootIsTopLevel` | bootstrap.py:109 | `/helios` is a valid path whose parent is the store root |
| `Paths.NamespacesDisjoint` | bootstrap.py:45-48 | two different `/`-free namespace ids own disjoint node lists |
| `Store.Perform` | bootstrap.py:106-109 | one store call never reports a dependent failure, and a success is the operation's own result; a check succeeds iff its node is present; a create succeeds iff its path is valid, its parent is present and the node is absent |
| `Store.Run` | bootstrap.py:94-97 | batch results by position: successes before the first failure, that failure, dependent failures after; the store changes only when nothing failed, and then by exactly the created paths |
| `Store.RunKeepsTree` | bootstrap.py:97 | a batch keeps every node's parent present |
| `Store.RunChecks` | bootstrap.py:92-97 | a batch of checks changes nothing; check `i` reports `True` iff `i` is below the number of present nodes at the front of the list |
| `Store.RunCreatesFresh` | bootstrap.py:115-119 | a batch creating fresh distinct nodes, each hanging from a present or earlier node, succeeds |
| `Store.RunCreatesOnlyAbsent` | bootstrap.py:115-119 | a create batch succeeds only if none of its nodes was present |
| `Store.Client.Exists` | bootstrap.py:106 | `exists` reports presence exactly |
| `Store.Client.Create` | bootstrap.py:109 | a single create reports what the store does and changes the store only on success, keeping its tree shape |
| `Store.Client.Multi` | bootstrap.py:97 | a commit reports the batch results and leaves the batch's resulting store |
| `Store.Transaction.constructor` | bootstrap.py:88 | a new transaction is empty and bound to the client |
| `Store.Transaction.Check` | bootstrap.py:92 | `check` appends one check operation |
| `Store.Transaction.Create` | bootstrap.py:115 | `create` appends one create operation |
| `Store.Transaction.Commit` | bootstrap.py:97 | `commit` runs the collected operations as one batch |
| `Bootstrap.NodesMissing` | bootstrap.py:97 | one flag per check result; `CheckStep` states that, for the node list, flag `i` is set iff `i` is at or past the number of present nodes at the front |
| `Bootstrap.NodesCreated` | bootstrap.py:119 | one flag per create result; `CreateVerdictIsSuffix` states that flag `i` is set iff `i` is below the number of creates that succeeded before the first failure |
| `Bootstrap.Unset` | bootstrap.py:101 | the `enumerate` filter yields only in-range positions whose flag is false |
| `Bootstrap.UnsetComplete` | bootstrap.py:101 | the `enumerate` filter yields every position whose flag is false, in strictly increasing order |
| `Bootstrap.UnsetLeading` | bootstrap.py:99-102 | when exactly the leading flags are false, those positions are listed |
| `Bootstrap.UnsetTrailing` | bootstrap.py:121-124 | when exactly the trailing flags are false, those positions are listed |
| `Bootstrap.ListedNames` | bootstrap.py:101 | a report is nonempty when some flag is false, names only nodes at positions whose flag is false, and names every such node |
| `Bootstrap.CheckVerdict` | bootstrap.py:97-104 | the call goes on iff no check reported `True`; otherwise the report is nonempty and names only nodes whose check reported `True` |
| `Bootstrap.CreateVerdict` | bootstrap.py:119-126 | success iff every create returned its own path; otherwise the report is nonempty and names only nodes whose create did not |
| `Bootstrap.CreatePhase` | bootstrap.py:111-126 | the create step succeeds iff its batch does, and then adds exactly the node list; otherwise it changes nothing and its report is nonempty |
| `Bootstrap.Protocol` | bootstrap.py:78-128 | a collision names at least one node and changes nothing; success leaves all six nodes present; `HappyPath`, `CheckStep`, `CreateStepAtomic` and `ProtocolKeepsTree` state the rest |
| `Bootstrap.CheckFlags` | bootstrap.py:92-97 | the check batch changes nothing, and `nodes_missing[i]` holds iff `i` is at or past the run of present nodes at the front of the node list |
| `Bootstrap.CheckStep` | bootstrap.py:88-104 | the check step changes nothing; check flag `i` is missing iff `i` is at or past the present prefix; it goes on iff the namespace's node is absent, else reports the present nodes up to the first absent one |
| `Bootstrap.CollisionLeavesStoreUnchanged` | bootstrap.py:99-104 | a collision is reported iff the namespace's node exists; then nothing is created and the report is the present prefix of the node list |
| `Bootstrap.NamespaceNodePresent` | bootstrap.py:90-91 | in a tree-shaped store, any present node of the namespace implies the namespace's own node is present |
| `Bootstrap.CollisionDetectsAnyPresent` | bootstrap.py:90-104 | in a tree-shaped store, if any of the six nodes exists, the call stops with a collision and changes nothing |
| `Bootstrap.CollisionReportStopsAtFirstAbsent` | bootstrap.py:100-101 | with `/helios/a` and `/helios/a/status` present, only `/helios/a` is reported |
| `Bootstrap.EnsureRoot` | bootstrap.py:106-109 | `/helios` is created iff it was absent; the step fails iff another client made it between `exists` and `create` |
| `Bootstrap.RootStepAlone` | bootstrap.py:106-109 | with no other client at work, the root step succeeds and leaves `/helios` present |
| `Bootstrap.CreateFlags` | bootstrap.py:115-119 | `nodes_created[i]` holds iff create `i` comes before the batch's first failure |
| `Bootstrap.CreateVerdictIsSuffix` | bootstrap.py:119-124 | create flag `i` is set iff `i` is below the number of leading successes; the creation report is `None` iff every create succeeded, else the node list from the first failed create |
| `Bootstrap.CreateStepAtomic` | bootstrap.py:111-126 | the create step is all-or-nothing: success adds exactly the six nodes, none of them present before; failure changes nothing and reports a nonempty suffix |
| `Bootstrap.CreateStepSucceeds` | bootstrap.py:111-119 | with `/helios` present and none of the six nodes present, the create step succeeds |
| `Bootstrap.CreateStepAfterRace` | bootstrap.py:119-126 | when the namespace's node appeared after the check, all six nodes are reported and nothing changes |
| `Bootstrap.HappyPath` | bootstrap.py:78-128 | from a store without the namespace and without other clients, the call returns `None` (exit 0) and adds exactly `/helios` and the six nodes |
| `Bootstrap.TwoNamespaces` | bootstrap.py:45-48 | two calls with different ids both succeed and leave two disjoint subtrees under one `/helios` |
| `Bootstrap.FailureCreatesNoNamespaceNode` | bootstrap.py:88-126 | without other clients, a call that fails leaves each of the six nodes as it found it |
| `Bootstrap.RootRaceRaises` | bootstrap.py:106-109 | another client creating `/helios` between `exists` and `create` makes the call raise (exit 1) |
| `Bootstrap.ProtocolKeepsTree` | bootstrap.py:78-128 | every call, whatever other clients do, leaves a tree-shaped store |
| `Bootstrap.ExitStatus` | bootstrap.py:65-76 | the exit status is 0 or 1, and 0 iff the client connected and `bootstrap` returned `None` |
| `Bootstrap.CheckAll` | bootstrap.py:88-97 | builds one check per node in order and commits them as one batch |
| `Bootstrap.CreateAll` | bootstrap.py:111-119 | builds one create per node in order and commits them as one batch |
| `Bootstrap.Bootstrap` | bootstrap.py:78-128 | the imperative call returns and leaves exactly what `Protocol` says, keeping the store tree-shaped |

## Left out

- `Store.Run`: real ZooKeeper, through kazoo, reports a rolled-back error
  for the operations before the first failure. The model follows the
  source's own comment, which says they report success. The verdicts differ
  under the real results. A check then counts as `True` only when all six
  checks succeed, so a collision is reported only when all six nodes exist,
  and then all six are named. A failed create batch reports all six nodes,
  not the ones from the first failure on. The store is left unchanged by a
  failed batch under either semantics.
- Argument parsing, the connection string and the `--timeout` value are not
  modelled. A connection timeout is the `connected` flag of `ExitStatus`.
- The kazoo import and its failure message are not modelled. That code runs
  before `main`.
- Logging is not modelled. The reports are the path lists the messages
  would join, carried in `AlreadyExists` and `NotCreated`.
- `uuid.uuid4()` is not modelled. The namespace id is a parameter. The
  properties that need it assume an id without `/`, as a UUID string is.
- Real concurrency is not modelled. Other clients act only at the three
  points between `bootstrap`'s store calls (`Race`). Each such action
  replaces the whole store with another tree-shaped store.
- Node data, versions, ACLs, ephemeral and sequential nodes are not
  modelled. The checks use version -1, which matches any version.
- ZooKeeper's full path validation is not modelled. The model checks only
  for an absolute path of at least two characters.
- Session loss and connection errors in the middle of a call are not
  modelled. Neither is the error for a transaction committed twice.
- `client.stop()` is not modelled. It is skipped when `bootstrap` raises.
  Only the exit status of a raising call is modelled (1).
- Python `%` is modelled only for `%s` and `%%`. Any other conversion
  counts as an error. The templates use only `%s`.
