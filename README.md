# codeceptjs-rphelper: the meta-step reporter, modelled in Dafny

The CodeceptJS ReportPortal plugin (`index.js`) listens to the test runner's events and
mirrors the run as a tree of items in a ReportPortal launch: launch, suites, tests and,
below a test, STEP items for the nested CodeceptJS meta-steps (a step wrapped by a
meta-step, itself wrapped by another, and so on). This project models the part of the
plugin that keeps that tree in step with the runner:

- **The linearizer** (`iterateMetaSteps`, `metaStepsToArray`, module `MetaSteps`). It
  unwinds a step's `metaStep` links into the chain from the outermost wrapper down to
  the step itself. `Step` is a class: what identifies a step (actor, name, arguments,
  its text and its wrapper) is constant. The reporter writes `tempId` and `status`.
  A ghost `depth` shows that the links end and that no step occurs twice in a chain.
- **The identity test** (`isEqualMetaStep`, module `MetaSteps`). Two steps are the same
  when actor, name and comma-joined arguments agree.
- **The status words** (`rpStatus`, module `Statuses`).
- **The reporting client** (module `Trace`). It is an append-only sequence of calls:
  start launch, start item (name, type, parent, `hasStats`), finish item (id, status)
  and finish launch. A start is answered with a fresh id, its position in the sequence.
  `WellFormed` says that every started item has the right `hasStats` flag and hangs
  where the tree allows: suites at the top, tests under a suite, steps under a test or
  a step started earlier. `Reconcile` is what `startMetaSteps` does to the trace, as a
  function. It finishes every open entry from the first mismatch on, outermost first.
  Then it starts every new entry from there on, outermost first. The first new entry
  goes under the test and each later one under the entry started just before it.
- **The plugin's state and handlers** (class `Session.Reporter`). The fields are the
  closure variables `suiteStatus`, `launchStatus` and `currentMetaSteps`, the ids of
  the launch, suite and test, and the trace. Each event handler is one method.
  `StartMetaSteps` is the `event.step.before` handler, which only runs
  `startMetaSteps`; it is written as the source's loops. The outer loop is `Walk`,
  one pass is `Visit`/`StartNext`/`Renew`, and the inner closing loop is
  `CloseCurrent`. Each is proved against the plan `Reconcile` and its numbering of
  the new ids. The source deletes slots of the held array inside the loop and assigns
  `currentMetaSteps` after it. The model runs the loop on a local copy of the held
  chain and assigns the field before the loop; nothing in the loop reads the field.

Some behaviours of the code may surprise a reader. The model states them as the code
has them:

- Stale entries are finished in ascending position, so a wrapper is finished before
  the entries it wraps (`MismatchFinishesOutermostFirst`). A reporting tree usually
  closes children before their parent.
- The first newly started entry hangs under the test, even when a retained entry
  wraps it. A chain that grows from `[A]` to `[A, B]` starts `B` under the test
  (`GrownChainStartsUnderTest`). The commented-out code at index.js:88 parents a step
  under the last held entry instead.
- An entry that matches the held one at its position is skipped, even when it is a
  different object. It never gets an id of its own, yet it is held from then on, and
  later finishing calls for it carry no id. The same action twice in a row, such as
  two `I.click('a')`, reports the second step nowhere (`MatchingChainStartsNothing`,
  `RepeatedStepStartsNothing`).
- The leaf step is part of the chain, so `event.step.before` starts the step itself as
  a STEP item too (`Chain`).
- `event.step.passed` overwrites an earlier `failed` status with `passed`, and
  `rpStatus` leaves `passed` in lower case (`StepPassed`,
  `RpStatusKeepsLowerCasePassed`).
- When the new chain agrees with the open one all along, nothing is finished. A longer
  open tail is dropped from `currentMetaSteps` without being finished
  (`StaleSplitsOpen`).
- `event.all.result` finishes the current suite a second time, with the untranslated
  suite status, after `event.suite.after` finished it (`AllResult`).
- Comparing comma-joined arguments confuses `['a,b']` with `['a', 'b']`, and no
  arguments with one empty argument (`IsEqualMetaStepCommaCollision`,
  `IsEqualMetaStepEmptyCollision`). Without commas inside arguments the test is
  exact (`IsEqualMetaStepExact`).

## Model

| member | source | states |
|---|---|---|
| `Statuses.RpStatus` | index.js:378-382 | `success` becomes PASSED and `failed` becomes FAILED. Anything else, absent included, is handed through unchanged. The result is never one of the two runner words. |
| `Statuses.RpStatusIdempotent` | index.js:378-382 | Translating a translated status changes nothing. |
| `Statuses.RpStatusKeepsLowerCasePassed` | index.js:378-382 | The runner's `passed` reaches the backend as lower-case `passed`, and an absent status stays absent. |
| `MetaSteps.Chain` | index.js:363-366 | The chain of a step has one entry more than there are links above the step. It ends with the step itself and starts with an entry that has no wrapper. Each entry is the `metaStep` of the one after it. The entry at position k has k wrappers above it, so no step occurs twice. |
| `MetaSteps.IterateMetaSteps` | index.js:363-366 | Pushing through the callback appends the step's chain, wrappers first and the step last, to what was already pushed. |
| `MetaSteps.MetaStepsToArray` | index.js:357-361 | The collected array is exactly the chain of the step. |
| `MetaSteps.IsEqualMetaStepAbsent` | index.js:369-371 | Two absent steps are equal; an absent and a present step are not. |
| `MetaSteps.IsEqualMetaStepEquivalence` | index.js:372-374 | On present steps the identity test is reflexive, symmetric and transitive. |
| `MetaSteps.IsEqualMetaStepCommaCollision` | index.js:372-374 | Arguments `['a,b']` and `['a', 'b']` are judged equal. |
| `MetaSteps.IsEqualMetaStepEmptyCollision` | index.js:372-374 | No arguments and one empty argument are judged equal. |
| `MetaSteps.JoinInjective` | index.js:374 | For non-empty lists of comma-free arguments, equal joins hold exactly when the lists are equal. |
| `MetaSteps.IsEqualMetaStepExact` | index.js:369-375 | For non-empty comma-free arguments, two steps are equal exactly when actor, name and arguments agree. |
| `Trace.HasStats` | index.js:163 | Suites and tests count in the statistics; steps do not. |
| `Trace.FinishStepsCalls` | index.js:344-351 | The k-th finishing call for a list of steps finishes the k-th step's id with its translated status. |
| `Trace.FinishRangeAllPresent` | index.js:332-335 | Over slots none of which is deleted, the closing loop finishes each one once, in ascending position. |
| `Trace.FinishRangeAllDeleted` | index.js:332-335 | Over deleted slots the closing loop makes no call. |
| `Trace.StartStepsCalls` | index.js:336-337 | The k-th start reports the k-th new entry by its text, as a STEP item without statistics. The first goes under the test and each later one under the id of the start before it. |
| `Trace.FirstMismatch` | index.js:326-330 | The first mismatch lies within both chains. At that position the new entry differs from the held one, which may be absent. |
| `Trace.FirstMismatchAgrees` | index.js:326-330 | Before the first mismatch the two chains agree position by position. |
| `Trace.RetainedPrefixIsLongest` | index.js:326-330 | Any prefix on which the chains agree ends at or before the first mismatch, so the retained prefix is the longest such prefix. |
| `Trace.StaleSplitsOpen` | index.js:326-341 | The retained entries and the finished entries make up the open chain, each entry once. When nothing mismatches, nothing is finished. |
| `Trace.StaleFinishes` | index.js:332-335 | What the closing loop makes of the held slots from the first mismatch on is the finishing of every stale entry in order. |
| `Trace.WellFormedAppendStart` | index.js:161-168 | Starting an item with the right `hasStats` flag and a fitting parent keeps the trace well formed. |
| `Trace.WellFormedAppendStarts` | index.js:336-337 | Starting a chain of steps under a test or a step keeps the trace well formed. |
| `Trace.ReconcileKeepsWellFormed` | index.js:322-342 | What `startMetaSteps` adds keeps the trace well formed and leaves the earlier calls unchanged. |
| `Trace.ProgressIsPlan` | index.js:326-339 | Once every position is handled, the calls made one position at a time are the plan: finishes of the stale entries, then starts of the new ones. |
| `Trace.GrownChainStartsUnderTest` | index.js:336 | A chain that grows by one entry below the open one finishes nothing. The new entry starts under the test. |
| `Trace.MismatchFinishesOutermostFirst` | index.js:332-337 | A mismatch at the top finishes the open entries outermost first, then starts the new chain. |
| `Trace.MatchingChainStartsNothing` | index.js:326-330 | A chain that agrees with the held one at every one of its positions has no mismatch and makes no call, whichever objects its entries are. |
| `Trace.RepeatedStepStartsNothing` | index.js:328-329 | A step equal to the held one that precedes it is neither started nor does it finish anything. |
| `Session.Reporter.constructor` | index.js:56-58 | Nothing is reported yet. Both statuses start PASSED and no chain is held. |
| `Session.Reporter.StartTestItem` | index.js:161-173 | Appends one start with `hasStats` set by the item type. Its id is its position, and the trace stays well formed. |
| `Session.Reporter.FinishStep` | index.js:344-351 | An absent step makes no call. A present one is finished by its `tempId` with its translated status. |
| `Session.Reporter.AllBefore` | index.js:61-64 | Starts the launch and records its id; nothing else changes. |
| `Session.Reporter.SuiteBefore` | index.js:66-73 | Starts the suite at the top, writes its id into the suite and resets only the suite status to PASSED. |
| `Session.Reporter.TestBefore` | index.js:75-83 | Forgets the held chain without finishing any of it. Starts the test under the current suite and writes its id into the test. |
| `Session.Reporter.StartMetaSteps` | index.js:322-342 | Afterwards the held chain is the step's chain and the trace is the plan `Reconcile`. Only entries from the first mismatch on may get a new `tempId`. |
| `Session.Reporter.SwitchChain` | index.js:325-341 | Holds the new chain and appends exactly the plan. The k-th newly started entry carries the id of the k-th start. |
| `Session.Reporter.Walk` | index.js:326-339 | The outer loop ends with every position handled, so the calls made are those of the plan. |
| `Session.Reporter.Visit` | index.js:327-339 | One pass leaves a matching entry alone and starts any other, keeping the loop's account of the calls made. |
| `Session.Reporter.StartNext` | index.js:331-338 | At a mismatch, the remaining held slots are finished and deleted, the entry is started under the previous new entry or the test, and its id is recorded. |
| `Session.Reporter.Renew` | index.js:331-337 | Closes the held slots from the position on, then starts the entry under the last id or the test and writes the id into the entry. |
| `Session.Reporter.CloseCurrent` | index.js:332-335 | Finishes each present held slot from the position on, in order, and deletes it; slots before the position are kept. |
| `Session.Reporter.StepAfter` | index.js:94-96 | Finishes the step with its translated status. |
| `Session.Reporter.StepFailed` | index.js:98-103 | Every held entry's status becomes `failed`; no id changes. |
| `Session.Reporter.StepPassed` | index.js:105-109 | Every held entry's status becomes `passed`, overwriting `failed`; no id changes. |
| `Session.Reporter.TestFailed` | index.js:112-121 | Suite and launch status become FAILED and the test is finished FAILED. |
| `Session.Reporter.TestPassed` | index.js:123-129 | The test is finished PASSED; neither status is raised. |
| `Session.Reporter.TestAfter` | index.js:131-135 | Every held entry is finished, outermost first, with its translated status. The chain stays held. |
| `Session.Reporter.SuiteAfter` | index.js:137-145 | The suite is finished with the translated suite status. |
| `Session.Reporter.AllResult` | index.js:213-220 | The current suite is finished again, with the untranslated suite status, and then the launch is finished with the launch status. With no suite started, no call is made and the launch stays open. |

No handler but `TestFailed` assigns `launchStatus`, and that one only sets FAILED. So
once the launch status is FAILED it stays FAILED for the rest of the run.

## Left out

- The ReportPortal client itself: its construction, the network calls and the launch
  configuration (`startLaunch`, `finishLaunch`, the `try`/`catch` around them). Only
  the calls the plugin makes are recorded, and a start's id is its position in the trace.
  The launch id that every start of an item passes is not kept in the recorded start.
- The `recorder` queue, promises and `await`. Each handler body runs as one atomic
  step, in the order the runner emits the events.
- Errors thrown by the client. `startTestItem` returns `undefined` after a caught error;
  the model assumes every start succeeds.
- Timestamps (`endTime`, `rpClient.helpers.now()`), `debug` and `output.err` logging.
- The helper discovery and configuration merge at module load.
- `step.err` in `event.step.failed`, and `stepObj` in `event.test.before`. Both are
  written and never read by live code.
- Rendering of step arguments and of `toString()`: a step carries its arguments as
  rendered strings and its text as a string.
- Ids are never falsy. `metaStepObj.tempId || testObj.tempId` is modelled as "the last
  started id if there is one, else the test's id".
- The handlers `require` the event order the runner guarantees: the launch is started
  before anything else, a suite before a test, and a test before its steps.
  The source would throw on `undefined` otherwise.
- Session.Reporter.StartMetaSteps: it does not restate the numbering of the new ids;
  `SwitchChain`, which it runs right after collecting the chain, states it.
- Cyclic `metaStep` links. Every step is assumed `Linked`: its wrappers end after
  finitely many links. On a cycle `iterateMetaSteps` recurses until the stack overflows.
- All commented-out code.
