# Verified models of the open bridge server's core logic

These Dafny modules model the parts of the server that carry its hardest logic and prove
what those parts promise: that the message archive's SQL text selects what the query
describes, that the write router's filters keep their bounds over whole runs, that the
alarm engine holds exactly what its history says, that deleting or renaming a user
transforms every table correctly, that authorization is monotone and closed where it
should be, and that the codecs, walkers and protocol tables do what they are for.

`dafny verify dfyconfig.toml` checks everything.

## How the modules fit together

- `Wrappers`, `Enumeration`: optional values, results that carry an exception, and going
  through a set in some order.
- `TextOrder`, `Timestamps`: the order of TEXT columns, the proleptic calendar, ISO texts
  with zero or six fraction digits, and why comparing the texts compares the instants.
- `ArchiveModel`, `SqlText`, `MessageQuery`, `QueryMeaning`, `MessageStore`: the message
  archive. The statement is built as a list of tokens by the loops of the source; a
  reader with SQL's own precedence evaluates it over rows, taking one positional
  parameter per placeholder, so a missing parenthesis or a misplaced parameter would
  change what it selects. Retention and entry creation change the tables step by step.
- `WriteRouter`, `RouterRuns`: the per-binding filters and the compacted value cache, and
  runs of router calls reduced to the attempts of one binding.
- `ConfirmationOrder`, `BindingReloads`: write confirmations, action tokens, and nested
  deferral of adapter reloads.
- `VisuAlarms`, `AlarmHistory`: the alarm engine as a class, and the event history it
  refines.
- `Accounts`, `AccountLemmas`, `Capabilities`: the account tables and their transactions,
  and the capability store with revisions and a log.
- `Authz`, `Hierarchy`, `AuthzService`: the policy, the walk up parent links that may be
  cyclic, and the batch filter.
- `RegionalFormat`, `Modbus`: number formatting and register codecs; `Bytes` says what a
  sequence of bytes is, here and in the tunnel.
- `Formula`, `Jsonable`: a validator over syntax trees with the evaluator it protects, and
  the JSON copy of a heap that may contain cycles.
- `KnxTunnel`, `TunnelRuns`: the tunnelling server of the test-data generator.

Classes of the source that update their fields are classes here; their methods are proved
against functions on values, and the lemmas are about those functions. Clocks, random
ids, parsers of the platform, digests, adapters that may fail and the operators of alarm
conditions are parameters (`Platform`, `Attempt`, `Test`, `Runtime`, `Floats`). Nothing here runs the server.

## Where the code differs from what one would expect

Each of these is proved, with the exact condition where there is one.

- A read-state filter without a username is rejected by the database: the statement names
  a table it does not join (`QueryMeaning.StatementNeedsUser`).
- An initialization value lowers an alarm's condition without ending it, so an alarm
  without an acknowledge button can stay active (`AlarmHistory.StuckExactlyByInitialization`,
  `AlarmHistory.InitializationCanStrand`).
- The check of a new user name does not look at filterset provenance. That table names
  only existing users, so an accepted non-empty name is named nowhere all the same and the
  rename can be taken back (`AccountLemmas.AcceptedNamesAreUnnamed`,
  `AccountLemmas.RenamingBackRestoresTheStore`). An empty name is not checked at all, and
  violates a key exactly if it is taken (`AccountLemmas.OnlyAnEmptyNameCanCollide`,
  `AccountLemmas.RenamingToTheEmptyNameCanFail`).
- The percentage filter can hold back a change of at least the minimum delta
  (`RouterRuns.ReceiverIsClose`, `RouterRuns.PercentFilterHoldsBack`), and a short tuple
  that looks like a cached fingerprint, other than its own, is not equal to itself
  (`WriteRouter.EqualToItselfExactly`, `WriteRouter.MimicIsNotEqualToItself`).
- The delta filters catch type and value errors of `float()`, not overflow. A call raises
  exactly if, on the caches before it, some row of a delta-filtered binding passes the
  throttle and the on-change filter with a value remembered and meets a number too large for
  a float, the new one or the remembered one; that row and those after it get nothing (`WriteRouter.OverflowEndsTheLoop`,
  `WriteRouter.RaisesExactly`). One such number sent to a delta-filtered binding that
  remembers nothing is remembered, and from then on every call with a number for the binding
  is cut short there once the throttle and the on-change filter let it pass, until the binding is written by a
  targeted call or sent a value that is no number (`RouterRuns.OneLargeNumberCutsLaterCalls`,
  `RouterRuns.ReleasedExactly`).
- A postponed reload and an immediate one leave different bindings, where both load,
  exactly if the rows read differently at the last request and at the end of the block
  (`BindingReloads.DeferredAgreesWithImmediate`); an edit after the only request does that
  (`BindingReloads.EditAfterTheRequestMakesADifference`).
- `apply_formula` documents that any error gives the original value back, but an
  exception other than a type or value error while converting the value escapes
  (`Formula.AppliedIsFiniteOrOriginal`). A `fractions.Fraction` beyond the range of
  floats raises an overflow error there (`Formula.ConversionCanEscape`); integers are not
  converted to floats, and converting booleans, floats, texts, bytes, dates and times
  raises nothing or one of the two caught errors.
- Importing a configuration sets a key's capabilities and revision without logging grants or
  revocations: the log replays afterwards exactly if the set is the stored one, and an
  imported old revision lets a second replacement from it succeed
  (`Capabilities.ImportKeepsTheLogExactly`, `Capabilities.ImportCanLoseAnUpdate`).
- int16 registers in little byte order come back byte-swapped (`Modbus.IntegersRoundTrip`).
- After 255 accepted connections the tunnelling server's channel numbers wrap, and a
  newcomer can replace a live client (`TunnelRuns.DisplacedExactlyAfterWrapping`,
  `TunnelRuns.WrappingDisplacesALiveClient`).
- A tunnelling server whose host is a name enters clients but raises before answering them
  (`KnxTunnel.BoundByNameEntersInSilence`).
- Writing has no upward closure on the hierarchy (`Hierarchy.WritingIsNotClosedUpward`).

## Model

| member | source | states |
|---|---|---|
| `Timestamps.TextOrderIsTimeOrder` | obs/message_archive.py:99-113 | ISO texts of UTC instants compare, as texts, exactly as the instants, though fractions have zero or six digits; equal texts are equal instants |
| `Timestamps.IsoExactly` | obs/message_archive.py:113 | the text, field by field: width, separators, fraction and offset |
| `Timestamps.MonthsExactly` | obs/message_archive.py:112-113 | the lengths of the months |
| `Timestamps.EpochsExactly` | obs/message_archive.py:112-113 | instants count from year one, and 1970 began 719162 days later |
| `Timestamps.NormalizedTextsFollowTime` | obs/message_archive.py:99-113 | any two results of `_normalize_entry_timestamp` compare, as texts, as the instants that the inputs denote: the present for a blank one, else what is parsed less its offset |
| `Timestamps.NormalizedExactly` | obs/message_archive.py:99-113 | a text that is not blank becomes the UTC text of the parsed local time less its offset, or fails exactly if it does not parse or leaves the calendar |
| `Timestamps.BlankIsNow` | obs/message_archive.py:100-101 | no text, or nothing but spaces, becomes the present |
| `Timestamps.StripExactly` | obs/message_archive.py:100-102 | stripping leaves what stands between the first and the last character that is no space |
| `Timestamps.WithOffsetExactly` | obs/message_archive.py:103-104 | what is parsed is that text, a final Z, and only that, rewritten as the offset of UTC |
| `Timestamps.ToUtc` | obs/message_archive.py:109-113 | an offset is subtracted, no offset means UTC; it fails exactly when the instant leaves the calendar |
| `Timestamps.FromInstant` | obs/message_archive.py:112-113 | every microsecond of the calendar has a valid date and time that denotes it |
| `Timestamps.Cutoff` | obs/message_archive.py:709 | the cutoff text denotes now less the age limit; it overflows exactly when that precedes year one |
| `ArchiveModel.NormalizeIsIdempotent` | obs/message_archive.py:150-162 | a normalized archive id normalizes to itself |
| `ArchiveModel.ArchiveIdExactly` | obs/message_archive.py:150-162 | which ids are accepted, and the first reason why another is not |
| `ArchiveModel.SortOrdered` | obs/message_archive.py:689 | rows with distinct ids are put in strict order of (created_at, id), in either direction |
| `ArchiveModel.SortedExactly` | obs/message_archive.py:689 | ascending is oldest first, descending newest first, equal instants by id |
| `ArchiveModel.PagesConcatenate` | obs/message_archive.py:690 | consecutive LIMIT/OFFSET pages put together are the rest of the list, none twice and none missing |
| `SqlText.InIsOperand` | obs/message_archive.py:623-625 | an IN list reads as one operand that is membership, taking one parameter per value |
| `SqlText.ComparisonIsOperand` | obs/message_archive.py:634-638 | a comparison with a placeholder reads as one operand with that meaning |
| `SqlText.ParenthesizedIsOperand` | obs/message_archive.py:626-627 | a parenthesized AND or OR list reads as one operand: all, or any, of its parts |
| `MessageQuery.BuildGroup` | obs/message_archive.py:607-626 | the loop over five fields yields the text and parameters of one predicate, `None` adding nothing and an empty list adding false |
| `MessageQuery.AddPredicates` | obs/message_archive.py:605-627 | the loop over predicates adds their disjunction, or false if there are none |
| `MessageQuery.AddArchives` | obs/message_archive.py:629-633 | adds membership in the normalized archive ids, if any are given |
| `MessageQuery.AddTime` | obs/message_archive.py:634-639 | adds one time bound with its normalized parameter |
| `MessageQuery.AddChoices` | obs/message_archive.py:640-655 | the loop over four fields prefers the plural field over the singular one |
| `MessageQuery.AddText` | obs/message_archive.py:656-659 | adds the two LIKE comparisons and their two parameters |
| `MessageQuery.AddReadState` | obs/message_archive.py:660-663 | adds the read-state test, which takes no parameter |
| `MessageQuery.BuildQuery` | obs/message_archive.py:595-666 | the whole statement and its parameters are those of the clause-by-clause description, or the first error |
| `QueryMeaning.QueryMeansPredicate` | obs/message_archive.py:595-699 | counting and paging with the compiled text select exactly the rows the query describes: the count is their number, the page a slice of them in order |
| `QueryMeaning.EntryClausesMean` | obs/message_archive.py:605-659 | the clauses without the read state are the conjunction of what each field of the query asks for |
| `QueryMeaning.PredicateClauseMeans` | obs/message_archive.py:605-627 | predicate groups mean: some predicate has every given list contain the row's value |
| `MessageQuery.PredicateExactly` | obs/message_archive.py:605-627 | a predicate, column by column: each list given must name the row's value |
| `MessageQuery.ChosenExactly` | obs/message_archive.py:640-655 | a list with something in it decides alone, else a text that is not empty |
| `MessageQuery.FiltersExactly` | obs/message_archive.py:605-663 | the whole description, an empty text or list being no filter, both time bounds included |
| `MessageQuery.BoundsFollowTime` | obs/message_archive.py:634-639 | on an entry that carries the text of an instant the bounds are bounds on that instant |
| `QueryMeaning.StatementNeedsUser` | obs/message_archive.py:600-603 | the statement is accepted exactly when a read-state filter comes with a username |
| `QueryMeaning.EveryMarkTakesOneParameter` | obs/message_archive.py:666-693 | whatever text the reader accepts takes exactly as many parameters as it passes placeholders |
| `QueryMeaning.PlaceholdersMatchParameters` | obs/message_archive.py:666-693 | the built statement has exactly as many placeholders as parameters, the joined user's included |
| `QueryMeaning.PagesShareOneList` | obs/message_archive.py:680-693 | limit and offset only choose a slice of one ordered list |
| `QueryMeaning.PagesCoverDescribedRows` | obs/message_archive.py:680-699 | that list holds each described row once, in order, and its pages concatenate to all of it |
| `MessageStore.ArchiveStore.EnsureArchive` | obs/message_archive.py:315-331 | an archive is added without limits if it is missing |
| `MessageStore.ArchiveStore.DeleteUnless` | obs/message_archive.py:710-713 | a DELETE keeps the other rows in place, cascades to read states and counts what it removed |
| `MessageStore.ArchiveStore.PruneByAge` | obs/message_archive.py:707-714 | removes exactly the archive's entries older than the cutoff |
| `MessageStore.ArchiveStore.PruneByCount` | obs/message_archive.py:715-730 | removes exactly the archive's entries that are not among its newest |
| `MessageStore.ArchiveStore.EnforceRetention` | obs/message_archive.py:701-732 | keeps exactly the retained entries and their read states, returns the number removed, says when it fails and changes nothing, and keeps every text that of an instant |
| `MessageStore.ArchiveStore.CreateEntry` | obs/message_archive.py:458-492 | inserts, prunes entries and read states, fails on retention exactly when the new entry itself is not retained, and keeps every text that of an instant |
| `MessageStore.ArchiveStore.QueryEntries` | obs/message_archive.py:595-699 | the answer is the described rows' page and number, or the error |
| `MessageStore.NewestIsByRank` | obs/message_archive.py:722-726 | being among the first n by (created_at, id) descending is having fewer than n newer entries |
| `MessageStore.KeptAreNewest` | obs/message_archive.py:715-730 | of the entries that are not too old, every kept one is newer than every removed one |
| `MessageStore.KeptCount` | obs/message_archive.py:715-730 | with a limit of n, exactly min(n, all) of them are kept |
| `MessageStore.TwoDeletions` | obs/message_archive.py:701-732 | deleting by age and then by count keeps exactly the retained entries |
| `MessageStore.OtherArchivesKept` | obs/message_archive.py:711-724 | other archives keep all their entries, in order |
| `MessageStore.LimitsExactly` | obs/message_archive.py:706-717 | a limit of one or more limits, anything else does not; the cutoff denotes the present less so many days, and overflows exactly before year one |
| `MessageStore.NewEntryExactly` | obs/message_archive.py:458-482 | what is recorded, field by field |
| `MessageStore.KeepingIsIdempotent` | obs/message_archive.py:701-732 | enforcing the same limits at the same instant again removes nothing |
| `MessageStore.RetentionFollowsTime` | obs/message_archive.py:709-726 | where every text is that of an instant, an entry is retained exactly if its instant is not before now less the limit and fewer than the limit are later by instant and id |
| `MessageStore.KeptFollowsTime` | obs/message_archive.py:701-732 | so enforcing keeps the other archives' entries and, of this one, exactly those retained by time |
| `WriteRouter.CachedEqualsExactly` | obs/core/write_router.py:44-68 | comparing with a compacted value is equality, long non-strings being compared by their rendering |
| `WriteRouter.CompactionIsFaithful` | obs/core/write_router.py:44-68 | comparing with a compacted value is equality exactly under a checkable condition on long values and on short ones that mimic a fingerprint |
| `WriteRouter.CompactedExactly` | obs/core/write_router.py:44-54 | up to 8192 characters a value is kept whole, beyond that as its kind, length and digest |
| `WriteRouter.EqualToItselfExactly` | obs/core/write_router.py:44-68 | a value equals its own cached form exactly unless it is short and mimics a fingerprint that is not its own |
| `WriteRouter.MimicIsNotEqualToItself` | obs/core/write_router.py:57-68 | a short tuple of the shape of a fingerprint compares unequal to itself |
| `WriteRouter.Router.WriteOne` | obs/core/write_router.py:478-576 | one binding: whether it is written and what both caches hold afterwards, every other entry unchanged |
| `WriteRouter.ThrottleExactly` | obs/core/write_router.py:478-489 | a throttle of ms milliseconds holds back exactly what comes sooner after the last send; none, or zero, nothing |
| `WriteRouter.DeltaExactly` | obs/core/write_router.py:503-531 | of two numbers the filters hold back a change under the minimum delta, then one under the percentage of the last number; from zero on any change counts as 100 percent |
| `WriteRouter.Router.WriteToDestBindings` | obs/core/write_router.py:413-589 | the loop over bindings performs their steps in order and hands exactly the sends to adapters, up to a conversion that overflows; then it raises |
| `WriteRouter.Router.WriteBinding` | obs/core/write_router.py:291-307 | both entries of the target are dropped before it is written, so with its own row only it never raises |
| `WriteRouter.OverflowEndsTheLoop` | obs/core/write_router.py:445-531 | the loop ends at the first row whose conversion overflows on the caches as they are before the call, and completes if there is none |
| `WriteRouter.EscapesExactly` | obs/core/write_router.py:478-531 | a row's conversion overflows exactly if the filters before it let the value pass and the new number, or else the remembered one, is too large for a float |
| `WriteRouter.RaisesExactly` | obs/core/write_router.py:413-589 | a call raises exactly if some row overflows on the caches before it |
| `WriteRouter.RowsActAlone` | obs/core/write_router.py:445-589 | each row reached acts on its binding as if alone, and the others leave theirs as it was |
| `RouterRuns.BindingFollowsItsOwnAttempts` | obs/core/write_router.py:413-589 | after any calls over any bindings, what is remembered of one depends only on its own attempts and resets |
| `RouterRuns.OneTryPerCall` | obs/core/write_router.py:445-476 | a call tries a binding at most once, and only if its row is eligible |
| `RouterRuns.TriedExactly` | obs/core/write_router.py:445-476 | of the rows reached, exactly those are tried that are read, not the origin's, no observer's and have an instance, found by id or by the allowed fallback to the type |
| `RouterRuns.UnwritableGetsNothing` | obs/core/write_router.py:445-476 | a binding without such a row is not written, and what is remembered of it stays unless it is the target |
| `RouterRuns.OriginGetsNothing` | obs/core/write_router.py:454-456 | over any calls that come from a binding nothing is written back to it |
| `RouterRuns.TargetedNeverRaises` | obs/core/write_router.py:291-307 | a targeted write always completes, whatever was remembered |
| `RouterRuns.CutOffRowsGetNothing` | obs/core/write_router.py:413-589 | the bindings from where a call is cut short on are not written and nothing of them changes |
| `RouterRuns.LargeNumberIsRemembered` | obs/core/write_router.py:44-54 | a number too large for a float, offered to a delta-filtered binding that remembers nothing, is sent and remembered |
| `RouterRuns.ReleasedExactly` | obs/core/write_router.py:503-576 | a binding that remembers one is sent exactly what float() refuses, when due, and then no longer remembers it; nothing else changes it |
| `RouterRuns.LargeNumberBlocksBinding` | obs/core/write_router.py:413-589 | through any calls with numbers but targeted ones such a binding gets nothing and goes on remembering it |
| `RouterRuns.LargeNumberCutsLaterCalls` | obs/core/write_router.py:413-589 | after them a call overflows at its row exactly unless the throttle or the on-change filter stops it first, and then that row and the later ones get nothing |
| `RouterRuns.OneLargeNumberCutsLaterCalls` | obs/core/write_router.py:413-589 | so one large number sent cuts every later such call short at that binding |
| `RouterRuns.OnlyLargeNumbersRaise` | obs/core/write_router.py:413-589 | in a run of calls that never offers one, every call completes |
| `RouterRuns.WritesAreSends` | obs/core/write_router.py:555-576 | the writes a call makes for a binding are, in order, exactly its successful sends with the transformed value |
| `RouterRuns.RunWritesAreSends` | obs/core/write_router.py:413-589 | over any run of calls, the writes a binding gets are exactly the successful sends of its own attempts |
| `RouterRuns.CallsAreTimely` | obs/core/write_router.py:478-576 | calls that complete one after the other give a binding's attempts in the order of time |
| `RouterRuns.CallsAreSpaced` | obs/core/write_router.py:478-489 | over any such run of calls without targeted writes, the writes to a throttled binding are at least its interval apart |
| `RouterRuns.CallsInWindow` | obs/core/write_router.py:478-489 | and a window of length T holds at most T / interval + 1 of them |
| `RouterRuns.DeltaBoundsCalls` | obs/core/write_router.py:503-516 | n writes under a minimum delta d take calls whose values move by at least (n - 1) d in all |
| `RouterRuns.CallsWriteAsWithWholeCache` | obs/core/write_router.py:413-589 | over any run of calls from empty caches, targeted ones and overflows included, every binding is written what a router writes that remembers whole values and ends its own loops by them |
| `RouterRuns.ThrottleSpacesSends` | obs/core/write_router.py:478-489 | successful sends of a throttled binding are at least its interval apart, over any run without resets |
| `RouterRuns.WindowHoldsFewSends` | obs/core/write_router.py:478-489 | a window of length T holds at most T / interval + 1 of them |
| `RouterRuns.DeltaBoundsSends` | obs/core/write_router.py:503-516 | n sends under a minimum delta d take a total variation of at least (n - 1) d |
| `RouterRuns.ReceiverIsClose` | obs/core/write_router.py:503-531 | after any run that ends in an unthrottled attempt that did not fail, resets included, the value is less than d from the last one sent, exactly unless the percentage filter held back a change of at least d |
| `RouterRuns.ReceiverIsCloseByDelta` | obs/core/write_router.py:503-516 | without a percentage filter the value is less than d from the last one sent, always |
| `RouterRuns.CallsReceiverIsClose` | obs/core/write_router.py:413-589 | the same over runs of router calls that offer numbers, from empty caches, targeted calls included, after a call with an unthrottled row for the binding that does not fail |
| `RouterRuns.CacheIsLastSent` | obs/core/write_router.py:555-576 | after any run without resets a filtered binding's cache is the last value sent, compacted, or what it was if nothing was |
| `RouterRuns.RememberedWasSentLast` | obs/core/write_router.py:291-307 | and with resets, from an empty cache, what is remembered is always the last value sent |
| `RouterRuns.RememberedIsReadable` | obs/core/write_router.py:503-516 | on plain numbers it is that number itself |
| `RouterRuns.PercentFilterHoldsBack` | obs/core/write_router.py:518-531 | a run in which that happens: with 2 percent and a delta of 1, 101 is not sent after 100 |
| `RouterRuns.CompactCacheRefinesWhole` | obs/core/write_router.py:44-68 | for values that the filters read alike compacted and whole, over any run, resets included, the compacted cache sends exactly what a cache of whole values sends, and stays its compaction |
| `RouterRuns.OnChangeNeverRepeats` | obs/core/write_router.py:491-501 | on such runs consecutive sends of an on-change binding never carry equal non-null values unless a targeted write came between |
| `RouterRuns.CallsNeverRepeat` | obs/core/write_router.py:413-589 | nor does any run of router calls write an on-change binding equal non-null values in a row, unless a targeted write came between |
| `ConfirmationOrder.OrderTracker.Issue` | obs/adapters/base.py:48-55 | issues the next sequence of one counter shared by all datapoints |
| `ConfirmationOrder.OrderTracker.Activate` | obs/adapters/base.py:57-60 | raises the latest activated sequence, never lowers it |
| `ConfirmationOrder.OrderTracker.Accept` | obs/adapters/base.py:62-63 | accepts a sequence that is not older than the latest activated one |
| `ConfirmationOrder.HistoryExactly` | obs/adapters/base.py:48-60 | what issuing and activating add to the history that the next rows are about |
| `ConfirmationOrder.LatestIsGreatest` | obs/adapters/base.py:41-63 | under every interleaving the latest activated sequence of a datapoint is the greatest activated for it |
| `ConfirmationOrder.AcceptedUnlessSuperseded` | obs/adapters/base.py:62-63 | a confirmation is accepted exactly when no later write of its datapoint has been activated |
| `ConfirmationOrder.SupersededForever` | obs/adapters/base.py:57-84 | once a write is activated, no confirmation of an earlier one is accepted again, whatever follows |
| `ConfirmationOrder.DatapointsDoNotInterfere` | obs/adapters/base.py:41-63 | events that activate nothing new for a datapoint never change what is accepted for it |
| `ConfirmationOrder.NewerMeansIssuedLater` | obs/adapters/base.py:86-88 | of all orders ever issued, the newer ones are those issued later, and no two are the same |
| `ConfirmationOrder.ActionToken.Claim` | obs/adapters/base.py:34-38 | the first claim succeeds and every later one fails |
| `ConfirmationOrder.ActionContext.SuppressActionsAtConfirmation` | obs/adapters/base.py:109-114 | suppressed if the context says so or the token is taken; otherwise the token is taken now |
| `ConfirmationOrder.ExactlyTheFirstTriggers` | obs/adapters/base.py:91-114 | of the confirmations sharing a token, the first that is not suppressed triggers actions and no other |
| `ConfirmationOrder.AtMostOneTriggers` | obs/core/write_router.py:436-443 | at most one confirmation of one command triggers actions |
| `BindingReloads.LoadValidBindings` | obs/adapters/registry.py:379-399 | readable rows become bindings in order, malformed ones issues, and every row is accounted for, unless a row raises something unexpected; then the load raises that |
| `BindingReloads.Registry.ReloadInstanceBindings` | obs/adapters/registry.py:328-346 | collected while a block is open, done at once otherwise; raises if the rows do not load, or after handing them over if the adapter does |
| `BindingReloads.Registry.DeferredBindingReloads` | obs/adapters/registry.py:305-325 | runs the body, raises exactly if it does, and either way requests each collected reload once in the outer context, where one that raises stops neither the block nor the others |
| `BindingReloads.Registry.ExecuteInside` | obs/adapters/registry.py:305-346 | inside a block every request of a program, nested blocks included, joins the block's set and no reload is done |
| `BindingReloads.Registry.ExecuteOutside` | obs/adapters/registry.py:305-346 | outside, blocks reload at their end from the rows as they are then, requests at once, up to the first raise |
| `BindingReloads.DeferredExactly` | obs/adapters/registry.py:305-346 | a program takes its first step and goes on exactly unless that raises |
| `BindingReloads.BlockReloadsEachOnce` | obs/adapters/registry.py:305-346 | a block, however nested and even if it raises, tries each requested running instance exactly once and no other, and loads it if its rows can be loaded |
| `BindingReloads.ImmediateKeepsLastRequest` | obs/adapters/registry.py:328-346 | without deferral each instance ends with the rows of its last request, if these load |
| `BindingReloads.DeferredAgreesWithImmediate` | obs/adapters/registry.py:305-346 | both end with the same bindings exactly when loading at the end gives what loading at every request gave; where both load, when the rows read alike at the last request and at the end |
| `BindingReloads.EditAfterTheRequestMakesADifference` | obs/adapters/registry.py:305-346 | an edit after the only request makes them differ |
| `BindingReloads.ImportEndsAsIfImmediate` | obs/adapters/registry.py:305-346 | an import that requests a reload after every edit ends as with immediate reloads, if the rows at its end load |
| `BindingReloads.ImportsAreSettled` | obs/adapters/registry.py:305-346 | a program with a request after every edit is such an import, in a block or not |
| `VisuAlarms.Engine.Configure` | obs/visu_alarms.py:190-219 | the new index, conditions, unknown set and active alarms are those described, and every listener holds the new list |
| `VisuAlarms.Engine.HandleValueEvent` | obs/visu_alarms.py:236-269 | the loop over the datapoint's alarms has the described effect, and keeps every queue empty or at exactly the current list |
| `VisuAlarms.Engine.Acknowledge` | obs/visu_alarms.py:271-278 | ends the alarm exactly if it is active and has a button |
| `VisuAlarms.Engine.Listen` | obs/visu_alarms.py:301-304 | a new empty queue joins the listeners |
| `VisuAlarms.Engine.Notify` | obs/visu_alarms.py:309-319 | each listener's queue holds the current list and nothing else |
| `VisuAlarms.ActiveListLatestFirst` | obs/visu_alarms.py:280-299 | the list holds exactly the active alarms, latest first |
| `AlarmHistory.EngineFollowsHistory` | obs/visu_alarms.py:190-278 | after every run of configure, value event and acknowledge, the engine holds for each alarm what its history defines |
| `AlarmHistory.ConfiguredExactly` | obs/visu_alarms.py:190-234 | after configuring, exactly the enabled alarms are watched; one without a reading, a value or a good quality is unknown, any other has the condition of its value, and without a registry all are false |
| `AlarmHistory.FirstValueIsTheBaseline` | obs/visu_alarms.py:249-257 | after a configuration that knew nothing, whatever happens elsewhere, the first good value raises nothing and ends exactly an active alarm that clears |
| `AlarmHistory.RaisedExactlyAtEdges` | obs/visu_alarms.py:249-266 | an alarm becomes active exactly at a good, non-initialization value that turns a known false condition true |
| `AlarmHistory.ConditionIsThatOfTheLastGoodValue` | obs/visu_alarms.py:236-262 | the condition is that of the last good value since the definition came into force |
| `AlarmHistory.StuckExactlyByInitialization` | obs/visu_alarms.py:258-261 | an active alarm without a button outlives its condition from exactly one kind of step: an initialization value lowering a known true condition |
| `AlarmHistory.NeverStuckWithoutInitialization` | obs/visu_alarms.py:236-269 | on runs without initialization values every active alarm without a button has its condition true or unknown |
| `AlarmHistory.InitializationCanStrand` | obs/visu_alarms.py:258-261 | a two-value run in which that happens |
| `Accounts.AccountStore.CreateUser` | obs/api/auth.py:791-843 | refuses a name that exists or is referred to, and otherwise adds the row and nothing else |
| `Accounts.AccountStore.UpdateUser` | obs/api/auth.py:864-937 | refuses as the checks say, fails on a colliding key and changes nothing, and otherwise leaves the updated and substituted tables |
| `Accounts.AccountStore.RenameReferences` | obs/api/auth.py:904-913 | the six statements in sequence are the simultaneous substitution, as long as no key collides |
| `Accounts.AccountStore.DeleteUser` | obs/api/auth.py:949-1052 | refuses as the checks say, and otherwise leaves the described tables |
| `Accounts.AccountStore.TransferOwnership` | obs/api/auth.py:977-1036 | the statements in sequence insert or raise the successor's grants and move the owners of pages and graphs |
| `Accounts.AccountStore.RemoveUser` | obs/api/auth.py:1038-1052 | the deletions in sequence remove the user's rows, its keys and both spellings of their grants |
| `AccountLemmas.DeletedLeavesNoTrace` | obs/api/auth.py:949-1052 | after a deletion no API key, user grant, filterset state, graph, page or filterset names the user; only nodes that are not pages may |
| `AccountLemmas.DeletedGrantsExactly` | obs/api/auth.py:980-1050 | the grant table after a deletion, row for row: handed, removed under both spellings, or unchanged |
| `AccountLemmas.TransferredGrants` | obs/api/auth.py:980-1036 | the handed rows are owner allows with the greater central control |
| `AccountLemmas.SuccessorOwnsEverything` | obs/api/auth.py:977-1036 | every inventoried artifact has an owner allow for the successor and the successor as its creator |
| `AccountLemmas.FiltersetsFollowOwnerGrants` | obs/api/auth.py:725-730 | of filtersets exactly those go to the successor, as owner with the greater central control, on which the user had an owner/allow grant; on every other the successor's row stays as it was |
| `AccountLemmas.ArtifactsFollowTheirCreator` | obs/api/auth.py:723-724 | of pages and graphs exactly those that the user created |
| `AccountLemmas.SuccessorRequiredExactly` | obs/api/auth.py:973-976 | past the checks before, a successor is required exactly if none is named and the user created a page or a graph or owns a filterset |
| `AccountLemmas.InventoryExactly` | obs/api/auth.py:715-758 | the inventory that is fingerprinted, entry for entry, in terms of the tables |
| `AccountLemmas.DeletionTouchesNothingElse` | obs/api/auth.py:949-1052 | rows that do not concern the user stay as they are |
| `AccountLemmas.DeletionNeedsTheShownInventory` | obs/api/auth.py:968-972 | with a collision-free fingerprint a deletion goes through only on the inventory that was shown |
| `AccountLemmas.CheckedNamesNeverCollide` | obs/api/auth.py:701-712 | a rename to a checked name never violates a key |
| `AccountLemmas.OnlyAnEmptyNameCanCollide` | obs/api/auth.py:886-914 | an update violates a key exactly when, no demotion being refused, it renames to the empty name and that is taken by a user or in a key |
| `AccountLemmas.UpdatedRowExactly` | obs/api/auth.py:875-901 | an update changes of the row what it names, drops the MQTT password exactly when it switches MQTT off, and leaves the other rows |
| `AccountLemmas.RenamingToTheEmptyNameCanFail` | obs/api/auth.py:886-914 | a store of two users, one with the empty name, where it does |
| `AccountLemmas.RenameSubstitutesGrants` | obs/api/auth.py:904-913 | a rename moves every grant to its substituted key, loses none and merges none |
| `AccountLemmas.RenameLeavesNoOldName` | obs/api/auth.py:904-913 | no table names the old name afterwards |
| `AccountLemmas.RenameCanBeTakenBack` | obs/api/auth.py:904-913 | renaming back restores all six tables exactly when none of them named the new name before |
| `AccountLemmas.CreationKeepsProvenanceLive` | obs/api/v1/ringbuffer.py:1183-1217 | filtersets name only existing users: creating a user keeps that, and so does creating a filterset as an existing user |
| `AccountLemmas.UpdateKeepsProvenanceLive` | obs/api/auth.py:904-913 | an accepted update or rename keeps it |
| `AccountLemmas.DeletionKeepsProvenanceLive` | obs/api/auth.py:1038-1052 | a deletion keeps it |
| `AccountLemmas.AcceptedNamesAreUnnamed` | obs/api/auth.py:701-712 | so no table names an accepted new name, though the check leaves filtersets out |
| `AccountLemmas.RenamingBackRestoresTheStore` | obs/api/auth.py:864-937 | and an accepted rename can be taken back by an accepted rename, which restores the whole store |
| `AccountLemmas.CreationKeepsAnAdministrator` | obs/api/auth.py:791-843 | creating a user keeps an administrator |
| `AccountLemmas.UpdateKeepsAnAdministrator` | obs/api/auth.py:864-937 | no accepted update reaches a state without an administrator |
| `AccountLemmas.DeletionKeepsAnAdministrator` | obs/api/auth.py:949-1052 | nor does an accepted deletion |
| `Capabilities.CapabilityStore.Replace` | obs/api/auth.py:624-691 | succeeds exactly on the current revision, changes only that key's set and revision, logs each difference once under the new revision, and the log still replays to the stored sets |
| `Capabilities.CapabilityStore.LogDifference` | obs/api/auth.py:657-675 | logs one grant for each added and one revocation for each removed capability, each once, under the new revision |
| `Capabilities.DifferenceReplays` | obs/api/auth.py:657-675 | the logged events replay from the old set to the new one and leave other keys alone |
| `Capabilities.CapabilityStore.DeleteKey` | obs/api/auth.py:567-592 | the key's rows go, the others and the log stay, and the log still replays |
| `Capabilities.RevisionCountsSuccesses` | obs/api/auth.py:597-691 | over any run a key's revision is the one last imported plus one per successful replacement since |
| `Capabilities.NoLostUpdate` | obs/api/auth.py:635-656 | of all replacements that start from one revision at most one succeeds, unless the key is imported in between |
| `Capabilities.ImportCanLoseAnUpdate` | obs/api/v1/config.py:1529-1550 | a run in which an import lets two succeed from one revision |
| `Capabilities.RunFollowsRevisions` | obs/api/auth.py:624-691 | the revisions of a store after any run of replacements and imports are those reasoned about |
| `Capabilities.RunKeepsTheLog` | obs/api/auth.py:624-691 | over any run of replacements the log goes on replaying to the stored sets |
| `Capabilities.CapabilityStore.ImportSet` | obs/api/v1/config.py:1529-1550 | sets a key's capabilities and revision and nothing else, or fails on an unknown key or a doubled capability and changes nothing |
| `Capabilities.ImportKeepsTheLogExactly` | obs/api/v1/config.py:1529-1550 | after an import the log replays to the stored sets exactly if the imported set is the one stored before |
| `Authz.AllowedExactly` | obs/api/authz.py:103-191 | access is: targets, and administrator, or no deny on any target and an allow on some target (reading) or on every target |
| `Authz.ReasonExactly` | obs/api/authz.py:103-165 | the reason given, in every case; central control is asked for exactly if it is all that is missing on some target |
| `Authz.MatchesExactly` | obs/api/authz.py:141-148 | a grant speaks for its principal, and for an API key also under the key's bare id |
| `Authz.AppliesExactly` | obs/api/authz.py:167-176 | a grant applies at its node and below, an allow for reading also above |
| `Authz.AllowsExactly` | obs/api/authz.py:44-56 | which role allows which action, from which minimum role on, and when central control is needed |
| `Authz.OrderNeverMatters` | obs/api/authz.py:103-165 | order and repetition of grants and targets change neither the outcome nor the reason |
| `Authz.StrongerGrantsKeepAccess` | obs/api/authz.py:103-191 | grants that keep every allow, possibly stronger, and add no deny keep every access |
| `Authz.AddingAnAllowNeverRevokes` | obs/api/authz.py:103-191 | one more allow never revokes |
| `Authz.RaisingARoleNeverRevokes` | obs/api/authz.py:44-56 | raising the role of an allow never revokes |
| `Authz.AddingADenyNeverGives` | obs/api/authz.py:151-165 | one more deny never gives access |
| `Authz.FewerTargetsAreEasier` | obs/api/authz.py:120-138 | what may be done to several targets at once may be done to fewer of them |
| `Hierarchy.SeenTextIsMembership` | obs/api/authz_service.py:200-210 | the query's test for a bar-delimited id in its text of seen ids is membership, for ids without bars |
| `Hierarchy.WalkNeverRepeats` | obs/api/authz_service.py:192-234 | the walk upward never repeats a node, cycles or not |
| `Hierarchy.PathIsReachability` | obs/api/authz_service.py:192-234 | a node's path holds exactly the nodes reachable upward from it, on any parent links |
| `Hierarchy.AncestorsRootFirst` | obs/api/authz_service.py:192-234 | ancestors are listed from the root down, each the parent of the next |
| `Hierarchy.ReadableNodesAreClosedUpward` | obs/api/authz.py:167-191 | who can read a node can read every node above it |
| `Hierarchy.DenyCoversExactlyItsSubtree` | obs/api/authz.py:151-176 | a deny at a node denies its subtree for every action and changes no decision outside it |
| `Hierarchy.WritingIsNotClosedUpward` | obs/api/authz.py:167-191 | a child may be writable below a parent that is not |
| `AuthzService.Unique` | obs/api/authz_service.py:14-21 | each value once, where it first occurs |
| `AuthzService.DistinctKeepsOrder` | obs/api/authz_service.py:14-21 | the order of first occurrences is kept |
| `AuthzService.LoadRoleGrants` | obs/api/authz_service.py:34-84 | the loaded grants are the fetched rows with the ancestors of their nodes |
| `AuthzService.LoadingLosesNothing` | obs/api/authz_service.py:34-84 | on the loaded rows, even of one node type only, such targets are decided as on the whole table |
| `AuthzService.ResolveDatapointTargets` | obs/api/authz_service.py:237-282 | the two loops give every datapoint its linked nodes, or itself if it exists without any |
| `AuthzService.AddDirectTargets` | obs/api/authz_service.py:310-315 | datapoints with a grant of their own get themselves as a target, once |
| `AuthzService.Decide` | obs/api/authz_service.py:318-342 | one datapoint of the batch is decided as the pointwise decision says |
| `AuthzService.FilterAuthorizedDatapoints` | obs/api/authz_service.py:294-343 | the answer is the distinct input, in order, less what is refused |
| `AuthzService.BatchIsPointwise` | obs/api/authz_service.py:294-343 | asking for many is asking for each alone |
| `AuthzService.ReadExactly` | obs/api/authz_service.py:285-343 | non-administrators read a datapoint exactly with an allow at or above one of its nodes and no deny there; a grant strictly below never helps |
| `AuthzService.ReadableExactly` | obs/api/authz_service.py:285-343 | reading over the tables: some grant on the datapoint, or at or above a linked node, allows, and none denies |
| `AuthzService.TargetsExactly` | obs/api/authz_service.py:237-282 | the linked nodes, in the datapoint's control class, or the datapoint itself if there is none |
| `AuthzService.ControlExactly` | obs/api/authz_service.py:318-332 | writing asks for the datapoint's own control class, of an unknown one room-local |
| `AuthzService.LoadedGrantExactly` | obs/api/authz_service.py:51-84 | a loaded grant is its row, with exactly the nodes or pages above it |
| `AuthzService.WriteExactly` | obs/api/authz_service.py:318-342 | anything else takes no deny on a node or the datapoint, and an allow on all linked nodes or on the datapoint itself |
| `AuthzService.AdministratorExactly` | obs/api/authz_service.py:318-342 | an administrator is refused only an unknown datapoint that no grant names |
| `RegionalFormat.FormatNumber` | obs/regional_format.py:161-201 | formatting never fails: a finite number is written from its quantized digits and its own sign, others as plain text |
| `RegionalFormat.GroupDigits` | obs/regional_format.py:193-199 | the loop over reversed digits groups them in threes from the right |
| `RegionalFormat.PrecisionSuffices` | obs/regional_format.py:184-186 | the chosen precision always holds every digit of the rounded number, so quantizing never raises |
| `RegionalFormat.PrecisionIsTight` | obs/regional_format.py:185 | one digit less would fail on 9.5 |
| `RegionalFormat.RoundsHalfAwayFromZero` | obs/regional_format.py:180-186 | the result is within half a unit of the last place, and away from zero when exactly half way |
| `RegionalFormat.ExactWithEnoughDecimals` | obs/regional_format.py:151-178 | with its own decimals, or more, a number is written exactly |
| `RegionalFormat.FractionDigitsExactly` | obs/regional_format.py:151-178 | the text has as many fraction digits as asked for, none for a negative number of them, and otherwise the fewest that hold the number |
| `RegionalFormat.GroupsOfThree` | obs/regional_format.py:193-199 | all groups but the first have three digits, and no separator comes first |
| `RegionalFormat.GroupedExactlyWhenLong` | obs/regional_format.py:192-193 | a separator appears exactly when grouping is asked for and there are at least 3 + minimum-grouping digits |
| `RegionalFormat.UngroupingRestores` | obs/regional_format.py:193-199 | dropping the separators gives the digits back |
| `RegionalFormat.WrittenReadsBack` | obs/regional_format.py:187-201 | removing sign and separators recovers sign, digits and places of the quantized number, for every region |
| `RegionalFormat.SeparatorsOf` | obs/regional_format.py:66-82 | no region's separators can be taken for each other, a digit or a sign |
| `RegionalFormat.RegionsExactly` | obs/regional_format.py:66-98 | 1234567.50 as each region writes it, any other text like Germany, and which regions group four digits |
| `Modbus.EncodedComesBack` | obs/adapters/modbus_base.py:43-117 | for every integer format, byte order, word order and scale, encoding fails exactly out of range, and decoding scales exactly the number the registers carry |
| `Modbus.WrittenExactly` | obs/adapters/modbus_base.py:85-117 | the registers themselves, for every format, order and scale: digits to the base 65536 of the number cut off toward zero, bytes and words exchanged as asked, or the error |
| `Modbus.OneReadExactly` | obs/adapters/modbus_base.py:51-57 | what one register is read as |
| `Modbus.TwoReadExactly` | obs/adapters/modbus_base.py:59-72 | what two registers are read as, in every order, signed or not, scaled and rounded |
| `Modbus.FourReadExactly` | obs/adapters/modbus_base.py:74-80 | and four |
| `Modbus.TooFewRegisters` | obs/adapters/modbus_base.py:51-82 | fewer registers than needed give zero, or an error where only one is needed |
| `Modbus.IntegersRoundTrip` | obs/adapters/modbus_base.py:43-117 | at scale one every integer of the format comes back; an int16 in little byte order exactly when its two bytes are equal |
| `Modbus.FloatBytesComeBack` | obs/adapters/modbus_base.py:61-72 | the four bytes of a float32 arrive as packed, whatever the orders |
| `Modbus.ScaledValuesComeBackClose` | obs/adapters/modbus_base.py:85-117 | with a positive scale the error is below one scale step, plus one for uint16 and half a digit for the 32-bit formats |
| `Modbus.RegistersCarryBytes` | obs/adapters/modbus_base.py:105-110 | bytes cut into registers and joined again in the same order are the same bytes |
| `Modbus.PackRoundTrips` | obs/adapters/modbus_base.py:97-115 | packing fails exactly out of range, and unpacking undoes it |
| `Formula.ValidateTree` | obs/core/formula.py:64-80 | the worklist returns the first rejection in walking order, and none exactly when every node is allowed |
| `Formula.WalkAccepts` | obs/core/formula.py:64-80 | walking first in, first out reaches every node of every tree on the list |
| `Formula.AcceptedStaysInSandbox` | obs/core/formula.py:27-94 | evaluating an accepted tree meets no unbound name, no foreign attribute or node, and calls only allowed functions |
| `Formula.CalleeIsAllowed` | obs/core/formula.py:53-61 | what an accepted call calls is an allowed function |
| `Formula.NamesExactly` | obs/core/formula.py:48-50 | a name can be written exactly if it is bound, and to what |
| `Formula.AttributesExactly` | obs/core/formula.py:72-75 | the public attributes of math and no others can be written |
| `Formula.CallsExactly` | obs/core/formula.py:53-61 | exactly names bound to functions and public functions of math can be called, without keywords |
| `Formula.GrammarIsCovered` | obs/core/formula.py:28-46 | whatever the grammar of expressions builds is an expression of the model |
| `Formula.OperatorsExactly` | obs/core/formula.py:28-46 | of all other nodes exactly the ten arithmetic ones can be written |
| `Formula.OperatorsApply` | obs/core/formula.py:183-186 | an operator gets the values of its operands, left one first; one that fails fails the whole |
| `Formula.CallsApply` | obs/core/formula.py:183-186 | a function gets the values of its arguments in their order |
| `Formula.ApplyFormula` | obs/core/formula.py:158-210 | the outcome as a function of formula and value, every exception of the formula swallowed |
| `Formula.AppliedIsFiniteOrOriginal` | obs/core/formula.py:158-210 | the result is a finite number or the value; it raises exactly when the value's own conversion raises something else than a type or value error |
| `Formula.AppliedExactly` | obs/core/formula.py:175-199 | an accepted formula gives what it evaluates to if that is a finite number, any other leaves the value |
| `Formula.IdentityFormula` | obs/core/formula.py:165-182 | the formula x gives the value as a number: booleans as 0 and 1, integers exactly, the rest as floats |
| `Formula.ConversionCanEscape` | obs/core/formula.py:158-210 | a value where it does: a rational number beyond the range of floats, whatever the formula |
| `Formula.ChangesComeFromTheSandbox` | obs/core/formula.py:183-199 | a value changes only by an accepted formula, to what its evaluation gave |
| `Jsonable.Jsonable` | obs/core/json.py:20-22 | the copy below no active container, on every heap |
| `Jsonable.Walker.Walk` | obs/core/json.py:25-46 | the recursion ends on every heap and leaves the shared active set as it found it |
| `Jsonable.Walker.WalkEntries` | obs/core/json.py:32 | keys are converted, and of entries whose keys become equal the last counts |
| `Jsonable.MarkedExactlyInsideItself` | obs/core/json.py:20-46 | a path leads somewhere in the copy exactly when it does in the original and passes no container twice; it shows the marker exactly at a container it has come through |
| `Jsonable.EntryIsFound` | obs/core/json.py:32-54 | an entry is found in the copy under its key, a text as it is, a moment by its ISO form, other keys by their text, unless a later one is called the same |
| `Jsonable.MarkersExactly` | obs/core/json.py:26-37 | the marker names the kind of container |
| `Jsonable.AcyclicIsCopiedInFull` | obs/core/json.py:20-46 | for a value with no cycle below it, whatever else the heap holds, every path of the original is one of the copy and no marker appears, however much is shared |
| `KnxTunnel.FramesReadBack` | tools/testdata_generator.py:123-125 | every frame says its own length and parses as the service and body it was built from |
| `KnxTunnel.CemiExactly` | tools/testdata_generator.py:141-163 | the bus frame carries source, group address, length and value where the standard has them |
| `KnxTunnel.TelegramReadsBack` | tools/testdata_generator.py:236-237 | a telegram parses as a tunnelling request with its channel, number and bus frame |
| `KnxTunnel.DataAddressExactly` | tools/testdata_generator.py:284-293 | telegrams go to the endpoint a client put into its request, its own address and port standing in for unspecified ones |
| `KnxTunnel.WithoutDataAddress` | tools/testdata_generator.py:284-287 | and to the sender if it put none |
| `KnxTunnel.ConnectRepliesExactly` | tools/testdata_generator.py:271-307 | the refusal and the acceptance, byte for byte |
| `KnxTunnel.HeartbeatAnswered` | tools/testdata_generator.py:318-327 | a heartbeat is answered by whether its channel is in use |
| `KnxTunnel.DisconnectAnswered` | tools/testdata_generator.py:333-345 | a disconnect is answered without an error, known or not |
| `KnxTunnel.TelegramAcknowledged` | tools/testdata_generator.py:350-361 | a client's telegram is acknowledged under its channel and number, an acknowledgement ignored |
| `KnxTunnel.AssignedAddressFits` | tools/testdata_generator.py:294-307 | an accepted client is told its channel and a 16-bit address that ends in it, unless the host is a name |
| `KnxTunnel.BoundByNameEntersInSilence` | tools/testdata_generator.py:128-131 | a server bound by name enters each client it has room for and answers none of them |
| `KnxTunnel.StepFits` | tools/testdata_generator.py:271-345 | channels stay in 1..255 and sequence numbers in a byte |
| `KnxTunnel.KnxTunnelingServer.HandleConnect` | tools/testdata_generator.py:271-314 | refuses at four clients and changes nothing, else enters the client under the next channel; answers either way, but raises after entering it if the host is a name |
| `KnxTunnel.KnxTunnelingServer.HandleDisconnect` | tools/testdata_generator.py:333-345 | removes the client, if there is one, and answers |
| `KnxTunnel.KnxTunnelingServer.OnDatagram` | tools/testdata_generator.py:248-361 | every datagram changes the table as its event says and gets the described answer, or none, and raises exactly for a connect request that a server bound by name has room for |
| `KnxTunnel.KnxTunnelingServer.SendTelegram` | tools/testdata_generator.py:229-242 | each reachable client gets its numbered frame and is counted on; an unreachable one keeps its number |
| `TunnelRuns.TraceFollowsServer` | tools/testdata_generator.py:229-345 | the histories reasoned about take the server's own steps |
| `TunnelRuns.FramesCarryTheLog` | tools/testdata_generator.py:236-241 | the frames sent carry, in order, the channels and numbers that the histories record |
| `TunnelRuns.RunsStayConsistent` | tools/testdata_generator.py:190-345 | over every run: at most four clients, each under the channel it was given, and the k-th telegram on a connection carries k modulo 256 |
| `TunnelRuns.DisplacedExactlyAfterWrapping` | tools/testdata_generator.py:294-296 | an accepted connect displaces a live client exactly if that was accepted a multiple of 255 connects earlier; if all are among the last 254, none |
| `TunnelRuns.WrappingDisplacesALiveClient` | tools/testdata_generator.py:294-296 | a run in which a live client is replaced |

## Left out

- The web layer around these parts: routing, authentication tokens, password hashing, audit rows, MQTT password synchronization.
- Real storage: tables are in-memory values, a transaction is atomic, and the interleaving of coroutines between awaits is not modelled; router calls and account changes complete one at a time.
- SQL `LIKE`, SHA-256, Unicode case folding, the ISO parser and IEEE rounding are parameters; what is assumed of them is in `Platform.Valid`, `CollisionFree` and `Modbus.Sound`.
- The SQL statement's SELECT list, JOIN of archives and ORDER BY text: their effect is part of executing the statement, only the WHERE text is read token by token.
- Parsing of MQTT payloads in `WriteRouter.handle`, type-mismatch reports and the resending of system values: they only choose the value and bindings handed to the shared helper.
- `RouterRuns.DeltaBoundsSends`: numbers whose text is longer than the cache's limit of 8192 characters are not covered, because the delta filter cannot read their fingerprint.
- `RouterRuns.DeltaBoundsCalls`: the same numbers are not covered.
- `RouterRuns.ReceiverIsClose`: the same numbers, and numbers too large for a float, are not covered.
- `RouterRuns.CallsReceiverIsClose`: as `ReceiverIsClose`.
- Alarm operators: `evaluate_condition` is an arbitrary test; `alarm_conditions` is not part of this model.
- `repr` of a value always succeeds in `WriteRouter`; the interpreter refuses to render integers of more than 4300 digits.
- Router values are exact numbers, texts and other objects: NaN and infinities do not occur.
- The transformations of a router value (formula and value map) are a total function of the binding and the value.
- The database's own limits, on bound parameters, expression depth and statement length, which reject very large predicate lists: the reader in `SqlText` has none.
- `MessageStore.ArchiveStore.EnforceRetention`: states what is kept by comparing texts, as the statements do; that this is keeping by instants is the lemma `KeptFollowsTime`, on every state that creating entries can reach.
- The clock of an alarm: the instant of a change comes with the event.
- `RegionalFormat.FormatNumber`: exponents beyond the decimal context's own range of plus or minus 999999 are not modelled; the conversion of a float to its shortest decimal text is an input; currencies are left out.
- `Modbus.IntegersRoundTrip`: that integers up to 2^53 in size convert to floats unchanged is a premise, stated as the float being equal to the integer.
- `Formula.AcceptedStaysInSandbox`: takes it as given that the interpreter's math module has no public name `x`, `math`, `abs`, `round`, `min` or `max`, and that the parser puts operators only where the grammar has them.
- `Formula.ApplyFormula`: parsing and stripping the text are inputs, operators and functions of the interpreter are parameters; the trial runs of `validate_formula` are left out.
- `Jsonable.Walker.WalkEntries`: the order of keys in the copy is kept as in the source but nothing is proved about it.
- `Hierarchy.SeenTextIsMembership`: needs ids without a vertical bar, which UUIDs never contain.
- Page-tree authorization and the hierarchy node filter: they use the same walk and the same policy on other tables.
- `KnxTunnel.KnxTunnelingServer.SendTelegram`: the group address arrives as a number; a socket is open or not, and sending fails only for telegrams.
- Adapter start, stop and restart, history backends, frontends, and the other generator loops.
