# Verified model of the controller

This project models, in Dafny, the parts of the Nexus controller whose correctness is hard to see from
the code, and proves what they promise.

* **Ed25519** (`NumberTheory`, `Edwards`, `Ed25519`, `SquareRoots`, `Signature`, `TwoNonResidue`,
  `Ed25519Params`). The signature verifier is proved equivalent to the verification equation of
  section 5.1.7 of RFC 8032. The group law is proved, associativity included: completeness from d not being
  a square, closure and associativity from polynomial identities. The theorems are stated for any prime p
  with p mod 8 = 5 and any non-square d, and then instantiated with the program's constants. Two facts stay
  named assumptions, as `requires` of the lemmas that need them: 2^255 - 19 is prime (`Prime(P)`), and
  [L]B is the neutral point. The equivalence for the verifier needs the first alone (`SchemeUsable`);
  `SignatureUnique` and `MessageBound` also ask that L is prime. A scheme over the field of 13 elements
  (`SmallSchemeValid`) shows that the hypotheses can be met.
* **Alert monitor** (`Monitoring`, `Monitor`, `MonitorRuns`, `AckRuns`, `MonitorPolls`). The cycle is a method
  on a class that holds the four maps, proved against a step function; the run properties are lemmas over every
  sequence of cycles, and `AckRuns` adds the acknowledgement store that requests change between them.
  `MonitorPolls` says when a run alerts and recovers, told by the envelopes of its polls and its earlier reports
  alone, pausing included. With debounce and cooldown switched off the monitor is proved to emit the plain
  snapshot diff.
* **Login throttle, replay cache, history** (`LoginThrottle`, `ReplayCache`, `HistoryStore`). Each store
  prunes its table, carries a ghost log of everything that happened, and is proved to answer as that log. The
  signature check of an assertion is the verified one.
* **Trend mathematics** (`Trend`, `Downsample`). Least squares is proved optimal; bucketing is proved to
  partition the series and to conserve its sum.
* **Registry** (`Registry`, `RegistryRuns`, `RegistryEdits`). Locked sections are methods on the saved list.
  Unlocked phases and locked sections of any number of requests and fan-outs interleave freely in the run model,
  which is proved to refine a ledger that ignores the monitor, and in which a maintenance window lasts until the
  first poll at or after its end.
* **Accounts** (`Tags`, `Accounts`, `AccountRuns`). Logins, scope presets and tokens. Each request is proved to
  succeed exactly under its guard and to do exactly what it asks; the invariants hold over every run of requests,
  and where overlapping requests can break one, the exact condition is proved.

The proofs turned up places where the code does less than a reader might expect. They are modelled as they
are; for each there is the exact condition and a run or an input that shows it:

* An edit that contacts a host again writes back the address, login name and TLS flag of the snapshot it read,
  so it can undo what another request committed meanwhile (`RegistryEdits.StaleCommit`,
  `RegistryEdits.AddressReverted`). The comment in `app.py:1335-1337` promises this only against the monitor,
  and against the monitor it holds.
* Such an edit also commits the pin its probe saw, over a pin that was re-accepted after the probe
  (`RegistryEdits.StaleReports`, `RegistryEdits.PinReverted`).
* An address or login name that a request names just as its snapshot had it is not written, even if another
  request has changed it meanwhile (`RegistryEdits.StaleNamed`, `RegistryEdits.NamedPassedOver`).
* A blank name stands for the name of the snapshot, so it can undo a rename
  (`RegistryEdits.StalePlainFields`, `RegistryEdits.RenameUndone`).
* Un-pinning a type copies the suggestion of the snapshot, which a refresh may have replaced
  (`RegistryEdits.EditShowsSuggestion`, `RegistryEdits.OldSuggestionShown`).
* Two overlapping requests can demote the last two admins, and a token can be minted for a login deleted
  meanwhile, because identity is resolved before the lock is taken (`Accounts.AdminKept`,
  `AccountRuns.OverlapLosesAdmins`, `Accounts.TokensKept`, `AccountRuns.OverlapOrphansToken`).
* A login that is deleted and added again starts over at session generation 0
  (`AccountRuns.GenerationExact`, `AccountRuns.ReaddedLoginStartsOver`).
* A login's tags are cleaned once more when they are read, a host's are not: a tag cut to 64 characters
  at a space no longer matches itself (`Accounts.SameTagsMatch`, `Accounts.LongTagMisses`).
* The login throttle checks and records in separate steps, so that overlapping requests can exceed its limits
  (`LoginThrottle.OverlapBudget`, `LoginThrottle.BudgetExceeded`).
* A query over a window longer than the retention can miss rows (`HistoryStore.CutoffExact`,
  `HistoryStore.LongWindowMisses`).

`dafny verify dfyconfig.toml` checks the whole project.

## Model

| member | source | states |
|---|---|---|
| NumberTheory.Fermat | ed25519.py:36-37 | a^(p-1) is 1 modulo a prime p for every a that p does not divide; the fact behind inversion by exponentiation |
| NumberTheory.ModInvCorrect | ed25519.py:36-37 | x * _modp_inv(x) is 1 modulo p, and the inverse is a residue, for every x that p does not divide |
| Edwards.Complete | ed25519.py:78-84 | d x1 y1 x2 y2 is never 1 or -1 for points of the curve, because d is not a square and -1 is: the addition law has no exceptional case |
| Edwards.SumUnique | ed25519.py:78-84 | The affine sum is the only solution of the two equations of the addition law (section 5.1.4 of RFC 8032) |
| Edwards.AddOnCurve | ed25519.py:78-84 | The sum of two curve points is a curve point |
| Edwards.AddAssociates | ed25519.py:78-84 | The addition law is associative on all curve points; proved from polynomial identities, not assumed |
| Edwards.MultipleAdd | ed25519.py:87-96 | [m + n]P = [m]P + [n]P |
| Edwards.MultipleMultiple | ed25519.py:87-96 | [m n]P = [m]([n]P) |
| Edwards.MultipleModulo | ed25519.py:48-49 | If [l]P is the neutral point, [n]P depends only on n modulo l |
| Ed25519.ValidIffRepresents | ed25519.py:71-75 | An extended point with Z nonzero, T Z = X Y and the homogeneous curve equation is exactly one that represents its affine value |
| Ed25519.PointAddCorrect | ed25519.py:78-84 | On valid extended points, also equal or opposite ones, _point_add gives a valid extended point with nonzero Z whose affine value is the twisted-Edwards sum |
| Ed25519.PointMul | ed25519.py:87-96 | The double-and-add loop gives a valid point whose affine value is the s-fold sum, for every s >= 0 |
| Ed25519.PointEqualCorrect | ed25519.py:99-105 | Cross-multiplied equality holds exactly when the affine values are equal, so it is an equivalence |
| Ed25519.PointAddRespectsEqual | ed25519.py:78-105 | Adding equal points to equal points gives equal points, whatever their projective coordinates |
| SquareRoots.CandidateCorrect | ed25519.py:62-66 | If x2 is a nonzero square modulo p, with p mod 8 = 5, the exponentiation corrected by a root of -1 is a root of x2 |
| SquareRoots.RootUnique | ed25519.py:67-68 | Two roots of one number with the same low bit are the same |
| Signature.RecoverXExact | ed25519.py:52-69 | _recover_x(y, sign) is x exactly when (x, y) is a curve point with residues as coordinates and sign is the low bit of x; so None means there is no such point, and x is unique (section 5.1.3 of RFC 8032) |
| Signature.DecompressExact | ed25519.py:108-117 | Decompression gives the extended form of a point exactly for the 32-byte encodings of that point |
| Signature.DecompressValid | ed25519.py:108-117 | Whatever decompresses is a valid extended point with the encoded affine value |
| Signature.BytesRoundTrip | ed25519.py:111-113 | Reading n back from its little-endian bytes gives n |
| Signature.FromBytesConcat | ed25519.py:48-49 | Bytes are read little-endian: a single byte is its value, and what is appended counts 256 times as much per byte before it |
| Signature.Verify | ed25519.py:120-144 | verify is True exactly when both lengths, both decodings and s < L are right and [s]B = R + [h]A holds in affine terms for an h below L that is congruent to the hash of R, the key and the message (section 5.1.7 of RFC 8032) |
| Signature.HonestAccepted | ed25519.py:120-144 | A signature made from any secret scalars a and r, with A = [a]B, R = [r]B and s = (r + h a) mod L for the residue h of the hash of R, A and the message, is accepted for every message |
| Signature.MessageBound | ed25519.py:120-144 | A signature binds its message up to the hash: under a key [a]B with a not a multiple of L, one signature accepted for two messages means that the hashes of R, A and either message agree modulo L (L prime) |
| Signature.SignatureUnique | ed25519.py:138-142 | The check s < L leaves one accepted signature for a given key, message and R (L prime) |
| TwoNonResidue.HalfPowerOfTwo | ed25519.py:41 | 2^((p-1)/2) is -1 modulo every prime p with p mod 8 = 5 |
| TwoNonResidue.QuarterPower | ed25519.py:41 | pow(2, (p-1)/4, p) is a square root of -1 for those primes |
| TwoNonResidue.TwiceSquare | ed25519.py:40 | Twice a nonzero square is never a square for those primes |
| Ed25519Params.CurveValid | ed25519.py:32-41 | The constants _P, _D and _SQRT_M1, as the program computes them, form a curve with d not a square and -1 a square, given that P is prime |
| Ed25519Params.BasePoint | ed25519.py:72-74 | _recover_x(4/5, 0) finds the base point, and it lies on the curve |
| Ed25519Params.SchemeUsable | ed25519.py:32-74 | The program's constants meet what the equivalence for verify asks of a scheme, given only that P is prime |
| Ed25519Params.SchemeValid | ed25519.py:32-74 | They meet everything the theorems about making signatures ask as well, if [L]B is the neutral point |
| Sorting.SortedBy | monitoring.py:265-267 | The sort used by the diff, by downsampling and by the history queries orders by its key and permutes its input |
| Sorting.SortStable | history.py:69 | Elements with the same key keep their order |
| Monitoring.DiffSnapshots | monitoring.py:236-268 | The loops emit exactly one event for each (host, key) of a host in cur that appeared, changed its detail or cleared, and nothing else, in sorted order |
| Monitoring.DiffExactly | monitoring.py:236-268 | An event is in the diff exactly if its host is still there under that name and the key is new, has another text or is gone, with the severity and text of the condition it is about |
| Monitoring.RankedMeans | monitoring.py:265-267 | Sorted means firing before changed before recovered, and within a kind critical before warning before information |
| Monitoring.DiffIsPatch | monitoring.py:236-268 | Applying the events, in any order, to the previous details of the hosts still there gives the current details |
| Monitoring.AckKeyInjective | monitoring.py:324-325 | Two pairs have the same ack key only if they are the same pair, for condition keys without a bar |
| Monitoring.SplitAcked | monitoring.py:346-356 | The entries are split in order into those with a running ack and the others |
| Monitoring.FilterConcat | monitoring.py:346-356 | The split goes entry by entry and keeps their order |
| Monitoring.AckStore.PruneAcks | monitoring.py:359-368 | The stored acks become exactly those whose condition is present and whose end has not come; the keys removed are returned |
| Monitoring.HiddenIffKept | monitoring.py:346-368 | For one clock, split_acked hides exactly the entries whose ack prune_acks keeps |
| Monitoring.AckLifetime | monitoring.py:359-368 | Over any cycles an ack survives exactly while its condition is present, and its end has not come, in every one of them |
| Monitor.Notifier.DropReports | app.py:2396-2399 | Active pairs of paused or removed hosts and acked pairs leave active, detail and last_fire |
| Monitor.Notifier.DropStreaks | app.py:2400-2401 | Their streaks end too |
| Monitor.Notifier.AdvanceStreaks | app.py:2403-2407 | Streaks of present pairs advance by one; all others end |
| Monitor.Notifier.Adopt | app.py:2408-2415 | The first cycle adopts the present conditions without an event |
| Monitor.Notifier.Fire | app.py:2416-2435 | Present pairs that are stable, out of cooldown and new or changed are reported and remembered; others are untouched |
| Monitor.Notifier.Recover | app.py:2436-2449 | Active pairs no longer present are reported as recovered and forgotten |
| Monitor.Notifier.Track | app.py:2391-2407 | Silent drops, then streaks: the state of the specification before any event |
| Monitor.Notifier.Settle | app.py:2408-2450 | The first cycle is silent; every later one reports exactly the events of the specification, recoveries last |
| Monitor.Notifier.Cycle | app.py:2360-2451 | One cycle prunes the acks, takes exactly the step of the specification on the four maps, and emits exactly its events, recoveries last |
| MonitorRuns.RunCoupled | app.py:2391-2449 | After every cycle of every run the detail keys are the active pairs, active pairs have a last_fire, and active pairs are present |
| MonitorRuns.StreakIsUnbroken | app.py:2400-2407 | The stored streak is the length of the current unbroken run of cycles in which the pair was tracked |
| MonitorRuns.Debounced | app.py:2423-2424 | No firing or changed event before the condition has lasted the flap threshold of that cycle, and none in the first cycle |
| MonitorRuns.Grammar | app.py:2416-2449 | Over every run, told by the events and silent drops alone: firing opens a pair that is not open; changed and recovered come only for an open pair, recovered exactly when it is no longer present |
| MonitorRuns.ReplayRebuilds | app.py:2396-2449 | The seed, the silent drops and the emitted events alone rebuild the active set of every run |
| MonitorRuns.DetailIsLastText | app.py:2434-2443 | The stored detail of an active pair is the last text sent or adopted for it |
| MonitorRuns.NothingWithheld | app.py:2417-2435 | After every later cycle a tracked condition has its current text reported, or is below the threshold, or is inside its cooldown |
| MonitorRuns.LatestTextSent | app.py:2425-2435 | A change seen during the cooldown goes out later: in every cycle that finds the cooldown since the stamp before it over and the threshold reached, the current text becomes the last one sent or adopted |
| MonitorRuns.LatestTextAfterReport | app.py:2391-2435 | The same told by events alone: when the cooldown has passed since the last report or adoption of a pair that was not dropped since, a cycle past the threshold leaves its current text as the last one sent |
| MonitorRuns.Spaced | app.py:2425-2435 | Two reports of one pair are at least the cooldown (0 or more) apart by the clock readings of their cycles, even if the clock is set back meanwhile, unless the pair was dropped while active in between |
| MonitorRuns.RecurrenceIsNew | app.py:2368-2378 | The first event after a cycle in which a pair was absent or acked is firing |
| AckRuns.AckSilencesOne | app.py:2371-2378 | Acknowledging a pair silences that pair while the ack runs, and changes no other |
| AckRuns.AckSilences | app.py:2366-2401 | Over runs of polls with requests that set and drop acks: while the condition stays and the ack runs, the pair gives no event in any cycle |
| AckRuns.RecurrenceTracked | app.py:2366-2401 | A condition absent in one poll and present in a later one is tracked there unless it was acked anew, and its first event is firing |
| MonitorPolls.FrameTold | app.py:2360-2389 | A cycle tracks exactly the conditions that the result of a host that is not paused brings and nobody acknowledged, and looks away exactly from acked pairs and from hosts that are paused or missing; for polls with distinct ids |
| MonitorPolls.StreakExactly | app.py:2400-2407 | A streak is at least d exactly if the condition was reported by the poll and not acked in each of the last d cycles, for every d |
| MonitorPolls.ActiveExactly | app.py:2391-2449 | A pair is active exactly if it was alerted or adopted in some cycle and was tracked in every cycle since |
| MonitorPolls.StampExactly | app.py:2396-2435 | The cooldown counts from the last report, unless the pair was acked or its host paused or removed while it was still firing after that report |
| MonitorPolls.AlertExactly | app.py:2360-2435 | Over every run of polls, told by envelopes and earlier alerts: an alert goes out exactly in a cycle after the first, for a tracked condition that was tracked for the threshold, is out of its cooldown, and was not already reported with this text and tracked since |
| MonitorPolls.AlertKind | app.py:2429-2432 | An alert says changed exactly if the pair was reported before and tracked ever since, and firing otherwise |
| MonitorPolls.RecoveredExactly | app.py:2391-2449 | A pair recovers exactly when it was reported and tracked ever since, and the result of its host, which is not paused, no longer has it |
| MonitorPolls.EventTold | app.py:2416-2449 | Every event bears the name in the host's result; an alert has the severity and text of the condition there, a recovery is information and has the text of the last report |
| MonitorPolls.PausedSilent | app.py:2382-2407 | A paused or missing host gives no event in that cycle, and afterwards no pair of it is active, has a text or has a streak |
| MonitorPolls.StartsOver | app.py:2393-2424 | The first time a condition is reported after its host was paused or missing, its streak is 1, and an alert is firing and needs a threshold of at most 1 |
| MonitorPolls.TurnsTold | app.py:2360-2384 | A run of polls with requests that set and drop acks in between is one of the runs these theorems are about |
| MonitorPolls.AckedExactly | app.py:2366-2374 | A pair is acked in a cycle exactly if its poll reports it and its stored ack has no end or one still ahead |
| MonitorPolls.StoredExactly | app.py:2366-2374 | Over polls and requests: an ack is stored exactly if a request set it, or it was there at the start, and since then every poll reported its condition before its end and no request set or dropped it |
| MonitorRuns.RefinesDiff | app.py:2360-2451 | With threshold 1, no cooldown, no acks, no paused hosts and a clock that never goes back, the events of every cycle after the first are a permutation of those of diff_snapshots with recoveries turned into information: the same hosts, keys, kinds and texts, and silence for hosts that vanish |
| LoginThrottle.Throttle.PruneFails | app.py:798-804 | One key keeps exactly its timestamps inside the window; other keys are untouched |
| LoginThrottle.Throttle.LoginThrottled | app.py:807-814 | A login is throttled exactly when the failures of its address, or those of its address and user since their last success, that are less than a window old reach the limit, counted in the log of everything that happened |
| LoginThrottle.RecentCount | app.py:798-832 | The timestamps kept for a key are as many as its failures in the log that are less than a window old and not cleared by a success |
| LoginThrottle.Throttle.Sweep | app.py:823-825 | Every key is pruned |
| LoginThrottle.Throttle.LoginFailed | app.py:817-827 | A failure is logged under both keys, and the table still agrees with the log after a sweep |
| LoginThrottle.Throttle.LoginSucceeded | app.py:830-832 | A success clears only its own (ip, user) key |
| LoginThrottle.Throttle.Login | app.py:864-877 | A login is throttled exactly under that count, else refused or let in by its password, and logged accordingly |
| LoginThrottle.FailureBudget | app.py:807-832 | With requests one at a time, the log has in any window at most LOGIN_MAX_PER_IP failures from one address, and at most LOGIN_MAX_PER_USER for one address and user name since its last success |
| LoginThrottle.OverlapBudget | app.py:807-832 | With the check and the record of a request as separate steps that interleave, and at most k requests of a key between the two at any time, any window holds at most the limit plus k - 1 failures of that key |
| LoginThrottle.BudgetExceeded | app.py:807-832 | The bound is reached for every k: after one failure less than the smaller limit, k requests checked before any is recorded leave k - 1 failures more than that limit in the history |
| ReplayCache.Verifier.Remember | sso.py:250-265 | Expired entries are swept; an unexpired jti is refused, any other is recorded |
| ReplayCache.Verifier.Check | sso.py:282-320 | The checks before the cache pass exactly when the key has 32 bytes, the Ed25519 signature is accepted in the sense of section 5.1.7 of RFC 8032, and every claim holds |
| ReplayCache.ClaimsComputed | sso.py:294-320 | The claims as the checks compute them are the claims as promised: issuer, audience, a subject and an id that are not empty, an end ahead and an issue time at most 30 seconds ahead, both integers |
| ReplayCache.Verifier.Verify | sso.py:275-322 | An assertion is accepted exactly when its signature and claims hold and no accepted assertion with its jti is still alive |
| ReplayCache.SeenExact | sso.py:257-265 | The cache holds exactly the accepted assertions that have not expired |
| ReplayCache.SingleUse | sso.py:244-265 | The same (jti, exp) is never accepted twice, in any run with a clock that does not go back |
| Trend.DenominatorSign | history.py:31-33 | n Sxx - Sx^2 is never negative, and is 0 exactly when all x are equal |
| Trend.CompleteConcat | history.py:23 | Sample by sample and in order, one with both coordinates is that point and any other is left out |
| Trend.NoLine | history.py:23-33 | There is no line exactly for fewer than two complete points or when all x are equal |
| Trend.LeastSquares | history.py:27-36 | Every other line has a strictly larger squared error |
| Trend.CollinearRecovered | history.py:27-36 | Collinear data give back their own line |
| Trend.ForecastExists | history.py:43-51 | There is a forecast exactly for a size, four complete points over a long enough span, and not all x equal |
| Trend.GrowingProjection | history.py:52-62 | For any samples: the forecast names the first moment, from any time on, at which the usage has reached the size if it stands at the given usage, or else at the last sample's, then and grows with the fitted slope |
| Trend.FillTimeExact | history.py:52-62 | On collinear data, and for a usage on the line at some time, whether given or taken from the last sample, the forecast from that time is the first moment at which the line has reached the size |
| Trend.FillTimeFromLast | history.py:53 | Without a current usage the forecast is the true fill time counted from the last sample |
| Trend.TrendMeaning | history.py:54-62 | flat exactly when the fitted line moves by less than the size in ten years; otherwise shrinking or growing exactly as it falls or rises, and a shrinking line never rises again |
| Downsample.BucketCovers | history.py:76-79 | A timestamp falls into a bucket of the grid that begins no later than it, and before the next bucket |
| Downsample.BucketMonotone | history.py:79 | A later timestamp never falls into an earlier bucket |
| Downsample.BucketsPartition | history.py:77-80 | Read one after the other the buckets give back the sorted series: every row is in exactly one bucket |
| Downsample.SumConserved | history.py:65-85 | The averages, weighted with their counts, add up to the sum of all values that are not missing |
| Downsample.OutputOrdered | history.py:82-85 | At most `buckets` averages, with nondecreasing timestamps |
| Downsample.EdgeExact | history.py:76-84 | The bucket edges go from the first to the last timestamp in equal steps |
| Downsample.MembersConcat | history.py:78-80 | A bucket gets the values of its readings one by one, in their order |
| Downsample.MeanExact | history.py:83-84 | The average is missing exactly when all values of the bucket are; otherwise, taken for each known value, it gives their sum |
| Downsample.AveragesExactly | history.py:82-85 | A reading is given exactly for each bucket with a member, empty ones give none: the average of its members, stamped with where the bucket begins |
| Downsample.OneMoment | history.py:69-75 | A series of a single moment is one reading, the average at that moment; without rows or without buckets there is none |
| Downsample.Fill | history.py:77-80 | The loop's table holds exactly the non-empty buckets with their members |
| Downsample.Downsample | history.py:65-85 | The loops compute the average of each non-empty bucket, with the special cases for no rows, no buckets and a single timestamp |
| HistoryStore.Store.Record | history.py:108-127 | A recording appends one row for each named host and prunes by its own clock, which may have gone back; what is left are exactly the rows not older than the retention |
| HistoryStore.RowsConcat | history.py:108-120 | The rows are made report by report, in order |
| HistoryStore.PeakExact | history.py:108-127 | The peak that the window theorems speak of is the time of some recording, and no recording is later |
| HistoryStore.WindowExact | history.py:136-155 | A row is in a window of some hours exactly if it is at most that many hours old |
| HistoryStore.ColumnAt | history.py:136-141 | Each row gives the asked metric at its timestamp; anything but memory is the CPU |
| HistoryStore.AvailabilityExact | history.py:143-151 | The availability is the share of reachable ones among the table positions of the host's samples in the window, and their number; none without a sample |
| HistoryStore.WindowAgrees | history.py:122-134 | For every history of recordings, a window that begins no earlier than the latest recording minus the retention gets the same answer from the table and from the log of everything recorded |
| HistoryStore.Store.ShortWindow | history.py:126-138 | So it is for every window no longer than the retention, once the clock has reached the latest recording |
| HistoryStore.TableExact | history.py:126 | While the clock does not go back, the table is exactly the logged rows inside the retention |
| HistoryStore.CutoffExact | history.py:126-134 | Pruning at a cutoff leaves every query of every table alone exactly when the window begins no earlier than the cutoff |
| HistoryStore.LongWindowMisses | history.py:126-151 | Two recordings further apart than the retention: a longer window counts one sample where the log has two |
| HistoryStore.Store.Series | history.py:136-141 | For a window inside the retention the series equals the one over every row ever recorded |
| HistoryStore.Store.Availability | history.py:143-151 | Likewise for the availability percentage and the sample count |
| HistoryStore.Store.StoragePoints | history.py:153-157 | Likewise for the points of the capacity forecast |
| HistoryStore.QueryInOrder | history.py:129-134 | A query lists exactly the host's rows of its window, each as often as the table holds it, in time order |
| Registry.Store.Append | app.py:1318-1321 | Enrollment appends the record |
| Registry.Store.CommitEdits | app.py:1420-1426 | The edits are applied to the first record with the id as it is under the lock, all others stay; nothing happens if it is gone |
| Registry.Store.CommitPin | app.py:1519-1525 | Likewise the pin of that record alone becomes the new certificate's |
| Registry.Store.Remove | app.py:1438-1445 | Deletion removes the record and reports whether there was one |
| Registry.Store.RefreshFromResults | app.py:1738-1762 | Record by record: one that was reached has the time, type, version and capabilities that its result brings and nothing else new, any other is as before; the list is saved only if something was reached, and the response shows the types at once |
| Registry.ShownExactly | app.py:1751-1755 | The response shows a new type for exactly the hosts that were reached, classified and not pinned |
| Registry.ShownIsStored | app.py:1751-1755 | A type shown at once in the response is the type stored for that host |
| Registry.Store.ExpirePauses | app.py:1689-1709 | A record paused until a readable t is enabled with no window exactly when t <= now; every other record is as before, and the names, or ids, of the resumed ones are returned in list order |
| Registry.LookupReplace | app.py:1420-1426 | Committing to one record leaves every other lookup as it was |
| Registry.LookupWithout | app.py:1438-1445 | Deleting one id leaves every other lookup as it was |
| RegistryRuns.RunReflected | app.py:1318-1525 | For every interleaving of unlocked reads, locked commits and monitor steps the registry shows a ledger on which the monitor's steps do nothing |
| RegistryRuns.IdsExact | app.py:1318-1445 | In every interleaving the saved registry holds exactly the hosts that were there or enrolled and have not been deleted since, so a late edit, re-pin or refresh revives nothing |
| RegistryRuns.RunDistinct | app.py:1318-1445 | In every interleaving no two records share an id |
| RegistryRuns.LastWriterWins | app.py:1318-1426 | In every interleaving the name, tags and address of a living host are those of the last enrollment or committed edit that carries them, or the initial ones if none does |
| RegistryRuns.StartReflects | app.py:754-759 | Every registry with no request under way has a ledger to start from, so the run theorems hold from any saved file |
| RegistryRuns.MonitorNeverInterferes | app.py:1711-1762 | Taking every monitor step out of a run changes no administrator-owned field of any host |
| RegistryRuns.WindowLasts | app.py:1689-1720 | In every interleaving a pause with a window that no request touches lasts until the first fan-out that starts at or after its end, and is over from then on |
| RegistryRuns.PauseLasts | app.py:1689-1702 | A pause without a readable end lasts until a request ends it |
| RegistryRuns.PollAsks | app.py:1711-1730 | A fan-out asks exactly the hosts that are not paused or whose window is over when it starts |
| RegistryRuns.OnlyAskedHealed | app.py:1725-1762 | When it commits, it changes no record of a host that it did not ask or did not reach |
| RegistryRuns.PinForExactly | app.py:1500-1518 | A re-pin commits a fingerprint exactly if the host has an https address, serves that certificate, it is the one reviewed if one was named, and it is not pinned already |
| RegistryEdits.FreshCommit | app.py:1329-1426 | Committed on the record it was computed from, an edit gives every field of the record the value the request asks for, or leaves it alone; the pin, role, version and capabilities become what a probe saw, and only then |
| RegistryEdits.EditOutcome | app.py:1345-1420 | An edit contacts the host again exactly if it changes the address or the login name, or brings a secret or a TLS flag, as far as that kind of host has them; it is refused for a bad window, a bad type or an unreachable host, in this order, and commits otherwise |
| RegistryEdits.StalePlainFields | app.py:1345-1372 | Computed from an older snapshot, a commit keeps the name, tags, type and pause it does not name; a blank name keeps the name exactly when the snapshot still has it |
| RegistryEdits.StaleCommit | app.py:1374-1426 | Such a commit keeps the address, login name and TLS flag it does not name exactly when it does not contact the host again or the snapshot still agrees; it always keeps a secret it does not name |
| RegistryEdits.StaleReports | app.py:1393-1415 | It keeps the pin, role, version and capabilities exactly when it does not contact the host again or the probe saw the same |
| RegistryEdits.StaleNamed | app.py:1379-1426 | An address or login name that it does name takes effect exactly when the host is contacted again or the record has that value already |
| RegistryEdits.AddressReverted | app.py:1379-1426 | A run of two overlapping edits in which a token change puts back the address that the other edit had just replaced |
| RegistryEdits.PinReverted | app.py:1393-1525 | A run in which an edit that probed before a re-pin and commits after it puts the old certificate pin back |
| RegistryEdits.NamedPassedOver | app.py:1380-1426 | A run in which an address that a request names as its snapshot had it is passed over, because another edit has moved the host |
| RegistryEdits.RenameUndone | app.py:1343-1426 | A run in which a blank name undoes a rename |
| RegistryEdits.RefreshShowsSuggestion | app.py:1751-1755 | A refresh keeps an unpinned host showing its suggested type, and restores it for every host it could classify |
| RegistryEdits.EditShowsSuggestion | app.py:1360-1372 | An edit keeps that too, except exactly an un-pin whose snapshot has another suggestion than the record |
| RegistryEdits.OldSuggestionShown | app.py:1360-1426 | A run in which an un-pin commits over a suggestion that a fan-out brought meanwhile, and the host is left with the old one |
| Tags.CleanScopeTags | app.py:321-330 | The loop gives the stripped, cut, non-blank and distinct tags in order, at most 32 |
| Tags.StripExact | app.py:321-330 | Stripping takes off spaces at both ends and nothing else; the text between is unchanged |
| Tags.CleanExactly | app.py:321-330 | The cleaned list is the first 32 first occurrences, in order, of the stripped tags cut to 64 characters |
| Tags.CleanShape | app.py:321-330 | Every cleaned tag is non-blank, at most 64 long, starts with a non-space, and occurs once |
| Tags.CleanEmpty | app.py:321-330 | Nothing is left exactly when every tag was blank |
| Tags.CleanAgain | app.py:360-364 | Cleaning a cleaned list again leaves it non-empty if it was |
| Tags.CleanTwice | app.py:321-330 | Cleaning twice is the same as once exactly when no cut left a trailing space |
| Tags.CleanAgainKeeps | app.py:321-330 | A cleaned tag survives a second cleaning exactly when it has no trailing space |
| Accounts.Store.Add | app.py:1044-1072 | On success exactly one login is new, with the role, password, forced change and scope the request asks for, where a preset wins over tags and admins get neither, at generation 0; all other logins, presets and tokens are as before, and a refusal changes nothing |
| Accounts.Store.Update | app.py:1085-1123 | On success the login has the role, password and scope the request names and otherwise its own, the generation goes up by one for a new password and by one for a revocation, and nothing else changes; the sender's own session is stamped anew |
| Accounts.Store.Delete | app.py:1128-1144 | Exactly the login and its tokens go; refused for oneself and for the last admin |
| Accounts.Store.SetOwnPassword | app.py:1001-1024 | A password change needs a session and the old password, sets the new one, raises the generation and changes nothing else; the changing session is stamped anew |
| Accounts.Store.SaveScopePreset | app.py:1156-1169 | With a valid name and a tag that is not blank the preset becomes the cleaned tags, and nothing else changes |
| Accounts.Store.DeleteScopePreset | app.py:1175-1188 | That preset alone is deleted, exactly when it exists and no login refers to it |
| Accounts.Store.MintToken | app.py:712-728 | The minted token belongs to the current login and is the only change; only from an interactive session |
| Accounts.Store.RevokeToken | app.py:734-747 | The token stored first under an id, and no other, is revoked by its owner or by an admin; to anyone else it does not exist |
| Accounts.AcceptedExactly | app.py:712-1188 | Each of the eight requests succeeds exactly under a guard on what it asks, its sender and the configuration before it |
| Accounts.PerformedExactly | app.py:712-1188 | An accepted request has exactly the effect it asks for, told field by field, and touches nothing else; a refused one changes nothing |
| Accounts.PresetsKept | app.py:1060-1188 | Every request, however stale its sender's authentication, keeps each preset reference resolving to a preset with a tag |
| Accounts.TokensKept | app.py:712-728 | A request keeps every token owned, except exactly an interactive request with an acceptable token name whose login is gone |
| Accounts.AdminKept | app.py:1085-1139 | A request keeps an admin, except exactly an acceptable update by an admin that gives the only admin, not the sender, another role |
| AccountRuns.GenerationExact | app.py:416-442 | Over every run a login's session generation is the number of raises since it was last deleted, on top of what it was at the start if it never was |
| AccountRuns.SessionsEnd | app.py:416-442 | Over every run that does not delete the login, its generation never goes back and goes up exactly with an accepted new password or revocation |
| AccountRuns.StampAccepted | app.py:504-521 | A session stamped at any moment of a run is accepted at its end exactly when no accepted request since then gave the login a new password or revoked its sessions, while the login is not deleted |
| AccountRuns.ReaddedLoginStartsOver | app.py:1066-1070 | A login deleted and added again by a current admin starts over at generation 0, whatever it had reached |
| AccountRuns.RunKeeps | app.py:722-1188 | Over every run of requests one at a time, presets resolve, tokens have owners, and an admin remains |
| AccountRuns.RunKeepsScopes | app.py:1060-1188 | However requests overlap, no preset reference dangles, and a preset and literal tags stay mutually exclusive |
| Accounts.PresetScope | app.py:347-364 | A login bound to a preset sees exactly that preset's tags: never nothing and never the whole fleet |
| Accounts.LiteralScope | app.py:347-364 | A login with literal tags is fleet-wide exactly when all its tags were blank |
| Accounts.SeesExactly | app.py:347-371 | A login sees a host exactly if it is an admin, or the cleaned tags of its preset, or its own without one, are none or meet the host's |
| AccountRuns.ScopeOnlyChangedBy | app.py:347-364 | Over any run that touches neither a login nor its preset, the login sees the same hosts |
| Accounts.SameTagsMatch | app.py:321-371 | A host and a non-admin login given the same list of tags match exactly when all were blank or the cut to 64 characters left at least one kept tag without a trailing space |
| Accounts.LongTagMisses | app.py:321-371 | 63 letters, a space and a letter are such a tag: given to both, they do not match |
| AccountRuns.OverlapLosesAdmins | app.py:1094-1096 | Two admins authenticated before either request took the lock can demote each other, and none is left |
| AccountRuns.OverlapOrphansToken | app.py:712-728 | A login deleted after its own request was authenticated still mints a token that nobody owns |

## Left out

- SHA-512, base64, JSON and the Fernet and password hashes: SHA-512 is an arbitrary function of bytes, a decoded token is a parameter, secrets and passwords stand for their ciphertexts and hashes.
- Primality of 2^255 - 19 and of L, and the order of the base point: named assumptions, as the text above says.
- Floating point: clocks, averages, regression and forecasts are over the reals, so rounding, overflow and NaN are not modelled.
- HistoryStore.Store.Availability: the rounding of the percentage to two digits is not modelled.
- HistoryStore.Store.Record: byte counts are integers here, so the truncation of fractional counts is not modelled.
- HistoryStore.QueryInOrder: rows with equal timestamps keep their insertion order, which SQLite does not promise.
- Monitor.Notifier.Recover: the event carries the text that cleared, not the wording around it, and the reports of one cycle come in an arbitrary order within each kind, because the source iterates over sets.
- Monitor.Notifier.Cycle: recording and dispatching the events to webhooks is left out; the two clock readings of a cycle and the tunable threshold are parameters.
- Monitoring.SplitAcked: an entry is its key, severity and detail; the copy of the ack inside a hidden entry is left out.
- What makes a condition (`host_conditions`): each envelope brings an arbitrary map of conditions, dropped when the host is paused.
- LoginThrottle.FailureBudget: it is about requests one at a time; `LoginThrottle.OverlapBudget` has the bound for overlapping ones.
- ReplayCache.Verifier.Verify: splitting and decoding a token is left out; one that fails, like a missing configuration, is None here and changes nothing.
- Text cleaning of request fields (`_s`, `clean_type`, `clean_until`): requests carry the cleaned text or the verdict. Tag cleaning is modelled in full.
- Registry.Store.RefreshFromResults: time stamps are integers.
- RegistryRuns.RunReflected: enrollment draws an id never used before, as random ids do; the probe and certificate readings are parameters; caches cleared after a commit are left out.
- AccountRuns.RunKeeps: each request is authenticated against the configuration it changes; `Accounts.TokensKept` and `Accounts.AdminKept` say what can happen otherwise.
- Accounts.Store.RevokeToken: which of several tokens with one id is stored first is a parameter, because maps have no order here.
- Legacy login records that are not dictionaries, sessions and cookies beyond the generation counter and its stamps, the command line, and restore from backup.
- Network and host access, Flask routing, the user interface, audit lines, file formats and atomic file writes.
- The service-check store, fleet roll-ups, metrics, wallboard thresholds, and the formatting and routing of webhooks.
