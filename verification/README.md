# Gardener: feature-gate validation and shoot lifetime, in Dafny

This project models two pure decision procedures of Gardener, the Kubernetes
cluster-as-a-service manager, and proves properties of them.

1. **Kubernetes feature-gate validation.** A static table maps each feature
   gate name to the half-open range of Kubernetes versions that know it
   (`[AddedInVersion, RemovedInVersion)`, a missing bound being open), its
   default value and the version from which it is locked to that default.
   `ValidateFeatureGates` sorts every gate a user sets into one of four
   outcomes: unknown (Invalid), not supported in this version (Forbidden),
   locked and set to a value other than the default (Forbidden), or accepted.
   Modules `Versions`, `FeatureGates` and `FeatureGateTable`.
2. **Shoot cluster lifetime.** The shoot quota reconciler takes the shortest
   `ClusterLifetimeDays` among the quotas a shoot's secret binding references,
   stamps the shoot once with an expiration annotation (creation time plus the
   lifetime), and confirms and deletes the shoot once the current time is
   strictly after that expiration. Module `ShootQuota`; `GoIntegers` holds the
   int32/int64 wrap-around the finding below needs. `ShootQuota.ReconcileWith`
   is the reconciler with the stamp arithmetic as a parameter:
   `ShootQuota.ReconcileAsWritten` uses the code's fixed-width arithmetic,
   `ShootQuota.Reconcile` the intended exact one. The properties below hold for
   both unless a row says otherwise.

Modelling choices:

- Versions are `(major, minor)` pairs ordered lexicographically. Every bound in
  the table is written `major.minor`, so the patch level never changes a
  comparison. A version string that does not parse is `ParsedVersion.Malformed`.
- The table is a `map<string, FeatureGateVersionRange>` parameter;
  `FeatureGateTable.SampleTable` copies five real rows for concrete examples.
- Go walks the requested-gates map in an unspecified order. The method
  `ValidateFeatureGates` picks an arbitrary remaining key at each step, and its
  contract (`FeatureGates.Reports`) fixes the reported errors up to order.
- Errors are `FieldError(type, field path, reason)`; the field path is the
  given path plus a child segment named after the gate. Message text is not
  modelled.
- In the shoot reconciler, every read (garden client, shoot, secret binding,
  each quota), the outcome of every write and the clock are inputs
  (`Request`). The result is the ordered list of writes issued
  (`WriteExpiration(t)`, `ConfirmDeletion`, `DeleteShoot`) and whether the
  reconciler requeues after its sync period, stops, or returns an error.
  Times are Unix seconds; the annotation is either a timestamp or text that
  does not parse. The clock reading `now` is the current time rounded up to the
  whole second. The stamp the reconciler writes itself is formatted in
  RFC 3339 without a fraction, so it is a whole second, and for it Go's
  strict `After` on the exact time agrees with `now > expiration` on that
  reading (`ShootQuota.Expired`).

## Model

| member | source | states |
|---|---|---|
| FeatureGates.IsFeatureGateSupported | pkg/utils/validation/features/featuregates.go:321-328 | a gate missing from the table yields the unknown-feature-gate error whatever the version; a known gate with an unparseable version yields an error; an answer exists exactly for a known gate and a parsed version |
| FeatureGates.Contains | pkg/utils/validation/features/featuregates.go:330 | a version is in a range exactly when it is not below the added version and not at or above the removal version, a missing bound imposing nothing |
| FeatureGates.SupportedExactlyInRange | pkg/utils/validation/features/featuregates.go:327-331 | a known gate is supported exactly when it is not below AddedInVersion and below RemovedInVersion, a missing bound imposing nothing |
| FeatureGates.UnknownGateNeverSupported | pkg/utils/validation/features/featuregates.go:321-325 | for an unknown gate every version gives the unknown-feature-gate error |
| FeatureGates.SupportedVersionsConvex | pkg/utils/validation/features/featuregates.go:330 | the versions supporting a gate have no gaps: between two supported versions every version is supported |
| FeatureGates.RangeBoundsHalfOpen | pkg/utils/validation/features/featuregates.go:330 | the removal version itself is outside the range; the added version is inside whenever the range is not empty |
| FeatureGates.UnboundedRangeContainsAll | pkg/utils/validation/features/featuregates.go:330 | a range with neither bound contains every version |
| FeatureGates.IsLockedToDefault | pkg/utils/validation/features/featuregates.go:338-347 | a known gate is locked exactly when it has a lock version and the version is not below it |
| FeatureGates.NeverLockedWithoutLockVersion | pkg/utils/validation/features/featuregates.go:338-347 | a gate with empty LockedToDefaultInVersion is locked in no version |
| FeatureGates.LockedExactlyFromLockVersion | pkg/utils/validation/features/featuregates.go:342-344 | a gate with a lock version is locked exactly in the versions not below it |
| FeatureGates.LockedStaysLocked | pkg/utils/validation/features/featuregates.go:342-344 | a gate locked in one version is locked in every later one |
| FeatureGates.CheckGate | pkg/utils/validation/features/featuregates.go:355-367 | at most one error per requested gate, filed under the path child named after the gate, of type Invalid exactly for the unknown-gate and bad-version reasons; no error only for a known gate and parsed version |
| FeatureGates.UnknownGateOutcome | pkg/utils/validation/features/featuregates.go:355-357 | an unknown gate is reported as Invalid, naming the gate, for every version and value |
| FeatureGates.OutOfRangeOutcome | pkg/utils/validation/features/featuregates.go:358-359 | a known gate gets the not-supported Forbidden error exactly when the version is outside its range, whatever the value |
| FeatureGates.LockedMismatchOutcome | pkg/utils/validation/features/featuregates.go:361-366 | a supported gate is refused exactly when it is locked and the requested value differs from Default, and then with the locked-to-default Forbidden error |
| FeatureGates.AcceptedExactly | pkg/utils/validation/features/featuregates.go:355-367 | a gate is accepted exactly when it is known, the version parses and is in range, and the gate is unlocked or set to its default |
| FeatureGates.DefaultValueAccepted | pkg/utils/validation/features/featuregates.go:364 | a supported gate set to its default is never refused |
| FeatureGates.UnlockedAcceptsEitherValue | pkg/utils/validation/features/featuregates.go:364 | a supported gate that is not locked accepts both true and false |
| FeatureGates.ValidateFeatureGates | pkg/utils/validation/features/featuregates.go:351-371 | the result holds the error of every refused gate, nothing else, each once, and has at most as many entries as gates were requested (none for an empty request) |
| FeatureGates.ErrorsFiledUnderGate | pkg/utils/validation/features/featuregates.go:356-366 | every reported error is filed under the given path extended by the name of a requested gate |
| FeatureGates.ValidationOrderIndependent | pkg/utils/validation/features/featuregates.go:354 | whatever order the map is walked in, the error lists are permutations of each other |
| FeatureGateTable.ServiceLBStatusExample | pkg/utils/validation/features/featuregates.go:47 | AllowServiceLBStatusOnNonLB=true is refused as locked at 1.32, accepted at 1.31, and not supported at 1.28; false is accepted at 1.32 |
| FeatureGateTable.ZeroLimitedSharesExample | pkg/utils/validation/features/featuregates.go:316 | ZeroLimitedNominalConcurrencyShares is not supported at its removal version 1.32, refuses false at 1.31 as locked to true, and accepts false at 1.29 |
| FeatureGateTable.UnknownAndMalformedExample | pkg/utils/validation/features/featuregates.go:321-325 | an unknown name is Invalid naming the gate; a malformed version makes a known gate Invalid |
| FeatureGateTable.ValidateSampleRequest | pkg/utils/validation/features/featuregates.go:47-52 | validating AllowServiceLBStatusOnNonLB=true and APIResponseCompression=true at 1.32 reports exactly the locked error of the first |
| GoIntegers.Wrap32 | pkg/controllermanager/controller/shoot/shoot_quota_control.go:120 | the int32 left by a Go multiplication is congruent to the exact product modulo 2^32 and equals it when it fits |
| GoIntegers.Wrap64 | pkg/controllermanager/controller/shoot/shoot_quota_control.go:120 | the int64 left by a Duration multiplication is congruent to the exact product modulo 2^64 and equals it when it fits |
| ShootQuota.FoldLifetime | pkg/controllermanager/controller/shoot/shoot_quota_control.go:96-110 | the left-to-right walk fails exactly when some quota lookup fails; otherwise it returns the minimum of the running value and every lifetime set, and nothing only when neither exists |
| ShootQuota.EffectiveLifetime | pkg/controllermanager/controller/shoot/shoot_quota_control.go:96-110 | the effective lifetime is a lifetime some quota sets and no larger than any other; quotas without a lifetime are skipped; absent exactly when no quota sets one |
| ShootQuota.ExpirationTime | pkg/controllermanager/controller/shoot/shoot_quota_control.go:119-121 | the intended stamp is not before creation exactly when the lifetime is non-negative, and falls at the same time of day as the creation |
| ShootQuota.ExpirationAsWritten | pkg/controllermanager/controller/shoot/shoot_quota_control.go:120 | the stamp as the code computes it always lies within the int64 nanosecond range, about 292 years, of the creation time, whatever the lifetime |
| ShootQuota.Expired | pkg/controllermanager/controller/shoot/shoot_quota_control.go:135 | a whole-second expiration has passed exactly when the exact clock in nanoseconds is strictly after it, read on the clock rounded up to the whole second; in whole seconds that is at least one second past the expiration |
| ShootQuota.CeilSeconds | pkg/controllermanager/controller/shoot/shoot_quota_control.go:135 | the rounded clock reading is the least whole second not before the exact clock |
| ShootQuota.ExpirationNotBeforeCreation | pkg/controllermanager/controller/shoot/shoot_quota_control.go:119-121 | with the overflow-free computation a non-negative lifetime never expires before creation, and each extra day moves the expiration by one day |
| ShootQuota.AsWrittenAgreesWithoutOverflow | pkg/controllermanager/controller/shoot/shoot_quota_control.go:120 | for lifetimes of at most 106751 days either way, the int32/int64 computation gives creation time plus the lifetime in days |
| ShootQuota.AsWrittenOverflowExpiresBeforeCreation | pkg/controllermanager/controller/shoot/shoot_quota_control.go:120 | for a lifetime of 106752 days the int64 nanosecond count wraps and the stamped expiration lies 9223371274 seconds before creation |
| ShootQuota.DecideExpiry | pkg/controllermanager/controller/shoot/shoot_quota_control.go:135-149 | earlier writes are kept as a prefix; when now is strictly after the expiration the confirmation comes next, the deletion follows exactly when the confirmation succeeded, and a refused confirmation or deletion is an error naming it; otherwise the shoot is just requeued |
| ShootQuota.ReconcileWith | pkg/controllermanager/controller/shoot/shoot_quota_control.go:75-150 | writes come in the order stamp, confirm, delete, each at most once; stopping issues no write; a requeue never follows a confirmation without its deletion; an error follows writes exactly when a write was refused |
| ShootQuota.Reconcile | pkg/controllermanager/controller/shoot/shoot_quota_control.go:118-121 | the intended reconciler stamps the shortest lifetime added to the creation time exactly, and writes the stamp at most once, first |
| ShootQuota.ReconcileAsWritten | pkg/controllermanager/controller/shoot/shoot_quota_control.go:118-121 | the reconciler as written stamps with the int32/int64 computation of line 120, at most once, first |
| ShootQuota.ShootGoneStops | pkg/controllermanager/controller/shoot/shoot_quota_control.go:82-86 | a shoot that is not found ends reconciliation without error and without any write |
| ShootQuota.QuotaFailureWritesNothing | pkg/controllermanager/controller/shoot/shoot_quota_control.go:98-102 | a failed quota lookup returns an error before any write or deletion |
| ShootQuota.NoLifetimeNoActions | pkg/controllermanager/controller/shoot/shoot_quota_control.go:112-116 | when no referenced quota sets a lifetime the shoot is requeued with no write, even if it carries an expiration annotation |
| ShootQuota.ExistingAnnotationKept | pkg/controllermanager/controller/shoot/shoot_quota_control.go:118-128 | an expiration annotation already on the shoot is never rewritten |
| ShootQuota.MissingAnnotationStamped | pkg/controllermanager/controller/shoot/shoot_quota_control.go:118-121 | in the intended reconciler a shoot without annotation is first stamped with creation time plus the minimum lifetime times one day |
| ShootQuota.MissingAnnotationStampedAsWritten | pkg/controllermanager/controller/shoot/shoot_quota_control.go:118-121 | the reconciler as written stamps the same time whenever the minimum lifetime is within 106751 days either way |
| ShootQuota.StampFailureStops | pkg/controllermanager/controller/shoot/shoot_quota_control.go:123-126 | a refused stamp write ends the reconciliation with an update error after that write alone; nothing is confirmed or deleted |
| ShootQuota.UnparseableAnnotationFails | pkg/controllermanager/controller/shoot/shoot_quota_control.go:130-133 | an existing annotation that does not parse, with a lifetime in force, gives an error and no write |
| ShootQuota.NotDeletedUntilStrictlyAfter | pkg/controllermanager/controller/shoot/shoot_quota_control.go:135 | at or before the expiration time neither confirmation nor deletion is issued |
| ShootQuota.ExpiredShootDeleted | pkg/controllermanager/controller/shoot/shoot_quota_control.go:135-149 | after the expiration, with writes accepted, the writes are confirm then delete and the shoot is requeued |
| ShootQuota.ExpiredShootWriteFailures | pkg/controllermanager/controller/shoot/shoot_quota_control.go:139-146 | past the expiration a refused confirmation stops with only the confirmation issued, and a refused deletion is an error after confirm and delete |
| ShootQuota.DeletionOnlyAfterExpiry | pkg/controllermanager/controller/shoot/shoot_quota_control.go:130-149 | a deletion implies the shoot and binding were read, a lifetime applies, the annotation parsed, now is after the expiration, and the confirmation came right before |
| ShootQuota.DeletionMonotoneInTime | pkg/controllermanager/controller/shoot/shoot_quota_control.go:135 | if a reconciliation deletes at some time it also deletes at every later time |
| ShootQuota.StampThenReconcileAgain | pkg/controllermanager/controller/shoot/shoot_quota_control.go:118-135 | reconciling the shoot as stamped repeats the same decision minus the stamp |
| ShootQuota.OverflowDeletesFreshShoot | pkg/controllermanager/controller/shoot/shoot_quota_control.go:119-149 | with a 106752-day lifetime the reconciler as written stamps a time before creation and confirms and deletes the fresh shoot in the same reconciliation, where the intended one only stamps and requeues |

## Left out

- The manifest reconciliation engine (source loading, equivalences, apply,
  ownership tracking, orphan deletion, health aggregation) is a separate
  Gardener component outside this model.
- Version-string parsing and constraint evaluation (`versionutils`) are not
  part of this model. Versions arrive parsed; a malformed one is taken to make
  `Contains` fail for every known gate, as a constraint check on an unparseable
  version does.
- The error branch of `isFeatureLockedToDefault` (featuregates.go:362-363) is
  not modelled: once the version parsed in `Contains`, only a malformed lock
  version in the table could reach it, and the table's entries are taken as
  well-formed.
- `isFeatureLockedToDefault` dereferences the table row without a nil check;
  `FeatureGates.IsLockedToDefault` therefore requires a known gate. Its only
  caller reaches it after the gate was found.
- The rest of the ~280-row table; `FeatureGateTable.SampleTable` carries five
  rows.
- Error message text and the dotted rendering of field paths.
- In the shoot reconciler: the client map, informer listers, logging and
  `time.Now()` are inputs; the length of the sync period is not modelled, only
  that the result requeues after it; the update of the in-memory shoot after
  the annotation write and the internals of `ConfirmDeletion` are abstracted to
  the `WriteExpiration` and `ConfirmDeletion` actions.
- RFC 3339 formatting and parsing: times are whole seconds, and a stamped
  expiration is read back as the same second it was written.
- An existing annotation with a fractional second (which Go's RFC 3339 parser
  accepts) is taken as a whole second, so for such an annotation the modelled
  deletion can come up to one second earlier or later than the code's.
- The work-queue handlers `shootQuotaAdd` and `shootQuotaDelete` are queue
  plumbing.
- ShootQuota.Reconcile: is the corrected reconciler, stamping with
  `ShootQuota.ExpirationTime`; the code's reconciler is
  `ShootQuota.ReconcileAsWritten`, and the two stamp differently for lifetimes
  beyond 106751 days either way (see Findings).
- ShootQuota.MissingAnnotationStamped: is stated of the intended reconciler,
  which stamps the overflow-free `ShootQuota.ExpirationTime`; the code's own
  stamp agrees only for lifetimes within 106751 days either way
  (`ShootQuota.MissingAnnotationStampedAsWritten`, and see Findings).

## Findings

| source | as written | input that shows it | evidently intended | confidence | as-written member | corrected member |
|---|---|---|---|---|---|---|
| pkg/controllermanager/controller/shoot/shoot_quota_control.go:120 | the lifetime is multiplied by 24 in int32 and the hours by `time.Hour` in int64 nanoseconds, both wrapping silently | a quota with `ClusterLifetimeDays` 106752 (about 292 years): the nanosecond count wraps negative and the expiration is stamped 9223371274 seconds before creation, so the same reconciliation confirms and deletes the shoot | the expiration is creation time plus the lifetime in days, never before creation for a non-negative lifetime | medium, not executed; a bound on the lifetime enforced elsewhere would hide it | ShootQuota.OverflowDeletesFreshShoot | ShootQuota.ExpirationNotBeforeCreation |
