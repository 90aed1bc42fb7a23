/**
 The decision the shoot quota reconciler takes for one shoot: find the
 shortest cluster lifetime among the quotas its secret binding references,
 stamp the shoot with an expiration time once, and delete the shoot when that
 time has passed. Reads, writes and the clock are inputs; the writes the
 reconciler issues are returned as abstract actions, in order.
 */
module ShootQuota {
  import opened Wrappers
  import opened GoIntegers

  const SecondsPerDay: int := 86400
  const NanosPerSecond: int := 1_000_000_000
  const NanosPerHour: int := 3_600_000_000_000

  /** A quota referenced by the secret binding, as the lister returned it; times are in days. */
  datatype QuotaLookup = QuotaFound(clusterLifetimeDays: Option<Int32>) | QuotaLookupFailed

  /** The expiration annotation: a timestamp in seconds, or text that is not a timestamp. */
  datatype ExpirationAnnotation = ExpiresAt(time: int) | UnparseableTimestamp

  /** The parts of a shoot the decision reads; times are Unix seconds. */
  datatype Shoot = Shoot(creationTimestamp: int, expiration: Option<ExpirationAnnotation>)

  datatype ShootLookup = ShootFound(shoot: Shoot) | ShootNotFound | ShootLookupFailed

  datatype BindingLookup = BindingFound(quotas: seq<QuotaLookup>) | BindingLookupFailed

  /** Whether each write the reconciler may issue is accepted by the garden cluster. */
  datatype Store = Store(updateSucceeds: bool, confirmSucceeds: bool, deleteSucceeds: bool)

  /** Everything one reconciliation observes. */
  datatype Request = Request(
    gardenClientAvailable: bool,
    shoot: ShootLookup,
    binding: BindingLookup,
    store: Store,
    now: int)

  /** A write issued to the garden cluster. */
  datatype Action = WriteExpiration(time: int) | ConfirmDeletion | DeleteShoot

  datatype Cause =
    | GardenClientUnavailable
    | ShootUnreadable
    | SecretBindingUnreadable
    | QuotaUnreadable
    | AnnotationUpdateFailed
    | TimestampUnparseable
    | ConfirmDeletionFailed
    | DeletionFailed

  /** Requeue after the sync period, stop without error, or fail (and be retried). */
  datatype ReconcileResult = RequeueAfterSyncPeriod | Done | Error(cause: Cause)

  datatype Outcome = Outcome(actions: seq<Action>, result: ReconcileResult)

  // ---------------------------------------------------------------------
  // The shortest cluster lifetime

  /**
   Walks the quotas left to right keeping the smallest lifetime seen so far in
   `acc`; quotas without a lifetime are skipped, and a failed lookup stops the
   walk with an error.
   */
  function FoldLifetime(quotas: seq<QuotaLookup>, acc: Option<Int32>): (r: Result<Option<Int32>, Cause>)
    ensures r.Failure? <==> QuotaLookupFailed in quotas
    ensures r.Failure? ==> r.error == QuotaUnreadable
    ensures r.Success? ==> (r.value.None? <==> acc.None? && forall d: Int32 :: QuotaFound(Some(d)) !in quotas)
    ensures r.Success? && r.value.Some? ==> r.value == acc || QuotaFound(r.value) in quotas
    ensures r.Success? && r.value.Some? && acc.Some? ==> r.value.value <= acc.value
    ensures r.Success? && r.value.Some? ==> forall d: Int32 :: QuotaFound(Some(d)) in quotas ==> r.value.value <= d
    decreases |quotas|
  {
    if quotas == [] then
      Success(acc)
    else
      assert quotas == [quotas[0]] + quotas[1..];
      match quotas[0]
      case QuotaLookupFailed => Failure(QuotaUnreadable)
      case QuotaFound(None) => FoldLifetime(quotas[1..], acc)
      case QuotaFound(Some(days)) =>
        FoldLifetime(quotas[1..], if acc.None? || days < acc.value then Some(days) else acc)
  }

  /** The lifetime that applies to the shoot: the minimum over the quotas that set one. */
  function EffectiveLifetime(quotas: seq<QuotaLookup>): (r: Result<Option<Int32>, Cause>)
    ensures r.Failure? <==> QuotaLookupFailed in quotas
    ensures r.Failure? ==> r.error == QuotaUnreadable
    ensures r == Success(None) <==> QuotaLookupFailed !in quotas && forall d: Int32 :: QuotaFound(Some(d)) !in quotas
    ensures r.Success? && r.value.Some? ==>
              && QuotaFound(r.value) in quotas
              && forall d: Int32 :: QuotaFound(Some(d)) in quotas ==> r.value.value <= d
  {
    FoldLifetime(quotas, None)
  }

  // ---------------------------------------------------------------------
  // The expiration timestamp

  /** Creation time plus the lifetime in whole days, computed without overflow. */
  function ExpirationTime(creation: int, days: Int32): (t: int)
    ensures days >= 0 <==> t >= creation
    ensures t % SecondsPerDay == creation % SecondsPerDay
  {
    creation + days * SecondsPerDay
  }

  /**
   The same computation as the reconciler performs it: days times 24 in int32,
   the hours turned into an int64 count of nanoseconds, added to the creation
   time and rendered to whole seconds.
   */
  function ExpirationAsWritten(creation: int, days: Int32): (t: int)
    ensures creation - 9223372037 <= t < creation + 9223372037
  {
    var hours := Wrap32(days * 24);
    var nanos := Wrap64(hours * NanosPerHour);
    creation + nanos / NanosPerSecond
  }

  /** A shoot with a non-negative lifetime never expires before it was created, later for longer lifetimes. */
  lemma ExpirationNotBeforeCreation(creation: int, days: Int32, longer: Int32)
    requires 0 <= days <= longer
    ensures creation <= ExpirationTime(creation, days) <= ExpirationTime(creation, longer)
    ensures ExpirationTime(creation, longer) - ExpirationTime(creation, days) == (longer - days) * SecondsPerDay
  {
  }

  /** While neither product overflows, the reconciler's computation gives the intended time. */
  lemma AsWrittenAgreesWithoutOverflow(creation: int, days: Int32)
    requires -106751 <= days <= 106751
    ensures ExpirationAsWritten(creation, days) == ExpirationTime(creation, days)
  {
    var hours := days * 24;
    assert Wrap32(days * 24) == hours;
    assert -0x8000_0000_0000_0000 <= hours * NanosPerHour < 0x8000_0000_0000_0000;
    assert Wrap64(hours * NanosPerHour) == hours * NanosPerHour;
    assert hours * NanosPerHour == (hours * 3600) * NanosPerSecond;
    assert (hours * 3600) * NanosPerSecond / NanosPerSecond == hours * 3600;
  }

  /**
   A lifetime of 106752 days (about 292 years) overflows the int64
   nanosecond count: the stamped expiration lies before the creation time.
   */
  lemma AsWrittenOverflowExpiresBeforeCreation(creation: int)
    ensures ExpirationAsWritten(creation, 106752) == creation - 9223371274
    ensures ExpirationAsWritten(creation, 106752) < creation < ExpirationTime(creation, 106752)
  {
    assert Wrap32(106752 * 24) == 2562048;
    assert Wrap64(2562048 * NanosPerHour) == -9223371273709551616;
    assert -9223371273709551616 / NanosPerSecond == -9223371274;
  }

  // ---------------------------------------------------------------------
  // One reconciliation

  /**
   How the stamp is computed: exactly, or with the fixed-width Go arithmetic
   the reconciler uses (see `ExpirationAsWritten`).
   */
  datatype Arithmetic = Exact | GoFixedWidth

  /** The expiration a shoot without annotation is stamped with. */
  function Stamp(arith: Arithmetic, creation: int, days: Int32): int {
    match arith
    case Exact => ExpirationTime(creation, days)
    case GoFixedWidth => ExpirationAsWritten(creation, days)
  }

  /**
   Whether the reconciler deletes: the current time is strictly after the
   expiration. `now` is the clock rounded up to the whole second; against a
   whole-second expiration that gives the same answer as Go's strict `After`
   on the exact clock in nanoseconds.
   */
  predicate Expired(expiration: int, now: int)
    ensures Expired(expiration, now) <==> now >= expiration + 1
    ensures forall nanos :: CeilSeconds(nanos) == now ==>
              (Expired(expiration, now) <==> nanos > expiration * NanosPerSecond)
  {
    now > expiration
  }

  /** A clock reading in nanoseconds, rounded up to the whole second. */
  function CeilSeconds(nanos: int): (q: int)
    ensures (q - 1) * NanosPerSecond < nanos <= q * NanosPerSecond
  {
    (nanos + NanosPerSecond - 1) / NanosPerSecond
  }

  /** The time a found shoot is compared against: its annotation, or the stamp it is given. */
  function ExpirationOf(arith: Arithmetic, shoot: Shoot, days: Int32): int
    requires shoot.expiration != Some(UnparseableTimestamp)
  {
    match shoot.expiration
    case Some(ExpiresAt(t)) => t
    case None => Stamp(arith, shoot.creationTimestamp, days)
  }

  /**
   The tail of a reconciliation once the expiration time is known: confirm
   the deletion and delete when expired, then requeue; a refused write ends
   the reconciliation with an error.
   */
  function DecideExpiry(expiration: int, now: int, store: Store, written: seq<Action>): (o: Outcome)
    ensures |written| <= |o.actions| && o.actions[..|written|] == written
    ensures DeleteShoot in o.actions[|written|..] ==> Expired(expiration, now)
    ensures !Expired(expiration, now) ==> o == Outcome(written, RequeueAfterSyncPeriod)
    ensures Expired(expiration, now) ==>
              && |o.actions| > |written|
              && o.actions[|written|] == ConfirmDeletion
              && (DeleteShoot in o.actions[|written|..] <==> store.confirmSucceeds)
              && (o.result.Error? <==> !store.confirmSucceeds || !store.deleteSucceeds)
              && (!store.confirmSucceeds ==> o.result == Error(ConfirmDeletionFailed))
              && (store.confirmSucceeds && !store.deleteSucceeds ==> o.result == Error(DeletionFailed))
    ensures Expired(expiration, now) ==>
              o.actions == written + (if store.confirmSucceeds then [ConfirmDeletion, DeleteShoot] else [ConfirmDeletion])
    ensures Expired(expiration, now) && store.confirmSucceeds && store.deleteSucceeds ==>
              o.result == RequeueAfterSyncPeriod
  {
    if Expired(expiration, now) then
      if !store.confirmSucceeds then
        Outcome(written + [ConfirmDeletion], Error(ConfirmDeletionFailed))
      else if !store.deleteSucceeds then
        Outcome(written + [ConfirmDeletion, DeleteShoot], Error(DeletionFailed))
      else
        Outcome(written + [ConfirmDeletion, DeleteShoot], RequeueAfterSyncPeriod)
    else
      Outcome(written, RequeueAfterSyncPeriod)
  }

  /**
   The order writes may come in: at most one expiration write, first, then
   possibly the deletion confirmation, and the deletion only after it.
   */
  predicate WellOrdered(actions: seq<Action>) {
    var rest := if |actions| > 0 && actions[0].WriteExpiration? then actions[1..] else actions;
    rest == [] || rest == [ConfirmDeletion] || rest == [ConfirmDeletion, DeleteShoot]
  }

  /** The causes that can only arise from a write the garden cluster refused. */
  predicate WriteFailure(cause: Cause) {
    cause == AnnotationUpdateFailed || cause == ConfirmDeletionFailed || cause == DeletionFailed
  }

  /** One reconciliation, with the stamp computed by `arith`. */
  function ReconcileWith(req: Request, arith: Arithmetic): (o: Outcome)
    ensures WellOrdered(o.actions)
    ensures o.result.Done? ==> o.actions == []
    ensures o.result == RequeueAfterSyncPeriod ==> DeleteShoot in o.actions || ConfirmDeletion !in o.actions
    ensures o.result.Error? ==> (o.actions != [] <==> WriteFailure(o.result.cause))
    ensures o.result.Error? && o.actions != [] ==> o.actions[|o.actions| - 1] != DeleteShoot || o.result.cause == DeletionFailed
    ensures !req.gardenClientAvailable ==> o == Outcome([], Error(GardenClientUnavailable))
    ensures req.gardenClientAvailable && req.shoot.ShootLookupFailed? ==> o == Outcome([], Error(ShootUnreadable))
    ensures req.gardenClientAvailable && req.shoot.ShootFound? && req.binding.BindingLookupFailed? ==>
              o == Outcome([], Error(SecretBindingUnreadable))
  {
    if !req.gardenClientAvailable then
      Outcome([], Error(GardenClientUnavailable))
    else
      match req.shoot
      case ShootNotFound => Outcome([], Done)
      case ShootLookupFailed => Outcome([], Error(ShootUnreadable))
      case ShootFound(shoot) =>
        match req.binding
        case BindingLookupFailed => Outcome([], Error(SecretBindingUnreadable))
        case BindingFound(quotas) =>
          match EffectiveLifetime(quotas)
          case Failure(cause) => Outcome([], Error(cause))
          case Success(None) => Outcome([], RequeueAfterSyncPeriod)
          case Success(Some(days)) =>
            match shoot.expiration
            case None =>
              var expiration := Stamp(arith, shoot.creationTimestamp, days);
              if !req.store.updateSucceeds then
                Outcome([WriteExpiration(expiration)], Error(AnnotationUpdateFailed))
              else
                DecideExpiry(expiration, req.now, req.store, [WriteExpiration(expiration)])
            case Some(UnparseableTimestamp) => Outcome([], Error(TimestampUnparseable))
            case Some(ExpiresAt(expiration)) => DecideExpiry(expiration, req.now, req.store, [])
  }

  /** The stamp a reconciliation writes, if any, for the shoot found with a lifetime in force. */
  ghost predicate StampsWith(req: Request, o: Outcome, arith: Arithmetic) {
    |o.actions| > 0 && o.actions[0].WriteExpiration? ==>
      && req.shoot.ShootFound? && req.binding.BindingFound?
      && EffectiveLifetime(req.binding.quotas).Success?
      && EffectiveLifetime(req.binding.quotas).value.Some?
      && o.actions[0].time ==
           Stamp(arith, req.shoot.shoot.creationTimestamp, EffectiveLifetime(req.binding.quotas).value.value)
  }

  /** The reconciler with the intended, overflow-free stamp; the rest of the model is about it. */
  function Reconcile(req: Request): (o: Outcome)
    ensures StampsWith(req, o, Exact)
    ensures forall t :: WriteExpiration(t) in o.actions ==> o.actions[0] == WriteExpiration(t)
  {
    ReconcileWith(req, Exact)
  }

  /** The reconciler as the code computes it, wrapping in int32 and int64. */
  function ReconcileAsWritten(req: Request): (o: Outcome)
    ensures StampsWith(req, o, GoFixedWidth)
    ensures forall t :: WriteExpiration(t) in o.actions ==> o.actions[0] == WriteExpiration(t)
  {
    ReconcileWith(req, GoFixedWidth)
  }

  // ---------------------------------------------------------------------
  // Properties of a reconciliation, whichever arithmetic stamps the shoot

  /** The shoot found, its binding read, and the quotas it references. */
  predicate Reads(req: Request, shoot: Shoot, quotas: seq<QuotaLookup>) {
    && req.gardenClientAvailable
    && req.shoot == ShootFound(shoot)
    && req.binding == BindingFound(quotas)
  }

  /** A lifetime applies: every quota was read and at least one sets a lifetime. */
  predicate LifetimeApplies(quotas: seq<QuotaLookup>) {
    QuotaLookupFailed !in quotas && exists d: Int32 :: QuotaFound(Some(d)) in quotas
  }

  /** A shoot that no longer exists ends the reconciliation quietly. */
  lemma ShootGoneStops(req: Request, arith: Arithmetic)
    requires req.gardenClientAvailable && req.shoot.ShootNotFound?
    ensures ReconcileWith(req, arith) == Outcome([], Done)
  {
  }

  /** Any quota that cannot be read fails the reconciliation before anything is written. */
  lemma QuotaFailureWritesNothing(req: Request, arith: Arithmetic, shoot: Shoot, quotas: seq<QuotaLookup>)
    requires Reads(req, shoot, quotas) && QuotaLookupFailed in quotas
    ensures ReconcileWith(req, arith) == Outcome([], Error(QuotaUnreadable))
  {
  }

  /**
   Without any lifetime among the readable quotas the shoot is only requeued,
   even when it already carries an expiration annotation.
   */
  lemma NoLifetimeNoActions(req: Request, arith: Arithmetic, shoot: Shoot, quotas: seq<QuotaLookup>)
    requires Reads(req, shoot, quotas) && QuotaLookupFailed !in quotas
    requires forall d: Int32 :: QuotaFound(Some(d)) !in quotas
    ensures ReconcileWith(req, arith) == Outcome([], RequeueAfterSyncPeriod)
  {
  }

  /** An annotation already on the shoot is never rewritten. */
  lemma ExistingAnnotationKept(req: Request, arith: Arithmetic, shoot: Shoot, quotas: seq<QuotaLookup>)
    requires Reads(req, shoot, quotas) && shoot.expiration.Some?
    ensures forall t :: WriteExpiration(t) !in ReconcileWith(req, arith).actions
  {
  }

  /** An annotation that is not a timestamp fails the reconciliation, with nothing written. */
  lemma UnparseableAnnotationFails(req: Request, arith: Arithmetic, shoot: Shoot, quotas: seq<QuotaLookup>)
    requires Reads(req, shoot, quotas) && LifetimeApplies(quotas)
    requires shoot.expiration == Some(UnparseableTimestamp)
    ensures ReconcileWith(req, arith) == Outcome([], Error(TimestampUnparseable))
  {
  }

  /**
   A shoot without annotation is first stamped with its creation time plus
   the shortest lifetime in days, computed exactly.
   */
  lemma MissingAnnotationStamped(req: Request, shoot: Shoot, quotas: seq<QuotaLookup>, days: Int32)
    requires Reads(req, shoot, quotas) && shoot.expiration.None?
    requires QuotaLookupFailed !in quotas && QuotaFound(Some(days)) in quotas
    requires forall d: Int32 :: QuotaFound(Some(d)) in quotas ==> days <= d
    ensures |Reconcile(req).actions| > 0
    ensures Reconcile(req).actions[0] == WriteExpiration(shoot.creationTimestamp + days * SecondsPerDay)
  {
    var r := EffectiveLifetime(quotas);
    assert r.value.value <= days;
    assert days <= r.value.value;
  }

  /**
   The reconciler as written stamps the same time, as long as the shortest
   lifetime stays within 106751 days either way.
   */
  lemma MissingAnnotationStampedAsWritten(req: Request, shoot: Shoot, quotas: seq<QuotaLookup>, days: Int32)
    requires Reads(req, shoot, quotas) && shoot.expiration.None?
    requires QuotaLookupFailed !in quotas && QuotaFound(Some(days)) in quotas
    requires forall d: Int32 :: QuotaFound(Some(d)) in quotas ==> days <= d
    requires -106751 <= days <= 106751
    ensures |ReconcileAsWritten(req).actions| > 0
    ensures ReconcileAsWritten(req).actions[0] == WriteExpiration(shoot.creationTimestamp + days * SecondsPerDay)
  {
    var r := EffectiveLifetime(quotas);
    assert r.value.value <= days;
    assert days <= r.value.value;
    AsWrittenAgreesWithoutOverflow(shoot.creationTimestamp, days);
  }

  /** A refused stamp write ends the reconciliation with an error; nothing is confirmed or deleted. */
  lemma StampFailureStops(req: Request, arith: Arithmetic, shoot: Shoot, quotas: seq<QuotaLookup>)
    requires Reads(req, shoot, quotas) && LifetimeApplies(quotas)
    requires shoot.expiration.None? && !req.store.updateSucceeds
    ensures ReconcileWith(req, arith) ==
              Outcome([WriteExpiration(Stamp(arith, shoot.creationTimestamp, EffectiveLifetime(quotas).value.value))],
                      Error(AnnotationUpdateFailed))
  {
  }

  /** At or before the expiration time nothing is confirmed or deleted. */
  lemma NotDeletedUntilStrictlyAfter(req: Request, arith: Arithmetic, shoot: Shoot, quotas: seq<QuotaLookup>, t: int)
    requires Reads(req, shoot, quotas) && shoot.expiration == Some(ExpiresAt(t)) && req.now <= t
    ensures ConfirmDeletion !in ReconcileWith(req, arith).actions && DeleteShoot !in ReconcileWith(req, arith).actions
  {
  }

  /** Past the expiration, with writes accepted: confirm, delete, then requeue. */
  lemma ExpiredShootDeleted(req: Request, arith: Arithmetic, shoot: Shoot, quotas: seq<QuotaLookup>, t: int)
    requires Reads(req, shoot, quotas) && shoot.expiration == Some(ExpiresAt(t)) && req.now > t
    requires LifetimeApplies(quotas)
    requires req.store == Store(true, true, true)
    ensures ReconcileWith(req, arith) == Outcome([ConfirmDeletion, DeleteShoot], RequeueAfterSyncPeriod)
  {
  }

  /** Past the expiration, a refused confirmation stops before the deletion; a refused deletion is an error too. */
  lemma ExpiredShootWriteFailures(req: Request, arith: Arithmetic, shoot: Shoot, quotas: seq<QuotaLookup>, t: int)
    requires Reads(req, shoot, quotas) && shoot.expiration == Some(ExpiresAt(t)) && req.now > t
    requires LifetimeApplies(quotas)
    ensures !req.store.confirmSucceeds ==>
              ReconcileWith(req, arith) == Outcome([ConfirmDeletion], Error(ConfirmDeletionFailed))
    ensures req.store.confirmSucceeds && !req.store.deleteSucceeds ==>
              ReconcileWith(req, arith) == Outcome([ConfirmDeletion, DeleteShoot], Error(DeletionFailed))
  {
  }

  /** A deletion is only ever issued after its confirmation, and only when the time is past. */
  lemma DeletionOnlyAfterExpiry(req: Request, arith: Arithmetic)
    requires DeleteShoot in ReconcileWith(req, arith).actions
    ensures req.gardenClientAvailable && req.shoot.ShootFound? && req.binding.BindingFound?
    ensures EffectiveLifetime(req.binding.quotas).Success? && EffectiveLifetime(req.binding.quotas).value.Some?
    ensures req.shoot.shoot.expiration != Some(UnparseableTimestamp)
    ensures req.now > ExpirationOf(arith, req.shoot.shoot, EffectiveLifetime(req.binding.quotas).value.value)
    ensures var a := ReconcileWith(req, arith).actions; |a| >= 2 && a[|a| - 2] == ConfirmDeletion && a[|a| - 1] == DeleteShoot
  {
  }

  /** Once deletion is due it stays due: a later clock deletes as well. */
  lemma DeletionMonotoneInTime(req: Request, arith: Arithmetic, later: int)
    requires DeleteShoot in ReconcileWith(req, arith).actions && later >= req.now
    ensures DeleteShoot in ReconcileWith(req.(now := later), arith).actions
  {
  }

  /**
   Stamping is stable: reconciling the shoot as stamped repeats the same
   decision without writing the annotation again.
   */
  lemma StampThenReconcileAgain(req: Request, arith: Arithmetic, shoot: Shoot, quotas: seq<QuotaLookup>, t: int)
    requires Reads(req, shoot, quotas) && shoot.expiration.None?
    requires req.store.updateSucceeds
    requires |ReconcileWith(req, arith).actions| > 0 && ReconcileWith(req, arith).actions[0] == WriteExpiration(t)
    ensures var again := ReconcileWith(req.(shoot := ShootFound(shoot.(expiration := Some(ExpiresAt(t))))), arith);
      again.actions == ReconcileWith(req, arith).actions[1..] && again.result == ReconcileWith(req, arith).result
  {
  }

  /**
   With a lifetime of 106752 days, the reconciler as written stamps a time
   before the creation and, in the same reconciliation, confirms and deletes
   the shoot; the exact reconciler keeps it for 106752 days.
   */
  lemma OverflowDeletesFreshShoot(req: Request, shoot: Shoot, quotas: seq<QuotaLookup>)
    requires Reads(req, shoot, quotas) && shoot.expiration.None?
    requires quotas == [QuotaFound(Some(106752))]
    requires req.store == Store(true, true, true)
    requires shoot.creationTimestamp <= req.now <= shoot.creationTimestamp + 106752 * SecondsPerDay
    ensures ReconcileAsWritten(req) ==
              Outcome([WriteExpiration(shoot.creationTimestamp - 9223371274), ConfirmDeletion, DeleteShoot],
                      RequeueAfterSyncPeriod)
    ensures Reconcile(req) ==
              Outcome([WriteExpiration(shoot.creationTimestamp + 106752 * SecondsPerDay)], RequeueAfterSyncPeriod)
  {
    assert quotas[0] == QuotaFound(Some(106752));
    assert forall d: Int32 :: QuotaFound(Some(d)) in quotas ==> d == 106752;
    AsWrittenOverflowExpiresBeforeCreation(shoot.creationTimestamp);
  }
}
