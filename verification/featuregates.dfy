/**
 Validation of the Kubernetes feature gates a user sets on a cluster: every
 gate must be known, supported by the cluster's Kubernetes version, and, once
 the gate is locked to its default, set to that default.
 */
module FeatureGates {
  import opened Wrappers
  import opened Versions

  /** The releases `[addedIn, removedIn)` that know a gate; a missing bound leaves that side open. */
  datatype VersionRange = VersionRange(addedIn: Option<Version>, removedIn: Option<Version>)

  /** One row of the feature-gate table. */
  datatype FeatureGateVersionRange = FeatureGateVersionRange(
    range: VersionRange,
    defaultValue: bool,
    lockedToDefaultIn: Option<Version>)

  /** The static table from gate name to its row. */
  type Table = map<string, FeatureGateVersionRange>

  /** A field path such as `spec.kubernetes.kubelet.featureGates`, one segment per element. */
  type Path = seq<string>

  /** Why a requested gate is refused. */
  datatype Reason =
    | UnknownFeatureGate(gate: string)
    | UnparseableVersion
    | NotSupportedInVersion(version: Version)
    | LockedToDefault(requested: bool, lockedTo: bool)

  datatype ErrorType = Invalid | Forbidden

  /** One entry of the returned error list: its type, the offending field and the reason. */
  datatype FieldError = FieldError(errorType: ErrorType, field: Path, reason: Reason)

  /** Range membership: not before the lower bound, strictly before the upper bound. */
  predicate Contains(r: VersionRange, v: Version)
    ensures Contains(r, v) <==>
              (r.addedIn.None? || !Less(v, r.addedIn.value)) && (r.removedIn.None? || !AtMost(r.removedIn.value, v))
  {
    && (r.addedIn.None? || AtMost(r.addedIn.value, v))
    && (r.removedIn.None? || Less(v, r.removedIn.value))
  }

  /**
   Whether `gate` is supported in `version`. Unknown gates are an error whatever
   the version, and so is a version that cannot be parsed.
   */
  function IsFeatureGateSupported(table: Table, gate: string, version: ParsedVersion): (r: Result<bool, Reason>)
    ensures gate !in table ==> r == Failure(UnknownFeatureGate(gate))
    ensures gate in table && version.Malformed? ==> r == Failure(UnparseableVersion)
    ensures r.Success? <==> gate in table && version.Valid?
  {
    if gate !in table then Failure(UnknownFeatureGate(gate))
    else if version.Malformed? then Failure(UnparseableVersion)
    else Success(Contains(table[gate].range, version.version))
  }

  /**
   Whether `gate` must keep its default in `version`: only gates with a lock
   version are ever locked, from that version on. The caller must name a
   known gate.
   */
  predicate IsLockedToDefault(table: Table, gate: string, version: Version)
    requires gate in table
    ensures IsLockedToDefault(table, gate, version) <==>
              table[gate].lockedToDefaultIn.Some? && !Less(version, table[gate].lockedToDefaultIn.value)
  {
    var lock := table[gate].lockedToDefaultIn;
    lock.Some? && AtMost(lock.value, version)
  }

  /** The error, if any, that validation reports for one requested gate. */
  function CheckGate(table: Table, version: ParsedVersion, path: Path, gate: string, requested: bool): (r: Option<FieldError>)
    ensures r.Some? ==> r.value.field == path + [gate]
    ensures r.Some? ==> (r.value.errorType == Invalid <==> r.value.reason.UnknownFeatureGate? || r.value.reason.UnparseableVersion?)
    ensures r.None? ==> gate in table && version.Valid?
  {
    match IsFeatureGateSupported(table, gate, version)
    case Failure(reason) => Some(FieldError(Invalid, path + [gate], reason))
    case Success(supported) =>
      if !supported then
        Some(FieldError(Forbidden, path + [gate], NotSupportedInVersion(version.version)))
      else if IsLockedToDefault(table, gate, version.version) && requested != table[gate].defaultValue then
        Some(FieldError(Forbidden, path + [gate], LockedToDefault(requested, table[gate].defaultValue)))
      else
        None
  }

  /**
   What a complete validation of `gates` must return, in whatever order the
   map is walked: exactly the errors `CheckGate` gives, each once.
   */
  ghost predicate Reports(table: Table, gates: map<string, bool>, version: ParsedVersion, path: Path, errs: seq<FieldError>) {
    && (forall g :: g in gates && CheckGate(table, version, path, g, gates[g]).Some? ==>
          CheckGate(table, version, path, g, gates[g]).value in errs)
    && (forall e :: e in errs ==> exists g :: g in gates && CheckGate(table, version, path, g, gates[g]) == Some(e))
    && Distinct(errs)
  }

  /**
   Validates every requested gate. Go walks the map in an unspecified order;
   the walk here picks an arbitrary remaining key each step.
   */
  method ValidateFeatureGates(table: Table, gates: map<string, bool>, version: ParsedVersion, path: Path)
    returns (errs: seq<FieldError>)
    ensures Reports(table, gates, version, path, errs)
    ensures |errs| <= |gates|
  {
    errs := [];
    var remaining := gates.Keys;
    ghost var done: set<string> := {};
    ghost var owners: seq<string> := [];
    while remaining != {}
      invariant done !! remaining && done + remaining == gates.Keys
      invariant |owners| == |errs| <= |done|
      invariant forall i :: 0 <= i < |errs| ==>
                  owners[i] in done && CheckGate(table, version, path, owners[i], gates[owners[i]]) == Some(errs[i])
      invariant forall g :: g in done && CheckGate(table, version, path, g, gates[g]).Some? ==> g in owners
      invariant Distinct(errs)
      decreases |remaining|
    {
      var gate :| gate in remaining;
      var outcome := CheckGate(table, version, path, gate, gates[gate]);
      if outcome.Some? {
        NewGateErrorIsFresh(table, gates, version, path, errs, owners, done, gate);
        errs := errs + [outcome.value];
        owners := owners + [gate];
      }
      remaining := remaining - {gate};
      done := done + {gate};
    }
    assert done == gates.Keys;
    OwnedErrorsReport(table, gates, version, path, errs, owners);
  }

  /** Errors each owned by a requested gate, covering every refused gate, are a complete report. */
  lemma OwnedErrorsReport(table: Table, gates: map<string, bool>, version: ParsedVersion, path: Path,
                          errs: seq<FieldError>, owners: seq<string>)
    requires |owners| == |errs|
    requires forall i :: 0 <= i < |errs| ==>
               owners[i] in gates && CheckGate(table, version, path, owners[i], gates[owners[i]]) == Some(errs[i])
    requires forall g :: g in gates && CheckGate(table, version, path, g, gates[g]).Some? ==> g in owners
    requires Distinct(errs)
    ensures Reports(table, gates, version, path, errs)
  {
    forall g | g in gates && CheckGate(table, version, path, g, gates[g]).Some?
      ensures CheckGate(table, version, path, g, gates[g]).value in errs
    {
      var i :| 0 <= i < |owners| && owners[i] == g;
      assert errs[i] == CheckGate(table, version, path, g, gates[g]).value;
    }
    forall e | e in errs
      ensures exists g :: g in gates && CheckGate(table, version, path, g, gates[g]) == Some(e)
    {
      var i :| 0 <= i < |errs| && errs[i] == e;
      assert owners[i] in gates;
    }
  }

  /** The error of a gate not yet walked differs from every error already reported. */
  lemma NewGateErrorIsFresh(table: Table, gates: map<string, bool>, version: ParsedVersion, path: Path,
                            errs: seq<FieldError>, owners: seq<string>, done: set<string>, gate: string)
    requires done <= gates.Keys && gate in gates && gate !in done
    requires |owners| == |errs|
    requires forall i :: 0 <= i < |errs| ==>
               owners[i] in done && CheckGate(table, version, path, owners[i], gates[owners[i]]) == Some(errs[i])
    requires Distinct(errs)
    requires CheckGate(table, version, path, gate, gates[gate]).Some?
    ensures Distinct(errs + [CheckGate(table, version, path, gate, gates[gate]).value])
  {
    var e := CheckGate(table, version, path, gate, gates[gate]).value;
    forall i | 0 <= i < |errs| ensures errs[i] != e {
      assert errs[i].field == path + [owners[i]];
      assert errs[i].field[|path|] == owners[i];
      assert e.field[|path|] == gate;
    }
  }

  // ---------------------------------------------------------------------
  // Range and lock properties

  /** A known gate is supported exactly inside its half-open range. */
  lemma SupportedExactlyInRange(table: Table, gate: string, v: Version)
    requires gate in table
    ensures var r := table[gate].range;
      IsFeatureGateSupported(table, gate, Valid(v)) == Success(true) <==>
        (r.addedIn.None? || !Less(v, r.addedIn.value)) && (r.removedIn.None? || !AtMost(r.removedIn.value, v))
  {
  }

  /** An unknown gate is refused, and reported as unknown, at every version. */
  lemma UnknownGateNeverSupported(table: Table, gate: string)
    requires gate !in table
    ensures forall version :: IsFeatureGateSupported(table, gate, version) == Failure(UnknownFeatureGate(gate))
  {
  }

  /** The versions that support a gate form an interval: no gap between two of them. */
  lemma SupportedVersionsConvex(r: VersionRange, a: Version, b: Version, c: Version)
    requires AtMost(a, b) && AtMost(b, c)
    requires Contains(r, a) && Contains(r, c)
    ensures Contains(r, b)
  {
    if r.addedIn.Some? {
      AtMostTransitive(r.addedIn.value, a, b);
    }
    if r.removedIn.Some? {
      assert Less(c, r.removedIn.value);
    }
  }

  /** The lower bound is inside the range when the range is not empty; the upper bound never is. */
  lemma RangeBoundsHalfOpen(r: VersionRange)
    ensures r.removedIn.Some? ==> !Contains(r, r.removedIn.value)
    ensures r.addedIn.Some? && (r.removedIn.None? || Less(r.addedIn.value, r.removedIn.value)) ==>
              Contains(r, r.addedIn.value)
  {
  }

  /** A range without bounds contains every version. */
  lemma UnboundedRangeContainsAll(r: VersionRange)
    requires r.addedIn.None? && r.removedIn.None?
    ensures forall v :: Contains(r, v)
  {
  }

  /** A gate without a lock version is never locked. */
  lemma NeverLockedWithoutLockVersion(table: Table, gate: string)
    requires gate in table && table[gate].lockedToDefaultIn.None?
    ensures forall v :: !IsLockedToDefault(table, gate, v)
  {
  }

  /** A gate is locked exactly from its lock version on. */
  lemma LockedExactlyFromLockVersion(table: Table, gate: string, v: Version)
    requires gate in table && table[gate].lockedToDefaultIn.Some?
    ensures IsLockedToDefault(table, gate, v) <==> !Less(v, table[gate].lockedToDefaultIn.value)
  {
  }

  /** Once locked, a gate stays locked in every later release. */
  lemma LockedStaysLocked(table: Table, gate: string, v: Version, w: Version)
    requires gate in table && IsLockedToDefault(table, gate, v) && AtMost(v, w)
    ensures IsLockedToDefault(table, gate, w)
  {
    AtMostTransitive(table[gate].lockedToDefaultIn.value, v, w);
  }

  // ---------------------------------------------------------------------
  // The four outcomes of one requested gate

  /** Unknown gate: an Invalid error naming the gate, whatever the version or value. */
  lemma UnknownGateOutcome(table: Table, version: ParsedVersion, path: Path, gate: string, requested: bool)
    requires gate !in table
    ensures CheckGate(table, version, path, gate, requested) ==
              Some(FieldError(Invalid, path + [gate], UnknownFeatureGate(gate)))
  {
  }

  /** Known gate outside its range: a Forbidden error, whatever the value. */
  lemma OutOfRangeOutcome(table: Table, v: Version, path: Path, gate: string, requested: bool)
    requires gate in table
    ensures !Contains(table[gate].range, v) <==>
              CheckGate(table, Valid(v), path, gate, requested) ==
                Some(FieldError(Forbidden, path + [gate], NotSupportedInVersion(v)))
  {
  }

  /** Supported gate: refused exactly when it is locked and the value differs from the default. */
  lemma LockedMismatchOutcome(table: Table, v: Version, path: Path, gate: string, requested: bool)
    requires gate in table && Contains(table[gate].range, v)
    ensures CheckGate(table, Valid(v), path, gate, requested).Some? <==>
              IsLockedToDefault(table, gate, v) && requested != table[gate].defaultValue
    ensures CheckGate(table, Valid(v), path, gate, requested).Some? ==>
              CheckGate(table, Valid(v), path, gate, requested).value ==
                FieldError(Forbidden, path + [gate], LockedToDefault(requested, table[gate].defaultValue))
  {
  }

  /** A gate is accepted exactly when known, in range, and either unlocked or set to its default. */
  lemma AcceptedExactly(table: Table, version: ParsedVersion, path: Path, gate: string, requested: bool)
    ensures CheckGate(table, version, path, gate, requested).None? <==>
              && gate in table && version.Valid?
              && Contains(table[gate].range, version.version)
              && (!IsLockedToDefault(table, gate, version.version) || requested == table[gate].defaultValue)
  {
  }

  /** A supported gate set to its default is always accepted. */
  lemma DefaultValueAccepted(table: Table, v: Version, path: Path, gate: string)
    requires gate in table && Contains(table[gate].range, v)
    ensures CheckGate(table, Valid(v), path, gate, table[gate].defaultValue).None?
  {
  }

  /** A supported gate that is not locked accepts either value. */
  lemma UnlockedAcceptsEitherValue(table: Table, v: Version, path: Path, gate: string)
    requires gate in table && Contains(table[gate].range, v) && !IsLockedToDefault(table, gate, v)
    ensures CheckGate(table, Valid(v), path, gate, true).None?
    ensures CheckGate(table, Valid(v), path, gate, false).None?
  {
  }

  // ---------------------------------------------------------------------
  // Properties of the whole validation

  /** Every reported error is filed under the path child named after a requested gate. */
  lemma ErrorsFiledUnderGate(table: Table, gates: map<string, bool>, version: ParsedVersion, path: Path, errs: seq<FieldError>, e: FieldError)
    requires Reports(table, gates, version, path, errs) && e in errs
    ensures |e.field| == |path| + 1 && e.field[..|path|] == path && e.field[|path|] in gates
  {
    var g :| g in gates && CheckGate(table, version, path, g, gates[g]) == Some(e);
    assert e.field == path + [g];
  }

  /** Two walks of the same map report the same errors, only possibly in another order. */
  lemma ValidationOrderIndependent(table: Table, gates: map<string, bool>, version: ParsedVersion, path: Path,
                                   a: seq<FieldError>, b: seq<FieldError>)
    requires Reports(table, gates, version, path, a) && Reports(table, gates, version, path, b)
    ensures multiset(a) == multiset(b)
  {
    forall e | e in a ensures e in b {
      var g :| g in gates && CheckGate(table, version, path, g, gates[g]) == Some(e);
    }
    forall e | e in b ensures e in a {
      var g :| g in gates && CheckGate(table, version, path, g, gates[g]) == Some(e);
    }
    DistinctSameElementsSameMultiset(a, b);
  }

  ghost predicate Distinct<T>(s: seq<T>) {
    forall i, j :: 0 <= i < j < |s| ==> s[i] != s[j]
  }

  /** A duplicate-free sequence whose every element is `x`, and that holds `x`, is `[x]`. */
  lemma OnlyElementOfDistinct<T>(s: seq<T>, x: T)
    requires Distinct(s) && x in s
    requires forall e :: e in s ==> e == x
    ensures s == [x]
  {
    forall y ensures multiset(s)[y] == multiset{x}[y] {
      DistinctMultiplicity(s, y);
    }
    assert multiset(s) == multiset{x};
    assert |s| == |multiset(s)| == 1;
    assert s[0] in s;
  }

  /** In a duplicate-free sequence every element occurs once. */
  lemma {:induction false} DistinctMultiplicity<T>(s: seq<T>, x: T)
    requires Distinct(s)
    ensures multiset(s)[x] == if x in s then 1 else 0
  {
    if s != [] {
      assert s == [s[0]] + s[1..];
      assert Distinct(s[1..]) by {
        forall i, j | 0 <= i < j < |s[1..]| ensures s[1..][i] != s[1..][j] {
          assert s[1..][i] == s[i + 1] && s[1..][j] == s[j + 1];
        }
      }
      DistinctMultiplicity(s[1..], x);
      if s[0] == x {
        assert x !in s[1..] by {
          forall k | 0 <= k < |s[1..]| ensures s[1..][k] != x {
            assert s[1..][k] == s[k + 1];
          }
        }
      }
    }
  }

  /** Two duplicate-free sequences with the same elements are permutations of each other. */
  lemma DistinctSameElementsSameMultiset<T>(a: seq<T>, b: seq<T>)
    requires Distinct(a) && Distinct(b)
    requires forall x :: x in a <==> x in b
    ensures multiset(a) == multiset(b)
  {
    forall x ensures multiset(a)[x] == multiset(b)[x] {
      DistinctMultiplicity(a, x);
      DistinctMultiplicity(b, x);
    }
  }
}
