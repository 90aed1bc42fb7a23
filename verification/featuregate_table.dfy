/**
 A few rows of the Kubernetes feature-gate table, with the validation
 outcomes they give at concrete versions.
 */
module FeatureGateTable {
  import opened Wrappers
  import opened Versions
  import opened FeatureGates

  function V(major: nat, minor: nat): Version {
    Version(major, minor)
  }

  /** The rows for five gates, each showing a different shape of range and lock. */
  function SampleTable(): Table {
    map[
      "AllAlpha" := FeatureGateVersionRange(VersionRange(Some(V(1, 17)), None), false, None),
      "AllowServiceLBStatusOnNonLB" := FeatureGateVersionRange(VersionRange(Some(V(1, 29)), None), false, Some(V(1, 32))),
      "APIResponseCompression" := FeatureGateVersionRange(VersionRange(None, None), false, None),
      "TopologyManager" := FeatureGateVersionRange(VersionRange(None, Some(V(1, 29))), true, Some(V(1, 27))),
      "ZeroLimitedNominalConcurrencyShares" := FeatureGateVersionRange(VersionRange(Some(V(1, 29)), Some(V(1, 32))), true, Some(V(1, 30)))
    ]
  }

  const FeatureGatesPath: Path := ["spec", "kubernetes", "kubeAPIServer", "featureGates"]

  /** AllowServiceLBStatusOnNonLB=true: locked to false from 1.32, fine in 1.31, not supported before 1.29. */
  lemma ServiceLBStatusExample()
    ensures CheckGate(SampleTable(), Valid(V(1, 32)), FeatureGatesPath, "AllowServiceLBStatusOnNonLB", true) ==
              Some(FieldError(Forbidden, FeatureGatesPath + ["AllowServiceLBStatusOnNonLB"], LockedToDefault(true, false)))
    ensures CheckGate(SampleTable(), Valid(V(1, 32)), FeatureGatesPath, "AllowServiceLBStatusOnNonLB", false).None?
    ensures CheckGate(SampleTable(), Valid(V(1, 31)), FeatureGatesPath, "AllowServiceLBStatusOnNonLB", true).None?
    ensures CheckGate(SampleTable(), Valid(V(1, 28)), FeatureGatesPath, "AllowServiceLBStatusOnNonLB", true) ==
              Some(FieldError(Forbidden, FeatureGatesPath + ["AllowServiceLBStatusOnNonLB"], NotSupportedInVersion(V(1, 28))))
  {
  }

  /** ZeroLimitedNominalConcurrencyShares lives in [1.29, 1.32) and is locked to true from 1.30. */
  lemma ZeroLimitedSharesExample()
    ensures CheckGate(SampleTable(), Valid(V(1, 32)), FeatureGatesPath, "ZeroLimitedNominalConcurrencyShares", true).value.reason ==
              NotSupportedInVersion(V(1, 32))
    ensures CheckGate(SampleTable(), Valid(V(1, 31)), FeatureGatesPath, "ZeroLimitedNominalConcurrencyShares", false).value.reason ==
              LockedToDefault(false, true)
    ensures CheckGate(SampleTable(), Valid(V(1, 29)), FeatureGatesPath, "ZeroLimitedNominalConcurrencyShares", false).None?
  {
  }

  /** A name missing from the table is Invalid; a malformed version is Invalid for a known gate. */
  lemma UnknownAndMalformedExample()
    ensures CheckGate(SampleTable(), Valid(V(1, 30)), FeatureGatesPath, "NoSuchGate", true) ==
              Some(FieldError(Invalid, FeatureGatesPath + ["NoSuchGate"], UnknownFeatureGate("NoSuchGate")))
    ensures CheckGate(SampleTable(), Malformed, FeatureGatesPath, "AllAlpha", true) ==
              Some(FieldError(Invalid, FeatureGatesPath + ["AllAlpha"], UnparseableVersion))
  {
  }

  /** Validating two gates at 1.32, only the locked one is reported. */
  method ValidateSampleRequest() returns (errs: seq<FieldError>)
    ensures errs == [FieldError(Forbidden, FeatureGatesPath + ["AllowServiceLBStatusOnNonLB"], LockedToDefault(true, false))]
  {
    var gates := map["AllowServiceLBStatusOnNonLB" := true, "APIResponseCompression" := true];
    errs := ValidateFeatureGates(SampleTable(), gates, Valid(V(1, 32)), FeatureGatesPath);
    var expected := FieldError(Forbidden, FeatureGatesPath + ["AllowServiceLBStatusOnNonLB"], LockedToDefault(true, false));
    assert CheckGate(SampleTable(), Valid(V(1, 32)), FeatureGatesPath, "AllowServiceLBStatusOnNonLB", true) == Some(expected);
    assert CheckGate(SampleTable(), Valid(V(1, 32)), FeatureGatesPath, "APIResponseCompression", true).None?;
    assert "AllowServiceLBStatusOnNonLB" in gates && gates["AllowServiceLBStatusOnNonLB"];
    assert expected in errs;
    forall e | e in errs ensures e == expected {
      var g :| g in gates && CheckGate(SampleTable(), Valid(V(1, 32)), FeatureGatesPath, g, gates[g]) == Some(e);
    }
    OnlyElementOfDistinct(errs, expected);
  }
}
