/**
 Kubernetes minor versions such as "1.32", already parsed into their
 numeric parts, with the lexicographic order semantic versioning gives them.
 */
module Versions {

  datatype Version = Version(major: nat, minor: nat)

  /** A version as it reaches the validation: parsed, or a string that is not a version. */
  datatype ParsedVersion = Valid(version: Version) | Malformed

  /** `a` is an earlier release than `b`. */
  predicate Less(a: Version, b: Version) {
    a.major < b.major || (a.major == b.major && a.minor < b.minor)
  }

  /** `a` is `b` or an earlier release. */
  predicate AtMost(a: Version, b: Version) {
    Less(a, b) || a == b
  }

  lemma AtMostTransitive(a: Version, b: Version, c: Version)
    requires AtMost(a, b) && AtMost(b, c)
    ensures AtMost(a, c)
  {
  }
}
