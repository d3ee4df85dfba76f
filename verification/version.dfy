/** The library's version queries. The configured release number comes
    from a generated header that is not part of this model, so it is a
    parameter of every query. */
module Version {
  /** A release number: major, minor and patch. */
  datatype Release = Release(major: int, minor: int, patch: int)

  /** Lexicographic order on release numbers: the reference definition
      against which isAtLeast is checked. */
  predicate NotOlder(a: Release, b: Release)
  {
    || a.major > b.major
    || (a.major == b.major && a.minor > b.minor)
    || (a.major == b.major && a.minor == b.minor && a.patch >= b.patch)
  }

  /** getMajor: the configured major number. */
  function GetMajor(configured: Release): (major: int)
    ensures Release(major, configured.minor, configured.patch) == configured
  {
    configured.major
  }

  /** getMinor: the configured minor number. */
  function GetMinor(configured: Release): (minor: int)
    ensures Release(configured.major, minor, configured.patch) == configured
  {
    configured.minor
  }

  /** getPatch: the configured patch number. */
  function GetPatch(configured: Release): (patch: int)
    ensures Release(configured.major, configured.minor, patch) == configured
  {
    configured.patch
  }

  /** isAtLeast: the configured release compared with (major, minor,
      patch) one number at a time, the first difference deciding. */
  function IsAtLeast(configured: Release, major: int, minor: int, patch: int): (atLeast: bool)
    ensures atLeast <==> NotOlder(configured, Release(major, minor, patch))
  {
    if configured.major < major then false
    else if configured.major > major then true
    else if configured.minor < minor then false
    else if configured.minor > minor then true
    else if configured.patch < patch then false
    else true
  }

  /** The configured release is at least itself. */
  lemma AtLeastItself(configured: Release)
    ensures IsAtLeast(configured, GetMajor(configured), GetMinor(configured), GetPatch(configured))
  {
  }

  /** The major number alone decides whenever it differs. */
  lemma MajorDecides(configured: Release, major: int, minor: int, patch: int)
    ensures configured.major > major ==> IsAtLeast(configured, major, minor, patch)
    ensures configured.major < major ==> !IsAtLeast(configured, major, minor, patch)
  {
  }

  /** NotOlder is a total order: reflexive, antisymmetric, transitive and
      total. */
  lemma NotOlderIsTotalOrder(a: Release, b: Release, c: Release)
    ensures NotOlder(a, a)
    ensures NotOlder(a, b) && NotOlder(b, a) ==> a == b
    ensures NotOlder(a, b) && NotOlder(b, c) ==> NotOlder(a, c)
    ensures NotOlder(a, b) || NotOlder(b, a)
  {
  }

  /** Asking for an older release than one the configured release passes
      also passes. */
  lemma IsAtLeastMonotone(configured: Release, a: Release, b: Release)
    requires IsAtLeast(configured, a.major, a.minor, a.patch) && NotOlder(a, b)
    ensures IsAtLeast(configured, b.major, b.minor, b.patch)
  {
  }
}
