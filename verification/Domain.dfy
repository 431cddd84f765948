/** internal/domain: the entities and the domain errors. */
module Domain {
  import opened Common

  /** Instants and durations in nanoseconds. */
  type Time = int

  const SECOND: int := 1_000_000_000

  datatype ABTest = ABTest(
    id: string,
    linkId: int,
    destinationUrl: string,
    weight: int,
    variantLabel: string,
    createdAt: Time)

  datatype GeoRule = GeoRule(
    id: string,
    linkId: int,
    countryCode: string,
    destinationUrl: string,
    priority: int,
    createdAt: Time)

  datatype Link = Link(
    id: int,
    userId: string,
    slug: string,
    destinationUrl: string,
    title: string,
    passwordHash: string,
    isActive: bool,
    clickCount: int,
    expiredAt: Option<Time>,
    createdAt: Time,
    updatedAt: Time,
    abTests: seq<ABTest>,
    geoRules: seq<GeoRule>)
  {
    predicate IsExpired(now: Time) {
      expiredAt.Some? && now > expiredAt.value
    }

    predicate IsPasswordProtected() {
      passwordHash != ""
    }
  }

  datatype Error =
    | LinkNotFound
    | SlugAlreadyExists
    | PasswordRequired
    | InvalidPassword
    | Forbidden
    | ABTestNotFound
    | InvalidABWeight
    | GeoRuleNotFound
    | GeoRuleDuplicate
    | InvalidSlug
    | InvalidUrl
    | InvalidInput
    | Storage        // any other database or Redis failure
}
