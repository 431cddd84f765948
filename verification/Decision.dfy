/** The redirect decision over a resolved link: expiry, activity, password, geo rules, A/B variants.
    Password hashing, the country of an address and the random draw are parameters. */
module Decision {
  import opened Common
  import opened Domain
  import opened Selection
  import opened Sequences

  const MOVED_PERMANENTLY: int := 301
  const FOUND: int := 302

  datatype RedirectResult = RedirectResult(destinationUrl: string, statusCode: int, abTestId: string, linkId: int)

  /** What the request contributes: the submitted password, the resolved country ("" when unknown),
      and the random draw. */
  datatype Request = Request(password: string, country: string, draw: nat)

  /** bcrypt comparison of a stored hash with a submitted password. */
  type Matcher = (string, string) -> bool

  // ----- Geo rules -----

  /** The destination of the first rule for the country, or "". */
  function GeoDestination(rules: seq<GeoRule>, country: string): string {
    if country == "" || rules == [] then ""
    else if rules[0].countryCode == country then rules[0].destinationUrl
    else GeoDestination(rules[1..], country)
  }

  method MatchGeoRule(rules: seq<GeoRule>, country: string) returns (dest: string)
    ensures dest == GeoDestination(rules, country)
  {
    if country == "" {
      return "";
    }
    for i := 0 to |rules|
      invariant GeoDestination(rules, country) == GeoDestination(rules[i..], country)
    {
      if rules[i].countryCode == country {
        return rules[i].destinationUrl;
      }
    }
    return "";
  }

  /** Rule i is the first one for the country. */
  ghost predicate FirstRule(rules: seq<GeoRule>, country: string, i: int) {
    && 0 <= i < |rules|
    && rules[i].countryCode == country
    && forall j :: 0 <= j < i ==> rules[j].countryCode != country
  }

  lemma {:induction false} GeoDestinationExact(rules: seq<GeoRule>, country: string)
    requires country != ""
    ensures forall i :: FirstRule(rules, country, i) ==> GeoDestination(rules, country) == rules[i].destinationUrl
    ensures (forall i :: !FirstRule(rules, country, i)) ==> GeoDestination(rules, country) == ""
  {
    if rules != [] {
      var rest := rules[1..];
      if rules[0].countryCode == country {
        assert FirstRule(rules, country, 0);
      } else {
        GeoDestinationExact(rest, country);
        forall i | FirstRule(rules, country, i)
          ensures FirstRule(rest, country, i - 1) && rest[i - 1] == rules[i]
        {
          assert forall j :: 0 <= j < i - 1 ==> rest[j] == rules[j + 1];
        }
        forall i | FirstRule(rest, country, i)
          ensures FirstRule(rules, country, i + 1)
        {
          assert forall j :: 0 < j <= i ==> rules[j] == rest[j - 1];
        }
      }
    }
  }

  // ----- The decision -----

  function Decide(link: Link, now: Time, matches: Matcher, req: Request): Result<RedirectResult, Error> {
    if link.IsExpired(now) then Err(LinkNotFound)
    else if !link.isActive then Err(LinkNotFound)
    else if link.IsPasswordProtected() && req.password == "" then Err(PasswordRequired)
    else if link.IsPasswordProtected() && !matches(link.passwordHash, req.password) then Err(InvalidPassword)
    else
      var geo := GeoDestination(link.geoRules, req.country);
      if geo != "" then Ok(RedirectResult(geo, FOUND, "", link.id))
      else
        match Selected(link.abTests, req.draw)
        case Some(v) => Ok(RedirectResult(v.destinationUrl, FOUND, v.id, link.id))
        case None => Ok(RedirectResult(link.destinationUrl, MOVED_PERMANENTLY, "", link.id))
  }

  /** The branching of Redirect once the link is resolved, in the order the code tests it. */
  method DecideOn(link: Link, now: Time, matches: Matcher, req: Request) returns (r: Result<RedirectResult, Error>)
    ensures r == Decide(link, now, matches, req)
  {
    if link.IsExpired(now) {
      return Err(LinkNotFound);
    }
    if !link.isActive {
      return Err(LinkNotFound);
    }
    if link.IsPasswordProtected() {
      if req.password == "" {
        return Err(PasswordRequired);
      }
      if !matches(link.passwordHash, req.password) {
        return Err(InvalidPassword);
      }
    }
    if |link.geoRules| > 0 {
      var dest := MatchGeoRule(link.geoRules, req.country);
      if dest != "" {
        return Ok(RedirectResult(dest, FOUND, "", link.id));
      }
    }
    var abTestId, destination, statusCode := "", link.destinationUrl, MOVED_PERMANENTLY;
    if |link.abTests| > 0 {
      var variant := SelectABVariant(link.abTests, req.draw);
      if variant.Some? {
        destination := variant.value.destinationUrl;
        abTestId := variant.value.id;
        statusCode := FOUND;
      }
    }
    return Ok(RedirectResult(destination, statusCode, abTestId, link.id));
  }

  // ----- Declarative specification -----

  ghost predicate Unlocked(link: Link, matches: Matcher, password: string) {
    link.passwordHash == "" || (password != "" && matches(link.passwordHash, password))
  }

  ghost predicate Servable(link: Link, now: Time, matches: Matcher, req: Request) {
    && link.isActive
    && (link.expiredAt.Some? ==> now <= link.expiredAt.value)
    && Unlocked(link, matches, req.password)
  }

  /** A geo rule decides: the first rule for a known country, provided it names a destination. */
  ghost predicate GeoDecides(link: Link, req: Request, i: int) {
    && req.country != ""
    && FirstRule(link.geoRules, req.country, i)
    && link.geoRules[i].destinationUrl != ""
  }

  /** The A/B test decides for variant i. */
  ghost predicate VariantDecides(link: Link, req: Request, i: int) {
    && 0 <= i < |link.abTests|
    && (Total(link.abTests) <= 0 ==> i == 0)
    && (Total(link.abTests) > 0 ==>
      && req.draw % Total(link.abTests) < Prefix(link.abTests, i + 1)
      && forall j :: 0 < j <= i ==> Prefix(link.abTests, j) <= req.draw % Total(link.abTests))
  }

  /** The answer the documentation prescribes: geo rules beat A/B variants beat the default. */
  ghost predicate Answers(link: Link, req: Request, res: RedirectResult) {
    && res.linkId == link.id
    && if exists i :: GeoDecides(link, req, i) then
        && res.statusCode == 302 && res.abTestId == ""
        && exists i :: GeoDecides(link, req, i) && res.destinationUrl == link.geoRules[i].destinationUrl
      else if link.abTests != [] then
        && res.statusCode == 302
        && exists i :: (
          && VariantDecides(link, req, i)
          && res.destinationUrl == link.abTests[i].destinationUrl
          && res.abTestId == link.abTests[i].id)
      else
        res.statusCode == 301 && res.abTestId == "" && res.destinationUrl == link.destinationUrl
  }

  lemma {:induction false} GeoExact(link: Link, req: Request)
    ensures (exists i :: GeoDecides(link, req, i)) <==> GeoDestination(link.geoRules, req.country) != ""
    ensures forall i :: GeoDecides(link, req, i) ==>
      GeoDestination(link.geoRules, req.country) == link.geoRules[i].destinationUrl
  {
    if req.country != "" {
      GeoDestinationExact(link.geoRules, req.country);
      if GeoDestination(link.geoRules, req.country) != "" {
        var i :| FirstRule(link.geoRules, req.country, i);
        assert GeoDecides(link, req, i);
      }
    }
  }

  lemma {:induction false} VariantExact(link: Link, req: Request, i: int)
    requires link.abTests != []
    ensures VariantDecides(link, req, i) <==>
      i == if Total(link.abTests) <= 0 then 0 else Index(link.abTests, req.draw % Total(link.abTests))
  {
    if Total(link.abTests) > 0 {
      var pick := req.draw % Total(link.abTests);
      var r := Index(link.abTests, pick);
      assert 0 <= i < r ==> Prefix(link.abTests, i + 1) <= pick;
    }
  }

  /** A redirect succeeds exactly on servable links, with exactly the prescribed answer. */
  lemma {:induction false} DecideExact(link: Link, now: Time, matches: Matcher, req: Request, res: RedirectResult)
    ensures Decide(link, now, matches, req) == Ok(res) <==> Servable(link, now, matches, req) && Answers(link, req, res)
  {
    GeoExact(link, req);
    if link.abTests != [] {
      var v := if Total(link.abTests) <= 0 then 0 else Index(link.abTests, req.draw % Total(link.abTests));
      forall i ensures VariantDecides(link, req, i) <==> i == v {
        VariantExact(link, req, i);
      }
    }
  }

  /** Each refusal has exactly one cause; an expired or inactive link is never told from a missing one. */
  lemma {:induction false} RefusalExact(link: Link, now: Time, matches: Matcher, req: Request)
    ensures var r := Decide(link, now, matches, req);
      && (r.Err? <==> !Servable(link, now, matches, req))
      && (r == Err(LinkNotFound) <==> !link.isActive || (link.expiredAt.Some? && link.expiredAt.value < now))
      && (r == Err(PasswordRequired) <==>
          r != Err(LinkNotFound) && link.passwordHash != "" && req.password == "")
      && (r.Err? ==> r.error in {LinkNotFound, PasswordRequired, InvalidPassword})
  {
  }

  /** 301 is answered exactly when neither a geo rule nor an A/B variant applies; in particular an
      expiring link is still answered 301. */
  lemma {:induction false} PermanentExactly(link: Link, now: Time, matches: Matcher, req: Request)
    requires Servable(link, now, matches, req)
    ensures var r := Decide(link, now, matches, req);
      && r.Ok?
      && (r.value.statusCode == 301 <==>
          link.abTests == [] && forall i :: !GeoDecides(link, req, i))
      && (r.value.statusCode != 301 ==> r.value.statusCode == 302)
  {
    GeoExact(link, req);
  }

  ghost predicate OneRulePerCountry(rules: seq<GeoRule>) {
    forall i, j :: 0 <= i < j < |rules| ==> rules[i].countryCode != rules[j].countryCode
  }

  lemma {:induction false} FirstRuleMoves(rules: seq<GeoRule>, others: seq<GeoRule>, country: string, i: int)
      returns (j: int)
    requires OneRulePerCountry(others) && multiset(rules) == multiset(others)
    requires FirstRule(rules, country, i)
    ensures FirstRule(others, country, j) && others[j] == rules[i]
  {
    assert rules[i] in multiset(others);
    j :| 0 <= j < |others| && others[j] == rules[i];
  }

  lemma {:induction false} GeoOrderIrrelevant(rules: seq<GeoRule>, others: seq<GeoRule>, country: string)
    requires OneRulePerCountry(rules) && OneRulePerCountry(others)
    requires multiset(rules) == multiset(others)
    ensures GeoDestination(rules, country) == GeoDestination(others, country)
  {
    if country != "" {
      GeoDestinationExact(rules, country);
      GeoDestinationExact(others, country);
      if i :| FirstRule(rules, country, i) {
        var j := FirstRuleMoves(rules, others, country, i);
      }
      if j :| FirstRule(others, country, j) {
        var i := FirstRuleMoves(others, rules, country, j);
      }
    }
  }

  function CountryOf(): GeoRule -> string { (r: GeoRule) => r.countryCode }

  lemma {:induction false} OneRulePermuted(rules: seq<GeoRule>, others: seq<GeoRule>)
    requires OneRulePerCountry(rules) && multiset(rules) == multiset(others)
    ensures OneRulePerCountry(others)
  {
    DistinctPermuted(rules, others, CountryOf());
    forall i, j | 0 <= i < j < |others| ensures others[i].countryCode != others[j].countryCode {
      assert CountryOf()(others[i]) != CountryOf()(others[j]);
    }
  }

  /** With one rule per country, unspecified ties in ORDER BY priority cannot change any decision. */
  lemma {:induction false} DecideIgnoresGeoOrder(link: Link, others: seq<GeoRule>, now: Time, matches: Matcher,
                                                 req: Request)
    requires OneRulePerCountry(link.geoRules) && multiset(link.geoRules) == multiset(others)
    ensures Decide(link, now, matches, req) == Decide(link.(geoRules := others), now, matches, req)
  {
    OneRulePermuted(link.geoRules, others);
    GeoOrderIrrelevant(link.geoRules, others, req.country);
  }
}
