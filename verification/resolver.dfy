/** The search for the hosted zone and record sets of a queried name:
    try each candidate zone name in turn, look the zone up, keep the record
    sets that match the token (retrying once with the wildcard form), verify
    the nameservers unless told not to, and stop at the first success. */
module Resolver {
  import opened Wrappers
  import opened GoStrings
  import opened Route53Types
  import opened RecordNames
  import opened Nameservers

  /** GetRecordAliasesResult. */
  datatype GetRecordAliasesResult = GetRecordAliasesResult(
    region: string, records: seq<RecordSet>, hostedZone: HostedZone, stream: RecordName)

  /** What LookupRecord returns. The source returns `(nil, nil, err)` or
      `(zone, records, nil)`; these are the only two shapes:
      `Missed(None)` is `(nil, nil, nil)`, and a `Hit` always carries a
      non-nil, possibly empty, slice of record sets. */
  datatype Lookup = Missed(err: Option<Error>) | Hit(zone: HostedZone, records: seq<RecordSet>)

  // ---------------------------------------------------------------------
  // Filtering record sets

  /** The filtering loop of getRecordsAliasesAndFilter: keeps, in listing
      order, the record sets whose name IsEqual accepts. */
  function FilterRecords(t: RecordName, recordSets: seq<RecordSet>): (kept: seq<RecordSet>)
    requires |t.labels| > 0
    ensures |kept| <= |recordSets|
    ensures forall i :: 0 <= i < |kept| ==> IsEqual(t, kept[i].name)
    decreases |recordSets|
  {
    if |recordSets| == 0 then []
    else
      var last := recordSets[|recordSets| - 1];
      FilterRecords(t, recordSets[..|recordSets| - 1]) + (if IsEqual(t, last.name) then [last] else [])
  }

  /** A record set is kept exactly when it was listed and its name is
      accepted. */
  lemma {:induction false} FilterRecordsKeepsExactlyMatching(t: RecordName, recordSets: seq<RecordSet>)
    requires |t.labels| > 0
    ensures forall rs :: rs in FilterRecords(t, recordSets) <==> rs in recordSets && IsEqual(t, rs.name)
    decreases |recordSets|
  {
    if |recordSets| > 0 {
      var init := recordSets[..|recordSets| - 1];
      var last := recordSets[|recordSets| - 1];
      FilterRecordsKeepsExactlyMatching(t, init);
      assert recordSets == init + [last];
      assert FilterRecords(t, recordSets) == FilterRecords(t, init) + (if IsEqual(t, last.name) then [last] else []);
    }
  }

  /** Filtering a concatenation filters each part, so the kept record sets
      keep their listing order. */
  lemma {:induction false} FilterRecordsAppend(t: RecordName, a: seq<RecordSet>, b: seq<RecordSet>)
    requires |t.labels| > 0
    ensures FilterRecords(t, a + b) == FilterRecords(t, a) + FilterRecords(t, b)
    decreases |b|
  {
    if |b| > 0 {
      var b' := b[..|b| - 1];
      assert (a + b)[..|a + b| - 1] == a + b';
      FilterRecordsAppend(t, a, b');
    } else {
      assert a + b == a;
    }
  }

  /** A listing where every name matches is kept whole. */
  lemma {:induction false} FilterRecordsKeepsAllMatching(t: RecordName, recordSets: seq<RecordSet>)
    requires |t.labels| > 0
    requires forall i :: 0 <= i < |recordSets| ==> IsEqual(t, recordSets[i].name)
    ensures FilterRecords(t, recordSets) == recordSets
    decreases |recordSets|
  {
    if |recordSets| > 0 {
      var init := recordSets[..|recordSets| - 1];
      var last := recordSets[|recordSets| - 1];
      forall i | 0 <= i < |init| ensures IsEqual(t, init[i].name) {
        assert init[i] == recordSets[i];
      }
      FilterRecordsKeepsAllMatching(t, init);
      assert IsEqual(t, last.name);
      assert FilterRecords(t, recordSets) == init + [last];
      assert init + [last] == recordSets;
    }
  }

  /** A listing where no name matches is dropped whole. */
  lemma {:induction false} FilterRecordsDropsAllMismatching(t: RecordName, recordSets: seq<RecordSet>)
    requires |t.labels| > 0
    requires forall i :: 0 <= i < |recordSets| ==> !IsEqual(t, recordSets[i].name)
    ensures FilterRecords(t, recordSets) == []
    decreases |recordSets|
  {
    if |recordSets| > 0 {
      var init := recordSets[..|recordSets| - 1];
      forall i | 0 <= i < |init| ensures !IsEqual(t, init[i].name) {
        assert init[i] == recordSets[i];
      }
      FilterRecordsDropsAllMismatching(t, init);
    }
  }

  /** getRecordsAliasesAndFilter: list the zone's record sets from
      `recordName` on and keep the matching ones. */
  function GetRecordsAliasesAndFilter(w: World, t: RecordName, recordName: string, zoneId: string): (r: Result<seq<RecordSet>, Error>)
    requires |t.labels| > 0
    ensures r.Failure? <==> w.listResourceRecordSets(zoneId, recordName).Failure?
    ensures r.Failure? ==> r.error == Sdk(w.listResourceRecordSets(zoneId, recordName).error)
    ensures r.Success? ==> forall i :: 0 <= i < |r.value| ==> IsEqual(t, r.value[i].name)
    ensures r.Success? ==> forall rs :: rs in w.listResourceRecordSets(zoneId, recordName).value && IsEqual(t, rs.name) ==> rs in r.value
    ensures r.Success? ==> r.value == FilterRecords(t, w.listResourceRecordSets(zoneId, recordName).value)
  {
    match w.listResourceRecordSets(zoneId, recordName)
    case Failure(e) => Failure(Sdk(e))
    case Success(recordSets) =>
      FilterRecordsKeepsExactlyMatching(t, recordSets);
      Success(FilterRecords(t, recordSets))
  }

  // ---------------------------------------------------------------------
  // Looking up one candidate zone

  /** The scan of LookupRecord over the listed zones from position `i` on:
      the position of the first zone named `name`. */
  function FindZoneFrom(zones: seq<HostedZone>, name: string, i: nat): (r: Option<nat>)
    requires i <= |zones|
    ensures r.Some? ==> i <= r.value < |zones| && zones[r.value].name == name
    ensures r.Some? ==> forall j :: i <= j < r.value ==> zones[j].name != name
    ensures r.None? ==> forall j :: i <= j < |zones| ==> zones[j].name != name
    decreases |zones| - i
  {
    if i == |zones| then None
    else if zones[i].name == name then Some(i)
    else FindZoneFrom(zones, name, i + 1)
  }

  /** The zone LookupRecord settles on: the first listed zone named
      `hzName + "."`. */
  ghost predicate ZoneFound(w: World, hzName: string) {
    && w.listHostedZonesByName(hzName).Success?
    && FindZoneFrom(w.listHostedZonesByName(hzName).value, hzName + ".", 0).Some?
  }

  /** The zone is found and every record listing LookupRecord makes in it
      succeeds: the one from the name, and, when that keeps nothing for a
      non-wildcard token, the one from the wildcard form. */
  ghost predicate ZoneRecordsListed(w: World, hzName: string, record: string, t: RecordName)
    requires |t.labels| > 0
  {
    && ZoneFound(w, hzName)
    && var zones := w.listHostedZonesByName(hzName).value;
       var hz := zones[FindZoneFrom(zones, hzName + ".", 0).value];
       var first := GetRecordsAliasesAndFilter(w, t, record, hz.id);
       && first.Success?
       && (|first.value| == 0 && !t.hasWildCard ==>
             GetRecordsAliasesAndFilter(w, t, GetWithWildCard(t).value, hz.id).Success?)
  }

  /** LookupRecord: find the zone called `hzName + "."` among those the
      provider lists for `hzName`, and the record sets in it that match the
      token, falling back to the wildcard form of the name when a
      non-wildcard token finds none. */
  function LookupRecord(w: World, hzName: string, record: string, t: RecordName): (o: Lookup)
    requires |t.labels| > 0
    ensures o.Hit? ==> w.listHostedZonesByName(hzName).Success?
    ensures o.Hit? ==>
      var zones := w.listHostedZonesByName(hzName).value;
      exists k :: 0 <= k < |zones| && zones[k] == o.zone && FindZoneFrom(zones, hzName + ".", 0) == Some(k)
    ensures o.Hit? ==> o.zone.name == hzName + "."
    ensures o.Hit? ==> forall i :: 0 <= i < |o.records| ==> IsEqual(t, o.records[i].name)
    ensures o == Missed(None) <==> w.listHostedZonesByName(hzName) == Success([])
    ensures o == Missed(Some(LookupNotFoundErr)) <==>
      && w.listHostedZonesByName(hzName).Success?
      && |w.listHostedZonesByName(hzName).value| > 0
      && forall z :: z in w.listHostedZonesByName(hzName).value ==> z.name != hzName + "."
    ensures o.Missed? && o.err.Some? && o.err.value != LookupNotFoundErr ==> o.err.value.Sdk?
    ensures w.listHostedZonesByName(hzName).Failure? ==>
      o == Missed(Some(Sdk(w.listHostedZonesByName(hzName).error)))
    ensures o.Hit? <==> ZoneRecordsListed(w, hzName, record, t)
  {
    match w.listHostedZonesByName(hzName)
    case Failure(e) => Missed(Some(Sdk(e)))
    case Success(zones) =>
      if |zones| == 0 then Missed(None)
      else
        match FindZoneFrom(zones, hzName + ".", 0)
        case None => Missed(Some(LookupNotFoundErr))
        case Some(k) =>
          var hz := zones[k];
          match GetRecordsAliasesAndFilter(w, t, record, hz.id)
          case Failure(e) => Missed(Some(e))
          case Success(filtered) =>
            if |filtered| == 0 && !t.hasWildCard then
              match GetWithWildCard(t)
              case Failure(e) => Missed(Some(e))
              case Success(recWithWc) =>
                match GetRecordsAliasesAndFilter(w, t, recWithWc, hz.id)
                case Failure(e) => Missed(Some(e))
                case Success(retried) => Hit(hz, retried)
            else Hit(hz, filtered)
  }

  /** The records of a hit come from the listing that starts at the name;
      the listing that starts at the wildcard form is consulted only when a
      non-wildcard token found nothing in the first. */
  lemma WildCardRetryOnlyWhenEmpty(w: World, hzName: string, record: string, t: RecordName)
    requires Valid(t)
    ensures var o := LookupRecord(w, hzName, record, t);
      o.Hit? ==>
        var first := GetRecordsAliasesAndFilter(w, t, record, o.zone.id);
        && first.Success?
        && (|first.value| > 0 || t.hasWildCard ==> o.records == first.value)
        && (|first.value| == 0 && !t.hasWildCard ==>
              GetRecordsAliasesAndFilter(w, t, GetWithWildCard(t).value, o.zone.id) == Success(o.records))
  {
    var o := LookupRecord(w, hzName, record, t);
    if o.Hit? {
      var zones := w.listHostedZonesByName(hzName).value;
      var k := FindZoneFrom(zones, hzName + ".", 0).value;
      assert o.zone == zones[k];
    }
  }

  /** A concrete name finds a wildcard record: when the zone has no record
      for the name itself but its listing from the wildcard form holds the
      wildcard record, that record is in the hit. */
  lemma WildCardRecordAnswersConcreteName(w: World, hzName: string, t: RecordName, wildRecord: RecordSet)
    requires Valid(t) && !t.hasWildCard
    requires LookupRecord(w, hzName, t.parsedUrl, t).Hit?
    requires var zone := LookupRecord(w, hzName, t.parsedUrl, t).zone;
      GetRecordsAliasesAndFilter(w, t, t.parsedUrl, zone.id) == Success([])
    requires var zone := LookupRecord(w, hzName, t.parsedUrl, t).zone;
      var wc := GetWithWildCard(t).value;
      && wildRecord.name == wc + "."
      && w.listResourceRecordSets(zone.id, wc).Success?
      && wildRecord in w.listResourceRecordSets(zone.id, wc).value
    ensures wildRecord in LookupRecord(w, hzName, t.parsedUrl, t).records
  {
    WildCardRetryOnlyWhenEmpty(w, hzName, t.parsedUrl, t);
    IsEqualAcceptsExactly(t, wildRecord.name);
  }

  // ---------------------------------------------------------------------
  // The search over candidate zones

  /** One pass of the loop of GetRecordSetAliases: look the candidate up
      and, unless told not to, verify its nameservers. */
  function Attempt(w: World, cache: Cache, t: RecordName, hzName: string, skipNSVerification: bool)
    : (r: Cached<Option<GetRecordAliasesResult>>)
    requires |t.labels| > 0
    ensures r.value.Some? ==> r.value.value.region == w.region && r.value.value.stream == t
    ensures r.value.Some? ==> LookupRecord(w, hzName, t.parsedUrl, t) == Hit(r.value.value.hostedZone, r.value.value.records)
    ensures var l := LookupRecord(w, hzName, t.parsedUrl, t);
      r.value.Some? <==>
        l.Hit? && (skipNSVerification || IsNSMatchRecord(w, cache, l.zone, t.parsedUrl).value == Success(true))
    ensures skipNSVerification ==> r.cache == cache
  {
    match LookupRecord(w, hzName, t.parsedUrl, t)
    case Missed(_) => Cached(cache, None)
    case Hit(zone, records) =>
      var found := GetRecordAliasesResult(w.region, records, zone, t);
      if skipNSVerification then Cached(cache, Some(found))
      else
        var check := IsNSMatchRecord(w, cache, zone, t.parsedUrl);
        Cached(check.cache, if check.value == Success(true) then Some(found) else None)
  }

  /** The loop of GetRecordSetAliases over the candidate zone names: skip a
      candidate whose lookup gives an error or nil records, or whose
      nameservers fail verification; return the first that passes. */
  function Search(w: World, cache: Cache, t: RecordName, candidates: seq<string>, skipNSVerification: bool)
    : (r: Cached<Result<GetRecordAliasesResult, Error>>)
    requires |t.labels| > 0
    ensures r.value.Failure? ==> r.value.error == NoRecordMatchFound
    ensures r.value.Success? ==> r.value.value.region == w.region && r.value.value.stream == t
    ensures skipNSVerification ==> r.cache == cache
    decreases |candidates|
  {
    if |candidates| == 0 then Cached(cache, Failure(NoRecordMatchFound))
    else
      var a := Attempt(w, cache, t, candidates[0], skipNSVerification);
      if a.value.Some? then Cached(a.cache, Success(a.value.value))
      else Search(w, a.cache, t, candidates[1..], skipNSVerification)
  }

  /** One pass only adds to the cache: the one entry it may write is for a
      zone id that was not cached yet. */
  lemma AttemptKeepsCache(w: World, cache: Cache, t: RecordName, hzName: string, skipNSVerification: bool)
    requires |t.labels| > 0
    ensures var a := Attempt(w, cache, t, hzName, skipNSVerification);
      forall k :: k in cache ==> k in a.cache && a.cache[k] == cache[k]
    ensures CacheUndotted(cache) ==> CacheUndotted(Attempt(w, cache, t, hzName, skipNSVerification).cache)
  {
    match LookupRecord(w, hzName, t.parsedUrl, t)
    case Missed(_) =>
    case Hit(zone, _) =>
      if !skipNSVerification {
        assert Attempt(w, cache, t, hzName, skipNSVerification).cache == GetHZNameservers(w, cache, zone.id).cache;
      }
  }

  /** With an honest cache, one pass gives what it gives on an empty cache,
      and leaves the cache honest. */
  lemma AttemptIgnoresHonestCache(w: World, cache: Cache, t: RecordName, hzName: string, skipNSVerification: bool)
    requires |t.labels| > 0
    requires !skipNSVerification ==> Honest(w, cache) && !HoldsDelegation(w, t.parsedUrl)
    ensures Attempt(w, cache, t, hzName, skipNSVerification).value == Attempt(w, map[], t, hzName, skipNSVerification).value
    ensures !skipNSVerification ==> Honest(w, Attempt(w, cache, t, hzName, skipNSVerification).cache)
  {
    match LookupRecord(w, hzName, t.parsedUrl, t)
    case Missed(_) =>
    case Hit(zone, _) =>
      if !skipNSVerification {
        VerdictIgnoresHonestCache(w, cache, zone, t.parsedUrl);
      }
  }

  /** The search only adds to the cache: an entry present before is
      present afterwards with the same hosts. */
  lemma {:induction false} SearchKeepsCachedEntries(w: World, cache: Cache, t: RecordName, candidates: seq<string>, skipNSVerification: bool)
    requires |t.labels| > 0
    ensures var r := Search(w, cache, t, candidates, skipNSVerification);
      forall k :: k in cache ==> k in r.cache && r.cache[k] == cache[k]
    decreases |candidates|
  {
    if |candidates| > 0 {
      var a := Attempt(w, cache, t, candidates[0], skipNSVerification);
      AttemptKeepsCache(w, cache, t, candidates[0], skipNSVerification);
      SearchKeepsCachedEntries(w, a.cache, t, candidates[1..], skipNSVerification);
    }
  }

  /** Every host the search leaves in the cache has its trailing dot
      trimmed, provided that held before. */
  lemma {:induction false} SearchKeepsCacheUndotted(w: World, cache: Cache, t: RecordName, candidates: seq<string>, skipNSVerification: bool)
    requires |t.labels| > 0
    requires CacheUndotted(cache)
    ensures CacheUndotted(Search(w, cache, t, candidates, skipNSVerification).cache)
    decreases |candidates|
  {
    if |candidates| > 0 {
      var a := Attempt(w, cache, t, candidates[0], skipNSVerification);
      AttemptKeepsCache(w, cache, t, candidates[0], skipNSVerification);
      SearchKeepsCacheUndotted(w, a.cache, t, candidates[1..], skipNSVerification);
    }
  }

  /** One pass keeps an honest cache honest, verification or not. */
  lemma AttemptKeepsHonest(w: World, cache: Cache, t: RecordName, hzName: string, skipNSVerification: bool)
    requires |t.labels| > 0 && Honest(w, cache)
    ensures Honest(w, Attempt(w, cache, t, hzName, skipNSVerification).cache)
  {
    match LookupRecord(w, hzName, t.parsedUrl, t)
    case Missed(_) =>
    case Hit(zone, _) =>
      if !skipNSVerification {
        ZoneLookupIgnoresHonestCache(w, cache, zone.id);
      }
  }

  /** The search keeps an honest cache honest, so successive searches on
      the one long-lived cache each meet the condition of
      SearchFollowsFirstAccepted. */
  lemma {:induction false} SearchKeepsHonest(w: World, cache: Cache, t: RecordName, candidates: seq<string>, skipNSVerification: bool)
    requires |t.labels| > 0 && Honest(w, cache)
    ensures Honest(w, Search(w, cache, t, candidates, skipNSVerification).cache)
    decreases |candidates|
  {
    if |candidates| > 0 {
      var a := Attempt(w, cache, t, candidates[0], skipNSVerification);
      AttemptKeepsHonest(w, cache, t, candidates[0], skipNSVerification);
      SearchKeepsHonest(w, a.cache, t, candidates[1..], skipNSVerification);
    }
  }

  /** A candidate is accepted when its lookup hits and, unless verification
      is skipped, the hosted zone's nameservers match the domain's. */
  ghost predicate Accepted(w: World, t: RecordName, hzName: string, skipNSVerification: bool)
    requires |t.labels| > 0
  {
    Attempt(w, map[], t, hzName, skipNSVerification).value.Some?
  }

  /** Reference definition of the outcome: the position of the first
      accepted candidate, if any. */
  ghost function FirstAccepted(w: World, t: RecordName, candidates: seq<string>, skipNSVerification: bool): (r: Option<nat>)
    requires |t.labels| > 0
    ensures r.Some? ==> r.value < |candidates| && Accepted(w, t, candidates[r.value], skipNSVerification)
    decreases |candidates|
  {
    if |candidates| == 0 then None
    else if Accepted(w, t, candidates[0], skipNSVerification) then Some(0)
    else
      match FirstAccepted(w, t, candidates[1..], skipNSVerification)
      case None => None
      case Some(i) => Some(i + 1)
  }

  /** No candidate before the one FirstAccepted names is accepted, and it
      finds nothing only when no candidate is accepted. */
  lemma {:induction false} FirstAcceptedIsFirst(w: World, t: RecordName, candidates: seq<string>, skipNSVerification: bool)
    requires |t.labels| > 0
    ensures var f := FirstAccepted(w, t, candidates, skipNSVerification);
      forall j :: 0 <= j < |candidates| && (f.None? || j < f.value) ==> !Accepted(w, t, candidates[j], skipNSVerification)
    decreases |candidates|
  {
    if |candidates| > 0 && !Accepted(w, t, candidates[0], skipNSVerification) {
      var rest := candidates[1..];
      FirstAcceptedIsFirst(w, t, rest, skipNSVerification);
      var f := FirstAccepted(w, t, rest, skipNSVerification);
      forall j | 0 < j < |candidates| && (f.None? || j < f.value + 1)
        ensures !Accepted(w, t, candidates[j], skipNSVerification)
      {
        assert candidates[j] == rest[j - 1];
      }
    }
  }

  /** First success wins: the search succeeds exactly when some candidate is
      accepted, and then returns what the first accepted candidate yields on
      its own. Without verification this needs nothing; with verification
      it needs the cache to hold only what the provider reports and the
      record name not to be a key with a delegation set of its own, the two
      ways the shared cache could change a verdict. */
  lemma {:induction false} SearchFollowsFirstAccepted(w: World, cache: Cache, t: RecordName, candidates: seq<string>, skipNSVerification: bool)
    requires |t.labels| > 0
    requires !skipNSVerification ==> Honest(w, cache) && !HoldsDelegation(w, t.parsedUrl)
    ensures var r := Search(w, cache, t, candidates, skipNSVerification).value;
      r.Success? <==> FirstAccepted(w, t, candidates, skipNSVerification).Some?
    ensures var f := FirstAccepted(w, t, candidates, skipNSVerification);
      f.Some? ==>
        Search(w, cache, t, candidates, skipNSVerification).value
          == Success(Attempt(w, map[], t, candidates[f.value], skipNSVerification).value.value)
    decreases |candidates|
  {
    if |candidates| > 0 {
      var rest := candidates[1..];
      var a := Attempt(w, cache, t, candidates[0], skipNSVerification);
      AttemptIgnoresHonestCache(w, cache, t, candidates[0], skipNSVerification);
      SearchStep(w, cache, t, candidates, skipNSVerification);
      if a.value.None? {
        SearchFollowsFirstAccepted(w, a.cache, t, rest, skipNSVerification);
        var f := FirstAccepted(w, t, rest, skipNSVerification);
        if f.Some? {
          assert candidates[f.value + 1] == rest[f.value];
        }
      }
    }
  }

  /** One step of the search: the first candidate's pass decides, or the
      search goes on with the rest and the cache that pass left. */
  lemma SearchStep(w: World, cache: Cache, t: RecordName, candidates: seq<string>, skipNSVerification: bool)
    requires |t.labels| > 0 && |candidates| > 0
    ensures var a := Attempt(w, cache, t, candidates[0], skipNSVerification);
      Search(w, cache, t, candidates, skipNSVerification)
        == if a.value.Some? then Cached(a.cache, Success(a.value.value))
           else Search(w, a.cache, t, candidates[1..], skipNSVerification)
  {
  }

  /** The search succeeds exactly when some candidate is accepted, under the
      cache condition above. */
  lemma SearchSucceedsIffSomeAccepted(w: World, cache: Cache, t: RecordName, candidates: seq<string>, skipNSVerification: bool)
    requires |t.labels| > 0
    requires !skipNSVerification ==> Honest(w, cache) && !HoldsDelegation(w, t.parsedUrl)
    ensures Search(w, cache, t, candidates, skipNSVerification).value.Success?
        <==> exists i :: 0 <= i < |candidates| && Accepted(w, t, candidates[i], skipNSVerification)
  {
    SearchFollowsFirstAccepted(w, cache, t, candidates, skipNSVerification);
    FirstAcceptedIsFirst(w, t, candidates, skipNSVerification);
    var f := FirstAccepted(w, t, candidates, skipNSVerification);
    if f.Some? {
      assert Accepted(w, t, candidates[f.value], skipNSVerification);
    }
  }

  /** A successful search returns the hit of a candidate that is accepted and
      that no earlier candidate precedes in being accepted. */
  lemma SearchReturnsFirstAccepted(w: World, cache: Cache, t: RecordName, candidates: seq<string>, skipNSVerification: bool)
    requires |t.labels| > 0
    requires !skipNSVerification ==> Honest(w, cache) && !HoldsDelegation(w, t.parsedUrl)
    ensures var r := Search(w, cache, t, candidates, skipNSVerification).value;
      r.Success? ==>
        exists i :: && 0 <= i < |candidates|
                    && Accepted(w, t, candidates[i], skipNSVerification)
                    && (forall j :: 0 <= j < i ==> !Accepted(w, t, candidates[j], skipNSVerification))
                    && LookupRecord(w, candidates[i], t.parsedUrl, t) == Hit(r.value.hostedZone, r.value.records)
    ensures (exists i :: 0 <= i < |candidates| && Accepted(w, t, candidates[i], skipNSVerification))
            ==> Search(w, cache, t, candidates, skipNSVerification).value.Success?
  {
    SearchSucceedsIffSomeAccepted(w, cache, t, candidates, skipNSVerification);
    SearchFollowsFirstAccepted(w, cache, t, candidates, skipNSVerification);
    FirstAcceptedIsFirst(w, t, candidates, skipNSVerification);
    var f := FirstAccepted(w, t, candidates, skipNSVerification);
    if f.Some? {
      var i := f.value;
      assert forall j :: 0 <= j < i ==> !Accepted(w, t, candidates[j], skipNSVerification);
    }
  }

  /** A hit with an empty, non-nil slice of records is accepted: the source
      only skips nil records, so a zone without any matching record set ends
      the search when verification is skipped. */
  lemma EmptyHitEndsSearch(w: World, cache: Cache, t: RecordName, candidates: seq<string>, zone: HostedZone)
    requires |t.labels| > 0 && |candidates| > 0
    requires LookupRecord(w, candidates[0], t.parsedUrl, t) == Hit(zone, [])
    ensures Search(w, cache, t, candidates, true) == Cached(cache, Success(GetRecordAliasesResult(w.region, [], zone, t)))
  {
  }

  /** A zone the search returns with verification on is one whose
      nameservers match the domain's, as a lookup with an empty cache sees
      them: a mismatched zone is never returned. */
  lemma ReturnedZoneIsVerified(w: World, cache: Cache, t: RecordName, candidates: seq<string>)
    requires |t.labels| > 0
    requires Honest(w, cache) && !HoldsDelegation(w, t.parsedUrl)
    ensures var r := Search(w, cache, t, candidates, false);
      r.value.Success? ==> IsNSMatchRecord(w, map[], r.value.value.hostedZone, t.parsedUrl).value == Success(true)
  {
    SearchReturnsFirstAccepted(w, cache, t, candidates, false);
  }

  // ---------------------------------------------------------------------
  // The entry point

  /** GetRecordSetAliases. The source panics where the token cannot be built
      or the candidate list fails; here those come back as Panic errors. */
  function GetRecordSetAliases(w: World, cache: Cache, recordName: string, skipNSVerification: bool)
    : (r: Cached<Result<GetRecordAliasesResult, Error>>)
    ensures r.value.Failure? ==> r.value.error == NoRecordMatchFound || r.value.error.Panic?
    ensures r.value.Failure? && r.value.error.Panic? ==> r.cache == cache
    ensures r.value.Success? ==> Valid(r.value.value.stream) && r.value.value.stream.rawUrl == recordName
    ensures r.value.Success? ==> r.value.value.region == w.region
    ensures skipNSVerification ==> r.cache == cache
    ensures forall k :: k in cache ==> k in r.cache && r.cache[k] == cache[k]
  {
    if PanicsOnIndex(w, recordName) then Cached(cache, Failure(Panic(IndexOutOfRange)))
    else
      match NewRecordName(w, recordName)
      case Failure(e) => Cached(cache, Failure(Panic(e)))
      case Success(t) =>
        match GetAllOptionsForZoneName(t)
        case Failure(e) => Cached(cache, Failure(Panic(e)))
        case Success(candidates) =>
          SearchKeepsCachedEntries(w, cache, t, candidates, skipNSVerification);
          Search(w, cache, t, candidates, skipNSVerification)
  }

  /** How GetRecordSetAliases ends: a panic for an unparsable query, an empty
      host or a lone wildcard label; otherwise the search over the label
      suffixes of the name, most specific first. */
  lemma GetRecordSetAliasesSearchesSuffixes(w: World, cache: Cache, recordName: string, skipNSVerification: bool)
    ensures var host := w.urlHostname(WithScheme(recordName));
      var r := GetRecordSetAliases(w, cache, recordName, skipNSVerification);
      && (host.Failure? ==> r.value == Failure(Panic(UrlParse(host.error))))
      && (host == Success("") ==> r.value == Failure(Panic(IndexOutOfRange)))
      && (host == Success(WildCard) || host == Success(WildCard + ".") ==> r.value == Failure(Panic(InvalidRecordWildCard)))
      && (host.Success? && host.value != "" ==>
            var t := NewRecordName(w, recordName).value;
            t.labels != [WildCard] ==>
              r == Search(w, cache, t, ZoneSuffixes(t.labels, FirstZoneLabel(t)), skipNSVerification))
  {
    var host := w.urlHostname(WithScheme(recordName));
    if host.Success? && host.value != "" {
      var t := NewRecordName(w, recordName).value;
      if t.labels != [WildCard] {
        OptionsAreSuffixes(t);
      }
      if host.value == WildCard || host.value == WildCard + "." {
        LoneWildCardHost(w, recordName);
      }
    }
  }

  /** A host that is the wildcard label alone, with or without a trailing
      dot, gives a token whose only label is the wildcard. */
  lemma LoneWildCardHost(w: World, recordName: string)
    requires var host := w.urlHostname(WithScheme(recordName));
      host == Success(WildCard) || host == Success(WildCard + ".")
    ensures NewRecordName(w, recordName).Success?
    ensures NewRecordName(w, recordName).value.labels == [WildCard]
  {
    var host := w.urlHostname(WithScheme(recordName)).value;
    assert NewRecordName(w, recordName).value == BuildRecordName(recordName, Split(host, '.'));
    if host == WildCard {
      SplitWithoutSep(WildCard, '.');
    } else {
      SplitAfterSep(WildCard, "", '.');
      assert WildCard + "." == WildCard + ['.'] + "";
    }
  }
}
