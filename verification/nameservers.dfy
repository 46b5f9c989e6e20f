/** Nameserver verification: the delegation set of a hosted zone, the NS
    records of a domain, the overlap test between the two, and the map that
    memoises lookups. The map is one plain `map` shared by hosted-zone ids
    and record names, threaded through as explicit state. */
module Nameservers {
  import opened Wrappers
  import opened GoStrings
  import opened Route53Types

  /** The Route53Manager's `nameservers` map. */
  type Cache = map<string, seq<string>>

  /** A value together with the cache after computing it. */
  datatype Cached<T> = Cached(cache: Cache, value: T)

  /** The characters GetHZNameservers trims off the front of a zone id. It is
      used as a cut set, so it stands for the set { / h o s t e d z n }. */
  const HostedZoneCutset: string := "/hostedzone/"

  /** The cache key of a hosted-zone id. */
  function ZoneIdKey(hzId: string): (key: string)
    ensures HasSuffix(hzId, key)
    ensures forall i :: 0 <= i < |hzId| - |key| ==> hzId[i] in HostedZoneCutset
    ensures |key| > 0 ==> key[0] !in HostedZoneCutset
  {
    TrimLeft(hzId, HostedZoneCutset)
  }

  /** The cut-set trim removes the "/hostedzone/" path whenever the bare id
      does not itself start with one of the cut-set characters (Route 53 ids
      start with an upper-case letter); a key is already trimmed. */
  lemma ZoneIdKeyStripsPath(id: string)
    requires |id| == 0 || id[0] !in HostedZoneCutset
    ensures ZoneIdKey(HostedZoneCutset + id) == id
    ensures ZoneIdKey(id) == id
  {
    var s := HostedZoneCutset + id;
    assert forall i :: 0 <= i < |HostedZoneCutset| ==> s[i] in HostedZoneCutset;
    assert s[|HostedZoneCutset|..] == id;
  }

  /** A host name without the trailing dot of a fully-qualified name. */
  predicate Undotted(host: string) {
    |host| == 0 || host[|host| - 1] != '.'
  }

  predicate AllUndotted(hosts: seq<string>) {
    forall i :: 0 <= i < |hosts| ==> Undotted(hosts[i])
  }

  predicate CacheUndotted(cache: Cache) {
    forall k :: k in cache ==> AllUndotted(cache[k])
  }

  /** strings.TrimRight(host, ".") applied to every host, in order. */
  function TrimHosts(hosts: seq<string>): (r: seq<string>)
    ensures |r| == |hosts| && AllUndotted(r)
    ensures forall i :: 0 <= i < |r| ==> r[i] == TrimRight(hosts[i], ".")
  {
    seq(|hosts|, i requires 0 <= i < |hosts| => TrimRight(hosts[i], "."))
  }

  // ---------------------------------------------------------------------
  // Lookups

  /** GetNameservers: the NS hosts of a domain. It reads the cache but never
      writes it, which is why it returns no cache. */
  function GetNameservers(w: World, cache: Cache, recordName: string): (r: Result<seq<string>, Error>)
    ensures recordName in cache ==> r == Success(cache[recordName])
    ensures recordName !in cache ==> (r.Failure? <==> w.lookupNS(recordName + ".").Failure?)
    ensures recordName !in cache && r.Success? ==>
      r.value == TrimHosts(w.lookupNS(recordName + ".").value) && AllUndotted(r.value)
    ensures recordName !in cache && r.Failure? ==> r.error == Dns(w.lookupNS(recordName + ".").error)
    ensures CacheUndotted(cache) && r.Success? ==> AllUndotted(r.value)
  {
    if recordName in cache then Success(cache[recordName])
    else
      match w.lookupNS(recordName + ".")
      case Failure(e) => Failure(Dns(e))
      case Success(hosts) => Success(TrimHosts(hosts))
  }

  /** GetHZNameservers: the delegation set of a hosted zone. A cached entry
      is returned without asking the provider; a fetched delegation set is
      stored under the trimmed id; a zone without delegation set yields no
      hosts and no error, and is not cached. */
  function GetHZNameservers(w: World, cache: Cache, hzId: string): (r: Cached<Result<seq<string>, Error>>)
    ensures var id := ZoneIdKey(hzId);
      id in cache ==> r == Cached(cache, Success(cache[id]))
    ensures var id := ZoneIdKey(hzId);
      || r.cache == cache
      || (id !in cache && r.value.Success? && r.cache == cache[id := r.value.value])
    ensures var id := ZoneIdKey(hzId);
      id !in cache ==> (r.value.Failure? <==> w.getHostedZone(id).Failure?)
    ensures var id := ZoneIdKey(hzId);
      id !in cache && w.getHostedZone(id).Failure? ==> r == Cached(cache, Failure(Sdk(w.getHostedZone(id).error)))
    ensures var id := ZoneIdKey(hzId);
      id !in cache && w.getHostedZone(id) == Success(None) ==> r == Cached(cache, Success([]))
    ensures var id := ZoneIdKey(hzId);
      id !in cache && w.getHostedZone(id).Success? && w.getHostedZone(id).value.Some? ==>
        var hosts := TrimHosts(w.getHostedZone(id).value.value);
        r == Cached(cache[id := hosts], Success(hosts))
    ensures r.value.Failure? ==> r.value.error.Sdk?
    ensures CacheUndotted(cache) ==> CacheUndotted(r.cache)
    ensures CacheUndotted(cache) && r.value.Success? ==> AllUndotted(r.value.value)
  {
    var id := ZoneIdKey(hzId);
    if id in cache then Cached(cache, Success(cache[id]))
    else
      match w.getHostedZone(id)
      case Failure(e) => Cached(cache, Failure(Sdk(e)))
      case Success(None) => Cached(cache, Success([]))
      case Success(Some(servers)) =>
        var hosts := TrimHosts(servers);
        Cached(cache[id := hosts], Success(hosts))
  }

  /** Once a delegation set has been fetched and stored, asking again, of any
      world, returns the same hosts from the cache and changes nothing. */
  lemma SecondLookupHitsCache(w: World, w': World, cache: Cache, hzId: string)
    requires GetHZNameservers(w, cache, hzId).cache != cache
    ensures var first := GetHZNameservers(w, cache, hzId);
      GetHZNameservers(w', first.cache, hzId) == first
  {
  }

  // ---------------------------------------------------------------------
  // Overlap test

  /** The counter value of a host, zero when absent (Go's zero value). */
  function Count(counter: map<string, nat>, host: string): nat {
    if host in counter then counter[host] else 0
  }

  /** One of IsNSMatch's counting loops: every non-empty host adds one to
      its counter; the empty host never gets one. */
  function CountHosts(counter: map<string, nat>, hosts: seq<string>): (r: map<string, nat>)
    ensures "" !in counter ==> "" !in r
    ensures forall n :: n != "" ==> Count(r, n) == Count(counter, n) + multiset(hosts)[n]
    decreases |hosts|
  {
    if |hosts| == 0 then counter
    else
      var h := hosts[0];
      assert hosts == [h] + hosts[1..];
      CountHosts(if h != "" then counter[h := Count(counter, h) + 1] else counter, hosts[1..])
  }

  /** Some non-empty host occurs at least twice across both lists together. */
  ghost predicate SomeHostRepeats(ns1: seq<string>, ns2: seq<string>) {
    exists n :: n != "" && multiset(ns1)[n] + multiset(ns2)[n] > 1
  }

  /** IsNSMatch: count every non-empty host of both lists in one map, then
      report whether some count exceeds one. That is exactly whether some
      non-empty host occurs twice in the two lists together. */
  function IsNSMatch(ns1: seq<string>, ns2: seq<string>): (b: bool)
    ensures b <==> SomeHostRepeats(ns1, ns2)
  {
    var counter := CountHosts(CountHosts(map[], ns1), ns2);
    assert forall n :: n != "" ==> Count(counter, n) == multiset(ns1)[n] + multiset(ns2)[n];
    assert "" !in counter;
    assert SomeHostRepeats(ns1, ns2) ==> exists n | n in counter :: counter[n] > 1 by {
      if SomeHostRepeats(ns1, ns2) {
        var n :| n != "" && multiset(ns1)[n] + multiset(ns2)[n] > 1;
        assert Count(counter, n) > 1;
      }
    }
    assert (exists n | n in counter :: counter[n] > 1) ==> SomeHostRepeats(ns1, ns2) by {
      if exists n | n in counter :: counter[n] > 1 {
        var n :| n in counter && counter[n] > 1;
        assert n != "" && Count(counter, n) > 1;
      }
    }
    exists n | n in counter :: counter[n] > 1
  }

  /** The test does not depend on the order of the two lists. */
  lemma IsNSMatchSymmetric(ns1: seq<string>, ns2: seq<string>)
    ensures IsNSMatch(ns1, ns2) == IsNSMatch(ns2, ns1)
  {
  }

  /** A non-empty host in both lists is a match. */
  lemma SharedHostMatches(ns1: seq<string>, ns2: seq<string>, host: string)
    requires host != "" && host in ns1 && host in ns2
    ensures IsNSMatch(ns1, ns2)
  {
    assert multiset(ns1)[host] + multiset(ns2)[host] > 1;
  }

  /** Empty entries never count: lists of empty strings never match, and
      adding an empty entry changes nothing. */
  lemma EmptyHostsIgnored(ns1: seq<string>, ns2: seq<string>)
    ensures (forall i :: 0 <= i < |ns1| ==> ns1[i] == "") && (forall i :: 0 <= i < |ns2| ==> ns2[i] == "")
            ==> !IsNSMatch(ns1, ns2)
    ensures IsNSMatch(ns1 + [""], ns2) == IsNSMatch(ns1, ns2)
  {
    if (forall i :: 0 <= i < |ns1| ==> ns1[i] == "") && (forall i :: 0 <= i < |ns2| ==> ns2[i] == "") {
      forall n | n != "" ensures multiset(ns1)[n] + multiset(ns2)[n] == 0 {
        assert n !in ns1 && n !in ns2;
      }
    }
    assert forall n :: n != "" ==> multiset(ns1 + [""])[n] == multiset(ns1)[n];
  }

  /** Some non-empty host sits at two positions of one list. */
  ghost predicate HasDuplicate(ns: seq<string>) {
    exists i, j :: 0 <= i < j < |ns| && ns[i] == ns[j] && ns[i] != ""
  }

  /** Some non-empty host is in both lists. */
  ghost predicate Overlap(ns1: seq<string>, ns2: seq<string>) {
    exists i, j :: 0 <= i < |ns1| && 0 <= j < |ns2| && ns1[i] == ns2[j] && ns1[i] != ""
  }

  lemma {:induction false} TwiceIffTwoPositions(ns: seq<string>, n: string)
    ensures multiset(ns)[n] > 1 <==> exists i, j :: 0 <= i < j < |ns| && ns[i] == n && ns[j] == n
    decreases |ns|
  {
    if |ns| > 0 {
      var rest := ns[1..];
      assert ns == [ns[0]] + rest;
      assert multiset(ns)[n] == (if ns[0] == n then 1 else 0) + multiset(rest)[n];
      TwiceIffTwoPositions(rest, n);
      if multiset(ns)[n] > 1 {
        if ns[0] == n {
          assert n in rest;
          var j :| 0 <= j < |rest| && rest[j] == n;
          assert ns[0] == n && ns[j + 1] == n;
        } else {
          var i, j :| 0 <= i < j < |rest| && rest[i] == n && rest[j] == n;
          assert ns[i + 1] == n && ns[j + 1] == n;
        }
      }
      if exists i, j :: 0 <= i < j < |ns| && ns[i] == n && ns[j] == n {
        var i, j :| 0 <= i < j < |ns| && ns[i] == n && ns[j] == n;
        if i == 0 {
          assert rest[j - 1] == n;
          assert n in rest;
        } else {
          assert rest[i - 1] == n && rest[j - 1] == n;
        }
      }
    }
  }

  /** As written, IsNSMatch is true when the lists share a host OR when
      either list names a host twice; for lists without duplicates it is
      exactly the overlap test. */
  lemma IsNSMatchIsOverlapOrDuplicate(ns1: seq<string>, ns2: seq<string>)
    ensures IsNSMatch(ns1, ns2) <==> Overlap(ns1, ns2) || HasDuplicate(ns1) || HasDuplicate(ns2)
  {
    if SomeHostRepeats(ns1, ns2) {
      var n :| n != "" && multiset(ns1)[n] + multiset(ns2)[n] > 1;
      TwiceIffTwoPositions(ns1, n);
      TwiceIffTwoPositions(ns2, n);
      if multiset(ns1)[n] > 1 {
        var i, j :| 0 <= i < j < |ns1| && ns1[i] == n && ns1[j] == n;
      } else if multiset(ns2)[n] > 1 {
        var i, j :| 0 <= i < j < |ns2| && ns2[i] == n && ns2[j] == n;
      } else {
        assert n in ns1 && n in ns2;
        var i :| 0 <= i < |ns1| && ns1[i] == n;
        var j :| 0 <= j < |ns2| && ns2[j] == n;
      }
    }
    if Overlap(ns1, ns2) {
      var i, j :| 0 <= i < |ns1| && 0 <= j < |ns2| && ns1[i] == ns2[j] && ns1[i] != "";
      assert ns1[i] in ns1 && ns1[i] in ns2;
      assert multiset(ns1)[ns1[i]] + multiset(ns2)[ns1[i]] > 1;
    }
    if HasDuplicate(ns1) {
      var i, j :| 0 <= i < j < |ns1| && ns1[i] == ns1[j] && ns1[i] != "";
      TwiceIffTwoPositions(ns1, ns1[i]);
      assert multiset(ns1)[ns1[i]] + multiset(ns2)[ns1[i]] > 1;
    }
    if HasDuplicate(ns2) {
      var i, j :| 0 <= i < j < |ns2| && ns2[i] == ns2[j] && ns2[i] != "";
      TwiceIffTwoPositions(ns2, ns2[i]);
      assert multiset(ns1)[ns2[i]] + multiset(ns2)[ns2[i]] > 1;
    }
  }

  // ---------------------------------------------------------------------
  // Verification of one hosted zone

  /** isNSMatchRecord: (true, nil) when both lookups succeed and their hosts
      match; otherwise false with the first lookup error or ErrNoNSMatch. */
  function IsNSMatchRecord(w: World, cache: Cache, hostedZone: HostedZone, recordName: string): (r: Cached<Result<bool, Error>>)
    ensures r.value.Success? ==> r.value.value
    ensures var zone := GetHZNameservers(w, cache, hostedZone.id);
      && r.cache == zone.cache
      && (r.value == Success(true) <==>
            && zone.value.Success?
            && GetNameservers(w, zone.cache, recordName).Success?
            && IsNSMatch(zone.value.value, GetNameservers(w, zone.cache, recordName).value))
    ensures r.value.Failure? ==> r.value.error.Sdk? || r.value.error.Dns? || r.value.error == ErrNoNSMatch
    ensures var zone := GetHZNameservers(w, cache, hostedZone.id);
      zone.value.Failure? ==> r.value == Failure(zone.value.error)
    ensures var zone := GetHZNameservers(w, cache, hostedZone.id);
      var ns := GetNameservers(w, zone.cache, recordName);
      zone.value.Success? && ns.Failure? ==> r.value == Failure(ns.error)
    ensures var zone := GetHZNameservers(w, cache, hostedZone.id);
      var ns := GetNameservers(w, zone.cache, recordName);
      zone.value.Success? && ns.Success? && !IsNSMatch(zone.value.value, ns.value) ==> r.value == Failure(ErrNoNSMatch)
  {
    var zone := GetHZNameservers(w, cache, hostedZone.id);
    match zone.value
    case Failure(e) => Cached(zone.cache, Failure(e))
    case Success(hns) =>
      match GetNameservers(w, zone.cache, recordName)
      case Failure(e) => Cached(zone.cache, Failure(e))
      case Success(rns) =>
        if !IsNSMatch(hns, rns) then Cached(zone.cache, Failure(ErrNoNSMatch))
        else Cached(zone.cache, Success(true))
  }

  // ---------------------------------------------------------------------
  // The cache is transparent when it only holds what the provider reports

  /** The provider reports a delegation set for `key`. */
  ghost predicate HoldsDelegation(w: World, key: string) {
    w.getHostedZone(key).Success? && w.getHostedZone(key).value.Some?
  }

  /** Every entry is the trimmed delegation set the provider reports for its
      key, as GetHZNameservers stores it. The initial empty map is honest. */
  ghost predicate Honest(w: World, cache: Cache) {
    forall k :: k in cache ==> HoldsDelegation(w, k) && cache[k] == TrimHosts(w.getHostedZone(k).value.value)
  }

  /** With an honest cache, GetHZNameservers answers as if nothing were
      cached, and the cache stays honest. */
  lemma ZoneLookupIgnoresHonestCache(w: World, cache: Cache, hzId: string)
    requires Honest(w, cache)
    ensures GetHZNameservers(w, cache, hzId).value == GetHZNameservers(w, map[], hzId).value
    ensures Honest(w, GetHZNameservers(w, cache, hzId).cache)
  {
    var id := ZoneIdKey(hzId);
    var r := GetHZNameservers(w, cache, hzId);
    if id in cache {
      assert r.value == Success(cache[id]);
    } else {
      match w.getHostedZone(id)
      case Failure(_) =>
      case Success(None) =>
      case Success(Some(servers)) =>
        var hosts := TrimHosts(servers);
        assert r.cache == cache[id := hosts];
        forall k | k in r.cache
          ensures HoldsDelegation(w, k) && r.cache[k] == TrimHosts(w.getHostedZone(k).value.value)
        {
          if k != id {
            assert k in cache;
          }
        }
    }
  }

  /** With an honest cache, the domain lookup is fresh unless the record name
      is itself a key the provider holds a delegation set for: the two kinds
      of keys share one map. */
  lemma DomainLookupIgnoresHonestCache(w: World, cache: Cache, recordName: string)
    requires Honest(w, cache) && !HoldsDelegation(w, recordName)
    ensures GetNameservers(w, cache, recordName) == GetNameservers(w, map[], recordName)
  {
  }

  /** Hence the verdict of isNSMatchRecord does not depend on an honest cache. */
  lemma VerdictIgnoresHonestCache(w: World, cache: Cache, hostedZone: HostedZone, recordName: string)
    requires Honest(w, cache) && !HoldsDelegation(w, recordName)
    ensures IsNSMatchRecord(w, cache, hostedZone, recordName).value == IsNSMatchRecord(w, map[], hostedZone, recordName).value
    ensures Honest(w, IsNSMatchRecord(w, cache, hostedZone, recordName).cache)
  {
    ZoneLookupIgnoresHonestCache(w, cache, hostedZone.id);
    var zone := GetHZNameservers(w, cache, hostedZone.id);
    DomainLookupIgnoresHonestCache(w, zone.cache, recordName);
    DomainLookupIgnoresHonestCache(w, GetHZNameservers(w, map[], hostedZone.id).cache, recordName);
  }
}
