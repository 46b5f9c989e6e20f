# Route 53 name resolution, modelled in Dafny

This project models the name-resolution core of `aws_utils/route53.go` from route53-cli.
Given a domain name or URL, that code finds the Route 53 hosted zone and record sets answering for it.
It works in four steps:

1. It cuts the host into labels and builds a *record token* (`RecordName`).
2. It lists the candidate hosted-zone names: the label suffixes, most specific first, without a leading wildcard label.
3. For each candidate it looks up the zone named `candidate + "."`. It keeps the record sets whose name the token accepts, and retries once from the wildcard form of the name.
4. Unless told to skip, it checks that the zone's delegation set and the domain's NS records share a nameserver. The first candidate that passes wins.

The model has these modules:

- `GoStrings` (`go_strings.dfy`): the Go string functions the code relies on, with Go's semantics.
  - `Split` never returns an empty slice.
  - `Index` finds an empty pattern at position 0, so `ReplaceFirst` with an empty pattern inserts in front.
  - `TrimLeft` and `TrimRight` trim a cut *set* of characters, not a prefix or suffix.
  - Split/Join round trips are proved in both directions.
- `Route53Types` (`route53_types.dfy`): the error values, hosted zones, record sets, and a `World`. The `World` holds everything the code calls but does not compute: the URL parser, three Route 53 API calls, `net.LookupNS` and the session region. Each is a function field.
- `RecordNames` (`record_names.dfy`): the token, its construction, `GetWithWildCard`, `IsEqual` and `GetAllOptionsForZoneName`.
  - The Go getters `HasWildCard` and `GetParsedURL` are the fields `hasWildCard` and `parsedUrl`.
- `Nameservers` (`nameservers.dfy`): the nameserver cache, `GetNameservers`, `GetHZNameservers`, `IsNSMatch` and `isNSMatchRecord`.
  - The cache is a `map<string, seq<string>>`, passed in and returned as explicit state.
- `Resolver` (`resolver.dfy`): `getRecordsAliasesAndFilter`, `LookupRecord` and the search loop of `GetRecordSetAliases`.
- `Scenarios` (`scenarios.dfy`): concrete instances, such as the candidate lists shown in the source comments.

The model follows the code as written, including its surprising spots:

- `LookupRecord` hands back a non-nil, possibly empty, slice when the zone exists (lines 230 and 258-259), and the search only skips nil slices (line 197). A zone without a matching record is therefore returned when verification is skipped or passes (`EmptyHitEndsSearch` states the skipped case).
- The search moves on after *any* lookup error, including SDK transport errors from the zone or record listing (line 197). No error of a listing reaches the caller.
- `GetNameservers` reads the cache (line 298) but never writes it, so a domain's NS records are looked up again on every call. Only `GetHZNameservers` stores entries (line 345).
- Zone ids and record names share one cache map.
- `GetHZNameservers` returns no hosts and no error when the zone has no delegation set, and caches nothing in that case.
- `IsNSMatch` counts all non-empty hosts of both lists in one map (lines 354-365). So it is true when the lists share a host, and also when one list names a host twice (`IsNSMatchIsOverlapOrDuplicate`).
- `GetWithWildCard` replaces the first *occurrence* of the first label, not the label position (line 48). For every valid token that occurrence is at the front, so the result is the label list with its head swapped for `*`, also when the first label is empty (`WildCardFormReplacesFirstLabel`).
- The zone id is trimmed with a cut set, `strings.TrimLeft(id, "/hostedzone/")`. That removes any leading run of `/ h o s t e d z n`, not just the path. `ZoneIdKeyStripsPath` proves it removes exactly the path when the bare id does not start with one of those characters. Route 53 ids start with an upper-case letter.
- The code panics in three places: when building the token from an empty host (line 34), and on token or candidate errors (lines 185 and 190). `NewRecordName` takes the first as a precondition. `GetRecordSetAliases` returns all three as `Panic(..)` error values.

## Model

| member | source | states |
|---|---|---|
| `GoStrings.Split` | aws_utils/route53.go:154 | `strings.Split` on `.` never returns an empty slice, no piece contains the separator, and joining the pieces gives the input back |
| `GoStrings.SplitJoin` | aws_utils/route53.go:154 | splitting the join of dot-free labels gives the labels back (the other direction of the round trip) |
| `GoStrings.JoinAppend` | aws_utils/route53.go:32 | `strings.Join` of two non-empty label runs is the two joins with one separator between them |
| `GoStrings.JoinStartsWithFirst` | aws_utils/route53.go:32 | a join starts with its first label |
| `GoStrings.JoinEndsWithLast` | aws_utils/route53.go:32 | a join ends with its last label |
| `GoStrings.Index` | aws_utils/route53.go:48 | `strings.Index`: the first position where the pattern occurs, none when it does not occur, and 0 when it is a prefix (also for the empty pattern) |
| `GoStrings.ReplaceFirst` | aws_utils/route53.go:48 | `strings.Replace(s, old, new, 1)`: a prefix occurrence is replaced at the front, no occurrence leaves `s` unchanged, an empty pattern inserts in front |
| `GoStrings.TrimLeft` | aws_utils/route53.go:320 | the result is a suffix of the input, every removed character is in the cut set, and the result does not start with one |
| `GoStrings.TrimRight` | aws_utils/route53.go:343 | the result is a prefix of the input, every removed character is in the cut set, and the result does not end with one |
| `RecordNames.WithScheme` | aws_utils/route53.go:147-149 | the parser always sees an `http://` or `https://` URL; a query that already has one is left alone, otherwise `http://` is put in front |
| `RecordNames.StripRecord` | aws_utils/route53.go:146-155 | fails exactly when the URL parser fails; otherwise a non-empty list of dot-free labels (a label may be empty) that join back to the parsed host |
| `RecordNames.BuildRecordName` | aws_utils/route53.go:27-35 | drops at most one label, and only a trailing empty one; the parsed name is the host without the trailing dot when the last label is empty and the whole host otherwise; the token is valid: `parsedUrl` is the labels joined by `.`, and `hasWildCard` holds iff the first label is `*` |
| `RecordNames.NewRecordName` | aws_utils/route53.go:21-36 | fails only with the parser's error; otherwise a valid token whose parsed name is the host with one trailing dot removed if the host ends with a dot, and the host itself otherwise |
| `RecordNames.TrailingDotIffEmptyLabel` | aws_utils/route53.go:27-29 | dot-free labels (other than one empty label) join to a name ending in `.` exactly when the last label is empty, which is the case line 27 tests |
| `RecordNames.GetWithWildCard` | aws_utils/route53.go:44-50 | errors with InvalidDNSWildCardTest exactly when the token has no labels |
| `RecordNames.WildCardFormReplacesFirstLabel` | aws_utils/route53.go:44-50 | for a valid token the wildcard form is the labels with the first one swapped for `*` (also when that label is empty); a wildcard token's form is its own name |
| `RecordNames.IsEqual` | aws_utils/route53.go:51-66 | always accepts the parsed name with and without a trailing dot; a wildcard token accepts nothing else; anything else accepted starts with `*` |
| `RecordNames.IsEqualAcceptsExactly` | aws_utils/route53.go:51-66 | a valid token accepts exactly its parsed name and its wildcard form, each with or without the trailing dot, so it accepts its own `GetWithWildCard` |
| `RecordNames.GetAllOptionsForZoneName` | aws_utils/route53.go:67-112 | fails, with InvalidRecordWildCard, exactly when there is one label and it is the wildcard |
| `RecordNames.CollectOptions` | aws_utils/route53.go:104-111 | the general loop appends the joined label suffixes from its start index on, skipping index 0 for a wildcard token |
| `RecordNames.OptionsAreSuffixes` | aws_utils/route53.go:67-112 | every branch (one, two or three labels, and the loop) returns the label suffixes `labels[i..]` joined, for i from the first non-wildcard label to the last, in increasing order |
| `RecordNames.ZoneSuffixesShape` | aws_utils/route53.go:104-111 | label suffixes get strictly shorter, and each is the parsed name or a dot-separated suffix of it |
| `RecordNames.OptionsShape` | aws_utils/route53.go:67-112 | candidates fail iff the labels are just `*`; otherwise there are n or n-1 of them, lengths strictly decrease, each is a zone suffix of the name, and the last is the last label |
| `Nameservers.ZoneIdKeyStripsPath` | aws_utils/route53.go:320 | the cut-set trim removes exactly the `/hostedzone/` path when the bare id does not start with a cut-set character, and leaves such an id alone |
| `Nameservers.ZoneIdKey` | aws_utils/route53.go:320 | the cache key is a suffix of the id; every character removed is one of `/ h o s t e d z n`, and the key does not start with one of them |
| `Nameservers.TrimHosts` | aws_utils/route53.go:310-313 | one host per input host, in order, each the input host with all its trailing dots removed (`strings.TrimRight(h, ".")`), so none ends in a dot |
| `Nameservers.GetNameservers` | aws_utils/route53.go:294-316 | a cached entry is returned as is; otherwise it fails, with the resolver's error, exactly when the lookup of `name + "."` fails, and returns the looked-up hosts with trailing dots trimmed; it never changes the cache |
| `Nameservers.GetHZNameservers` | aws_utils/route53.go:319-350 | a cached entry (under the trimmed id) is returned without fetching; on a miss, a failed fetch returns the SDK error and caches nothing, a zone without delegation set returns no hosts and caches nothing, and a delegation set is returned dot-trimmed and stored under the trimmed id |
| `Nameservers.SecondLookupHitsCache` | aws_utils/route53.go:324-326 | after a fetch has been stored, asking again, of any world, returns the same hosts and leaves the cache alone |
| `Nameservers.CountHosts` | aws_utils/route53.go:354-364 | after a counting loop, a non-empty host's counter is its previous count plus its number of occurrences; the empty host never gets a counter |
| `Nameservers.IsNSMatch` | aws_utils/route53.go:352-374 | the counter-map test is true iff some non-empty host occurs at least twice across both lists together |
| `Nameservers.IsNSMatchSymmetric` | aws_utils/route53.go:352-374 | swapping the two lists does not change the answer |
| `Nameservers.SharedHostMatches` | aws_utils/route53.go:352-374 | a non-empty host present in both lists makes them match |
| `Nameservers.EmptyHostsIgnored` | aws_utils/route53.go:355-364 | lists of empty strings never match, and an extra empty entry changes nothing |
| `Nameservers.IsNSMatchIsOverlapOrDuplicate` | aws_utils/route53.go:352-374 | a match holds iff the lists share a non-empty host or either list repeats one, so for duplicate-free lists it is exactly the overlap test |
| `Nameservers.IsNSMatchRecord` | aws_utils/route53.go:160-181 | (true, nil) iff both nameserver lookups succeed and their hosts match; otherwise the zone lookup's error, the domain lookup's error, or ErrNoNSMatch; the cache is the one after the zone lookup |
| `Nameservers.ZoneLookupIgnoresHonestCache` | aws_utils/route53.go:319-350 | a cache holding only the trimmed delegation sets the provider reports gives the same answer as no cache, and stays that way |
| `Nameservers.DomainLookupIgnoresHonestCache` | aws_utils/route53.go:294-300 | such a cache changes a domain lookup only when the record name is itself a zone key with a delegation set |
| `Nameservers.VerdictIgnoresHonestCache` | aws_utils/route53.go:160-181 | under those conditions the verification verdict does not depend on the cache, and the cache stays honest |
| `Resolver.FilterRecords` | aws_utils/route53.go:218-224 | every kept record set has a name `IsEqual` accepts, and no more are kept than were listed |
| `Resolver.FilterRecordsKeepsExactlyMatching` | aws_utils/route53.go:219-224 | a record set is kept iff it was listed and its name is accepted by `IsEqual` |
| `Resolver.FilterRecordsAppend` | aws_utils/route53.go:219-224 | filtering a concatenation is the concatenation of the filtered parts, so listing order is kept |
| `Resolver.FilterRecordsKeepsAllMatching` | aws_utils/route53.go:219-224 | a listing where every name is accepted is kept whole, in order |
| `Resolver.FilterRecordsDropsAllMismatching` | aws_utils/route53.go:219-224 | a listing where no name is accepted yields no record sets |
| `Resolver.GetRecordsAliasesAndFilter` | aws_utils/route53.go:212-226 | fails with the SDK error exactly when the listing fails; otherwise the result is the listing filtered by `IsEqual`, in listing order: every kept record matches and every matching listed record is kept |
| `Resolver.FindZoneFrom` | aws_utils/route53.go:238-239 | the first position whose zone carries the sought name, or none when no zone does |
| `Resolver.LookupRecord` | aws_utils/route53.go:229-263 | a hit exactly when the first listed zone named `hzName + "."` exists and its record listings succeed; a hit's records are all accepted by the token; `(nil, nil, nil)` iff nothing is listed; LookupNotFoundErr iff zones are listed but none has that name; a failed zone listing returns its SDK error, and any other error is the SDK's |
| `Resolver.WildCardRetryOnlyWhenEmpty` | aws_utils/route53.go:244-259 | a hit's records come from the listing at the name; the listing from the wildcard form is used only when that found nothing and the token is not a wildcard |
| `Resolver.WildCardRecordAnswersConcreteName` | aws_utils/route53.go:248-259 | a wildcard record in the zone answers a concrete name with no record of its own |
| `Resolver.Attempt` | aws_utils/route53.go:195-207 | a pass yields a result iff the lookup hits and verification is skipped or `isNSMatchRecord` gives (true, nil); the result is that hit with the session region and the token; skipping verification leaves the cache alone |
| `Resolver.Search` | aws_utils/route53.go:194-209 | the only failure is NoRecordMatchFound; a success carries the session region and the token; skipping verification leaves the cache alone |
| `Resolver.SearchKeepsCachedEntries` | aws_utils/route53.go:194-209 | every entry cached before the search is still cached afterwards, with the same hosts |
| `Resolver.SearchKeepsCacheUndotted` | aws_utils/route53.go:194-209 | if no cached host ends in a dot before the search, none does afterwards |
| `Resolver.AttemptKeepsHonest` | aws_utils/route53.go:195-207 | a pass keeps a cache that holds only the provider's trimmed delegation sets that way |
| `Resolver.SearchKeepsHonest` | aws_utils/route53.go:194-209 | so does the whole search, so the condition of `SearchReturnsFirstAccepted` carries over from one search to the next on the one long-lived cache, as long as the provider reports the same delegation sets |
| `Resolver.SearchSucceedsIffSomeAccepted` | aws_utils/route53.go:194-209 | the search succeeds exactly when some candidate is accepted: its lookup hits and, unless verification is skipped, `isNSMatchRecord` gives (true, nil); with verification on, for a cache holding only the provider's trimmed delegation sets and a record name that is not itself such a key |
| `Resolver.SearchReturnsFirstAccepted` | aws_utils/route53.go:194-209 | succeeds iff some candidate's lookup hits and (unless skipped) verifies; the result is the lookup of the first such candidate in candidate order |
| `Resolver.EmptyHitEndsSearch` | aws_utils/route53.go:197-207 | a zone found with an empty, non-nil record list is returned when verification is skipped |
| `Resolver.ReturnedZoneIsVerified` | aws_utils/route53.go:201-206 | with verification on, a returned zone is one whose nameservers match the domain's; a mismatched zone is never the result |
| `Resolver.GetRecordSetAliases` | aws_utils/route53.go:182-210 | every failure is NoRecordMatchFound or a panic; a success carries a valid token for the query and the session region; existing cache entries are never changed |
| `Resolver.GetRecordSetAliasesSearchesSuffixes` | aws_utils/route53.go:182-194 | a parser error, an empty host, or a lone `*` (with or without a trailing dot) panics; otherwise it is the search over the label suffixes, most specific first |
| `Scenarios.FiveLabelCandidates` | aws_utils/route53.go:102-111 | `a.b.c.d.e` gives `a.b.c.d.e, b.c.d.e, c.d.e, d.e, e` |
| `Scenarios.WildCardCandidates` | aws_utils/route53.go:87-94 | `*.a.b` gives `a.b, b` |
| `Scenarios.LoneWildCardFails` | aws_utils/route53.go:71-73 | `*` alone gives InvalidRecordWildCard |
| `Scenarios.TrailingDotDropped` | aws_utils/route53.go:27-29 | `a.b.` and `a.b` give the same parsed name |
| `Scenarios.ConcreteNameMatchesWildCardRecord` | aws_utils/route53.go:56-62 | the token `a.b.c` accepts the record `*.b.c.` |
| `Scenarios.SharedHostExample` | aws_utils/route53.go:352-374 | `[a,b,c]` and `[x,a,y]` match through the shared `a` |
| `Scenarios.DistinctHostsExample` | aws_utils/route53.go:352-374 | `[a]` and `[b]` do not match |
| `Scenarios.EmptyHostsExample` | aws_utils/route53.go:355-364 | `[""]` and `[""]` do not match |
| `Scenarios.DuplicateHostExample` | aws_utils/route53.go:352-374 | `[a,a]` and `[b]` match, through the duplicate in one list |

## Left out

- The AWS SDK and the network are not modelled. `ListHostedZonesByName`, `ListResourceRecordSets`, `GetHostedZone`, `net.LookupNS` and `url.Parse`/`Hostname` are function fields of `World`. Each is a fixed function, so a repeated call gives the same answer during one resolution.
- `GetRegion` (lines 115-117) is the `region` field. A nil region pointer, which would panic, is not modelled.
- The lazy client construction `client()` (lines 119-125) and the constructor `NewRoute53Api` (lines 15-20) are not modelled. The constructor's empty map is the empty `Cache` a caller passes in.
- `TestDNSAnswer` (lines 128-141) is not modelled. It wraps an SDK call, discards its error, and is not on the resolution path.
- Logging is not modelled; it has no effect on results.
- Concurrency is not modelled. The cache is an unsynchronised map, modelled as sequentially threaded state.
- Record set fields other than the name (type, values, alias targets) are carried along but play no part.
- Go strings are byte strings; the model uses `seq<char>`. Every character the code looks for is ASCII (the separator `.`, the wildcard `*`, the cut sets), so no result depends on the encoding.
- Panics are error values (`Panic(..)`), not aborts, except in `NewRecordName`, which has the empty host as a precondition.
- `Resolver.FilterRecords`, `Resolver.GetRecordsAliasesAndFilter`, `Resolver.LookupRecord` and `Resolver.Search` require the token to have a label. That is slightly stronger than what `IsEqual` needs (`RecordNames.CanCompare`). Every token built by `NewRecordName` has one. Under this precondition the `InvalidDNSWildCardTest` branch of `LookupRecord` (lines 249-251) cannot be taken, as in the source.
- `Resolver.SearchReturnsFirstAccepted`: with verification on, it is stated only for a cache that holds the provider's own trimmed delegation sets, and for a record name that is not itself such a key. Otherwise the shared cache can change a verdict, and the statement would have to track the cache candidate by candidate. `Resolver.Search` still bounds every outcome without these conditions.
- `Resolver.SearchSucceedsIffSomeAccepted`: with verification on, stated only under the same cache condition. A stale or foreign entry in the shared cache can make a candidate pass that fails against the provider's own answers, or the reverse.
- `Resolver.ReturnedZoneIsVerified`: stated under the same cache condition.
- `Resolver.SearchKeepsHonest`: stated for one provider snapshot. The code never drops a cache entry, so an entry goes stale when a zone's delegation set changes between calls; the model does not cover that.
