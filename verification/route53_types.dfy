/** Values shared by the resolver's components: the errors it reports, the
    provider's hosted zones and record sets, and the outside world it calls. */
module Route53Types {
  import opened Wrappers

  /** The Go `error` values the resolver produces. `Panic` wraps a failure
      the source does not return but panics on. */
  datatype Error =
    | UrlParse(reason: string)          // url.Parse rejected the query
    | IndexOutOfRange                   // splitted[0] on an empty label list
    | InvalidDNSWildCardTest
    | InvalidRecordWildCard
    | LookupNotFoundErr
    | ErrNoNSMatch
    | NoRecordMatchFound
    | Sdk(reason: string)               // any error of the AWS SDK
    | Dns(reason: string)               // any error of net.LookupNS
    | Panic(cause: Error)

  /** A Route 53 hosted zone: its id ("/hostedzone/Z..."), and its name with
      the trailing dot ("example.com."). */
  datatype HostedZone = HostedZone(id: string, name: string)

  /** A resource record set; only `name` takes part in resolution. */
  datatype RecordSet = RecordSet(name: string, kind: string, values: seq<string>)

  /** Everything the resolver consults but does not compute itself, as one
      snapshot of the outside world:
      - `region`: the region of the AWS session;
      - `urlHostname`: url.Parse followed by Hostname();
      - `listHostedZonesByName`: ListHostedZonesByName for a DNS name;
      - `listResourceRecordSets`: ListResourceRecordSets for (zone id, start name);
      - `getHostedZone`: GetHostedZone's delegation set, None when the output or
        its delegation set is nil;
      - `lookupNS`: net.LookupNS, the host of every NS record. */
  datatype World = World(
    region: string,
    urlHostname: string -> Result<string, string>,
    listHostedZonesByName: string -> Result<seq<HostedZone>, string>,
    listResourceRecordSets: (string, string) -> Result<seq<RecordSet>, string>,
    getHostedZone: string -> Result<Option<seq<string>>, string>,
    lookupNS: string -> Result<seq<string>, string>)
}
