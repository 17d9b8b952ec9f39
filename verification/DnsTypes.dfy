/** Types shared by the DNS modules. */
module DnsTypes {
  datatype Ip = V4(bits: nat) | V6(bits: nat)

  datatype DnsError =
    | RecordNotFound
    | EmptyResponse
    | RCodeError(code: nat)
    | InvalidQueryStrategy(strategy: int)
    | NoQueryStrategy(server: string)
    | InvalidClientIpLength(length: nat)
    | InvalidStaticHostsIp(text: string)
    | InvalidFakeDnsSetting
    | InvalidFakeDnsCidr(text: string)
    | LruBiggerThanSubnet(lru: nat, rooms: nat)
    | NoFakeDnsEngine
    | Features(text: string)
    | NotImplemented(text: string)
    | WireFormat(text: string)
    | SkipDnsServer(text: string)
    | SystemResolve(text: string)

  /** The variant of an error, without its payload. */
  function Kind(e: DnsError): nat {
    match e
    case RecordNotFound => 0
    case EmptyResponse => 1
    case RCodeError(_) => 2
    case InvalidQueryStrategy(_) => 3
    case NoQueryStrategy(_) => 4
    case InvalidClientIpLength(_) => 5
    case InvalidStaticHostsIp(_) => 6
    case InvalidFakeDnsSetting => 7
    case InvalidFakeDnsCidr(_) => 8
    case LruBiggerThanSubnet(_, _) => 9
    case NoFakeDnsEngine => 10
    case Features(_) => 11
    case NotImplemented(_) => 12
    case WireFormat(_) => 13
    case SkipDnsServer(_) => 14
    case SystemResolve(_) => 15
  }

  const NOT_FOUND_KIND: nat := 0
  const EMPTY_KIND: nat := 1
  const COMBINED_KIND: nat := 15

  function FromRcode(code: nat): DnsError {
    if code == 0 then EmptyResponse else RCodeError(code)
  }

  datatype IpOption = IpOption(v4: bool, v6: bool, fake: bool)

  predicate Enabled(ip: Ip, option: IpOption) {
    if ip.V4? then option.v4 else option.v6
  }

  /** One configured name server. */
  datatype Client = Client(policyId: nat, name: string, skipFallback: bool, finalQuery: bool)
}
