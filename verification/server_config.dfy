/** The server's build-time configuration (src/environment/server.rs).

    `env!` reads `IP_ADDR`, `PORT` and `WORKERS` when the crate is built;
    here the three texts are parameters. Each `expect` and `panic!` of the
    constructor is a `Failure` naming the check that fired. */
module ServerConfiguration {
  import opened Strings

  datatype ServerConfig = ServerConfig(ipAddress: string, port: string, workers: nat)

  /** The four ways `ServerConfig::new` aborts, in the order it checks. */
  datatype ConfigError = WorkersNotANumber | IpAddrMissing | PortMissing | NoWorkers

  datatype Result<T> = Success(value: T) | Failure(error: ConfigError)

  /** What every accepted configuration satisfies. */
  predicate Valid(c: ServerConfig)
  {
    c.ipAddress != "" && c.port != "" && 0 < c.workers < USIZE_LIMIT
  }

  /** `ServerConfig::new`: `WORKERS` is parsed first, then the address,
      the port and the worker count are checked in that order. */
  function New(ipAddr: string, port: string, workers: string): (r: Result<ServerConfig>)
    ensures r == Failure(WorkersNotANumber) <==> ParseUsize(workers).None?
    ensures r.Failure? && r.error == IpAddrMissing <==> ParseUsize(workers).Some? && ipAddr == ""
    ensures r.Failure? && r.error == PortMissing <==> ParseUsize(workers).Some? && ipAddr != "" && port == ""
    ensures r.Failure? && r.error == NoWorkers <==> ParseUsize(workers) == Some(0) && ipAddr != "" && port != ""
    ensures r.Success? ==> Valid(r.value) && r.value.ipAddress == ipAddr && r.value.port == port
    ensures r.Success? ==> Some(r.value.workers) == ParseUsize(workers)
  {
    match ParseUsize(workers)
    case None => Failure(WorkersNotANumber)
    case Some(n) =>
      if ipAddr == "" then Failure(IpAddrMissing)
      else if port == "" then Failure(PortMissing)
      else if n == 0 then Failure(NoWorkers)
      else Success(ServerConfig(ipAddr, port, n))
  }

  /** Every valid configuration is accepted when its worker count is
      written in decimal, and it comes back unchanged. */
  lemma NewAcceptsValid(c: ServerConfig)
    requires Valid(c)
    ensures New(c.ipAddress, c.port, Decimal(c.workers)) == Success(c)
  {
    ParseDecimalRoundTrip(c.workers);
  }

  /** `get_server_address`. */
  function GetServerAddress(c: ServerConfig): string
  {
    c.ipAddress + ":" + c.port
  }

  /** Splits an address at its last colon. */
  function SplitAddress(address: string): Option<(string, string)>
  {
    if ':' !in address then None
    else
      var i := LastIndexOf(address, ':');
      Some((address[..i], address[i + 1..]))
  }

  /** The address reads back to the configured IP and port whenever the
      port has no colon; the IP may hold colons, as an IPv6 address does. */
  lemma AddressRoundTrip(c: ServerConfig)
    requires ':' !in c.port
    ensures SplitAddress(GetServerAddress(c)) == Some((c.ipAddress, c.port))
  {
    var a := GetServerAddress(c);
    LastIndexBeforeFree(c.ipAddress, ':', c.port);
    assert a == c.ipAddress + [':'] + c.port;
    assert a[..|c.ipAddress|] == c.ipAddress;
    assert a[|c.ipAddress| + 1..] == c.port;
  }
}
