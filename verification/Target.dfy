/** What a client may ask either front end to connect to, and what both promise about it. */
module Target {
  import opened Wrappers
  import opened Bytes

  const MAX_HOST_LEN := 255

  datatype AuthPolicy = Required(username: Octets, password: Octets) | Disabled

  datatype IpAddr = V4(octets: Octets) | V6(octets: Octets)

  datatype Target = Ip(address: IpAddr, port: nat) | Domain(host: Octets, port: nat)

  /** Textual address parsing is a parameter: the standard library's, whatever it accepts. */
  type IpParser = Octets -> Option<IpAddr>

  predicate Printable(host: Octets) { forall b :: b in host ==> 0x21 <= b <= 0x7e }

  /**
    The promise: a usable port, IPv6 only through a tunnel that has it, and a name only if it is one:
    1 to 255 printable ASCII bytes that do not spell an address, so no literal reaches a resolver.
   */
  ghost predicate Dialable(t: Target, hasV6: bool, parse: IpParser) {
    && 1 <= t.port < 65536
    && (t.Ip? && t.address.V6? ==> hasV6)
    && (t.Domain? ==> 1 <= |t.host| <= MAX_HOST_LEN && Printable(t.host) && parse(t.host) == None)
  }
}
