/** Validation of the static IPv4 and IPv6 configuration of a network: the
    IPv4 and IPv6 configuration objects, their validators and the
    prefix-to-netmask conversion of prefix notation (section 3.1 of RFC 4632;
    for IPv6, the address/prefix-length form of section 2.3 of RFC 4291). */
module IpAddress {
  import opened Wrappers
  import opened Text

  /** The address parsers of the socket module, which the model does not
      implement. inetPton4 is inet_pton(AF_INET, s): the address as the
      big-endian 32-bit number that struct.unpack('>I', inet_aton(s)) also
      gives for it, or None where inet_pton raises socket.error. inetPton6
      says whether inet_pton(AF_INET6, s) accepts s. */
  datatype Sockets = Sockets(inetPton4: string -> Option<bv32>, inetPton6: string -> bool)

  /** The ConfigNetworkError (code ERR_BAD_ADDR) each check raises, by reason. */
  datatype AddressError =
    | NetmaskMissing                      // address without netmask
    | NetmaskOrGatewayWithoutAddress
    | MixedIPv4                           // static address with bootproto 'dhcp'
    | BadIPv4Address(address: string)
    | BadIPv4Netmask(netmask: string)
    | BadIPv4Gateway(gateway: string)
    | GatewayWithoutAddress
    | MixedIPv6                           // static address with ipv6autoconf or dhcpv6
    | BadIPv6Address(address: string)
    | BadIPv6Prefixlen(prefixlen: string)
    | BadIPv6Gateway(gateway: string)

  /** Python truth of an optional string: None and '' are false. */
  predicate Truthy(s: Option<string>) {
    s.Some? && |s.value| > 0
  }

  /** Python truth of an optional flag: None and False are false. */
  predicate Flag(b: Option<bool>) {
    b == Some(true)
  }

  // ---------------------------------------------------------------------------
  // IPv4

  datatype IPv4 = IPv4(address: Option<string>, netmask: Option<string>, gateway: Option<string>,
                       defaultRoute: Option<bool>, bootproto: Option<string>)

  /** The contiguous-netmask bit test of validateNetmask. Shifting a bv32 left
      drops the bit shifted out, which is what masking with 0xffffffff does to
      Python's unbounded shift, and num - 1 wraps only for num == 0, where the
      conjunction is 0 either way. */
  predicate NetmaskBits(num: bv32) {
    num & (num - 1) == num << 1
  }

  /** The 32-bit mask whose top prefix bits are 1 and the others 0: the value
      of int('1' * prefix + '0' * (32 - prefix), 2). */
  function PrefixMask(prefix: int): bv32
    requires 0 <= prefix <= 32
  {
    if prefix == 0 then 0 else 0xFFFF_FFFF << (32 - prefix)
  }

  /** The number of 1 bits of x. */
  function PopCount(x: bv32): bv32 {
    var a := x - ((x >> 1) & 0x5555_5555);
    var b := (a & 0x3333_3333) + ((a >> 2) & 0x3333_3333);
    var c := (b + (b >> 4)) & 0x0F0F_0F0F;
    var d := c + (c >> 8);
    var e := d + (d >> 16);
    e & 0x3F
  }

  /** A value that passes the bit test is the prefix mask of its number of
      1 bits. */
  lemma NetmaskBitsPrefix(num: bv32)
    requires NetmaskBits(num)
    ensures PopCount(num) <= 32
    ensures num == if PopCount(num) == 0 then 0 else 0xFFFF_FFFF << (32 - PopCount(num))
  {
  }

  /** The bit test accepts exactly the 33 prefix masks, 0.0.0.0 to
      255.255.255.255. */
  lemma NetmaskBitsIffPrefix(num: bv32)
    ensures NetmaskBits(num) <==> exists p :: 0 <= p <= 32 && num == PrefixMask(p)
  {
    if NetmaskBits(num) {
      NetmaskBitsPrefix(num);
      assert num == PrefixMask(PopCount(num) as int);
    }
  }

  /** Every prefix mask passes the bit test. */
  lemma PrefixMaskBits(prefix: int)
    requires 0 <= prefix <= 32
    ensures NetmaskBits(PrefixMask(prefix))
  {
  }

  /** IPv4.validateAddress. */
  function ValidateAddress4(sock: Sockets, address: string): (r: Result<(), AddressError>)
    ensures r.Success? <==> sock.inetPton4(address).Some?
    ensures r.Failure? ==> r.error == BadIPv4Address(address)
  {
    if sock.inetPton4(address).None? then Failure(BadIPv4Address(address)) else Success(())
  }

  /** IPv4.validateNetmask: an IPv4 address (an error from that check is
      reported as a bad netmask) that passes the bit test. */
  function ValidateNetmask(sock: Sockets, netmask: string): (r: Result<(), AddressError>)
    ensures r.Success? <==> sock.inetPton4(netmask).Some? && NetmaskBits(sock.inetPton4(netmask).value)
    ensures r.Failure? ==> r.error == BadIPv4Netmask(netmask)
  {
    match sock.inetPton4(netmask)
    case None => Failure(BadIPv4Netmask(netmask))
    case Some(num) => if NetmaskBits(num) then Success(()) else Failure(BadIPv4Netmask(netmask))
  }

  /** A netmask is accepted exactly when it is an address whose value is one
      of the prefix masks. */
  lemma NetmaskIffPrefix(sock: Sockets, netmask: string)
    ensures ValidateNetmask(sock, netmask).Success? <==>
              exists p :: 0 <= p <= 32 && sock.inetPton4(netmask) == Some(PrefixMask(p))
  {
    if sock.inetPton4(netmask).Some? {
      NetmaskBitsIffPrefix(sock.inetPton4(netmask).value);
    }
  }

  /** IPv4.validateGateway: an IPv4 address (an error is reported as a bad
      gateway). */
  function ValidateGateway4(sock: Sockets, gateway: string): (r: Result<(), AddressError>)
    ensures r.Success? <==> sock.inetPton4(gateway).Some?
    ensures r.Failure? ==> r.error == BadIPv4Gateway(gateway)
  {
    if ValidateAddress4(sock, gateway).Failure? then Failure(BadIPv4Gateway(gateway)) else Success(())
  }

  /** IPv4.__init__: the checks in the order the constructor makes them; the
      first that fails decides the error. */
  function NewIPv4(sock: Sockets, address: Option<string>, netmask: Option<string>, gateway: Option<string>,
                   defaultRoute: Option<bool>, bootproto: Option<string>): (r: Result<IPv4, AddressError>)
    ensures r.Success? ==> r.value == IPv4(address, netmask, gateway, defaultRoute, bootproto)
  {
    var checked :=
      if Truthy(address) then
        if !Truthy(netmask) then Failure(NetmaskMissing)
        else if ValidateAddress4(sock, address.value).Failure? then ValidateAddress4(sock, address.value)
        else if ValidateNetmask(sock, netmask.value).Failure? then ValidateNetmask(sock, netmask.value)
        else if Truthy(gateway) then ValidateGateway4(sock, gateway.value)
        else Success(())
      else if Truthy(netmask) || Truthy(gateway) then Failure(NetmaskOrGatewayWithoutAddress)
      else Success(());
    if checked.Failure? then Failure(checked.error)
    else if Truthy(address) && bootproto == Some("dhcp") then Failure(MixedIPv4)
    else Success(IPv4(address, netmask, gateway, defaultRoute, bootproto))
  }

  /** The IPv4 configurations the constructor accepts: with an address, a
      netmask that is a prefix mask, a valid address and gateway and no DHCP;
      without one, neither netmask nor gateway. */
  lemma NewIPv4Accepts(sock: Sockets, address: Option<string>, netmask: Option<string>, gateway: Option<string>,
                       defaultRoute: Option<bool>, bootproto: Option<string>)
    ensures NewIPv4(sock, address, netmask, gateway, defaultRoute, bootproto).Success? <==>
              if Truthy(address) then
                Truthy(netmask) && sock.inetPton4(address.value).Some? &&
                (exists p :: 0 <= p <= 32 && sock.inetPton4(netmask.value) == Some(PrefixMask(p))) &&
                (Truthy(gateway) ==> sock.inetPton4(gateway.value).Some?) &&
                bootproto != Some("dhcp")
              else !Truthy(netmask) && !Truthy(gateway)
  {
    if Truthy(address) && Truthy(netmask) {
      NetmaskIffPrefix(sock, netmask.value);
    }
  }

  /** The constructor's errors: a missing netmask is reported before anything
      is parsed, a netmask or gateway without an address and the mixing with
      DHCP are reported as such. */
  lemma NewIPv4Errors(sock: Sockets, address: Option<string>, netmask: Option<string>, gateway: Option<string>,
                      defaultRoute: Option<bool>, bootproto: Option<string>)
    ensures var r := NewIPv4(sock, address, netmask, gateway, defaultRoute, bootproto);
            (Truthy(address) && !Truthy(netmask) ==> r == Failure(NetmaskMissing)) &&
            (!Truthy(address) && (Truthy(netmask) || Truthy(gateway)) ==> r == Failure(NetmaskOrGatewayWithoutAddress)) &&
            (Truthy(address) && Truthy(netmask) && sock.inetPton4(address.value).None? ==>
               r == Failure(BadIPv4Address(address.value))) &&
            (r.Failure? && r.error.MixedIPv4? ==> Truthy(address) && bootproto == Some("dhcp"))
  {
  }

  /** IPv4.__bool__. */
  predicate IPv4Bool(ip: IPv4) {
    Truthy(ip.address) || Truthy(ip.bootproto)
  }

  /** An accepted IPv4 configuration that is false configures nothing: no
      address, netmask, gateway or boot protocol. */
  lemma FalseIPv4IsEmpty(sock: Sockets, address: Option<string>, netmask: Option<string>, gateway: Option<string>,
                         defaultRoute: Option<bool>, bootproto: Option<string>)
    requires NewIPv4(sock, address, netmask, gateway, defaultRoute, bootproto).Success?
    ensures var ip := NewIPv4(sock, address, netmask, gateway, defaultRoute, bootproto).value;
            !IPv4Bool(ip) <==> !Truthy(ip.address) && !Truthy(ip.netmask) && !Truthy(ip.gateway) && !Truthy(ip.bootproto)
  {
  }

  // ---------------------------------------------------------------------------
  // prefix2netmask

  /** The dotted-quad text inet_ntoa gives for the big-endian bytes of v. */
  function DottedQuad(v: bv32): string {
    DecimalDigits(((v >> 24) & 0xFF) as int) + "." + DecimalDigits(((v >> 16) & 0xFF) as int) + "." +
    DecimalDigits(((v >> 8) & 0xFF) as int) + "." + DecimalDigits((v & 0xFF) as int)
  }

  /** prefix2netmask: the netmask of a prefix length, in dotted-quad form;
      None stands for the ValueError of a prefix outside 0 .. 32. */
  function PrefixToNetmask(prefix: int): (r: Option<string>)
    ensures r.Some? <==> 0 <= prefix <= 32
    ensures r.Some? ==> r.value == DottedQuad(PrefixMask(prefix))
  {
    if !(0 <= prefix <= 32) then None else Some(DottedQuad(PrefixMask(prefix)))
  }

  /** What prefix2netmask returns passes validateNetmask, for any address
      parser that reads inet_ntoa's output back as the same number. */
  lemma PrefixToNetmaskValidates(sock: Sockets, prefix: int)
    requires 0 <= prefix <= 32
    requires sock.inetPton4(DottedQuad(PrefixMask(prefix))) == Some(PrefixMask(prefix))
    ensures PrefixToNetmask(prefix).Some?
    ensures ValidateNetmask(sock, PrefixToNetmask(prefix).value).Success?
  {
    PrefixMaskBits(prefix);
  }

  /** The decimal forms of the byte values a netmask of a whole number of
      bytes has. */
  lemma ByteDigits()
    ensures DecimalDigits(0) == "0" && DecimalDigits(255) == "255"
  {
    assert DecimalDigits(25) == "25";
  }

  /** prefix2netmask(24) and the out-of-range prefixes 33 and -1. */
  lemma PrefixToNetmask24()
    ensures PrefixToNetmask(24) == Some("255.255.255.0")
    ensures PrefixToNetmask(33) == None && PrefixToNetmask(-1) == None
  {
    ByteDigits();
    var m := PrefixMask(24);
    assert m == 0xFFFF_FF00;
    assert ((m >> 24) & 0xFF) as int == 255 && ((m >> 16) & 0xFF) as int == 255;
    assert ((m >> 8) & 0xFF) as int == 255 && (m & 0xFF) as int == 0;
    assert DottedQuad(m) == "255.255.255.0";
  }

  /** prefix2netmask at the two ends of the range, 0 and 32. */
  lemma PrefixToNetmaskEnds()
    ensures PrefixToNetmask(0) == Some("0.0.0.0")
    ensures PrefixToNetmask(32) == Some("255.255.255.255")
  {
    ByteDigits();
    assert PrefixMask(0) == 0;
    assert DottedQuad(0) == "0.0.0.0";
    var m := PrefixMask(32);
    assert m == 0xFFFF_FFFF;
    assert ((m >> 24) & 0xFF) as int == 255 && ((m >> 16) & 0xFF) as int == 255;
    assert ((m >> 8) & 0xFF) as int == 255 && (m & 0xFF) as int == 255;
    assert DottedQuad(m) == "255.255.255.255";
  }

  // ---------------------------------------------------------------------------
  // IPv6

  datatype IPv6 = IPv6(address: Option<string>, gateway: Option<string>, defaultRoute: Option<bool>,
                       ipv6autoconf: Option<bool>, dhcpv6: Option<bool>)

  /** IPv6.validatePrefixlen: int() of the text is a number from 0 to 127. */
  function ValidatePrefixlen(prefixlen: string): (r: Result<(), AddressError>)
    ensures r.Success? <==> ParseInt(prefixlen).Some? && 0 <= ParseInt(prefixlen).value <= 127
    ensures r.Failure? ==> r.error == BadIPv6Prefixlen(prefixlen)
  {
    match ParseInt(prefixlen)
    case None => Failure(BadIPv6Prefixlen(prefixlen))
    case Some(n) => if n < 0 || n > 127 then Failure(BadIPv6Prefixlen(prefixlen)) else Success(())
  }

  /** The decimal form of n is an accepted prefix length exactly when n is at
      most 127; 128, the full length of an IPv6 address, is refused. */
  lemma PrefixlenDecimal(n: nat)
    ensures ValidatePrefixlen(DecimalDigits(n)).Success? <==> n <= 127
  {
    DecimalDigitsValue(n);
    ParseDigits(DecimalDigits(n));
  }

  /** A negative number is refused. */
  lemma PrefixlenNegative(n: nat)
    requires n > 0
    ensures ValidatePrefixlen("-" + DecimalDigits(n)) == Failure(BadIPv6Prefixlen("-" + DecimalDigits(n)))
  {
    DecimalDigitsValue(n);
    ParseSigned(DecimalDigits(n), '-');
  }

  /** Text without a decimal digit is not an integer and is refused. */
  lemma PrefixlenNotAnInteger(prefixlen: string)
    requires forall i :: 0 <= i < |prefixlen| ==> !IsDigit(prefixlen[i])
    ensures ValidatePrefixlen(prefixlen) == Failure(BadIPv6Prefixlen(prefixlen))
  {
    ParseNoDigit(prefixlen);
  }

  /** The forms int() also reads: surrounding whitespace, a sign and leading
      zeros. The value decides, so "-0" is accepted and "+128" is not. */
  lemma PrefixlenIntForms(n: nat, zeros: nat, sign: char, space: char)
    requires (sign == '+' || sign == '-') && IsSpace(space)
    ensures var digits := Repeat('0', zeros) + DecimalDigits(n);
            ValidatePrefixlen([space] + ([sign] + digits) + [space]).Success? <==>
              n <= 127 && (sign == '+' || n == 0)
  {
    var digits := Repeat('0', zeros) + DecimalDigits(n);
    LeadingZerosValue(zeros, DecimalDigits(n));
    DecimalDigitsValue(n);
    ParseSigned(digits, sign);
    ParseStripsSpace([sign] + digits, space);
    ParseStripsSpace([space] + ([sign] + digits), space);
  }

  /** IPv6.validateAddress: the text before the first '/' is an IPv6 address
      and, when there is a '/', the text after it is a prefix length. */
  function ValidateAddress6(sock: Sockets, address: string): (r: Result<(), AddressError>)
    ensures r.Failure? ==> r.error == BadIPv6Address(address) || r.error.BadIPv6Prefixlen?
  {
    var addr := Split(address, '/', 1);
    if !sock.inetPton6(addr[0]) then Failure(BadIPv6Address(address))
    else if |addr| == 2 then ValidatePrefixlen(addr[1])
    else Success(())
  }

  /** Without a '/' only the address is checked; with one, the address before
      the first '/' and the prefix length after it (which may itself hold
      further '/' characters, which then fail int()). */
  lemma ValidateAddress6Parts(sock: Sockets, address: string)
    ensures var i := IndexOf(address, '/');
            ValidateAddress6(sock, address) ==
              if i == -1 then
                (if sock.inetPton6(address) then Success(()) else Failure(BadIPv6Address(address)))
              else if !sock.inetPton6(address[..i]) then Failure(BadIPv6Address(address))
              else ValidatePrefixlen(address[i + 1..])
  {
    SplitOnce(address, '/');
    var i := IndexOf(address, '/');
    var addr := Split(address, '/', 1);
    if i == -1 {
      assert |addr| == 1 && addr[0] == address;
    } else {
      var before, after := address[..i], address[i + 1..];
      assert |addr| == 2 && addr[0] == before && addr[1] == after;
      assert ValidatePrefixlen(addr[1]) == ValidatePrefixlen(after);
    }
  }

  /** IPv6.validateGateway: a gateway that fails validateAddress is reported
      as a bad gateway. */
  function ValidateGateway6(sock: Sockets, gateway: string): (r: Result<(), AddressError>)
    ensures r.Success? <==> ValidateAddress6(sock, gateway).Success?
    ensures r.Failure? ==> r.error == BadIPv6Gateway(gateway)
  {
    if ValidateAddress6(sock, gateway).Failure? then Failure(BadIPv6Gateway(gateway)) else Success(())
  }

  /** IPv6.__init__: the checks in the order the constructor makes them. */
  function NewIPv6(sock: Sockets, address: Option<string>, gateway: Option<string>, defaultRoute: Option<bool>,
                   ipv6autoconf: Option<bool>, dhcpv6: Option<bool>): (r: Result<IPv6, AddressError>)
    ensures r.Success? ==> r.value == IPv6(address, gateway, defaultRoute, ipv6autoconf, dhcpv6)
  {
    var checked :=
      if Truthy(address) then
        if ValidateAddress6(sock, address.value).Failure? then ValidateAddress6(sock, address.value)
        else if Truthy(gateway) then ValidateGateway6(sock, gateway.value)
        else Success(())
      else if Truthy(gateway) then Failure(GatewayWithoutAddress)
      else Success(());
    if checked.Failure? then Failure(checked.error)
    else if Truthy(address) && (Flag(ipv6autoconf) || Flag(dhcpv6)) then Failure(MixedIPv6)
    else Success(IPv6(address, gateway, defaultRoute, ipv6autoconf, dhcpv6))
  }

  /** The IPv6 configurations the constructor accepts: a valid address (and
      gateway, if any) without autoconfiguration or DHCPv6, or no address and
      no gateway. */
  lemma NewIPv6Accepts(sock: Sockets, address: Option<string>, gateway: Option<string>, defaultRoute: Option<bool>,
                       ipv6autoconf: Option<bool>, dhcpv6: Option<bool>)
    ensures NewIPv6(sock, address, gateway, defaultRoute, ipv6autoconf, dhcpv6).Success? <==>
              if Truthy(address) then
                ValidateAddress6(sock, address.value).Success? &&
                (Truthy(gateway) ==> ValidateAddress6(sock, gateway.value).Success?) &&
                !Flag(ipv6autoconf) && !Flag(dhcpv6)
              else !Truthy(gateway)
  {
  }

  /** IPv6.__bool__. */
  predicate IPv6Bool(ip: IPv6) {
    Truthy(ip.address) || Flag(ip.ipv6autoconf) || Flag(ip.dhcpv6)
  }

  /** An accepted IPv6 configuration is true exactly when it is static or
      dynamic, and never both. */
  lemma IPv6Configures(sock: Sockets, address: Option<string>, gateway: Option<string>, defaultRoute: Option<bool>,
                       ipv6autoconf: Option<bool>, dhcpv6: Option<bool>)
    requires NewIPv6(sock, address, gateway, defaultRoute, ipv6autoconf, dhcpv6).Success?
    ensures var ip := NewIPv6(sock, address, gateway, defaultRoute, ipv6autoconf, dhcpv6).value;
            (Truthy(address) ==> IPv6Bool(ip) && !Flag(ipv6autoconf) && !Flag(dhcpv6)) &&
            (!Truthy(address) ==> (IPv6Bool(ip) <==> Flag(ipv6autoconf) || Flag(dhcpv6)) && !Truthy(ip.gateway))
  {
  }
}
