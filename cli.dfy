/**
 * The command-line front end: address flags are parsed into network-order
 * words (0 when a flag is empty, which leaves the filter off) and handed,
 * with the other flags, to the probe; and the byte-order chain from a typed
 * address to the kernel's filter cell and back to a printed key label.
 */
module Cli {
  import opened Results
  import opened Bytes
  import opened NetText
  import opened TcpRtt
  import opened Probe

  /** What `net.ParseIP` followed by `To4` makes of a flag: nothing, an address that is not IPv4, or four octets. */
  datatype ParsedIP = Unparseable | NotIPv4 | IPv4(octets: IPv4Bytes)

  datatype AddrError = InvalidIP(text: string) | NotAnIPv4(text: string)

  /** Four octets packed most significant first: a.b.c.d becomes a<<24 | b<<16 | c<<8 | d. */
  function Pack(o: IPv4Bytes): (v: bv32)
    ensures ByteOf(v, 3) == o[0] && ByteOf(v, 2) == o[1] && ByteOf(v, 1) == o[2] && ByteOf(v, 0) == o[3]
  {
    ((o[0] as bv32) << 24) | ((o[1] as bv32) << 16) | ((o[2] as bv32) << 8) | (o[3] as bv32)
  }

  /** The address flag as a network-order word, or the error for text that is no IPv4 address. */
  function ParseIPv4ToBe32(ipStr: string, parsed: ParsedIP): (r: Result<bv32, AddrError>)
    ensures parsed.Unparseable? ==> r == Err(InvalidIP(ipStr))
    ensures parsed.NotIPv4? ==> r == Err(NotAnIPv4(ipStr))
    ensures parsed.IPv4? ==> r.Ok? && PutUint32BE(r.value) == parsed.octets
  {
    match parsed
    case Unparseable => Err(InvalidIP(ipStr))
    case NotIPv4 => Err(NotAnIPv4(ipStr))
    case IPv4(o) => Ok(Pack(o))
  }

  /** Printing a packed address gives back its dotted form. */
  lemma PackPrintsBack(o: IPv4Bytes)
    ensures ParseIPv4(Pack(o)) == DottedQuad(o)
  {
    assert PutUint32BE(Pack(o)) == o;
  }

  /** An address flag: 0 when empty, otherwise the parsed word. */
  function Resolve(text: string, parse: string -> ParsedIP): (r: Result<bv32, AddrError>)
    ensures text == "" ==> r == Ok(0)
    ensures text != "" ==> r == ParseIPv4ToBe32(text, parse(text))
  {
    if text == "" then Ok(0) else ParseIPv4ToBe32(text, parse(text))
  }

  /** The command-line flags. */
  datatype Flags = Flags(
    laddrHist: bool,
    raddrHist: bool,
    showExt: bool,
    sport: int,
    dport: int,
    saddrStr: string,
    daddrStr: string,
    ms: bool)

  /** How the agent ends: a rejected address flag, a failed run, or a run stopped by a signal. */
  datatype Exit = BadSource(reason: AddrError) | BadDestination(reason: AddrError) | RunFailed(error: Error) | Stopped

  /** The probe options for flags whose address flags resolved to saddr and daddr. */
  function OptionsFor(f: Flags, saddr: bv32, daddr: bv32): Options
  {
    Options(f.laddrHist, f.raddrHist, f.showExt, f.sport, f.dport, saddr, daddr, f.ms)
  }

  /**
   * The agent's start-up: resolve the source address flag, then the
   * destination one, stopping at the first that is not an IPv4 address,
   * then run the probe.
   */
  method Launch(f: Flags, parse: string -> ParsedIP, env: Env, rlimitOk: bool) returns (exit: Exit)
    ensures Resolve(f.saddrStr, parse).Err? ==> exit == BadSource(Resolve(f.saddrStr, parse).error)
    ensures Resolve(f.saddrStr, parse).Ok? && Resolve(f.daddrStr, parse).Err? ==>
      exit == BadDestination(Resolve(f.daddrStr, parse).error)
    ensures Resolve(f.saddrStr, parse).Ok? && Resolve(f.daddrStr, parse).Ok? ==>
      var o := OptionsFor(f, Resolve(f.saddrStr, parse).value, Resolve(f.daddrStr, parse).value);
      exit == if !rlimitOk then RunFailed(Rlimit)
              else if NewProbeOutcome(o, env).Some? then RunFailed(NewProbeOutcome(o, env).value)
              else Stopped
  {
    var saddr: bv32 := 0;
    var daddr: bv32 := 0;
    if f.saddrStr != "" {
      var r := ParseIPv4ToBe32(f.saddrStr, parse(f.saddrStr));
      if r.Err? {
        return BadSource(r.error);
      }
      saddr := r.value;
    }
    if f.daddrStr != "" {
      var r := ParseIPv4ToBe32(f.daddrStr, parse(f.daddrStr));
      if r.Err? {
        return BadDestination(r.error);
      }
      daddr := r.value;
    }
    var err := Run(OptionsFor(f, saddr, daddr), env, rlimitOk);
    if err.Some? {
      return RunFailed(err.value);
    }
    return Stopped;
  }

  // ---------------------------------------------------------------------
  // The byte-order chain
  // ---------------------------------------------------------------------

  /**
   * The number a little-endian CPU reads from the four bytes of an address
   * stored in network order (the first octet lands in the low byte): what
   * the kernel program compares the saddr / daddr cells against, and what
   * it uses as a table key.
   */
  function HostWord(o: IPv4Bytes): (w: bv32)
    ensures ByteOf(w, 0) == o[0] && ByteOf(w, 1) == o[1] && ByteOf(w, 2) == o[2] && ByteOf(w, 3) == o[3]
  {
    ((o[3] as bv32) << 24) | ((o[2] as bv32) << 16) | ((o[1] as bv32) << 8) | (o[0] as bv32)
  }

  /** Likewise for a port: the number a little-endian CPU reads from its two bytes in network order. */
  function HostPort(port: bv16): (v: bv16)
    ensures v & 0xFF == port >> 8 && v >> 8 == port & 0xFF
  {
    var hi, lo := (port >> 8) as bv8, (port & 0xFF) as bv8;
    ((lo as bv16) << 8) | (hi as bv16)
  }

  /** ntohl of a packed address is the word the kernel sees for that address. */
  lemma AddrCellMatchesKernel(o: IPv4Bytes)
    ensures Ntohl(Pack(o)) == HostWord(o)
  {
  }

  lemma PortKey(q: bv16)
    ensures (((q as nat) % 0x1_0000) as bv16) == q
  {
    assert (q as nat) as bv16 == q;
  }

  /** htons of a port in 1..65535 is the number the kernel sees for that port. */
  lemma PortCellMatchesKernel(q: bv16)
    requires q != 0
    ensures PortCell(q as nat) == HostPort(q) as nat
  {
    PortKey(q);
    assert Htons(q) == HostPort(q);
  }

  /** Only the all-zero address packs to 0. */
  lemma PackNonZero(o: IPv4Bytes)
    requires o != [0, 0, 0, 0]
    ensures Pack(o) != 0
  {
    assert o == [o[0], o[1], o[2], o[3]];
  }

  /**
   * With a source address flag naming a.b.c.d, the kernel program's
   * source-address filter is on and admits exactly the events whose local
   * address is a.b.c.d.
   */
  lemma AddressFilterSelects(f: Flags, parse: string -> ParsedIP, daddr: bv32)
    requires f.saddrStr != "" && parse(f.saddrStr).IPv4?
    requires parse(f.saddrStr).octets != [0, 0, 0, 0]
    ensures var cfg := ConfigFor(OptionsFor(f, Resolve(f.saddrStr, parse).value, daddr));
      cfg.saddr != 0 && cfg.saddr == HostWord(parse(f.saddrStr).octets) as nat
  {
    var o := parse(f.saddrStr).octets;
    var v := Resolve(f.saddrStr, parse).value;
    assert v == Pack(o);
    PackNonZero(o);
    AddrCellMatchesKernel(o);
    assert ConfigFor(OptionsFor(f, v, daddr)).saddr == AddrCell(v);
  }

  /** Likewise, a destination address flag naming a.b.c.d selects the events whose remote address is a.b.c.d. */
  lemma DestinationFilterSelects(f: Flags, parse: string -> ParsedIP, saddr: bv32)
    requires f.daddrStr != "" && parse(f.daddrStr).IPv4?
    requires parse(f.daddrStr).octets != [0, 0, 0, 0]
    ensures var cfg := ConfigFor(OptionsFor(f, saddr, Resolve(f.daddrStr, parse).value));
      cfg.daddr != 0 && cfg.daddr == HostWord(parse(f.daddrStr).octets) as nat
  {
    var o := parse(f.daddrStr).octets;
    var v := Resolve(f.daddrStr, parse).value;
    assert v == Pack(o);
    PackNonZero(o);
    AddrCellMatchesKernel(o);
    assert ConfigFor(OptionsFor(f, saddr, v)).daddr == AddrCell(v);
  }

  /** Empty address flags and non-positive ports leave every filter off: no event is dropped. */
  lemma EmptyFlagsFilterNothing(f: Flags, parse: string -> ParsedIP, sk: Sock)
    requires f.saddrStr == "" && f.daddrStr == "" && f.sport <= 0 && f.dport <= 0
    ensures Passes(ConfigFor(OptionsFor(f, Resolve(f.saddrStr, parse).value, Resolve(f.daddrStr, parse).value)), sk)
  {
  }

  /** The all-zero address packs to 0, so giving 0.0.0.0 also writes no filter. */
  lemma ZeroAddressFiltersNothing(f: Flags, parse: string -> ParsedIP, daddr: bv32)
    requires f.saddrStr != "" && parse(f.saddrStr) == IPv4([0, 0, 0, 0])
    ensures ConfigFor(OptionsFor(f, Resolve(f.saddrStr, parse).value, daddr)).saddr == 0
  {
  }

  /** A key the kernel made from address a.b.c.d is printed as "a.b.c.d". */
  lemma KeyLabelRoundTrip(o: IPv4Bytes)
    requires o != [0, 0, 0, 0]
    ensures HostWord(o) != 0
    ensures KeyLabel(HostWord(o) as nat) == DottedQuad(o)
  {
    assert o == [o[0], o[1], o[2], o[3]];
    KeyLabelOfWord(HostWord(o));
    assert Htonl(HostWord(o)) == Pack(o) by {
      BytesDetermineWord(Htonl(HostWord(o)), Pack(o));
    }
    PackPrintsBack(o);
  }

  /** 1.2.3.4 packs to 0x01020304 and is written to its cell as 0x04030201; port 8080 is written as 0x901F. */
  lemma WorkedExample()
    ensures Pack([1, 2, 3, 4]) == 0x0102_0304
    ensures AddrCell(Pack([1, 2, 3, 4])) == 0x0403_0201
    ensures PortCell(8080) == 0x901F
  {
  }
}
