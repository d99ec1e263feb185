/**
 * The user-space side of the agent: byte-order helpers, the translation of
 * the command-line options into the kernel program's configuration cells,
 * the probe's load / attach / close life cycle, and the label printed for a
 * table key.
 */
module Probe {
  import opened Results
  import opened Bytes
  import opened NetText
  import opened Hist
  import opened TcpRtt

  // ---------------------------------------------------------------------
  // Byte order
  // ---------------------------------------------------------------------

  /** Byte k of a 32-bit word, k = 0 being the least significant. */
  function ByteOf(x: bv32, k: nat): (b: bv8)
    requires k < 4
  {
    if k == 0 then (x & 0xFF) as bv8
    else if k == 1 then ((x >> 8) & 0xFF) as bv8
    else if k == 2 then ((x >> 16) & 0xFF) as bv8
    else ((x >> 24) & 0xFF) as bv8
  }

  /** The two bytes of hostOrder, swapped whatever the host's own order. */
  function Htons(hostOrder: bv16): (r: bv16)
    ensures r >> 8 == hostOrder & 0xFF
    ensures r & 0xFF == hostOrder >> 8
  {
    (hostOrder << 8) | (hostOrder >> 8)
  }

  /** The four bytes of hostOrder, reversed whatever the host's own order. */
  function Htonl(hostOrder: bv32): (r: bv32)
    ensures ByteOf(r, 0) == ByteOf(hostOrder, 3) && ByteOf(r, 1) == ByteOf(hostOrder, 2)
    ensures ByteOf(r, 2) == ByteOf(hostOrder, 1) && ByteOf(r, 3) == ByteOf(hostOrder, 0)
  {
    ((hostOrder & 0xFF) << 24) |
    (((hostOrder >> 8) & 0xFF) << 16) |
    (((hostOrder >> 16) & 0xFF) << 8) |
    ((hostOrder >> 24) & 0xFF)
  }

  /** The same byte reversal, written out separately in the source. */
  function Ntohl(netOrder: bv32): (r: bv32)
    ensures ByteOf(r, 0) == ByteOf(netOrder, 3) && ByteOf(r, 1) == ByteOf(netOrder, 2)
    ensures ByteOf(r, 2) == ByteOf(netOrder, 1) && ByteOf(r, 3) == ByteOf(netOrder, 0)
  {
    ((netOrder & 0xFF) << 24) |
    (((netOrder >> 8) & 0xFF) << 16) |
    (((netOrder >> 16) & 0xFF) << 8) |
    ((netOrder >> 24) & 0xFF)
  }

  /** A word is fixed by its four bytes. */
  lemma BytesDetermineWord(x: bv32, y: bv32)
    requires forall k :: 0 <= k < 4 ==> ByteOf(x, k) == ByteOf(y, k)
    ensures x == y
  {
    assert ByteOf(x, 0) == ByteOf(y, 0) && ByteOf(x, 1) == ByteOf(y, 1);
    assert ByteOf(x, 2) == ByteOf(y, 2) && ByteOf(x, 3) == ByteOf(y, 3);
  }

  lemma HtonsInvolution(x: bv16)
    ensures Htons(Htons(x)) == x
  {
  }

  /** htonl and ntohl are one function, each its own inverse and the other's. */
  lemma {:induction false} ByteSwapLaws(x: bv32)
    ensures Htonl(x) == Ntohl(x)
    ensures Htonl(Htonl(x)) == x && Ntohl(Ntohl(x)) == x
    ensures Ntohl(Htonl(x)) == x && Htonl(Ntohl(x)) == x
  {
    BytesDetermineWord(Htonl(x), Ntohl(x));
    BytesDetermineWord(Htonl(Htonl(x)), x);
  }

  // ---------------------------------------------------------------------
  // Address text
  // ---------------------------------------------------------------------

  /** `binary.BigEndian.PutUint32`: the most significant byte first. */
  function PutUint32BE(v: bv32): (b: IPv4Bytes)
    ensures forall k :: 0 <= k < 4 ==> b[k] == ByteOf(v, 3 - k)
  {
    [ByteOf(v, 3), ByteOf(v, 2), ByteOf(v, 1), ByteOf(v, 0)]
  }

  /** An address word in network order, printed as "b3.b2.b1.b0" (most significant byte first). */
  function ParseIPv4(ip: bv32): (s: string)
    ensures s == Decimal(OctetValue(ByteOf(ip, 3))) + "." + Decimal(OctetValue(ByteOf(ip, 2))) + "."
               + Decimal(OctetValue(ByteOf(ip, 1))) + "." + Decimal(OctetValue(ByteOf(ip, 0)))
  {
    DottedQuad(PutUint32BE(ip))
  }

  /** Different words print differently. */
  lemma ParseIPv4Injective(x: bv32, y: bv32)
    requires ParseIPv4(x) == ParseIPv4(y)
    ensures x == y
  {
    DottedQuadInjective(PutUint32BE(x), PutUint32BE(y));
    assert PutUint32BE(x)[0] == PutUint32BE(y)[0] && PutUint32BE(x)[1] == PutUint32BE(y)[1];
    assert PutUint32BE(x)[2] == PutUint32BE(y)[2] && PutUint32BE(x)[3] == PutUint32BE(y)[3];
    BytesDetermineWord(x, y);
  }

  // ---------------------------------------------------------------------
  // Configuration cells
  // ---------------------------------------------------------------------

  /** The options the agent starts the probe with. */
  datatype Options = Options(
    laddrHist: bool,
    raddrHist: bool,
    showExt: bool,
    sport: int,
    dport: int,
    saddr: bv32,
    daddr: bv32,
    ms: bool)

  /** The kernel program's read-only cells, in the order they are written. */
  datatype Cell = LaddrHist | RaddrHist | ShowExt | Sport | Dport | Saddr | Daddr | Ms

  /** The number of cells. */
  const CellCount: nat := 8

  /** The k-th cell written: laddr_hist, raddr_hist, show_ext, sport, dport, saddr, daddr, ms. */
  function CellAt(k: nat): Cell
    requires k < CellCount
  {
    if k == 0 then LaddrHist else if k == 1 then RaddrHist else if k == 2 then ShowExt
    else if k == 3 then Sport else if k == 4 then Dport else if k == 5 then Saddr
    else if k == 6 then Daddr else Ms
  }


  /** A port cell: `htons(uint16(p))`, the conversion keeping the low 16 bits. */
  function PortCell(p: int): U16
  {
    Htons((p % 0x1_0000) as bv16) as nat
  }

  /** An address cell: `ntohl(a)`. */
  function AddrCell(a: bv32): U32
  {
    Ntohl(a) as nat
  }

  /** Whether the options make a write to cell c: a toggle when set, a filter when positive. */
  predicate Wanted(o: Options, c: Cell) {
    match c
    case LaddrHist => o.laddrHist
    case RaddrHist => o.raddrHist
    case ShowExt => o.showExt
    case Sport => o.sport > 0
    case Dport => o.dport > 0
    case Saddr => o.saddr > 0
    case Daddr => o.daddr > 0
    case Ms => o.ms
  }

  /** The value written to cell c: 1 for a toggle, the byte-swapped port or address for a filter. */
  function CellValue(o: Options, c: Cell): nat {
    match c
    case Sport => PortCell(o.sport)
    case Dport => PortCell(o.dport)
    case Saddr => AddrCell(o.saddr)
    case Daddr => AddrCell(o.daddr)
    case _ => 1
  }

  /** A value has the width of its cell: one byte for a toggle, 16 or 32 bits for a filter. */
  predicate Fits(c: Cell, v: nat) {
    match c
    case Sport => v < 0x1_0000
    case Dport => v < 0x1_0000
    case Saddr => v < Two32
    case Daddr => v < Two32
    case _ => v < 256
  }

  /** Cell c of cfg holding v; a toggle reads as set when its byte is non-zero. */
  function Assign(cfg: Config, c: Cell, v: nat): (r: Config)
    requires Fits(c, v)
  {
    match c
    case LaddrHist => cfg.(laddrHist := v != 0)
    case RaddrHist => cfg.(raddrHist := v != 0)
    case ShowExt => cfg.(showExt := v != 0)
    case Sport => cfg.(sport := v)
    case Dport => cfg.(dport := v)
    case Saddr => cfg.(saddr := v)
    case Daddr => cfg.(daddr := v)
    case Ms => cfg.(ms := v != 0)
  }

  /** The cells after the writes for the first k cells, starting from their defaults. */
  function ConfigUpTo(o: Options, k: nat): (cfg: Config)
    requires k <= CellCount
  {
    if k == 0 then Defaults
    else
      var c := CellAt(k - 1);
      if Wanted(o, c) then Assign(ConfigUpTo(o, k - 1), c, CellValue(o, c)) else ConfigUpTo(o, k - 1)
  }

  /** The first cell, from CellAt(k) on, whose write the library rejects. */
  function FirstRejected(o: Options, rejects: set<Cell>, k: nat): (r: Option<Cell>)
    requires k <= CellCount
    ensures r.Some? ==> Wanted(o, r.value) && r.value in rejects
    decreases CellCount - k
  {
    if k == CellCount then None
    else if Wanted(o, CellAt(k)) && CellAt(k) in rejects then Some(CellAt(k))
    else FirstRejected(o, rejects, k + 1)
  }

  /** Whether the k-th write is wanted and refused, so that it stops loading. */
  predicate Refused(o: Options, rejects: set<Cell>, k: nat)
    requires k < CellCount
  {
    Wanted(o, CellAt(k)) && CellAt(k) in rejects
  }

  /**
   * FirstRejected is a search for the first refused write from CellAt(k) on:
   * None exactly when no write from k on is refused, otherwise the cell of
   * a refused write with no refused write before it.
   */
  lemma {:induction false} FirstRejectedLaws(o: Options, rejects: set<Cell>, k: nat)
    requires k <= CellCount
    ensures FirstRejected(o, rejects, k).None? <==> forall j :: k <= j < CellCount ==> !Refused(o, rejects, j)
    ensures FirstRejected(o, rejects, k).Some? ==>
      exists j :: k <= j < CellCount && Refused(o, rejects, j) && FirstRejected(o, rejects, k).value == CellAt(j) &&
        forall j' :: k <= j' < j ==> !Refused(o, rejects, j')
    decreases CellCount - k
  {
    if k < CellCount && !Refused(o, rejects, k) {
      FirstRejectedLaws(o, rejects, k + 1);
    }
  }

  /**
   * The configuration the kernel program runs with: a toggle is set exactly
   * when its option is, a filter cell holds the byte-swapped value when its
   * option is positive and keeps its default 0 (no filter) otherwise.
   */
  function ConfigFor(o: Options): (cfg: Config)
  {
    Config(
      o.laddrHist, o.raddrHist, o.showExt,
      if o.sport > 0 then PortCell(o.sport) else 0,
      if o.dport > 0 then PortCell(o.dport) else 0,
      if o.saddr > 0 then AddrCell(o.saddr) else 0,
      if o.daddr > 0 then AddrCell(o.daddr) else 0,
      o.ms)
  }

  lemma ToggleWrites(o: Options)
    ensures ConfigUpTo(o, 3) == Defaults.(laddrHist := o.laddrHist, raddrHist := o.raddrHist, showExt := o.showExt)
  {
    assert ConfigUpTo(o, 1) == Defaults.(laddrHist := o.laddrHist);
    assert ConfigUpTo(o, 2) == ConfigUpTo(o, 1).(raddrHist := o.raddrHist);
  }

  lemma PortWrites(o: Options)
    ensures ConfigUpTo(o, 5) == ConfigUpTo(o, 3).(
      sport := if o.sport > 0 then PortCell(o.sport) else 0,
      dport := if o.dport > 0 then PortCell(o.dport) else 0)
  {
    ToggleWrites(o);
    assert CellAt(3) == Sport && CellAt(4) == Dport;
    assert ConfigUpTo(o, 4) == if Wanted(o, Sport) then Assign(ConfigUpTo(o, 3), Sport, CellValue(o, Sport)) else ConfigUpTo(o, 3);
    assert ConfigUpTo(o, 5) == if Wanted(o, Dport) then Assign(ConfigUpTo(o, 4), Dport, CellValue(o, Dport)) else ConfigUpTo(o, 4);
  }

  lemma AddrWrites(o: Options)
    ensures ConfigUpTo(o, 7) == ConfigUpTo(o, 5).(
      saddr := if o.saddr > 0 then AddrCell(o.saddr) else 0,
      daddr := if o.daddr > 0 then AddrCell(o.daddr) else 0)
  {
    ToggleWrites(o);
    PortWrites(o);
    assert CellAt(5) == Saddr && CellAt(6) == Daddr;
    assert ConfigUpTo(o, 6) == if Wanted(o, Saddr) then Assign(ConfigUpTo(o, 5), Saddr, CellValue(o, Saddr)) else ConfigUpTo(o, 5);
    assert ConfigUpTo(o, 7) == if Wanted(o, Daddr) then Assign(ConfigUpTo(o, 6), Daddr, CellValue(o, Daddr)) else ConfigUpTo(o, 6);
  }

  /** Performing the writes in order, each only when wanted, gives ConfigFor. */
  lemma {:induction false} WritesGiveConfig(o: Options)
    ensures ConfigUpTo(o, CellCount) == ConfigFor(o)
  {
    ToggleWrites(o);
    PortWrites(o);
    AddrWrites(o);
    MsWrite(o);
  }

  lemma MsWrite(o: Options)
    ensures ConfigUpTo(o, 8) == if o.ms then ConfigUpTo(o, 7).(ms := true) else ConfigUpTo(o, 7)
  {
    assert CellAt(7) == Ms;
  }

  /** A port of 65536 wraps to 0 in its 16-bit cell, but is still written (it is positive). */
  lemma PortWraps()
    ensures Wanted(Options(false, false, false, 0x1_0000, 0, 0, 0, false), Sport)
    ensures ConfigFor(Options(false, false, false, 0x1_0000, 0, 0, 0, false)).sport == 0
  {
  }

  // ---------------------------------------------------------------------
  // The library the probe drives
  // ---------------------------------------------------------------------

  /** Where a probe operation can fail. */
  datatype Error = SpecLoad | CellSet(cell: Cell) | Load | Attach | Rlimit

  /**
   * What the kernel and the eBPF library do with each request: whether the
   * compiled collection can be read, which cell writes are refused, whether
   * loading succeeds and whether attaching succeeds.
   */
  datatype Env = Env(specLoads: bool, rejects: set<Cell>, loads: bool, attaches: bool)

  /** What loading the collection into the kernel yields: the program with its cells fixed. */
  datatype Objects = Objects(config: Config)

  /** The collection read from the compiled object, whose cells can still be written. */
  class CollectionSpec {
    var cells: Config
    const rejects: set<Cell>

    constructor (rejects: set<Cell>)
      ensures this.rejects == rejects && cells == Defaults
    {
      this.rejects := rejects;
      cells := Defaults;
    }

    /** `Variables[name].Set(v)`: fails for a refused cell and leaves the cells as they were. */
    method Set(c: Cell, v: nat) returns (err: Option<Error>)
      requires Fits(c, v)
      modifies this
      ensures c in rejects ==> err == Some(CellSet(c)) && cells == old(cells)
      ensures c !in rejects ==> err == None && cells == Assign(old(cells), c, v)
    {
      if c in rejects {
        return Some(CellSet(c));
      }
      cells := Assign(cells, c, v);
      return None;
    }
  }

  /** An attached tracing link. */
  class Link {
    var open: bool

    constructor ()
      ensures open
    {
      open := true;
    }

    method Close()
      modifies this
      ensures !open
    {
      open := false;
    }
  }

  /** The outcome of loading: the first step that fails, or success. */
  function LoadOutcome(o: Options, env: Env): (r: Option<Error>)
    ensures r.None? <==> env.specLoads && FirstRejected(o, env.rejects, 0).None? && env.loads
  {
    if !env.specLoads then Some(SpecLoad)
    else if FirstRejected(o, env.rejects, 0).Some? then Some(CellSet(FirstRejected(o, env.rejects, 0).value))
    else if !env.loads then Some(Load)
    else None
  }

  /**
   * Loading fails on a cell exactly at the first refused write, and succeeds
   * exactly when the collection reads, no wanted write is refused and the
   * kernel accepts the program.
   */
  lemma LoadOutcomeLaws(o: Options, env: Env)
    ensures LoadOutcome(o, env).None? <==>
      env.specLoads && env.loads && forall j :: 0 <= j < CellCount ==> !Refused(o, env.rejects, j)
    ensures LoadOutcome(o, env).Some? && LoadOutcome(o, env).value.CellSet? ==>
      exists j :: 0 <= j < CellCount && Refused(o, env.rejects, j) && LoadOutcome(o, env).value == CellSet(CellAt(j)) &&
        forall j' :: 0 <= j' < j ==> !Refused(o, env.rejects, j')
  {
    FirstRejectedLaws(o, env.rejects, 0);
  }

  /** The outcome of creating a probe: loading, then attaching. */
  function NewProbeOutcome(o: Options, env: Env): (r: Option<Error>)
    ensures r.None? <==> LoadOutcome(o, env).None? && env.attaches
    ensures LoadOutcome(o, env).Some? ==> r == LoadOutcome(o, env)
  {
    if LoadOutcome(o, env).Some? then LoadOutcome(o, env)
    else if !env.attaches then Some(Attach)
    else None
  }

  /**
   * One guarded write of the load sequence: the k-th cell is set when the
   * options want it, and a refusal is reported as that cell's error.
   */
  method WriteCell(spec: CollectionSpec, o: Options, k: nat) returns (err: Option<Error>)
    requires k < CellCount && spec.cells == ConfigUpTo(o, k)
    modifies spec
    ensures err.Some? ==> err == Some(CellSet(CellAt(k))) && FirstRejected(o, spec.rejects, k) == Some(CellAt(k))
    ensures err.None? ==> FirstRejected(o, spec.rejects, k) == FirstRejected(o, spec.rejects, k + 1)
    ensures err.None? ==> spec.cells == ConfigUpTo(o, k + 1)
  {
    var c := CellAt(k);
    if Wanted(o, c) {
      err := spec.Set(c, CellValue(o, c));
    } else {
      err := None;
    }
  }

  class Probe {
    var bpfObjects: Option<Objects>
    var tcpRcvLink: Link?

    constructor ()
      ensures bpfObjects == None && tcpRcvLink == null
    {
      bpfObjects := None;
      tcpRcvLink := null;
    }

    /**
     * Reads the collection, writes the wanted cells in order stopping at the
     * first refusal, then loads; the objects are recorded only once loading
     * has succeeded.
     */
    method LoadObjects(o: Options, env: Env) returns (err: Option<Error>)
      modifies this
      ensures err == LoadOutcome(o, env)
      ensures err.None? ==> bpfObjects == Some(Objects(ConfigFor(o)))
      ensures err.Some? ==> bpfObjects == old(bpfObjects)
      ensures tcpRcvLink == old(tcpRcvLink)
    {
      if !env.specLoads {
        return Some(SpecLoad);
      }
      var spec := new CollectionSpec(env.rejects);
      // k is the index of the next cell write, in the order the source makes them
      var k := 0;
      err := WriteCell(spec, o, k);
      if err.Some? {
        return;
      }
      k := k + 1;
      err := WriteCell(spec, o, k);
      if err.Some? {
        return;
      }
      k := k + 1;
      err := WriteCell(spec, o, k);
      if err.Some? {
        return;
      }
      k := k + 1;
      err := WriteCell(spec, o, k);
      if err.Some? {
        return;
      }
      k := k + 1;
      err := WriteCell(spec, o, k);
      if err.Some? {
        return;
      }
      k := k + 1;
      err := WriteCell(spec, o, k);
      if err.Some? {
        return;
      }
      k := k + 1;
      err := WriteCell(spec, o, k);
      if err.Some? {
        return;
      }
      k := k + 1;
      err := WriteCell(spec, o, k);
      if err.Some? {
        return;
      }
      k := k + 1;
      assert FirstRejected(o, env.rejects, 8) == None;

      if !env.loads {
        return Some(Load);
      }
      WritesGiveConfig(o);
      bpfObjects := Some(Objects(spec.cells));
      return None;
    }

    /** Attaches the loaded program to the TCP receive path; needs the objects loaded. */
    method AttachPrograms(env: Env) returns (err: Option<Error>)
      requires bpfObjects.Some?
      modifies this
      ensures bpfObjects == old(bpfObjects)
      ensures err.None? <==> env.attaches
      ensures err.None? ==> tcpRcvLink != null && fresh(tcpRcvLink) && tcpRcvLink.open
      ensures err.Some? ==> err == Some(Attach) && tcpRcvLink == old(tcpRcvLink)
    {
      if !env.attaches {
        return Some(Attach);
      }
      tcpRcvLink := new Link();
      return None;
    }

    /** Closes the link if there is one; never fails, so it may be called before attaching or twice. */
    method Close() returns (err: Option<Error>)
      modifies if tcpRcvLink != null then {tcpRcvLink} else {}
      ensures err == None
      ensures tcpRcvLink != null ==> !tcpRcvLink.open
    {
      if tcpRcvLink != null {
        tcpRcvLink.Close();
      }
      return None;
    }
  }

  /**
   * Loads, then attaches. On success the probe holds the objects for the
   * options and an open link; on failure no probe is returned (objects
   * already loaded when attaching fails are not released).
   */
  method NewProbe(o: Options, env: Env) returns (p: Probe?, err: Option<Error>)
    ensures err == NewProbeOutcome(o, env)
    ensures err.None? ==> p != null && fresh(p) && p.bpfObjects == Some(Objects(ConfigFor(o)))
    ensures err.None? ==> p.tcpRcvLink != null && fresh(p.tcpRcvLink) && p.tcpRcvLink.open
    ensures err.Some? ==> p == null
  {
    var prbe := new Probe();
    err := prbe.LoadObjects(o, env);
    if err.Some? {
      return null, err;
    }
    err := prbe.AttachPrograms(env);
    if err.Some? {
      return null, err;
    }
    return prbe, None;
  }

  /**
   * The agent's run: raise the locked-memory limit, create the probe, then
   * (once the reporting loop is cancelled) close it and report Close's result.
   */
  method Run(o: Options, env: Env, rlimitOk: bool) returns (err: Option<Error>)
    ensures !rlimitOk ==> err == Some(Rlimit)
    ensures rlimitOk ==> err == NewProbeOutcome(o, env)
  {
    if !rlimitOk {
      return Some(Rlimit);
    }
    var probe;
    probe, err := NewProbe(o, env);
    if err.Some? {
      return;
    }
    err := probe.Close();
  }

  // ---------------------------------------------------------------------
  // Key labels
  // ---------------------------------------------------------------------

  /**
   * The label printed for a table key: the number 0 for the shared key,
   * otherwise the dotted quad of htonl of its low 32 bits, so the key's
   * least significant byte is printed first.
   */
  function KeyLabel(key: nat): (s: string)
    requires key < Two64
    ensures key == 0 ==> s == "0"
    ensures key > 0 ==> var w := Low32(key);
      s == DottedQuad([ByteOf(w, 0), ByteOf(w, 1), ByteOf(w, 2), ByteOf(w, 3)])
  {
    if key > 0 then ParseIPv4(Htonl(Low32(key))) else Decimal(key % Two32)
  }

  /** `uint32(key)`: the low 32 bits of a 64-bit key. */
  function Low32(key: nat): (w: bv32)
    requires key < Two64
  {
    (key % Two32) as bv32
  }

  /** Only the low 32 bits of a non-zero key reach its label. */
  lemma KeyLabelLow32(key: nat, key': nat)
    requires 0 < key < Two64 && 0 < key' < Two64
    requires key % Two32 == key' % Two32
    ensures KeyLabel(key) == KeyLabel(key')
  {
  }

  /** A 32-bit word used as a key keeps its value through the label's 32-bit truncation. */
  lemma WordKey(w: bv32)
    ensures w as nat < Two32
    ensures Low32(w as nat) == w
    ensures w != 0 ==> w as nat > 0
  {
    assert (w as nat) as bv32 == w;
  }

  /** A non-zero 32-bit key's label is its byte-swapped word in address form. */
  lemma KeyLabelOfWord(w: bv32)
    requires w != 0
    ensures KeyLabel(w as nat) == ParseIPv4(Htonl(w))
  {
    WordKey(w);
  }

  /** Different non-zero 32-bit keys get different labels. */
  lemma KeyLabelInjective(w: bv32, w': bv32)
    requires w != 0 && w' != 0
    requires KeyLabel(w as nat) == KeyLabel(w' as nat)
    ensures w == w'
  {
    KeyLabelOfWord(w);
    KeyLabelOfWord(w');
    ParseIPv4Injective(Htonl(w), Htonl(w'));
    ByteSwapLaws(w);
    ByteSwapLaws(w');
  }

  /**
   * One entry of a reporting pass: the iterator unmarshals the raw value
   * bytes into a record (modelled by UnmarshalBinary), then the entry is
   * printed under the key's label. A value that cannot be unmarshalled
   * yields the decoder's error instead of a printed entry.
   */
  method ShowEntry(key: nat, raw: seq<byte>) returns (r: Result<(string, Report), DecodeError>)
    requires key < Two64
    requires UnmarshalBinary(raw).Ok? ==> BarsDrawable(UnmarshalBinary(raw).value)
    ensures UnmarshalBinary(raw).Err? ==> r == Err(UnmarshalBinary(raw).error)
    ensures UnmarshalBinary(raw).Ok? ==> r == Ok((KeyLabel(key), Render(UnmarshalBinary(raw).value)))
  {
    var decoded := UnmarshalBinary(raw);
    if decoded.Err? {
      return Err(decoded.error);
    }
    var heading := KeyLabel(key);
    var report := PrintInfo(decoded.value);
    return Ok((heading, report));
  }
}
