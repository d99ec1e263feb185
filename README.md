# ebpf-tcprtt, modelled in Dafny

ebpf-tcprtt is a TCP round-trip-time agent in two halves:

- **The kernel program** (`tcp_rcv`). It runs on every established-connection
  TCP receive and checks the socket against four optional filters: source
  and destination port, and source and destination address. It then picks
  a table key: the local address, the remote address, or the single key 0.
  Finally it counts the socket's smoothed RTT into one log2 bucket of that
  key's histogram in a bounded hash table.
- **The Go agent**. It turns its command-line flags into the program's
  read-only configuration cells, loads and attaches the program, and
  prints every table entry. Each entry is printed as a key label and a
  histogram bar chart.

This project models both halves and the byte-order chain between them:

- A dotted address typed on the command line is packed in network order.
- It is byte-swapped into its cell.
- It is compared in the kernel with the number the CPU reads from the
  socket.
- It is used as a table key, which is printed back as the same dotted
  address.

| file | module | what it holds |
|---|---|---|
| `results.dfy` | `Results` | `Option` and `Result` |
| `bytes.dfy` | `Bytes` | little-endian byte codec, `uint16`/`uint32` ranges, the int32 view of a 32-bit word |
| `hist.dfy` | `Hist` | the 128-byte histogram record, its decoder (with an encoder as partner), the `PrintInfo` loops and the `Render` function that specifies them |
| `net_text.dfy` | `NetText` | unsigned decimal and dotted-quad text, with their injectivity |
| `tcprtt.dfy` | `TcpRtt` | the configuration cells, the `hists` table as a class, the `tcp_rcv` method and the `OnTcpRcv` function that specifies it |
| `probe.dfy` | `Probe` | `htons`/`htonl`/`ntohl`, `parseIPv4`, writing the configuration cells, the probe's load / attach / close life cycle, key labels, `Run` |
| `cli.dfy` | `Cli` | `parseIPv4ToBe32`, the empty-flag defaulting in `main`, and the end-to-end byte-order lemmas |

Some of the code's behaviours are easy to misremember, and the model
follows the code in each:

- The decoder accepts buffers longer than 128 bytes. It reads the first
  128 and ignores the rest (`Hist.DecodeReadsPrefix`).
- The chart prints every bucket from 0 up to the last non-empty one, so
  empty buckets in between are printed too (`Hist.RenderKeepsInnerZeros`).
- Bar lengths are truncated toward zero, not rounded (`Hist.BarLen`).
- The address 1.2.3.4 packs to 0x01020304, and `ntohl` writes
  0x04030201 into the cell (`Cli.WorkedExample`). That is the number a
  little-endian CPU reads from the address's bytes in network order.
- If attaching fails after loading has succeeded, the loaded objects are
  not released (`Probe.NewProbe`).

## Model

| member | source | states |
|---|---|---|
| Bytes.LeRoundTrip | internal/hist/hist.go:19-26 | Encoding a value that fits in n bytes little-endian and reading it back gives the value. |
| Hist.UnmarshalBinary | internal/hist/hist.go:19-26 | The decode succeeds exactly when the buffer holds at least 128 bytes. An empty buffer gives EOF and a short one gives UnexpectedEOF. Every decoded record has uint64 latency/cnt and 27 int32 slots. |
| Hist.DecodeEncode | internal/hist/hist.go:12-26 | Decoding the kernel's in-memory layout of a record (LE uint64, uint64, 27 × int32, 4 padding bytes) gives back the record. |
| Hist.DecodeReadsPrefix | internal/hist/hist.go:19-26 | Bytes after the first 128 do not change the decoded record. |
| Hist.DecodeIgnoresPadding | internal/hist/hist.go:16-26 | Two 128-byte buffers that differ only in the four padding bytes decode to the same record. |
| Hist.MaxPrefixLaws | internal/hist/hist.go:34-43 | After the first loop has seen n slots, maxCount is non-negative and no smaller than any count seen. It is 0 or one of those counts. |
| Hist.LastPrefixLaws | internal/hist/hist.go:35-43 | After the first loop has seen n slots, lastSlotNonZero is the last index seen with a positive count, or 0 when there is none. |
| Hist.MaxCount | internal/hist/hist.go:34-46 | The scale is at least 1 and bounds every count. It is one of the counts, or 1 when no count is positive. |
| Hist.LastSlotNonZero | internal/hist/hist.go:35-43 | Every bucket after it has count ≤ 0, and it holds a positive count whenever any bucket does. Otherwise it is 0. |
| Hist.PrintInfo | internal/hist/hist.go:28-64 | The two loops produce exactly Render(h): the header fields, then one row per bucket 0..lastSlotNonZero with its bounds, count and bar. |
| Hist.RenderRows | internal/hist/hist.go:49-62 | The report has LastSlotNonZero + 1 ≤ 27 rows, row i counts bucket i, and row 0 is 0 -> 0. Row i > 0 is 2^(i-1) -> 2^i - 1. Consecutive rows' bounds are contiguous, and no positive bucket is cut off. |
| Hist.Bounds | internal/hist/hist.go:54-57 | Each bucket's low bound is at most its high bound, and a bucket starts one past where the previous one ends. |
| Hist.BarLenLaws | internal/hist/hist.go:59 | For counts in [0, scale], bars lie in [0, 40] and grow with the count. An empty bucket gets no bar and the fullest gets all 40. |
| Hist.RenderBars | internal/hist/hist.go:59-61 | With no negative counts, every bar can be drawn and lies in [0, 40]. Zero counts draw nothing and the largest count draws a full bar. |
| Hist.BarsDrawableExactly | internal/hist/hist.go:59-60 | The bars can all be drawn (strings.Repeat gets no negative length) if and only if no printed count c has -40·c ≥ scale. |
| Hist.RenderBarsMonotone | internal/hist/hist.go:59 | Within one report with no negative counts, a larger count never gets a shorter bar. |
| Hist.RenderAllZero | internal/hist/hist.go:44-62 | An all-zero record prints the single row 0 -> 0 with count 0 and no bar. |
| Hist.RenderTwoBuckets | internal/hist/hist.go:28-64 | Counts 3 and 7 in buckets 2 and 3 give four rows. The last is 4 -> 7 with a full bar; the one before is 2 -> 3 with a 17-star bar. |
| Hist.RenderKeepsInnerZeros | internal/hist/hist.go:49-53 | Counts 5, 0, 3 print three rows, the empty bucket 1 -> 1 among them. |
| NetText.DecimalRoundTrip | internal/probe/probe.go:241 | The decimal text of a number reads back as that number. |
| NetText.DottedQuadInjective | internal/probe/probe.go:69 | Different 4-byte addresses never print the same dotted text. |
| TcpRtt.Key | bpf/tcprtt.bpf.c:60-67 | The key is the local address when grouping by it, else the remote address when grouping by that, else 0. It always fits in 32 bits. |
| TcpRtt.Srtt | bpf/tcprtt.bpf.c:72-74 | The sample is srtt_us / 8 microseconds, or srtt_us / 8000 in ms mode, and fits in 32 bits. |
| TcpRtt.Slot | bpf/tcprtt.bpf.c:75-77 | The bucket is log2l(srtt) when below 27, otherwise the last bucket. |
| TcpRtt.Zero | bpf/tcprtt.bpf.c:33 | The initial record is well formed and has every bucket at 0. |
| TcpRtt.Inc32 | bpf/tcprtt.bpf.c:78 | A bucket grows by one, except that 2^31 - 1 wraps to -2^31 in the agent's int32 view. |
| TcpRtt.Counted | bpf/tcprtt.bpf.c:68-82 | A new key on a full table changes nothing. Otherwise the key ends up in the table and no other key is added. The table stays within 10240 well-formed entries. |
| TcpRtt.OnTcpRcv | bpf/tcprtt.bpf.c:44-82 | An event some non-zero filter rejects leaves the table unchanged. The table stays within 10240 well-formed entries. |
| TcpRtt.RcvEffect | bpf/tcprtt.bpf.c:68-82 | A counted event touches only its key's entry, and in it only the sample's bucket, which becomes Inc32 of its old count (one more, unless it wraps). latency += srtt and cnt += 1 (mod 2^64) in extended mode; neither changes otherwise. |
| TcpRtt.FullTableDrops | bpf/tcprtt.bpf.c:68-70 | A new key arriving at a full table is not counted. |
| TcpRtt.ZeroTallied | bpf/tcprtt.bpf.c:33 | The zero record's cnt equals the sum of its buckets. |
| TcpRtt.RecordKeepsTally | bpf/tcprtt.bpf.c:78-82 | In extended mode, one sample keeps cnt equal to the bucket total and adds one to it, short of int32 overflow. |
| TcpRtt.RcvKeepsTally | bpf/tcprtt.bpf.c:35-84 | In extended mode, every entry's cnt stays the number of samples its buckets hold. |
| TcpRtt.HistTable.constructor | bpf/tcprtt.bpf.c:26-31 | The table starts empty. |
| TcpRtt.HistTable.LookupOrTryInit | bpf/tcprtt.bpf.c:68-70 | The lookup finds the key, or inserts a zero record when there is room. It fails, changing nothing, only for a new key on a full table. |
| TcpRtt.HistTable.Count | bpf/tcprtt.bpf.c:78-82 | The three increments through the entry pointer amount to Record on that key's entry. |
| TcpRtt.HistTable.TcpRcv | bpf/tcprtt.bpf.c:35-84 | One run of the program leaves the table at OnTcpRcv of the old table. |
| TcpRtt.HistTable.CountSample | bpf/tcprtt.bpf.c:68-82 | Lookup-or-init followed by the bucket computation and the increments leaves the table at Counted of the old table. |
| Probe.Htons | internal/probe/probe.go:47-49 | The two bytes are swapped. |
| Probe.HtonsInvolution | internal/probe/probe.go:47-49 | Swapping twice gives back the port. |
| Probe.Htonl | internal/probe/probe.go:51-56 | Byte k of the result is byte 3-k of the input. |
| Probe.Ntohl | internal/probe/probe.go:58-63 | Byte k of the result is byte 3-k of the input. |
| Probe.ByteSwapLaws | internal/probe/probe.go:51-63 | htonl and ntohl are the same function, and each is its own inverse and the other's. |
| Probe.PutUint32BE | internal/probe/probe.go:67-68 | The buffer holds the word's bytes, most significant first. |
| Probe.ParseIPv4 | internal/probe/probe.go:66-70 | A word prints as the decimals of its bytes from most to least significant, joined by dots. |
| Probe.ParseIPv4Injective | internal/probe/probe.go:66-70 | Different words print differently. |
| Probe.FirstRejected | internal/probe/probe.go:100-170 | The write that stops loading is a wanted write whose cell the library refuses. |
| Probe.FirstRejectedLaws | internal/probe/probe.go:100-170 | The search from write k finds nothing exactly when no write from k on is wanted and refused. Otherwise it returns the cell of a refused write with no refused write before it. |
| Probe.ToggleWrites | internal/probe/probe.go:100-125 | After the first three writes, each toggle cell is set exactly when its flag is. |
| Probe.PortWrites | internal/probe/probe.go:127-143 | After the port writes, each port cell holds htons(uint16(port)) when the port is positive, and 0 otherwise. |
| Probe.AddrWrites | internal/probe/probe.go:145-161 | After the address writes, each address cell holds ntohl(addr) when the address is non-zero, and 0 otherwise. |
| Probe.MsWrite | internal/probe/probe.go:163-170 | The last write sets the ms cell exactly when the flag is set. |
| Probe.WritesGiveConfig | internal/probe/probe.go:100-170 | The eight guarded writes, in order, yield ConfigFor(o): the configuration the kernel program runs with. |
| Probe.PortWraps | internal/probe/probe.go:127-128 | Port 65536 is positive, so it is written, but uint16 truncation makes the cell 0, which disables the filter. |
| Probe.CollectionSpec.constructor | internal/probe/probe.go:95-98 | A freshly read collection has every cell at its default. |
| Probe.CollectionSpec.Set | internal/probe/probe.go:100-104 | Setting a refused cell fails with that cell's error and changes nothing. Otherwise it sets the cell. |
| Probe.Link.constructor | internal/probe/probe.go:189-196 | A new tracing link is open. |
| Probe.Link.Close | internal/probe/probe.go:205 | Closing a link leaves it closed. |
| Probe.LoadOutcome | internal/probe/probe.go:90-184 | Loading succeeds exactly when the collection reads, no wanted cell write is refused and the kernel accepts the program. |
| Probe.LoadOutcomeLaws | internal/probe/probe.go:95-181 | Loading succeeds exactly when the collection reads, no wanted write is refused and the kernel loads the program. A cell error names the first refused write, in source order. |
| Probe.NewProbeOutcome | internal/probe/probe.go:72-88 | Creating a probe succeeds exactly when loading and attaching both do. A load failure is reported as is. |
| Probe.WriteCell | internal/probe/probe.go:100-170 | The k-th guarded write either reports the first refused cell from k on, or advances the cells to ConfigUpTo(o, k+1). |
| Probe.Probe.constructor | internal/probe/probe.go:75 | A new probe holds no objects and no link. |
| Probe.Probe.LoadObjects | internal/probe/probe.go:90-184 | The result is LoadOutcome. On success the probe holds the objects configured with ConfigFor(o); on failure its state is unchanged. |
| Probe.Probe.AttachPrograms | internal/probe/probe.go:186-199 | Attaching succeeds exactly when the library attaches, storing a fresh open link. A failure is Attach and leaves the link field as it was. |
| Probe.Probe.Close | internal/probe/probe.go:201-209 | Close never fails, and closes the link if there is one. |
| Probe.NewProbe | internal/probe/probe.go:72-88 | The result is NewProbeOutcome. On success it returns a fresh probe with the configured objects and an open link; on failure it returns none. |
| Probe.Run | internal/probe/probe.go:211-257 | A failed rlimit call is reported first. Otherwise the run reports probe creation's error, or Close's nil once cancelled. |
| Probe.KeyLabel | internal/probe/probe.go:238-242 | Key 0 prints as "0". A non-zero key prints as the dotted quad of its low 32 bits, least significant byte first. |
| Probe.KeyLabelLow32 | internal/probe/probe.go:239 | Keys that agree in their low 32 bits get the same label. |
| Probe.KeyLabelOfWord | internal/probe/probe.go:238-239 | A non-zero 32-bit key is labelled parseIPv4(htonl(key)). |
| Probe.KeyLabelInjective | internal/probe/probe.go:238-239 | Different non-zero 32-bit keys get different labels. |
| Probe.ShowEntry | internal/probe/probe.go:233-248 | A value too short to decode gives the decoder's error. Otherwise the entry prints as the key's label and Render of the decoded record. |
| Cli.Pack | cmd/main.go:51 | The four octets become the word's bytes, most significant first. |
| Cli.ParseIPv4ToBe32 | cmd/main.go:40-52 | Unparseable text gives "invalid IP address" and a non-IPv4 address gives "not an IPv4 address". An IPv4 address gives the word whose big-endian bytes are its octets. |
| Cli.PackPrintsBack | cmd/main.go:40-52 | parseIPv4 of a packed address prints the address's own dotted text. |
| Cli.Resolve | cmd/main.go:62-76 | An empty address flag resolves to 0 (no filter). Any other is parsed. |
| Cli.Launch | cmd/main.go:54-89 | A bad source flag is reported first, then a bad destination flag. Otherwise the agent runs the probe with the resolved addresses and ends with Run's error, or stops cleanly. |
| Cli.HostWord | bpf/tcprtt.bpf.c:52-58 | Byte k of the word the kernel reads from an address in network order is the address's k-th octet. |
| Cli.HostPort | bpf/tcprtt.bpf.c:44-50 | The kernel's port number holds the port's network-order bytes swapped. |
| Cli.AddrCellMatchesKernel | internal/probe/probe.go:145-161 | ntohl of a packed address equals the word the kernel reads for that address. |
| Cli.PortCellMatchesKernel | internal/probe/probe.go:127-143 | For ports 1..65535, htons of the port equals the number the kernel reads for that port. |
| Cli.PackNonZero | cmd/main.go:51 | Only 0.0.0.0 packs to 0. |
| Cli.AddressFilterSelects | cmd/main.go:65-70 | A source flag naming a non-zero address turns the filter on, and it matches exactly the kernel's number for that address. |
| Cli.DestinationFilterSelects | cmd/main.go:71-76 | A destination flag naming a non-zero address turns the filter on, and it matches exactly the kernel's number for that address. |
| Cli.EmptyFlagsFilterNothing | cmd/main.go:62-76 | With empty address flags and non-positive ports, no event is filtered out. |
| Cli.ZeroAddressFiltersNothing | internal/probe/probe.go:145 | A flag of 0.0.0.0 packs to 0, so no address filter is written. |
| Cli.KeyLabelRoundTrip | internal/probe/probe.go:238-239 | A key the kernel made from address a.b.c.d is non-zero (unless the address is 0.0.0.0) and prints as "a.b.c.d". |
| Cli.WorkedExample | cmd/main.go:51 | 1.2.3.4 packs to 0x01020304 and is written as 0x04030201. Port 8080 is written as 0x901F. |

## Left out

- Hist.PrintInfo: requires that no printed bucket's bar length is negative. Go's `strings.Repeat` panics there, and the panic is not modelled. `Hist.BarsDrawableExactly` characterises when this holds.
- Hist.PrintInfo: the bar length is computed in exact arithmetic and truncated toward zero, not in `float64`. The formatted text (`%10d`, `%-40s`, the header lines) is modelled as structured rows, not as strings.
- Probe.ShowEntry: requires the same drawable-bars condition as `Hist.PrintInfo`, for the same reason.
- Probe.ShowEntry: the map iterator's own unmarshalling of each value (`iter.Next`) is modelled by `UnmarshalBinary`. A failed `Next` ends the whole pass and the error is logged by `iter.Err()`; that ending of the pass is not modelled, and a failed entry is instead its own error result.
- Decoding is modelled on the byte slice `binary.Read` receives. The `bytes.Reader`, reflection and the distinction between io errors beyond EOF and UnexpectedEOF are not modelled.
- `net.ParseIP` and `To4` are modelled as a function parameter `parse`. The function returns nothing, a non-IPv4 address, or four octets; the text grammar they accept is not modelled.
- `net.IP.String` of a 4-byte address is modelled as the dotted decimal of its octets (`NetText.DottedQuad`).
- `log2l` (from a header that is not part of this model) is a function parameter of the kernel program. `bits.bpf.h`, `maps.bpf.h` and `tcprtt.h` are not part of this model.
- TcpRtt.HistTable.Count: the `__sync_fetch_and_add` increments are modelled as sequential updates. Concurrent runs of the program on several CPUs are not modelled.
- `bpf_map_lookup_or_try_init` is modelled as failing only when the table is full. Other kernel failures of the map update are not modelled.
- The socket fields are modelled as the numbers the kernel reads (`TcpRtt.Sock`). `BPF_CORE_READ` and the kernel structures are not modelled.
- `Cli.HostWord` and `Cli.HostPort` assume a little-endian host, as the agent's byte swaps do.
- The cilium/ebpf library is modelled by its outcomes only (`Probe.Env`): whether the collection reads, which cell writes are refused, and whether loading and attaching succeed. Map pinning under /sys/fs/bpf and the generated `probeObjects` are not modelled.
- Probe.Run: raising the memlock limit is modelled as a boolean outcome. The reporting goroutine is not modelled as a loop: its `Iterate`/`Sleep` polling, its 10-second period and `histsMap.Close` are left out. One pass over one entry is `Probe.ShowEntry`, and the wait for cancellation is collapsed into going straight to `Close`.
- Probe.Probe.Close: the error returned by `tcpRcvLink.Close` is dropped, as in the source. `Probe.Close` does not close the loaded objects, also as in the source. Only the table handle is closed, by `Run`'s deferred `histsMap.Close`, which is left out as said above.
- Signal handling, the `context` cancellation and `log` output in `cmd/main.go` are left out. `log.Fatalf` is modelled as an `Exit` value.
- `Options.sport`/`dport` are unbounded integers. Go's `int` range is not modelled, since only `uint16(port)` reaches the kernel.
- `internal/timer/timer.go` and `bpf/get_size.c` are not part of this model.
