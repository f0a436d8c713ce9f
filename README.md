# Static ARP table of the ngic example, in Dafny

This project models package `sarp` of the ngic example of nff-go
(`examples/ngic/sarp/staticarp.go`). The package keeps a process-wide map
`mapStaticArp` from a 32-bit key to an `ARPEntry`.

- At start-up, `AddArpData` expands each configured address range into one
  `COMPLETED` entry per address. Every entry carries the configured MAC and is
  stored under the byte-swapped form of the address.
- On the forwarding path, `LookArpTable` answers a key from the map. On a miss it
  stores an `INCOMPLETE` entry for that key (`AddArpEntry`), so the miss is
  remembered.

Two files:

- `byte_order.dfy`, module `ByteOrder`. Bytes and 32-bit unsigned integers, Go's
  `binary.BigEndian.Uint32` / `PutUint32`, and `SwapBytesUint32`, modelled as the
  reversal of the four bytes of a value.
- `sarp.dfy`, module `Sarp`. It holds:
  - the entry type, `Ip2int` and `Int2ip`;
  - three specification functions: `Fill` (the table after the range loop),
    `LoadRecord` (the outcome of `AddArpData`) and `Lookup` (the outcome of
    `LookArpTable`);
  - the class `ArpTable`, whose field `entries` is `mapStaticArp` and whose
    methods update it in place and are proved against those functions;
  - the lemmas stating what the package promises.

Modelling decisions:

- `STATUS` is the two-variant `Status`, because only `"COMPLETED"` and
  `"INCOMPLETE"` are ever written. The `PORT` field is dropped, because nothing
  sets it.
- A `net.HardwareAddr` is a byte sequence. The empty sequence stands for Go's `nil`.
- The text handling of `AddArpData` (`strings.Split`, `net.ParseIP`) is not
  modelled. Its two addresses arrive already parsed, as byte sequences of length at
  least 4. `net.ParseMAC` is the function parameter `parseMac` from the raw string
  to an optional MAC. `AddArpData` requires of it what `net.ParseMAC` guarantees
  (`IsMacParser`): whenever it succeeds, the address has 6, 8 or 20 bytes.
- `os.Exit(1)` on an unparsable MAC becomes the outcome `InvalidMac` (the method's
  `exited` result). The table is left untouched.
- `LookArpTable`'s error is the boolean `err`. It is true exactly when the Go
  function returns a non-nil error.

Behaviour of the code a reader might not expect, which the model keeps:

- The MAC is parsed only after the range check. An inverted range therefore stores
  nothing and never looks at its MAC, even an invalid one.
- The two addresses are not reordered. An inverted range is skipped.
- An incomplete entry stores `Int2ip(key)` as its IP, without swapping the key
  back. A completed entry stores `Int2ip(i)` under key `SwapBytes(i)` and always
  carries a MAC, because `net.ParseMAC` never succeeds with an empty one. The
  predicate `WellFormed` (every entry `Fits` its key) captures this asymmetry, and
  the class invariant `ArpTable.Valid()` is `WellFormed(entries)`. The constructor
  establishes it, and `AddArpData`, `AddArpEntry` and `LookArpTable` preserve it
  (through the lemmas `FillKeepsWellFormed` and `LookupKeepsWellFormed`).
  `addStaticArpEntry` stores whatever entry it is given. It is unexported and called
  only from the range loop with an entry that fits its key, so its contract promises
  validity only for such an entry.
- On a hit on an incomplete entry, `LookArpTable` returns the entry's stored MAC,
  not a fixed zero address. `ErrorIffEmptyMac` proves that, in every well-formed
  table, a lookup answers the empty MAC exactly when it answers an error. So
  `LookArpTable` on a valid table returns the empty MAC with each error and a
  non-empty MAC with each resolved answer.

## Model

| member | source | states |
|---|---|---|
| ByteOrder.Uint32BE | examples/ngic/sarp/staticarp.go:126-128 | the integer read from four bytes has the first byte as its most significant byte and the fourth as its least significant |
| ByteOrder.PutUint32BE | examples/ngic/sarp/staticarp.go:133-134 | writes four bytes, and reading them back big-endian gives the value written |
| ByteOrder.PutUint32BEOfUint32BE | examples/ngic/sarp/staticarp.go:126-134 | writing back the integer read from four bytes reproduces those bytes |
| ByteOrder.Uint32BEInjective | examples/ngic/sarp/staticarp.go:126-128 | two four-byte buffers that read as the same integer are equal |
| ByteOrder.SwapBytesReverses | examples/ngic/sarp/staticarp.go:86 | the table key of address i has the big-endian bytes of i in reverse order |
| ByteOrder.SwapBytesInvolution | examples/ngic/sarp/staticarp.go:86 | swapping the bytes twice gives the value back |
| ByteOrder.SwapBytesInjective | examples/ngic/sarp/staticarp.go:86 | distinct addresses get distinct keys, and equal keys come from equal addresses |
| Sarp.Int2ip | examples/ngic/sarp/staticarp.go:131-136 | gives four bytes, and `Ip2int` of them is the original integer (round trip for every 32-bit value) |
| Sarp.Int2ipOfIp2int | examples/ngic/sarp/staticarp.go:124-136 | for a four-byte address, `Int2ip(Ip2int(ip))` is the address itself |
| Sarp.Ip2intMapped | examples/ngic/sarp/staticarp.go:125-128 | a 16-byte address is read at bytes 12..15 only, so an IPv4-mapped address and its four-byte form give the same integer |
| Sarp.Ip2intReadsPrefix | examples/ngic/sarp/staticarp.go:128 | any address that is not 16 bytes long is read at its first four bytes only |
| Sarp.FillAt | examples/ngic/sarp/staticarp.go:79-87 | after the range loop, key k holds the completed entry of address `SwapBytes(k)` with the MAC when that address is in the range, and otherwise holds what it held before (or stays absent) |
| Sarp.FillStores | examples/ngic/sarp/staticarp.go:79-87 | every address i of the range is stored under `SwapBytes(i)` as `{IP: Int2ip(i), MAC: hw, STATUS: COMPLETED}` |
| Sarp.FillGrowth | examples/ngic/sarp/staticarp.go:79-87 | a range of n addresses adds at most n keys to the table |
| Sarp.FillCount | examples/ngic/sarp/staticarp.go:79-87 | over a table holding none of the range's keys, a range of n addresses adds exactly n keys |
| Sarp.FillIdempotent | examples/ngic/sarp/staticarp.go:92-93 | storing the same range again leaves the table as it is, because insertion overwrites |
| Sarp.LoadRecord | examples/ngic/sarp/staticarp.go:64-89 | an inverted range leaves the table unchanged whatever the MAC string; otherwise the outcome is fatal exactly when the MAC does not parse |
| Sarp.LoadRecordContents | examples/ngic/sarp/staticarp.go:71-87 | a loaded record with low <= high holds each address's completed entry with the parsed MAC under its swapped key, and leaves every key outside the range unchanged |
| Sarp.LoadRecordIdempotent | examples/ngic/sarp/staticarp.go:64-93 | running `AddArpData` twice with the same arguments gives the same table as running it once |
| Sarp.Lookup | examples/ngic/sarp/staticarp.go:108-121 | the error is nil exactly when the key is present with a completed entry; a hit returns the stored MAC and leaves the table unchanged; a miss returns the empty MAC and adds exactly that key with an incomplete entry; no existing entry ever changes |
| Sarp.MissRemembered | examples/ngic/sarp/staticarp.go:98-120 | a miss stores `{IP: Int2ip(key), STATUS: INCOMPLETE}` and answers with an empty MAC and an error; a second lookup of that key also errs and leaves the table unchanged |
| Sarp.LoadExample | examples/ngic/sarp/staticarp.go:64-121 | loading 10.0.0.1..10.0.0.3 into an empty table gives three entries, and 10.0.0.2 then resolves to the MAC; 10.0.0.5..10.0.0.1 stores nothing; the MAC literal `not-a-mac` is fatal |
| Sarp.FillKeepsWellFormed | examples/ngic/sarp/staticarp.go:79-87 | the range loop keeps every completed entry's IP equal to `Int2ip` of its swapped key, with a non-empty MAC, and every incomplete entry's IP equal to `Int2ip` of its key with an empty MAC |
| Sarp.LookupKeepsWellFormed | examples/ngic/sarp/staticarp.go:98-121 | a lookup keeps that invariant; the incomplete entry it adds carries the unswapped key as its IP |
| Sarp.ErrorIffEmptyMac | examples/ngic/sarp/staticarp.go:110-120 | in a table satisfying the invariant, a lookup returns an error exactly when it returns the empty MAC: an unresolved address never yields a MAC and a resolved one always does |
| Sarp.AsWrittenNeverExits | examples/ngic/sarp/staticarp.go:79 | with a last address of 255.255.255.255, the uint32 loop as written has not exited after any number of iterations |
| Sarp.AsWrittenAgreesBelowMax | examples/ngic/sarp/staticarp.go:79-87 | with a last address below 255.255.255.255, the loop as written exits after high - low + 1 iterations and leaves the table `Fill` describes |
| Sarp.ArpTable.constructor | examples/ngic/sarp/staticarp.go:33-37 | the table starts empty, and so valid |
| Sarp.ArpTable.AddStaticArpEntry | examples/ngic/sarp/staticarp.go:92-95 | the new table is the old one with key mapped to the given entry, replacing any previous entry; an entry that fits its key keeps a valid table valid |
| Sarp.ArpTable.AddArpEntry | examples/ngic/sarp/staticarp.go:98-105 | the new table is the old one with key mapped to `{IP: Int2ip(key), STATUS: INCOMPLETE}` and no MAC, and the table stays valid |
| Sarp.ArpTable.AddArpData | examples/ngic/sarp/staticarp.go:64-89 | exits exactly when `LoadRecord` is fatal, leaving the table untouched; otherwise the new table is `LoadRecord`'s, which the loop builds through the invariant `entries == Fill(old, low, i - 1)`; given a parser that, like `net.ParseMAC`, yields only 6-, 8- or 20-byte addresses, the table stays valid |
| Sarp.ArpTable.LookArpTable | examples/ngic/sarp/staticarp.go:108-121 | the reply and the new table are exactly those `Lookup` gives for the old table; the table stays valid, and the MAC is empty exactly when the error is set |

## Left out

- `Configure` (staticarp.go:48-61) is not modelled. It loads an INI file, prints every
  key, and feeds the pairs of two sections to `AddArpData` in Go's unspecified
  map-iteration order. All of this is I/O.
- Sarp.ArpTable.LookArpTable promises a non-empty MAC with each resolved answer, not a
  non-zero one: `net.ParseMAC` accepts `00:00:00:00:00:00`, so the code cannot promise
  that either.
- Text parsing is not modelled: `strings.Split` of the range string, `net.ParseIP`
  and `net.ParseMAC`. Addresses arrive as byte sequences. MAC parsing is the
  parameter `parseMac`.
- Sarp.ArpTable.AddArpData and Sarp.LoadRecord require both addresses to have at
  least four bytes. In Go, a missing second token panics with an index out of range,
  and an unparsable address (nil) makes `Ip2int` panic.
- Sarp.Ip2int requires at least four bytes, because `BigEndian.Uint32` panics on a
  shorter slice.
- Logging is not modelled: the `common.LogDebug` and `fmt.Println` calls, and the
  `fmt.Errorf` whose result is discarded. The text of the returned errors is not
  modelled either; only whether the error is nil.
- The unused `pkt *packet.Packet` parameter and the never-set `PORT` field are
  dropped. The doc comment of `AddArpEntry` (staticarp.go:97) says it queues the
  packet, but its body (staticarp.go:98-105) never touches `pkt`, so dropping the
  parameter loses nothing.
- The map has no lock, and concurrent access is not modelled.
- `SwapBytesUint32` lives in another package, and its source is not shown; it is
  modelled as the reversal of the four bytes of its argument.
- Sarp.ArpTable.AddArpData uses an unbounded loop counter, so it stops after storing
  255.255.255.255. It therefore does not reproduce the non-termination of the code as
  written; see Findings.
- Sarp.LoadRecord, and through it Sarp.LoadRecordContents and
  Sarp.LoadRecordIdempotent, describe the corrected loop as well: on a range ending at
  255.255.255.255 they give a loaded table, whereas the code at staticarp.go:79 never
  returns on that input.

## Findings

| source | as written | input that shows it | evidently intended | confidence | as-written member | corrected member |
|---|---|---|---|---|---|---|
| examples/ngic/sarp/staticarp.go:79 | the range loop runs a `uint32` counter with `i <= highIP; i++`. When `highIP` is 0xFFFFFFFF, the increment wraps to 0, the guard stays true, and the loop never exits | a range record whose last address is 255.255.255.255 (with any first address not above it and a valid MAC) | store every address up to and including the last one, then stop | high; not executed | Sarp.AsWrittenNeverExits | Sarp.ArpTable.AddArpData |
