/**
 The static ARP resolution table of the ngic example (package sarp): a process-wide
 map from a 32-bit key to an ARP entry, filled at start-up from address-range records
 and consulted by the forwarding path, which records every address it misses as an
 incomplete entry.
 */
module Sarp {
  import opened ByteOrder

  datatype Option<T> = None | Some(value: T)

  /** The two strings ever written to the STATUS field. */
  datatype Status = Completed | Incomplete

  /** net.HardwareAddr; the empty sequence is Go's nil. */
  type HardwareAddr = seq<Byte>

  /** ARPEntry without the PORT field, which nothing sets. */
  datatype Entry = Entry(ip: seq<Byte>, mac: HardwareAddr, status: Status)

  type Table = map<U32, Entry>

  /** What LookArpTable returns: the MAC and whether its error is non-nil. */
  datatype Reply = Reply(mac: HardwareAddr, err: bool)

  /** Ip2int: a 16-byte address is read at bytes 12..15, any other at bytes 0..3. */
  function Ip2int(ip: seq<Byte>): (n: U32)
    requires |ip| >= 4
  {
    if |ip| == 16 then Uint32BE(ip[12..16]) else Uint32BE(ip)
  }

  /** Int2ip: the four bytes of n, most significant first; Ip2int undoes it. */
  function Int2ip(n: U32): (ip: seq<Byte>)
    ensures |ip| == 4
    ensures Ip2int(ip) == n
  {
    PutUint32BE(n)
  }

  /** An IPv4-mapped 16-byte address and its 4-byte form give the same integer. */
  lemma Ip2intMapped(prefix: seq<Byte>, v4: seq<Byte>)
    requires |prefix| == 12 && |v4| == 4
    ensures Ip2int(prefix + v4) == Ip2int(v4)
  {
    assert (prefix + v4)[12..16] == v4;
  }

  /** Any address other than a 16-byte one is read at its first four bytes only. */
  lemma Ip2intReadsPrefix(ip: seq<Byte>)
    requires |ip| >= 4 && |ip| != 16
    ensures Ip2int(ip) == Ip2int(ip[..4])
  {
  }

  /** Int2ip inverts Ip2int on four-byte addresses. */
  lemma Int2ipOfIp2int(ip: seq<Byte>)
    requires |ip| == 4
    ensures Int2ip(Ip2int(ip)) == ip
  {
    PutUint32BEOfUint32BE(ip);
    assert ip[..4] == ip;
  }

  /** The entry the range loader stores for address i. */
  function CompletedEntry(i: U32, hw: HardwareAddr): (e: Entry)
  {
    Entry(Int2ip(i), hw, Completed)
  }

  /** The entry AddArpEntry stores under key: its IP is the key itself, not swapped back. */
  function IncompleteEntry(key: U32): (e: Entry)
  {
    Entry(Int2ip(key), [], Incomplete)
  }

  /**
   The table after the range loop has stored addresses lo, lo + 1, ..., hi in that
   order over t, each under its byte-swapped key (empty when hi < lo).
   */
  function Fill(t: Table, lo: U32, hi: int, hw: HardwareAddr): (r: Table)
    requires hi < TWO_32
    decreases hi + 1 - lo
  {
    if hi < lo then t else Fill(t, lo, hi - 1, hw)[SwapBytes(hi) := CompletedEntry(hi, hw)]
  }

  /** The entry stored under k, if any. */
  function Get(t: Table, k: U32): (r: Option<Entry>)
  {
    if k in t then Some(t[k]) else None
  }

  /**
   What Fill leaves under any key k: the completed entry of address SwapBytes(k) when
   that address is in the range, and otherwise whatever t had (or nothing).
   */
  lemma {:induction false} FillAt(t: Table, lo: U32, hi: int, hw: HardwareAddr, k: U32)
    requires hi < TWO_32
    ensures Get(Fill(t, lo, hi, hw), k) ==
            if lo <= SwapBytes(k) <= hi then Some(CompletedEntry(SwapBytes(k), hw)) else Get(t, k)
    decreases hi + 1 - lo
  {
    if lo <= hi {
      var inRange := lo <= SwapBytes(k) <= hi;
      FillAt(t, lo, hi - 1, hw, k);
      FillStep(t, lo, hi, hw, k);
      if SwapBytes(k) == hi {
        assert Get(Fill(t, lo, hi, hw), k) == Some(CompletedEntry(SwapBytes(k), hw));
      } else {
        assert inRange == (lo <= SwapBytes(k) <= hi - 1);
        assert Get(Fill(t, lo, hi, hw), k) == Get(Fill(t, lo, hi - 1, hw), k);
      }
    } else {
      assert Fill(t, lo, hi, hw) == t;
    }
  }

  /** One step of Fill: the last address's key gets its entry, every other key keeps its value. */
  lemma FillStep(t: Table, lo: U32, hi: U32, hw: HardwareAddr, k: U32)
    requires lo <= hi
    ensures Get(Fill(t, lo, hi, hw), k) ==
            if SwapBytes(k) == hi then Some(CompletedEntry(hi, hw)) else Get(Fill(t, lo, hi - 1, hw), k)
  {
    SwapBytesInvolution(k);
    SwapBytesInvolution(hi);
  }

  /** Each address of the range lands under its swapped key. */
  lemma FillStores(t: Table, lo: U32, hi: U32, hw: HardwareAddr, i: U32)
    requires lo <= i <= hi
    ensures SwapBytes(i) in Fill(t, lo, hi, hw)
    ensures Fill(t, lo, hi, hw)[SwapBytes(i)] == Entry(Int2ip(i), hw, Completed)
  {
    SwapBytesInvolution(i);
    FillAt(t, lo, hi, hw, SwapBytes(i));
  }

  /** Storing under a key adds one key when it was absent and none when it was present. */
  lemma UpdateSize(m: Table, k: U32, e: Entry)
    ensures |m[k := e]| == if k in m then |m| else |m| + 1
  {
    if k in m {
      assert m[k := e].Keys == m.Keys;
    } else {
      assert m[k := e].Keys == m.Keys + {k};
    }
  }

  /** One step of Fill adds at most one key, and exactly one when t lacked it. */
  lemma FillSizeStep(t: Table, lo: U32, hi: U32, hw: HardwareAddr)
    requires lo <= hi
    ensures |Fill(t, lo, hi, hw)| <= |Fill(t, lo, hi - 1, hw)| + 1
    ensures SwapBytes(hi) !in t ==> |Fill(t, lo, hi, hw)| == |Fill(t, lo, hi - 1, hw)| + 1
  {
    var key := SwapBytes(hi);
    var m := Fill(t, lo, hi - 1, hw);
    UpdateSize(m, key, CompletedEntry(hi, hw));
    if key !in t {
      SwapBytesInvolution(hi);
      FillAt(t, lo, hi - 1, hw, key);
      assert Get(m, key) == None;
    }
  }

  /** A range of n addresses adds at most n keys. */
  lemma {:induction false} FillGrowth(t: Table, lo: U32, hi: int, hw: HardwareAddr)
    requires lo - 1 <= hi < TWO_32
    ensures |Fill(t, lo, hi, hw)| <= |t| + (hi - lo + 1)
    decreases hi + 1 - lo
  {
    if lo <= hi {
      FillGrowth(t, lo, hi - 1, hw);
      FillSizeStep(t, lo, hi, hw);
    }
  }

  /** Over a table holding none of the range's keys, a range of n addresses adds exactly n keys. */
  lemma {:induction false} FillCount(t: Table, lo: U32, hi: int, hw: HardwareAddr)
    requires lo - 1 <= hi < TWO_32
    requires forall i: U32 :: lo <= i <= hi ==> SwapBytes(i) !in t
    ensures |Fill(t, lo, hi, hw)| == |t| + (hi - lo + 1)
    decreases hi + 1 - lo
  {
    if lo <= hi {
      FillCount(t, lo, hi - 1, hw);
      FillSizeStep(t, lo, hi, hw);
    }
  }

  /** Storing the same range again changes nothing: insertion overwrites. */
  lemma FillIdempotent(t: Table, lo: U32, hi: int, hw: HardwareAddr)
    requires hi < TWO_32
    ensures Fill(Fill(t, lo, hi, hw), lo, hi, hw) == Fill(t, lo, hi, hw)
  {
    var once := Fill(t, lo, hi, hw);
    var twice := Fill(once, lo, hi, hw);
    forall k: U32
      ensures (k in twice <==> k in once) && (k in once ==> twice[k] == once[k])
    {
      FillAt(t, lo, hi, hw, k);
      FillAt(once, lo, hi, hw, k);
    }
    assert twice.Keys == once.Keys;
  }

  /** net.ParseMAC succeeds only with a 6-, 8- or 20-byte hardware address. */
  ghost predicate IsMacParser(parseMac: string -> Option<HardwareAddr>)
  {
    forall s :: parseMac(s).Some? ==> |parseMac(s).value| in {6, 8, 20}
  }

  /** Outcome of AddArpData: the new table, or the process exit on an invalid MAC. */
  datatype LoadOutcome = Loaded(table: Table) | InvalidMac

  /**
   AddArpData on already parsed addresses: an inverted range leaves t as it is without
   looking at the MAC; otherwise an unparsable MAC is fatal before any store, and a
   parsable one stores the whole range.
   */
  function LoadRecord(t: Table, firstIP: seq<Byte>, lastIP: seq<Byte>, value: string,
                      parseMac: string -> Option<HardwareAddr>): (r: LoadOutcome)
    requires |firstIP| >= 4 && |lastIP| >= 4
    ensures Ip2int(firstIP) > Ip2int(lastIP) ==> r == Loaded(t)
    ensures r == InvalidMac <==> Ip2int(firstIP) <= Ip2int(lastIP) && parseMac(value).None?
  {
    var low, high := Ip2int(firstIP), Ip2int(lastIP);
    if low <= high then
      match parseMac(value)
      case None => InvalidMac
      case Some(hw) => Loaded(Fill(t, low, high, hw))
    else
      Loaded(t)
  }

  /**
   A loaded record holds, under the swapped key of each address in [low, high], that
   address's completed entry with the parsed MAC, and leaves every other key as it was.
   */
  lemma LoadRecordContents(t: Table, firstIP: seq<Byte>, lastIP: seq<Byte>, value: string,
                           parseMac: string -> Option<HardwareAddr>, k: U32)
    requires |firstIP| >= 4 && |lastIP| >= 4
    requires Ip2int(firstIP) <= Ip2int(lastIP) && parseMac(value).Some?
    ensures LoadRecord(t, firstIP, lastIP, value, parseMac).Loaded?
    ensures var t' := LoadRecord(t, firstIP, lastIP, value, parseMac).table;
            if Ip2int(firstIP) <= SwapBytes(k) <= Ip2int(lastIP) then
              k in t' && t'[k] == Entry(Int2ip(SwapBytes(k)), parseMac(value).value, Completed)
            else
              (k in t' <==> k in t) && (k in t ==> t'[k] == t[k])
  {
    FillAt(t, Ip2int(firstIP), Ip2int(lastIP), parseMac(value).value, k);
  }

  /** Loading a record a second time leaves the table as the first load left it. */
  lemma LoadRecordIdempotent(t: Table, firstIP: seq<Byte>, lastIP: seq<Byte>, value: string,
                             parseMac: string -> Option<HardwareAddr>)
    requires |firstIP| >= 4 && |lastIP| >= 4
    requires LoadRecord(t, firstIP, lastIP, value, parseMac).Loaded?
    ensures var t' := LoadRecord(t, firstIP, lastIP, value, parseMac).table;
            LoadRecord(t', firstIP, lastIP, value, parseMac) == Loaded(t')
  {
    if Ip2int(firstIP) <= Ip2int(lastIP) {
      FillIdempotent(t, Ip2int(firstIP), Ip2int(lastIP), parseMac(value).value);
    }
  }

  /**
   LookArpTable on a table value: a completed entry answers with its MAC and no error,
   an incomplete one with its stored MAC and an error, both leaving the table alone; a
   miss stores the incomplete entry of the key and answers the empty MAC with an error.
   */
  function Lookup(t: Table, key: U32): (r: (Reply, Table))
    ensures r.0.err <==> key !in t || t[key].status != Completed
    ensures key in t ==> r.1 == t && r.0.mac == t[key].mac
    ensures key !in t ==> r.1.Keys == t.Keys + {key} && r.1[key].status == Incomplete && r.0.mac == []
    ensures t.Keys <= r.1.Keys && forall k :: k in t ==> r.1[k] == t[k]
  {
    if key in t then
      (Reply(t[key].mac, t[key].status != Completed), t)
    else
      (Reply([], true), t[key := IncompleteEntry(key)])
  }

  /** After a miss, looking the same key up again fails again and changes nothing. */
  lemma MissRemembered(t: Table, key: U32)
    requires key !in t
    ensures var (reply1, t1) := Lookup(t, key);
            var (reply2, t2) := Lookup(t1, key);
            reply1 == Reply([], true) && t1 == t[key := IncompleteEntry(key)] &&
            reply2.err && t2 == t1
  {
  }

  /**
   A start-up scenario: loading 10.0.0.1 .. 10.0.0.3 with one MAC into an
   empty table gives three entries and 10.0.0.2 then resolves to that MAC; the inverted
   range 10.0.0.5 .. 10.0.0.1 stores nothing; an unparsable MAC is fatal.
   */
  lemma LoadExample(parseMac: string -> Option<HardwareAddr>, hw: HardwareAddr)
    requires parseMac("aa:bb:cc:dd:ee:ff") == Some(hw)
    requires parseMac("not-a-mac") == None
    ensures var r := LoadRecord(map[], [10, 0, 0, 1], [10, 0, 0, 3], "aa:bb:cc:dd:ee:ff", parseMac);
            r.Loaded? && |r.table| == 3 &&
            Lookup(r.table, SwapBytes(Ip2int([10, 0, 0, 2]))) == (Reply(hw, false), r.table)
    ensures LoadRecord(map[], [10, 0, 0, 5], [10, 0, 0, 1], "not-a-mac", parseMac) == Loaded(map[])
    ensures LoadRecord(map[], [10, 0, 0, 1], [10, 0, 0, 3], "not-a-mac", parseMac) == InvalidMac
  {
    var lo, hi := Ip2int([10, 0, 0, 1]), Ip2int([10, 0, 0, 3]);
    assert lo == 0x0A00_0001 && hi == 0x0A00_0003 && Ip2int([10, 0, 0, 2]) == 0x0A00_0002;
    assert Ip2int([10, 0, 0, 5]) > Ip2int([10, 0, 0, 1]);
    FillCount(map[], lo, hi, hw);
    FillStores(map[], lo, hi, hw, 0x0A00_0002);
  }

  /**
   The shape every entry written by this package has: a completed entry holds the
   address whose swapped form is its key, an incomplete one holds the key itself as
   its address and no MAC.
   */
  ghost predicate WellFormed(t: Table)
  {
    forall k :: k in t ==> Fits(k, t[k])
  }

  /** Entry e has the shape this package gives an entry stored under key k. */
  ghost predicate Fits(k: U32, e: Entry)
  {
    match e.status
    case Completed => e.ip == Int2ip(SwapBytes(k)) && e.mac != []
    case Incomplete => e.ip == Int2ip(k) && e.mac == []
  }

  lemma FillKeepsWellFormed(t: Table, lo: U32, hi: int, hw: HardwareAddr)
    requires hi < TWO_32
    requires WellFormed(t) && hw != []
    ensures WellFormed(Fill(t, lo, hi, hw))
  {
    var t' := Fill(t, lo, hi, hw);
    forall k | k in t'
      ensures Fits(k, t'[k])
    {
      FillAt(t, lo, hi, hw, k);
    }
  }

  lemma LookupKeepsWellFormed(t: Table, key: U32)
    requires WellFormed(t)
    ensures WellFormed(Lookup(t, key).1)
  {
  }

  /**
   In a well-formed table a lookup answers the empty MAC exactly when it answers an
   error: an unresolved address never yields a MAC and a resolved one always does.
   */
  lemma ErrorIffEmptyMac(t: Table, key: U32)
    requires WellFormed(t)
    ensures Lookup(t, key).0.err <==> Lookup(t, key).0.mac == []
  {
  }

  /**
   The range loop exactly as written: a uint32 counter compared with i <= high and
   incremented modulo 2^32. It runs at most fuel iterations and yields None when the
   loop has not exited by then.
   */
  function RangeLoopAsWritten(t: Table, i: U32, high: U32, hw: HardwareAddr, fuel: nat): (r: Option<Table>)
    decreases fuel
  {
    if !(i <= high) then Some(t)
    else if fuel == 0 then None
    else RangeLoopAsWritten(t[SwapBytes(i) := CompletedEntry(i, hw)], (i + 1) % TWO_32, high, hw, fuel - 1)
  }

  /** With high = 255.255.255.255 the loop as written never exits, however long it runs. */
  lemma {:induction false} AsWrittenNeverExits(t: Table, i: U32, hw: HardwareAddr, fuel: nat)
    ensures RangeLoopAsWritten(t, i, MAX_U32, hw, fuel) == None
    decreases fuel
  {
    if fuel > 0 {
      AsWrittenNeverExits(t[SwapBytes(i) := CompletedEntry(i, hw)], (i + 1) % TWO_32, hw, fuel - 1);
    }
  }

  /** Below that bound the loop as written exits after high - i + 1 steps with Fill's table. */
  lemma {:induction false} AsWrittenAgreesBelowMax(t: Table, lo: U32, i: U32, high: U32, hw: HardwareAddr)
    requires high < MAX_U32 && lo <= i <= high + 1
    ensures RangeLoopAsWritten(Fill(t, lo, i - 1, hw), i, high, hw, high + 1 - i) == Some(Fill(t, lo, high, hw))
    decreases high + 1 - i
  {
    if i <= high {
      assert (i + 1) % TWO_32 == i + 1;
      assert Fill(t, lo, i, hw) == Fill(t, lo, i - 1, hw)[SwapBytes(i) := CompletedEntry(i, hw)];
      AsWrittenAgreesBelowMax(t, lo, i + 1, high, hw);
    }
  }

  /** The process-wide table (mapStaticArp) and the operations that update it in place. */
  class ArpTable {
    var entries: Table

    /** Every stored entry has the shape the package gives it. */
    ghost predicate Valid()
      reads this
    {
      WellFormed(entries)
    }

    /** init: the table starts empty. */
    constructor ()
      ensures entries == map[]
      ensures Valid()
    {
      entries := map[];
    }

    /**
     addStaticArpEntry: store data under key, replacing any previous entry. The
     function is internal to the range loop, whose entries always fit their keys; only
     such an entry is guaranteed to keep the table valid.
     */
    method AddStaticArpEntry(key: U32, data: Entry)
      modifies this
      ensures entries == old(entries)[key := data]
      ensures old(Valid()) && Fits(key, data) ==> Valid()
    {
      entries := entries[key := data];
    }

    /** AddArpEntry: store the incomplete entry of key, replacing any previous entry. */
    method AddArpEntry(key: U32)
      requires Valid()
      modifies this
      ensures entries == old(entries)[key := IncompleteEntry(key)]
      ensures Valid()
    {
      entries := entries[key := IncompleteEntry(key)];
    }

    /**
     AddArpData on already parsed addresses; exited reports the os.Exit(1) taken on an
     unparsable MAC. The counter is unbounded, so a range ending at 255.255.255.255
     stores its last address and stops.
     */
    method AddArpData(firstIP: seq<Byte>, lastIP: seq<Byte>, value: string,
                      parseMac: string -> Option<HardwareAddr>) returns (exited: bool)
      requires |firstIP| >= 4 && |lastIP| >= 4
      requires IsMacParser(parseMac)
      requires Valid()
      modifies this
      ensures Valid()
      ensures exited <==> LoadRecord(old(entries), firstIP, lastIP, value, parseMac) == InvalidMac
      ensures exited ==> entries == old(entries)
      ensures !exited ==> LoadRecord(old(entries), firstIP, lastIP, value, parseMac) == Loaded(entries)
    {
      exited := false;
      var lowIP := Ip2int(firstIP);
      var highIP := Ip2int(lastIP);
      if lowIP <= highIP {
        var hw := parseMac(value);
        if hw.None? {
          exited := true;
          return;
        }
        var i: int := lowIP;
        while i <= highIP
          invariant lowIP <= i <= highIP + 1
          invariant entries == Fill(old(entries), lowIP, i - 1, hw.value)
          decreases highIP + 1 - i
        {
          AddStaticArpEntry(SwapBytes(i), CompletedEntry(i, hw.value));
          i := i + 1;
        }
        FillKeepsWellFormed(old(entries), lowIP, highIP, hw.value);
      }
    }

    /** LookArpTable: answer from the table, remembering a miss as an incomplete entry. */
    method LookArpTable(key: U32) returns (mac: HardwareAddr, err: bool)
      requires Valid()
      modifies this
      ensures (Reply(mac, err), entries) == Lookup(old(entries), key)
      ensures Valid()
      ensures err <==> mac == []
    {
      LookupKeepsWellFormed(entries, key);
      if key in entries {
        var entry := entries[key];
        if entry.status == Completed {
          return entry.mac, false;
        }
        return entry.mac, true;
      }
      AddArpEntry(key);
      return [], true;
    }
  }
}
