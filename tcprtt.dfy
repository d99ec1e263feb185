/**
 * The kernel-resident program: on every established-connection TCP receive
 * it filters the socket against the configuration cells, picks a table key,
 * and counts the socket's smoothed RTT into one log2 bucket of that key's
 * histogram.
 */
module TcpRtt {
  import opened Bytes
  import opened Hist

  /** Number of buckets per record (the kernel's MAX_SLOTS, the same 27 the agent decodes). */
  const MaxSlots: nat := MaxSlot

  /** Capacity of the `hists` hash table. */
  const MaxEntries: nat := 10240

  /** The program's read-only configuration cells, fixed before it is loaded. */
  datatype Config = Config(
    laddrHist: bool,
    raddrHist: bool,
    showExt: bool,
    sport: U16,
    dport: U16,
    saddr: U32,
    daddr: U32,
    ms: bool)

  /** The cells' initial values: every toggle off, every filter 0 (disabled). */
  const Defaults: Config := Config(false, false, false, 0, 0, 0, 0, false)

  /** The socket fields the program reads, each the number the kernel's field holds. */
  datatype Sock = Sock(sport: U16, dport: U16, saddr: U32, daddr: U32, srttUs: U32)

  /** A non-zero filter cell that differs from the socket's field drops the event. */
  predicate Passes(cfg: Config, sk: Sock) {
    && (cfg.sport == 0 || cfg.sport == sk.sport)
    && (cfg.dport == 0 || cfg.dport == sk.dport)
    && (cfg.saddr == 0 || cfg.saddr == sk.saddr)
    && (cfg.daddr == 0 || cfg.daddr == sk.daddr)
  }

  /** Local address when grouping by it, else remote address when grouping by that, else 0. */
  function Key(cfg: Config, sk: Sock): (key: nat)
    ensures cfg.laddrHist ==> key == sk.saddr
    ensures !cfg.laddrHist && cfg.raddrHist ==> key == sk.daddr
    ensures !cfg.laddrHist && !cfg.raddrHist ==> key == 0
    ensures key < Two32
  {
    if cfg.laddrHist then sk.saddr else if cfg.raddrHist then sk.daddr else 0
  }

  /**
   * The recorded sample: srtt_us holds 8 times the smoothed RTT in
   * microseconds, so the sample is the RTT in microseconds, or in whole
   * milliseconds in ms mode.
   */
  function Srtt(cfg: Config, sk: Sock): (srtt: nat)
    ensures srtt < Two32
    ensures srtt == if cfg.ms then sk.srttUs / 8000 else sk.srttUs / 8
  {
    var srtt := sk.srttUs / 8;
    if cfg.ms then srtt / 1000 else srtt
  }

  /** The bucket for a sample: log2l of it, clamped to the last bucket. */
  function Slot(srtt: nat, log2l: nat -> nat): (slot: nat)
    ensures slot < MaxSlots
    ensures log2l(srtt) < MaxSlots ==> slot == log2l(srtt)
    ensures log2l(srtt) >= MaxSlots ==> slot == MaxSlots - 1
  {
    var slot := log2l(srtt);
    if slot >= MaxSlots then MaxSlots - 1 else slot
  }

  /** The record a new key starts from. */
  function Zero(): (h: Hist)
    ensures WellFormed(h)
    ensures forall i :: 0 <= i < |h.slots| ==> h.slots[i] == 0
  {
    Hist(0, 0, seq(MaxSlots, _ => 0))
  }

  /** A 32-bit counter incremented with wrap-around, seen through the agent's int32 view. */
  function Inc32(s: int): (r: int)
    requires IsInt32(s)
    ensures IsInt32(r)
    ensures s < Two31 - 1 ==> r == s + 1
    ensures s == Two31 - 1 ==> r == -Two31
  {
    AsInt32((AsUint32(s) + 1) % Two32)
  }

  /** One sample counted into h: its bucket grows by one and, in extended mode, latency and cnt too. */
  function Record(h: Hist, slot: nat, srtt: nat, showExt: bool): (r: Hist)
    requires WellFormed(h) && slot < MaxSlots
    ensures WellFormed(r)
  {
    if showExt then
      Hist((h.latency + srtt) % Two64, (h.cnt + 1) % Two64, h.slots[slot := Inc32(h.slots[slot])])
    else
      h.(slots := h.slots[slot := Inc32(h.slots[slot])])
  }

  ghost predicate TableValid(m: map<nat, Hist>) {
    && |m| <= MaxEntries
    && forall k :: k in m ==> WellFormed(m[k])
  }

  /** The record a key's update starts from: its entry, or a zeroed one for a new key. */
  function Base(m: map<nat, Hist>, key: nat): (h: Hist)
    requires TableValid(m)
    ensures WellFormed(h)
  {
    if key in m then m[key] else Zero()
  }

  /** The table after counting one sample for key, unless the key is new and the table is full. */
  function Counted(m: map<nat, Hist>, key: nat, cfg: Config, sk: Sock, log2l: nat -> nat): (r: map<nat, Hist>)
    requires TableValid(m)
    ensures TableValid(r)
    ensures key !in m && |m| >= MaxEntries ==> r == m
    ensures key in m || |m| < MaxEntries ==> key in r && r.Keys == m.Keys + {key}
  {
    if key !in m && |m| >= MaxEntries then m
    else m[key := Record(Base(m, key), Slot(Srtt(cfg, sk), log2l), Srtt(cfg, sk), cfg.showExt)]
  }

  /** The table after one receive event. */
  function OnTcpRcv(m: map<nat, Hist>, cfg: Config, sk: Sock, log2l: nat -> nat): (r: map<nat, Hist>)
    requires TableValid(m)
    ensures TableValid(r)
    ensures !Passes(cfg, sk) ==> r == m
  {
    if !Passes(cfg, sk) then m else Counted(m, Key(cfg, sk), cfg, sk, log2l)
  }

  /**
   * A counted event touches only its key's entry, and in it exactly the
   * sample's bucket, which grows by one unless it wraps; latency and cnt
   * move only in extended mode.
   */
  lemma RcvEffect(m: map<nat, Hist>, cfg: Config, sk: Sock, log2l: nat -> nat)
    requires TableValid(m)
    requires Passes(cfg, sk)
    requires Key(cfg, sk) in m || |m| < MaxEntries
    ensures var r, key := OnTcpRcv(m, cfg, sk, log2l), Key(cfg, sk);
      var b := Base(m, key);
      var srtt := Srtt(cfg, sk);
      var slot := Slot(srtt, log2l);
      && key in r
      && r.Keys == m.Keys + {key}
      && (forall k :: k in m && k != key ==> r[k] == m[k])
      && |r[key].slots| == |b.slots|
      && (forall i :: 0 <= i < |b.slots| && i != slot ==> r[key].slots[i] == b.slots[i])
      && r[key].slots[slot] == Inc32(b.slots[slot])
      && (b.slots[slot] < Two31 - 1 ==> r[key].slots[slot] == b.slots[slot] + 1)
      && (cfg.showExt ==> r[key].latency == (b.latency + srtt) % Two64 && r[key].cnt == (b.cnt + 1) % Two64)
      && (!cfg.showExt ==> r[key].latency == b.latency && r[key].cnt == b.cnt)
  {
  }

  /** A new key on a full table is not counted. */
  lemma FullTableDrops(m: map<nat, Hist>, cfg: Config, sk: Sock, log2l: nat -> nat)
    requires TableValid(m)
    requires Key(cfg, sk) !in m && |m| >= MaxEntries
    ensures OnTcpRcv(m, cfg, sk, log2l) == m
  {
  }

  /** The total of a histogram's buckets. */
  function SlotSum(s: seq<int>): (sum: int)
  {
    if s == [] then 0 else s[0] + SlotSum(s[1..])
  }

  lemma {:induction false} SlotSumUpdate(s: seq<int>, i: nat, v: int)
    requires i < |s|
    ensures SlotSum(s[i := v]) == SlotSum(s) - s[i] + v
  {
    if i > 0 {
      assert s[i := v][1..] == s[1..][i - 1 := v];
      SlotSumUpdate(s[1..], i - 1, v);
    }
  }

  lemma {:induction false} SlotBelowSum(s: seq<int>, i: nat)
    requires i < |s|
    requires forall j :: 0 <= j < |s| ==> s[j] >= 0
    ensures 0 <= s[i] <= SlotSum(s)
  {
    if i > 0 {
      SlotBelowSum(s[1..], i - 1);
    } else if |s| > 1 {
      SlotBelowSum(s[1..], 0);
    }
  }

  /** In extended mode, a record whose cnt is the number of samples its buckets hold. */
  predicate Tallied(h: Hist) {
    && (forall i :: 0 <= i < |h.slots| ==> h.slots[i] >= 0)
    && h.cnt == SlotSum(h.slots)
  }

  lemma {:induction false} ZeroTallied()
    ensures Tallied(Zero())
  {
    var s := Zero().slots;
    forall n | 0 <= n <= |s|
      ensures SlotSum(s[n..]) == 0
    {
      var k := |s| - n;
      ZeroSuffixSum(s, k);
    }
    assert s[0..] == s;
  }

  lemma {:induction false} ZeroSuffixSum(s: seq<int>, k: nat)
    requires k <= |s|
    requires forall i :: 0 <= i < |s| ==> s[i] == 0
    ensures SlotSum(s[|s| - k..]) == 0
  {
    if k > 0 {
      ZeroSuffixSum(s, k - 1);
      assert s[|s| - k..][1..] == s[|s| - (k - 1)..];
    }
  }

  /** Counting one sample in extended mode keeps cnt equal to the bucket total, short of int32 overflow. */
  lemma RecordKeepsTally(h: Hist, slot: nat, srtt: nat)
    requires WellFormed(h) && slot < MaxSlots
    requires Tallied(h) && h.cnt < Two31 - 1
    ensures Tallied(Record(h, slot, srtt, true))
    ensures Record(h, slot, srtt, true).cnt == h.cnt + 1
  {
    SlotBelowSum(h.slots, slot);
    SlotSumUpdate(h.slots, slot, h.slots[slot] + 1);
  }

  /**
   * In extended mode every record's cnt stays the number of samples its
   * buckets hold, so latency / cnt is the mean of what the buckets count.
   */
  lemma RcvKeepsTally(m: map<nat, Hist>, cfg: Config, sk: Sock, log2l: nat -> nat)
    requires TableValid(m) && cfg.showExt
    requires forall k :: k in m ==> Tallied(m[k]) && m[k].cnt < Two31 - 1
    ensures forall k :: k in OnTcpRcv(m, cfg, sk, log2l) ==> Tallied(OnTcpRcv(m, cfg, sk, log2l)[k])
  {
    var key := Key(cfg, sk);
    if Passes(cfg, sk) && (key in m || |m| < MaxEntries) {
      var b, srtt := Base(m, key), Srtt(cfg, sk);
      var slot := Slot(srtt, log2l);
      if key !in m {
        ZeroTallied();
      }
      assert Tallied(b) && b.cnt < Two31 - 1;
      RecordKeepsTally(b, slot, srtt);
      var r := m[key := Record(b, slot, srtt, true)];
      assert OnTcpRcv(m, cfg, sk, log2l) == r;
      assert forall k :: k in r ==> Tallied(r[k]);
    }
  }

  /** A second update of the same key replaces the first. */
  lemma Overwrite(m: map<nat, Hist>, key: nat, a: Hist, b: Hist)
    ensures m[key := a][key := b] == m[key := b]
  {
  }

  /** The `hists` hash table; its u64 keys are held as naturals below 2^64. */
  class HistTable {
    var entries: map<nat, Hist>

    ghost predicate Valid()
      reads this
    {
      TableValid(entries)
    }

    constructor ()
      ensures Valid() && entries == map[]
    {
      entries := map[];
    }

    /** Finds the key's record, inserting a zeroed one if the table has room. */
    method LookupOrTryInit(key: nat) returns (found: bool)
      requires Valid()
      modifies this
      ensures Valid()
      ensures found <==> key in old(entries) || |old(entries)| < MaxEntries
      ensures found ==> key in entries
      ensures entries == if key in old(entries) || !found then old(entries) else old(entries)[key := Zero()]
    {
      if key in entries {
        return true;
      }
      if |entries| >= MaxEntries {
        return false;
      }
      entries := entries[key := Zero()];
      assert |entries| == |old(entries)| + 1;
      assert forall k :: k in entries ==> WellFormed(entries[k]);
      found := true;
    }

    /** The atomic increments through the entry pointer: one bucket, then latency and cnt in extended mode. */
    method Count(key: nat, slot: nat, srtt: nat, showExt: bool)
      requires Valid() && key in entries && slot < MaxSlots
      modifies this
      ensures Valid()
      ensures entries == old(entries)[key := Record(old(entries)[key], slot, srtt, showExt)]
    {
      var h := entries[key];
      entries := entries[key := h.(slots := h.slots[slot := Inc32(h.slots[slot])])];
      if showExt {
        h := entries[key];
        entries := entries[key := h.(latency := (h.latency + srtt) % Two64)];
        h := entries[key];
        entries := entries[key := h.(cnt := (h.cnt + 1) % Two64)];
      }
      assert entries[key] == Record(old(entries)[key], slot, srtt, showExt);
    }

    /** The program attached to the TCP receive path, run for one socket. */
    method TcpRcv(cfg: Config, sk: Sock, log2l: nat -> nat)
      requires Valid()
      modifies this
      ensures Valid()
      ensures entries == OnTcpRcv(old(entries), cfg, sk, log2l)
    {
      if cfg.sport != 0 && cfg.sport != sk.sport {
        return;
      }
      if cfg.dport != 0 && cfg.dport != sk.dport {
        return;
      }
      if cfg.saddr != 0 && cfg.saddr != sk.saddr {
        return;
      }
      if cfg.daddr != 0 && cfg.daddr != sk.daddr {
        return;
      }

      var key: nat;
      if cfg.laddrHist {
        key := sk.saddr;
      } else if cfg.raddrHist {
        key := sk.daddr;
      } else {
        key := 0;
      }
      CountSample(key, cfg, sk, log2l);
    }

    /** The part of the program after the key is chosen: find or create the entry, then count srtt into it. */
    method CountSample(key: nat, cfg: Config, sk: Sock, log2l: nat -> nat)
      requires Valid()
      modifies this
      ensures Valid()
      ensures entries == Counted(old(entries), key, cfg, sk, log2l)
    {
      var found := LookupOrTryInit(key);
      if !found {
        return;
      }
      ghost var base := Base(old(entries), key);
      assert entries == old(entries)[key := base];

      var srtt := sk.srttUs / 8;
      if cfg.ms {
        srtt := srtt / 1000;
      }
      var slot := log2l(srtt);
      if slot >= MaxSlots {
        slot := MaxSlots - 1;
      }
      assert srtt == Srtt(cfg, sk) && slot == Slot(srtt, log2l);

      Count(key, slot, srtt, cfg.showExt);
      Overwrite(old(entries), key, base, Record(base, slot, srtt, cfg.showExt));
    }
  }
}
