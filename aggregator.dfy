/**
  The windowed flow aggregator of feature_store.py.

  Packets are accumulated into buckets keyed by (source address, window index),
  where the window index is floor(ts / W).  A rate-limited flush turns every
  bucket of a window that has already closed into a feature record and removes
  it from the table.

  Timestamps are integers in the same unit as the window length W.
*/
module Aggregator {
  import opened Wrappers

  /** A window length: the source divides by it, so it is positive. */
  type PosInt = x: int | x > 0 witness 1

  datatype WindowKey = WindowKey(srcIp: string, win: int)

  /** One accumulator; `firstTs`/`lastTs` are None until the first packet. */
  datatype Bucket = Bucket(
    firstTs: Option<int>,
    lastTs: Option<int>,
    packets: int,
    bytes: int,
    dstPorts: set<int>,
    protocols: set<int>)

  datatype FeatureRecord = FeatureRecord(
    windowStart: int,
    srcIp: string,
    packets: int,
    bytes: int,
    uniqueDstPorts: nat,
    duration: int,
    protocolCount: nat)

  /** One captured packet, as handed to `IngestPacket`. */
  datatype Packet = Packet(
    srcIp: string,
    dstIp: string,
    dstPort: Option<int>,
    proto: Option<int>,
    size: int,
    ts: int)

  // ---------------------------------------------------------------------------
  // Windows and keys

  /** The bucket key of a packet from `srcIp` observed at `ts`: floor division
      places `ts` inside the half-open window [win * w, (win + 1) * w). */
  function KeyOf(srcIp: string, ts: int, w: PosInt): (k: WindowKey)
    ensures k.srcIp == srcIp
    ensures k.win * w <= ts < (k.win + 1) * w
  {
    WindowKey(srcIp, ts / w)
  }

  lemma MulMonotone(a: int, b: int, w: PosInt)
    requires a <= b
    ensures a * w <= b * w
  {
    var d := b - a;
    assert b * w == a * w + d * w;
  }

  /** The window index is the only k with k * w <= ts < (k + 1) * w: two
      packets of one source land in one bucket exactly when their timestamps
      fall in the same interval [k * w, (k + 1) * w). */
  lemma KeyOfIff(srcIp: string, ts: int, k: int, w: PosInt)
    ensures KeyOf(srcIp, ts, w) == WindowKey(srcIp, k) <==> k * w <= ts < (k + 1) * w
  {
    var j := KeyOf(srcIp, ts, w).win;
    if k * w <= ts < (k + 1) * w {
      if j < k {
        MulMonotone(j + 1, k, w);
        assert false;
      } else if k < j {
        MulMonotone(k + 1, j, w);
        assert false;
      }
    }
  }

  /** For integer `a`: a <= floor(n / w) exactly when a * w <= n. */
  lemma FloorDivBound(a: int, n: int, w: PosInt)
    ensures a <= n / w <==> a * w <= n
  {
    var q := n / w;
    assert q * w <= n < (q + 1) * w;
    if a <= q {
      MulMonotone(a, q, w);
    } else {
      MulMonotone(q + 1, a, w);
    }
  }

  // ---------------------------------------------------------------------------
  // Ingestion, as a specification on values

  /** Python's truthiness of an optional port or protocol: None and 0 are not
      recorded. */
  function Recorded(o: Option<int>): set<int>
  {
    if o.Some? && o.value != 0 then {o.value} else {}
  }

  /** The bucket the defaultdict hands out on first access. */
  function EmptyBucket(): Bucket
  {
    Bucket(None, None, 0, 0, {}, {})
  }

  /** Look-up with the defaultdict's fallback. */
  function BucketAt(m: map<WindowKey, Bucket>, k: WindowKey): Bucket
  {
    if k in m then m[k] else EmptyBucket()
  }

  /** The effect of one packet on its bucket. */
  function Absorb(b: Bucket, p: Packet): Bucket
  {
    Bucket(
      if b.firstTs.None? then Some(p.ts) else b.firstTs,
      Some(p.ts),
      b.packets + 1,
      b.bytes + p.size,
      b.dstPorts + Recorded(p.dstPort),
      b.protocols + Recorded(p.proto))
  }

  /** The table after ingesting one packet: its bucket gains exactly one packet
      and `size` bytes, the first timestamp is set only on a fresh bucket, the
      last timestamp becomes the packet's, and every other bucket is unchanged. */
  function IngestOne(m: map<WindowKey, Bucket>, w: PosInt, p: Packet): (r: map<WindowKey, Bucket>)
    ensures KeyOf(p.srcIp, p.ts, w) in r
    ensures r.Keys == m.Keys + {KeyOf(p.srcIp, p.ts, w)}
    ensures var k := KeyOf(p.srcIp, p.ts, w);
            var old_ := BucketAt(m, k);
            && r[k].packets == old_.packets + 1
            && r[k].bytes == old_.bytes + p.size
            && r[k].firstTs == (if old_.firstTs.None? then Some(p.ts) else old_.firstTs)
            && r[k].lastTs == Some(p.ts)
            && r[k].dstPorts == old_.dstPorts + Recorded(p.dstPort)
            && r[k].protocols == old_.protocols + Recorded(p.proto)
    ensures forall k :: k in m && k != KeyOf(p.srcIp, p.ts, w) ==> r[k] == m[k]
  {
    var k := KeyOf(p.srcIp, p.ts, w);
    m[k := Absorb(BucketAt(m, k), p)]
  }

  /** A stream of packets ingested one after the other. */
  function IngestAll(m: map<WindowKey, Bucket>, w: PosInt, ps: seq<Packet>): map<WindowKey, Bucket>
  {
    if |ps| == 0 then m else IngestOne(IngestAll(m, w, ps[..|ps| - 1]), w, ps[|ps| - 1])
  }

  /** The packets of `ps`, in order, that belong to bucket `k`. */
  function InBucket(ps: seq<Packet>, k: WindowKey, w: PosInt): seq<Packet>
  {
    if |ps| == 0 then []
    else
      var last := ps[|ps| - 1];
      InBucket(ps[..|ps| - 1], k, w) + (if KeyOf(last.srcIp, last.ts, w) == k then [last] else [])
  }

  function TotalSize(ps: seq<Packet>): int
  {
    if |ps| == 0 then 0 else TotalSize(ps[..|ps| - 1]) + ps[|ps| - 1].size
  }

  function PortsOf(ps: seq<Packet>): set<int>
  {
    if |ps| == 0 then {} else PortsOf(ps[..|ps| - 1]) + Recorded(ps[|ps| - 1].dstPort)
  }

  function ProtocolsOf(ps: seq<Packet>): set<int>
  {
    if |ps| == 0 then {} else ProtocolsOf(ps[..|ps| - 1]) + Recorded(ps[|ps| - 1].proto)
  }

  /** All packets of one source and window combine into one bucket: counts and
      byte totals add up, port and protocol sets are unions, the first
      timestamp is kept once set, and the last timestamp is that of the most
      recently ingested packet (not the largest). */
  lemma {:induction false} IngestAllBucket(m: map<WindowKey, Bucket>, w: PosInt, ps: seq<Packet>, k: WindowKey)
    ensures var sel := InBucket(ps, k, w);
            var b0 := BucketAt(m, k);
            var b := BucketAt(IngestAll(m, w, ps), k);
            && (k in IngestAll(m, w, ps) <==> k in m || |sel| > 0)
            && b.packets == b0.packets + |sel|
            && b.bytes == b0.bytes + TotalSize(sel)
            && b.dstPorts == b0.dstPorts + PortsOf(sel)
            && b.protocols == b0.protocols + ProtocolsOf(sel)
            && b.lastTs == (if |sel| == 0 then b0.lastTs else Some(sel[|sel| - 1].ts))
            && b.firstTs == (if b0.firstTs.Some? || |sel| == 0 then b0.firstTs else Some(sel[0].ts))
  {
    if |ps| > 0 {
      var init, last := ps[..|ps| - 1], ps[|ps| - 1];
      IngestAllBucket(m, w, init, k);
      var sel0 := InBucket(init, k, w);
      var sel := InBucket(ps, k, w);
      if KeyOf(last.srcIp, last.ts, w) == k {
        assert sel == sel0 + [last];
        assert sel[..|sel| - 1] == sel0;
        assert TotalSize(sel) == TotalSize(sel0) + last.size;
        assert PortsOf(sel) == PortsOf(sel0) + Recorded(last.dstPort);
        assert ProtocolsOf(sel) == ProtocolsOf(sel0) + Recorded(last.proto);
      } else {
        assert sel == sel0;
      }
    }
  }

  ghost predicate NonDecreasing(ps: seq<Packet>)
  {
    forall i, j :: 0 <= i < j < |ps| ==> ps[i].ts <= ps[j].ts
  }

  /** Every bucket built from packets whose timestamps never go backwards has
      both timestamps set, in order, and none later than the last packet. */
  lemma {:induction false} OrderedBuckets(w: PosInt, ps: seq<Packet>)
    requires NonDecreasing(ps)
    ensures forall k :: k in IngestAll(map[], w, ps) ==>
              var b := IngestAll(map[], w, ps)[k];
              && b.firstTs.Some? && b.lastTs.Some?
              && b.firstTs.value <= b.lastTs.value <= ps[|ps| - 1].ts
  {
    if |ps| > 0 {
      var init, last := ps[..|ps| - 1], ps[|ps| - 1];
      OrderedBuckets(w, init);
      var m0 := IngestAll(map[], w, init);
      forall k | k in IngestAll(map[], w, ps)
        ensures var b := IngestAll(map[], w, ps)[k];
                && b.firstTs.Some? && b.lastTs.Some?
                && b.firstTs.value <= b.lastTs.value <= last.ts
      {
        if k in m0 {
          assert |init| > 0;
          assert init[|init| - 1].ts <= last.ts;
        }
      }
    }
  }

  // ---------------------------------------------------------------------------
  // Flush, as a specification on values

  /** The record emitted for a bucket; the duration is 0 when either timestamp
      is missing or zero (falsy in the source). */
  function Duration(b: Bucket): int
  {
    if b.firstTs.Some? && b.firstTs.value != 0 && b.lastTs.Some? && b.lastTs.value != 0
    then b.lastTs.value - b.firstTs.value
    else 0
  }

  /** The key a record was emitted from, recovered from its window start. */
  function RecordKey(r: FeatureRecord, w: PosInt): WindowKey
  {
    WindowKey(r.srcIp, r.windowStart / w)
  }

  /** A bucket's feature record; its window start identifies the bucket again. */
  function ToFeature(k: WindowKey, b: Bucket, w: PosInt): (r: FeatureRecord)
    ensures r.windowStart == k.win * w && r.srcIp == k.srcIp
    ensures r.packets == b.packets && r.bytes == b.bytes
    ensures r.uniqueDstPorts == |b.dstPorts| && r.protocolCount == |b.protocols|
    ensures r.duration == Duration(b)
    ensures RecordKey(r, w) == k
  {
    KeyOfIff(k.srcIp, k.win * w, k.win, w);
    FeatureRecord(k.win * w, k.srcIp, b.packets, b.bytes, |b.dstPorts|, Duration(b), |b.protocols|)
  }

  /** The last window index that a flush at `now` emits: every window before the
      current one. */
  function Cutoff(now: int, w: PosInt): int
  {
    now / w - 1
  }

  /** Keys whose window is at or before the cutoff. */
  function Eligible(m: map<WindowKey, Bucket>, cutoff: int): set<WindowKey>
  {
    set k | k in m && k.win <= cutoff
  }

  /** The table a flush leaves behind: exactly the buckets of later windows,
      each unchanged. */
  function Remaining(m: map<WindowKey, Bucket>, cutoff: int): (r: map<WindowKey, Bucket>)
    ensures forall k :: k in r <==> k in m && k.win > cutoff
    ensures forall k :: k in r ==> r[k] == m[k]
    ensures r.Keys !! Eligible(m, cutoff) && r.Keys + Eligible(m, cutoff) == m.Keys
  {
    m - Eligible(m, cutoff)
  }

  /** `emitted` holds the record of every eligible bucket of `m`, and nothing
      else, each exactly once. */
  ghost predicate EmitsExactly(emitted: seq<FeatureRecord>, m: map<WindowKey, Bucket>, cutoff: int, w: PosInt)
  {
    && (forall i :: 0 <= i < |emitted| ==>
          var k := RecordKey(emitted[i], w);
          k in Eligible(m, cutoff) && emitted[i] == ToFeature(k, m[k], w))
    && (forall k :: k in Eligible(m, cutoff) ==> ToFeature(k, m[k], w) in emitted)
    && (forall i, j :: 0 <= i < j < |emitted| ==> emitted[i] != emitted[j])
  }

  /** A bucket is emitted by a flush at `now` exactly when its window has
      fully elapsed: its end (win + 1) * W is not after `now`. */
  lemma EligibleIffClosed(m: map<WindowKey, Bucket>, k: WindowKey, now: int, w: PosInt)
    ensures k in Eligible(m, Cutoff(now, w)) <==> k in m && (k.win + 1) * w <= now
  {
    FloorDivBound(k.win + 1, now, w);
  }

  /** After a flush at `now`, packets timestamped at or after `now` never
      re-create a bucket that was emitted: each emitted key stays absent. */
  lemma {:induction false} FlushedKeysStayAbsent(m: map<WindowKey, Bucket>, w: PosInt, now: int, ps: seq<Packet>)
    requires forall i :: 0 <= i < |ps| ==> now <= ps[i].ts
    ensures forall k :: k in Eligible(m, Cutoff(now, w)) ==> k !in IngestAll(Remaining(m, Cutoff(now, w)), w, ps)
  {
    if |ps| > 0 {
      var last := ps[|ps| - 1];
      FlushedKeysStayAbsent(m, w, now, ps[..|ps| - 1]);
      FloorDivBound(now / w, last.ts, w);
      assert KeyOf(last.srcIp, last.ts, w).win > Cutoff(now, w);
    }
  }

  /** A late packet for a window that was already flushed starts a fresh
      bucket under the same key, holding that packet alone. */
  lemma LateArrivalStartsFresh(m: map<WindowKey, Bucket>, w: PosInt, cutoff: int, p: Packet)
    requires KeyOf(p.srcIp, p.ts, w).win <= cutoff
    ensures var b := IngestOne(Remaining(m, cutoff), w, p)[KeyOf(p.srcIp, p.ts, w)];
            && b.packets == 1 && b.bytes == p.size
            && b.firstTs == Some(p.ts) && b.lastTs == Some(p.ts)
            && b.dstPorts == Recorded(p.dstPort) && b.protocols == Recorded(p.proto)
  {
  }

  /** A bucket created by a packet stream (for instance one re-created after a
      flush) has a non-negative duration when its own packets arrive in
      timestamp order, whatever else the table holds. */
  lemma FreshBucketDuration(m: map<WindowKey, Bucket>, w: PosInt, ps: seq<Packet>, k: WindowKey)
    requires k !in m
    requires NonDecreasing(InBucket(ps, k, w)) && |InBucket(ps, k, w)| > 0
    ensures k in IngestAll(m, w, ps)
    ensures Duration(IngestAll(m, w, ps)[k]) >= 0
  {
    IngestAllBucket(m, w, ps, k);
    var sel := InBucket(ps, k, w);
    assert sel[0].ts <= sel[|sel| - 1].ts by {
      if |sel| > 1 { assert 0 < |sel| - 1; }
    }
  }

  /** A bucket that survives a flush keeps a non-negative duration when none
      of its later packets is timestamped before its first timestamp. */
  lemma SurvivingBucketDuration(m: map<WindowKey, Bucket>, w: PosInt, ps: seq<Packet>, k: WindowKey)
    requires k in m && m[k].firstTs.Some? && m[k].lastTs.Some?
    requires m[k].firstTs.value <= m[k].lastTs.value
    requires forall i :: 0 <= i < |InBucket(ps, k, w)| ==> m[k].firstTs.value <= InBucket(ps, k, w)[i].ts
    ensures k in IngestAll(m, w, ps)
    ensures Duration(IngestAll(m, w, ps)[k]) >= 0
  {
    IngestAllBucket(m, w, ps, k);
  }

  /** The feature record of a window built from a packet stream starting from
      an empty table: counts add up, distinct ports and protocols are counted
      once, and the duration is never negative when timestamps never decrease. */
  lemma WindowFeature(w: PosInt, ps: seq<Packet>, k: WindowKey)
    requires NonDecreasing(ps)
    requires |InBucket(ps, k, w)| > 0
    ensures k in IngestAll(map[], w, ps)
    ensures var sel := InBucket(ps, k, w);
            var r := ToFeature(k, IngestAll(map[], w, ps)[k], w);
            && r.windowStart == k.win * w && r.srcIp == k.srcIp
            && r.packets == |sel|
            && r.bytes == TotalSize(sel)
            && r.uniqueDstPorts == |PortsOf(sel)|
            && r.protocolCount == |ProtocolsOf(sel)|
            && r.duration >= 0
  {
    IngestAllBucket(map[], w, ps, k);
    OrderedBuckets(w, ps);
  }

  // ---------------------------------------------------------------------------
  // The feature store itself

  class FeatureStore {
    const windowSeconds: PosInt
    var buckets: map<WindowKey, Bucket>
    var lastEmit: int

    /** `lastEmit` is the clock reading taken at construction. */
    constructor (windowSeconds: PosInt, lastEmit: int)
      ensures this.windowSeconds == windowSeconds
      ensures buckets == map[] && this.lastEmit == lastEmit
    {
      this.windowSeconds := windowSeconds;
      buckets := map[];
      this.lastEmit := lastEmit;
    }

    /** Records one packet into its bucket, creating the bucket if absent.
        `dstIp` is accepted and ignored, as in the source. */
    method IngestPacket(srcIp: string, dstIp: string, dstPort: Option<int>, proto: Option<int>, size: int, ts: int)
      modifies this
      ensures buckets == IngestOne(old(buckets), windowSeconds, Packet(srcIp, dstIp, dstPort, proto, size, ts))
      ensures lastEmit == old(lastEmit)
    {
      var key := KeyOf(srcIp, ts, windowSeconds);
      var b := BucketAt(buckets, key);
      if b.firstTs.None? {
        b := b.(firstTs := Some(ts));
      }
      b := b.(lastTs := Some(ts));
      b := b.(packets := b.packets + 1);
      b := b.(bytes := b.bytes + size);
      if dstPort.Some? && dstPort.value != 0 {
        b := b.(dstPorts := b.dstPorts + {dstPort.value});
      }
      if proto.Some? && proto.value != 0 {
        b := b.(protocols := b.protocols + {proto.value});
      }
      assert b == Absorb(BucketAt(old(buckets), key), Packet(srcIp, dstIp, dstPort, proto, size, ts));
      buckets := buckets[key := b];
    }

    /** The rate-limited flush.  Within W of the previous flush nothing is
        scanned or changed; otherwise every bucket of a window before the
        current one is emitted once and removed, later buckets stay as they
        were, and `lastEmit` moves to `now` even when nothing is emitted. */
    method MaybeEmitFeatures(now: int) returns (emitted: seq<FeatureRecord>)
      modifies this
      ensures now - old(lastEmit) < windowSeconds ==>
                emitted == [] && buckets == old(buckets) && lastEmit == old(lastEmit)
      ensures now - old(lastEmit) >= windowSeconds ==>
                && lastEmit == now
                && buckets == Remaining(old(buckets), Cutoff(now, windowSeconds))
                && EmitsExactly(emitted, old(buckets), Cutoff(now, windowSeconds), windowSeconds)
    {
      emitted := [];
      if now - lastEmit < windowSeconds {
        return;
      }
      var cutoff := now / windowSeconds - 1;
      var items := buckets;
      var todo := items.Keys;
      var keysToRemove: seq<WindowKey> := [];
      while todo != {}
        invariant todo <= items.Keys
        invariant |emitted| == |keysToRemove|
        invariant forall i :: 0 <= i < |keysToRemove| ==>
                    keysToRemove[i] in items && keysToRemove[i] !in todo && keysToRemove[i].win <= cutoff
                    && emitted[i] == ToFeature(keysToRemove[i], items[keysToRemove[i]], windowSeconds)
        invariant forall i, j :: 0 <= i < j < |keysToRemove| ==> keysToRemove[i] != keysToRemove[j]
        invariant forall k :: k in items && k !in todo && k.win <= cutoff ==> k in keysToRemove
        decreases todo
      {
        var k :| k in todo;
        if k.win <= cutoff {
          emitted := emitted + [ToFeature(k, items[k], windowSeconds)];
          keysToRemove := keysToRemove + [k];
        }
        todo := todo - {k};
      }
      var i := 0;
      while i < |keysToRemove|
        invariant 0 <= i <= |keysToRemove|
        invariant buckets == items - set j | 0 <= j < i :: keysToRemove[j]
      {
        buckets := buckets - {keysToRemove[i]};
        i := i + 1;
      }
      assert (set j | 0 <= j < |keysToRemove| :: keysToRemove[j]) == Eligible(items, cutoff);
      lastEmit := now;
    }
  }
}
