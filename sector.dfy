/** The per-source state of the pool: pending links, dedup keys and the
    politeness clock, with the push and pop that put_link and sel_link do. */
module Sectors {
  import opened Links

  /** One source's bundle. `heap` holds the pending links (a bag from which a
      pop takes a link of maximum weight), `dedup` their keys, `interval` and
      `randomRange` the politeness configuration, and `visitableTime` the first
      second at which the source may be visited again. */
  datatype Sector = Sector(
    heap: seq<LinkInfo>,
    dedup: set<LinkKey>,
    interval: int,
    randomRange: int,
    visitableTime: int)

  /** 2010-01-01 12:00:00, in seconds since the Unix epoch: the clock value a
      freshly declared sector starts with, so it is open at every time from
      then on. */
  const PAST_SENTINEL: int := 1262347200

  /** The keys of the links in a heap. */
  ghost function KeySet(h: seq<LinkInfo>): set<LinkKey> {
    set i | 0 <= i < |h| :: h[i].Key()
  }

  /** No two pending links share a key. */
  ghost predicate KeysDistinct(h: seq<LinkInfo>) {
    forall i, j :: 0 <= i < j < |h| ==> h[i].Key() != h[j].Key()
  }

  /** The values randint(-r, r) draws from. */
  predicate InJitterRange(randomRange: int, offset: int) {
    -randomRange <= offset <= randomRange
  }

  /** The politeness configuration declare_source accepts: a jitter range
      that is neither negative nor larger than the interval. */
  predicate ConfigAccepted(interval: int, randomRange: int): (r: bool)
    ensures r ==> 0 <= interval && InJitterRange(randomRange, 0)
  {
    0 <= randomRange <= interval
  }

  /** declare_source's guard as written: it refuses only a jitter range
      larger than the interval, and so lets a negative range through. */
  predicate ConfigAcceptedAsWritten(interval: int, randomRange: int): (r: bool)
    ensures ConfigAccepted(interval, randomRange) ==> r
    ensures r && 0 <= randomRange ==> ConfigAccepted(interval, randomRange)
  {
    !(interval - randomRange < 0)
  }

  /** A negative range passes the guard as written although randint(-r, r)
      has no value to draw from. */
  lemma NegativeRangeAccepted()
    ensures ConfigAcceptedAsWritten(0, -1) && !ConfigAccepted(0, -1)
    ensures forall n :: !InJitterRange(-1, n)
  {
  }

  /** Under the accepted configuration every jitter draw keeps the delay
      interval + offset non-negative, so the next visit is never scheduled
      before the current one. */
  lemma AcceptedDelayNonNegative(interval: int, randomRange: int, offset: int)
    requires ConfigAccepted(interval, randomRange)
    requires InJitterRange(randomRange, offset)
    ensures 0 <= interval + offset <= 2 * interval
  {
  }

  /** What holds of the sector of source `id` between operations: its
      configuration was accepted, every pending link belongs to `id`, and the
      dedup set is exactly the keys of the pending links, one link per key. */
  ghost predicate SectorValid(id: string, s: Sector) {
    && ConfigAccepted(s.interval, s.randomRange)
    && (forall i :: 0 <= i < |s.heap| ==> s.heap[i].identifier == id)
    && KeysDistinct(s.heap)
    && s.dedup == KeySet(s.heap)
  }

  lemma {:induction false} KeySetSize(h: seq<LinkInfo>)
    requires KeysDistinct(h)
    ensures |KeySet(h)| == |h|
  {
    if h != [] {
      var n := |h| - 1;
      var init := h[..n];
      assert KeysDistinct(init);
      KeySetSize(init);
      assert KeySet(h) == KeySet(init) + {h[n].Key()};
      assert h[n].Key() !in KeySet(init);
    }
  }

  /** In a valid sector the heap and the dedup set have the same size. */
  lemma HeapSizeMatchesDedup(id: string, s: Sector)
    requires SectorValid(id, s)
    ensures |s.heap| == |s.dedup|
  {
    KeySetSize(s.heap);
  }

  /** Pushing a link of this source with a fresh key keeps the sector valid. */
  lemma PushKeepsValid(id: string, s: Sector, l: LinkInfo)
    requires SectorValid(id, s)
    requires l.identifier == id && l.Key() !in s.dedup
    ensures SectorValid(id, s.(heap := s.heap + [l], dedup := s.dedup + {l.Key()}))
  {
    var h := s.heap + [l];
    assert KeySet(h) == KeySet(s.heap) + {l.Key()} by {
      forall k | k in KeySet(h) ensures k in KeySet(s.heap) + {l.Key()} {
        var i :| 0 <= i < |h| && h[i].Key() == k;
        if i < |s.heap| { assert h[i] == s.heap[i]; }
      }
      forall k | k in KeySet(s.heap) ensures k in KeySet(h) {
        var i :| 0 <= i < |s.heap| && s.heap[i].Key() == k;
        assert h[i] == s.heap[i];
      }
      assert h[|s.heap|] == l;
    }
  }

  /** Removing the link at position k removes exactly its key. */
  lemma RemoveAtKeys(h: seq<LinkInfo>, k: nat)
    requires KeysDistinct(h) && k < |h|
    ensures KeysDistinct(h[..k] + h[k + 1..])
    ensures KeySet(h[..k] + h[k + 1..]) == KeySet(h) - {h[k].Key()}
  {
    var r := h[..k] + h[k + 1..];
    assert forall i :: 0 <= i < |r| ==> r[i] == h[if i < k then i else i + 1];
    forall key | key in KeySet(h) - {h[k].Key()} ensures key in KeySet(r) {
      var i :| 0 <= i < |h| && h[i].Key() == key;
      assert i != k;
      assert r[if i < k then i else i - 1] == h[i];
    }
  }

  /** Taking out the link at position k, with its key, keeps the sector valid
      and removes exactly that link from the bag of pending links. */
  lemma PopKeepsValid(id: string, s: Sector, k: nat)
    requires SectorValid(id, s) && k < |s.heap|
    ensures var rest := s.(heap := s.heap[..k] + s.heap[k + 1..], dedup := s.dedup - {s.heap[k].Key()});
      && SectorValid(id, rest)
      && multiset(rest.heap) + multiset{s.heap[k]} == multiset(s.heap)
  {
    var h := s.heap;
    var r := h[..k] + h[k + 1..];
    assert h == h[..k] + [h[k]] + h[k + 1..];
    RemoveAtKeys(h, k);
    assert forall j :: 0 <= j < |r| ==> r[j] == h[if j < k then j else j + 1];
  }

  /** heappop followed by dedup_set.remove: takes a link of maximum weight out
      of the heap and its key out of the dedup set; nothing else changes. */
  method PopMax(ghost id: string, s: Sector) returns (l: LinkInfo, rest: Sector)
    requires SectorValid(id, s) && |s.heap| > 0
    ensures l in s.heap && l.identifier == id
    ensures forall j :: 0 <= j < |s.heap| ==> s.heap[j].weight <= l.weight
    ensures multiset(rest.heap) + multiset{l} == multiset(s.heap)
    ensures rest.dedup == s.dedup - {l.Key()} && |rest.heap| == |s.heap| - 1
    ensures rest.interval == s.interval && rest.randomRange == s.randomRange
    ensures rest.visitableTime == s.visitableTime
    ensures SectorValid(id, rest)
  {
    var k := 0;
    var i := 1;
    while i < |s.heap|
      invariant 1 <= i <= |s.heap| && 0 <= k < i
      invariant forall j :: 0 <= j < i ==> s.heap[j].weight <= s.heap[k].weight
    {
      if s.heap[i].weight > s.heap[k].weight {
        k := i;
      }
      i := i + 1;
    }
    l := s.heap[k];
    rest := s.(heap := s.heap[..k] + s.heap[k + 1..], dedup := s.dedup - {l.Key()});
    PopKeepsValid(id, s, k);
  }
}
