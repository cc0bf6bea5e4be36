/** The crawl scheduling queue: a registry of sources with their sectors, the
    priority list that orders them, the last-visit map, and the put and
    select operations that tie them together. */
module Pool {
  import opened Links
  import opened Sectors
  import opened PriorityList
  import opened Selection

  /** put_link's return codes. */
  const PUT_ACCEPTED: int := 0
  const PUT_DUPLICATE: int := 1
  const PUT_REJECTED: int := -1

  /** The errors the pool raises; Done stands for the return value 0. */
  datatype PoolError = AlreadyDisposed | InvalidConfig | DuplicateSource | UnknownSource
  datatype Outcome = Done | Failed(error: PoolError)

  /** Some declared identifier of a non-empty registry. */
  ghost function PickKey(m: map<string, Sector>): (k: string)
    requires m != map[]
    ensures k in m
  {
    var k :| k in m; k
  }

  lemma RemoveKeyShrinks(m: map<string, Sector>, k: string)
    requires k in m
    ensures |m - {k}| == |m| - 1
  {
    assert (m - {k}).Keys == m.Keys - {k};
  }

  /** The number of pending links over all sectors. */
  ghost function TotalOf(m: map<string, Sector>): nat
    decreases |m|
  {
    if m == map[] then 0
    else
      var k := PickKey(m);
      RemoveKeyShrinks(m, k);
      |m[k].heap| + TotalOf(m - {k})
  }

  /** The total does not depend on which sector is counted first. */
  lemma {:induction false} TotalOfRemove(m: map<string, Sector>, k: string)
    requires k in m
    ensures TotalOf(m) == |m[k].heap| + TotalOf(m - {k})
    decreases |m|
  {
    var j := PickKey(m);
    if j != k {
      RemoveKeyShrinks(m, j);
      RemoveKeyShrinks(m, k);
      TotalOfRemove(m - {j}, k);
      TotalOfRemove(m - {k}, j);
      assert m - {j} - {k} == m - {k} - {j};
    }
  }

  /** Replacing one sector changes the total by the change in its size. */
  lemma TotalOfUpdate(m: map<string, Sector>, k: string, s: Sector)
    requires k in m
    ensures TotalOf(m[k := s]) + |m[k].heap| == TotalOf(m) + |s.heap|
  {
    TotalOfRemove(m, k);
    TotalOfRemove(m[k := s], k);
    assert m[k := s] - {k} == m - {k};
  }

  /** No link is pending exactly when every sector's heap is empty. */
  lemma {:induction false} TotalOfZero(m: map<string, Sector>)
    ensures TotalOf(m) == 0 <==> forall id :: id in m ==> m[id].heap == []
    decreases |m|
  {
    if m != map[] {
      var k := PickKey(m);
      RemoveKeyShrinks(m, k);
      TotalOfZero(m - {k});
      assert forall id :: id in m - {k} ==> (m - {k})[id] == m[id];
    }
  }

  /** Every link queued in some sector of m. */
  ghost function LinksOf(m: map<string, Sector>): set<LinkInfo> {
    set id, i | id in m && 0 <= i < |m[id].heap| :: m[id].heap[i]
  }

  /** The state sel_link leaves in the registry after taking `l` from source
      `id` at time `now` with jitter `offset`: l was a pending link of maximum
      weight, it and its key are gone, the clock moved to now + interval +
      offset, and every other sector is as it was. */
  ghost predicate Popped(m: map<string, Sector>, m': map<string, Sector>, id: string, l: LinkInfo, now: int, offset: int) {
    && id in m && id in m'
    && var s, s' := m[id], m'[id];
    && l in s.heap && l.identifier == id
    && (forall j :: 0 <= j < |s.heap| ==> s.heap[j].weight <= l.weight)
    && multiset(s'.heap) + multiset{l} == multiset(s.heap)
    && s'.dedup == s.dedup - {l.Key()}
    && s'.interval == s.interval && s'.randomRange == s.randomRange
    && s'.visitableTime == now + s.interval + offset
    && m' == m[id := s']
  }

  /** dispose's walk over the registry: every link queued in any sector is
      marked abandoned. */
  method AbandonAll(m: map<string, Sector>)
    modifies LinksOf(m)
    ensures forall l :: l in LinksOf(m) ==> l.status == Aban
  {
    var rest := m;
    while rest != map[]
      invariant rest.Keys <= m.Keys
      invariant forall k :: k in rest ==> rest[k] == m[k]
      invariant forall k, j :: k in m && k !in rest && 0 <= j < |m[k].heap| ==> m[k].heap[j].status == Aban
      decreases |rest|
    {
      var id :| id in rest;
      assert forall l :: l in rest[id].heap ==> l in LinksOf(m);
      MarkAbandoned(rest[id].heap);
      assert rest.Keys - {id} < rest.Keys;
      rest := rest - {id};
    }
  }

  /** Every sector of the registry is valid for its identifier. */
  ghost predicate SectorsValid(m: map<string, Sector>) {
    forall id {:trigger SectorValid(id, m[id])} :: id in m ==> SectorValid(id, m[id])
  }

  /** The invariant of the pool's state between operations: an identifier is
      registered exactly when it occurs once in the priority list, which is
      strictly descending with no empty group; the last-visit map covers the
      same identifiers; every sector is valid; a disposed pool is empty. */
  ghost predicate PoolInvariant(m: map<string, Sector>, pl: seq<Group>, lv: map<string, Option<int>>, disposed: bool) {
    && (disposed ==> m == map[] && pl == [] && lv == map[])
    && lv.Keys == m.Keys
    && WellFormed(pl)
    && multiset(Members(pl)) == multiset(m.Keys)
    && SectorsValid(m)
  }

  /** Replacing the sector of a declared identifier by a valid one, and the
      last-visit entries by ones over the same identifiers, keeps the
      invariant. */
  lemma SectorUpdateKeepsInvariant(
    m: map<string, Sector>, pl: seq<Group>, lv: map<string, Option<int>>, disposed: bool,
    id: string, s: Sector, lv': map<string, Option<int>>)
    requires PoolInvariant(m, pl, lv, disposed)
    requires id in m && SectorValid(id, s) && lv'.Keys == lv.Keys
    ensures PoolInvariant(m[id := s], pl, lv', disposed)
  {
    assert m[id := s].Keys == m.Keys;
  }

  /** declare_source's new state keeps the invariant: a new identifier with a
      valid sector, inserted into the priority list and the last-visit map. */
  lemma DeclareKeepsInvariant(
    m: map<string, Sector>, pl: seq<Group>, lv: map<string, Option<int>>,
    id: string, s: Sector, priority: int)
    requires PoolInvariant(m, pl, lv, false)
    requires id !in m && SectorValid(id, s)
    ensures PoolInvariant(m[id := s], InsertGroup(pl, id, priority), lv[id := None], false)
  {
    InsertGroupWellFormed(pl, id, priority);
    InsertGroupMembers(pl, id, priority);
    assert m[id := s].Keys == m.Keys + {id};
    assert multiset(m[id := s].Keys) == multiset(m.Keys) + multiset{id};
  }

  /** cleanup_source's new state keeps the invariant: a declared identifier
      taken out of the registry, the priority list and the last-visit map. */
  lemma CleanupKeepsInvariant(
    m: map<string, Sector>, pl: seq<Group>, lv: map<string, Option<int>>, id: string)
    requires PoolInvariant(m, pl, lv, false)
    requires id in m
    ensures PoolInvariant(m - {id}, RemoveMember(pl, id), lv - {id}, false)
  {
    RemoveMemberWellFormed(pl, id);
    RemoveMemberMembers(pl, id);
    assert (m - {id}).Keys == m.Keys - {id};
    assert multiset((m - {id}).Keys) == multiset(m.Keys) - multiset{id};
  }

  /** The drain loop of the test case makes progress: while links are
      pending and every gate is open, sel_link finds a link. */
  lemma PendingIsSelectable(
    m: map<string, Sector>, pl: seq<Group>, lv: map<string, Option<int>>, disposed: bool,
    orders: seq<seq<string>>, now: int)
    requires PoolInvariant(m, pl, lv, disposed) && VisitOrders(pl, orders)
    requires TotalOf(m) > 0
    requires forall id :: id in m ==> m[id].visitableTime <= now
    ensures Winner(orders, m, now).Some?
  {
    TotalOfZero(m);
    var id :| id in m && m[id].heap != [];
    assert id in multiset(m.Keys);
    assert id in Members(pl);
    MemberHasGroup(pl, id);
    var g :| 0 <= g < |pl| && id in pl[g].ids;
    WinnerRespectsPriority(pl, orders, m, now, g, id);
  }

  /** put_link deduplicates on the request, not on the link object: a
      second link of the same source with the same url, post data and
      headers is reported as a duplicate even when its weight differs. */
  method PutSameRequestTwice(lp: LinkPool, a: LinkInfo, b: LinkInfo) returns (first: int, second: int)
    requires lp.Valid() && !lp.disposed
    requires a.identifier in lp.identifierMap && a.Key() !in lp.identifierMap[a.identifier].dedup
    requires b.identifier == a.identifier && b.url == a.url && b.post == a.post && b.headers == a.headers
    modifies lp, a, b
    ensures first == PUT_ACCEPTED && second == PUT_DUPLICATE
  {
    first := lp.PutLink(a);
    second := lp.PutLink(b);
  }

  class LinkPool {
    /** identifier -> sector */
    var identifierMap: map<string, Sector>
    /** (priority, identifiers) groups, highest priority first */
    var plist: seq<Group>
    /** identifier -> time its heap last became empty through a select, or None */
    var lastVisit: map<string, Option<int>>
    var disposed: bool

    ghost predicate Valid()
      reads this
    {
      PoolInvariant(identifierMap, plist, lastVisit, disposed)
    }

    constructor ()
      ensures Valid()
      ensures identifierMap == map[] && plist == [] && lastVisit == map[] && !disposed
    {
      identifierMap := map[];
      plist := [];
      lastVisit := map[];
      disposed := false;
    }

    /** The links queued in the sector of `id`. */
    ghost function SectorLinks(id: string): set<LinkInfo>
      reads this
    {
      if id in identifierMap then set l | l in identifierMap[id].heap else {}
    }

    /** Every link queued in the pool. */
    ghost function QueuedLinks(): set<LinkInfo>
      reads this
    {
      LinksOf(identifierMap)
    }

    /** An identifier is in the registry exactly when it lies in exactly one
        priority group. */
    lemma RegisteredInExactlyOneGroup(id: string)
      requires Valid()
      ensures id in identifierMap ==> exists g :: 0 <= g < |plist| && id in plist[g].ids
      ensures id !in identifierMap ==> forall g :: 0 <= g < |plist| ==> id !in plist[g].ids
      ensures forall g1, g2 :: 0 <= g1 < |plist| && 0 <= g2 < |plist| && id in plist[g1].ids && id in plist[g2].ids ==> g1 == g2
    {
      assert multiset(Members(plist))[id] == if id in identifierMap then 1 else 0;
      OccurrenceGroups(plist, id);
    }

    /** PendingLinks: -1 once disposed, otherwise the number of pending links. */
    method PendingLinks() returns (total: int)
      ensures disposed ==> total == -1
      ensures !disposed ==> total == TotalOf(identifierMap)
    {
      if disposed {
        return -1;
      }
      total := 0;
      var rest := identifierMap;
      while rest != map[]
        invariant total >= 0 && total + TotalOf(rest) == TotalOf(identifierMap)
        decreases |rest|
      {
        var id :| id in rest;
        TotalOfRemove(rest, id);
        total := total + |rest[id].heap|;
        assert rest.Keys - {id} < rest.Keys;
        rest := rest - {id};
      }
    }

    /** PendingLinksDist: the disposed sentinel once disposed, otherwise the
        number of pending links of every declared source. */
    method PendingLinksDist() returns (r: Option<map<string, nat>>)
      ensures disposed <==> r.None?
      ensures r.Some? ==> r.value.Keys == identifierMap.Keys
      ensures r.Some? ==> forall id :: id in r.value ==> r.value[id] == |identifierMap[id].heap|
    {
      if disposed {
        return None;
      }
      var dist: map<string, nat> := map[];
      var rest := identifierMap;
      while rest != map[]
        invariant rest.Keys <= identifierMap.Keys
        invariant forall k :: k in rest ==> rest[k] == identifierMap[k]
        invariant dist.Keys == identifierMap.Keys - rest.Keys
        invariant forall id :: id in dist ==> dist[id] == |identifierMap[id].heap|
        decreases |rest|
      {
        var id :| id in rest;
        dist := dist[id := |rest[id].heap|];
        assert rest.Keys - {id} < rest.Keys;
        rest := rest - {id};
      }
      return Some(dist);
    }

    /** LastLinksVisit: a copy of the last-visit map, which covers exactly
        the declared sources and is empty after dispose. */
    function LastLinksVisit(): (r: map<string, Option<int>>)
      reads this
      requires Valid()
      ensures r.Keys == identifierMap.Keys
      ensures disposed ==> r == map[]
    {
      lastVisit
    }

    /** get_pending_links: the (url, weight) of every pending link of `id`,
        unsorted; nothing for an unknown identifier. */
    function GetPendingLinks(id: string): (r: seq<(string, int)>)
      reads this
      requires Valid()
      ensures id !in identifierMap ==> r == []
      ensures id in identifierMap ==> |r| == |identifierMap[id].heap| == |identifierMap[id].dedup|
      ensures id in identifierMap ==> forall i :: 0 <= i < |r| ==>
        r[i] == (identifierMap[id].heap[i].url, identifierMap[id].heap[i].weight)
    {
      if id !in identifierMap then []
      else
        var h := identifierMap[id].heap;
        HeapSizeMatchesDedup(id, identifierMap[id]);
        seq(|h|, i requires 0 <= i < |h| => (h[i].url, h[i].weight))
    }

    /** total_pending_link: the number of pending links of `id`, which equals
        its number of dedup keys; None (the source's empty list) for an
        unknown identifier. */
    function TotalPendingLink(id: string): (r: Option<nat>)
      reads this
      requires Valid()
      ensures r.None? <==> id !in identifierMap
      ensures r.Some? ==> r.value == |identifierMap[id].dedup|
    {
      if id !in identifierMap then None
      else
        HeapSizeMatchesDedup(id, identifierMap[id]);
        Some(|identifierMap[id].heap|)
    }

    /** declare_source. Fails, changing nothing, when the pool is disposed,
        when the configuration is not accepted, or when `id` is already
        declared. Otherwise registers an empty sector whose clock is in the
        past, inserts `id` into the priority list at its rank and records no
        last visit. */
    method DeclareSource(id: string, priority: int, intervalSeconds: int, randomRange: int := 0) returns (o: Outcome)
      requires Valid()
      modifies this
      ensures Valid()
      ensures disposed == old(disposed)
      ensures old(disposed) ==> o == Failed(AlreadyDisposed)
      ensures !old(disposed) && !ConfigAccepted(intervalSeconds, randomRange) ==> o == Failed(InvalidConfig)
      ensures !old(disposed) && ConfigAccepted(intervalSeconds, randomRange) && id in old(identifierMap) ==>
        o == Failed(DuplicateSource)
      ensures o.Failed? ==> identifierMap == old(identifierMap) && plist == old(plist) && lastVisit == old(lastVisit)
      ensures o.Done? <==> !old(disposed) && ConfigAccepted(intervalSeconds, randomRange) && id !in old(identifierMap)
      ensures o.Done? ==>
        && identifierMap == old(identifierMap)[id := Sector([], {}, intervalSeconds, randomRange, PAST_SENTINEL)]
        && plist == InsertGroup(old(plist), id, priority)
        && lastVisit == old(lastVisit)[id := None]
    {
      if disposed {
        return Failed(AlreadyDisposed);
      }
      if !ConfigAccepted(intervalSeconds, randomRange) {
        return Failed(InvalidConfig);
      }
      if id in identifierMap {
        return Failed(DuplicateSource);
      }
      var sector := Sector([], {}, intervalSeconds, randomRange, PAST_SENTINEL);
      var shadowList := InsertIntoGroups(plist, id, priority);
      DeclareKeepsInvariant(identifierMap, plist, lastVisit, id, sector, priority);
      identifierMap := identifierMap[id := sector];
      plist := shadowList;
      lastVisit := lastVisit[id := None];
      return Done;
    }

    /** cleanup_source. On a disposed pool returns Done and does nothing; an
        unknown identifier fails. Otherwise every link queued for `id` is
        marked abandoned and `id` leaves the registry, its priority group
        (deleting the group when it empties) and the last-visit map; every
        other source is as it was. */
    method CleanupSource(id: string) returns (o: Outcome)
      requires Valid()
      modifies this, SectorLinks(id)
      ensures Valid()
      ensures disposed == old(disposed)
      ensures old(disposed) ==> o == Done
      ensures !old(disposed) && id !in old(identifierMap) ==> o == Failed(UnknownSource)
      ensures old(disposed) || id !in old(identifierMap) ==>
        identifierMap == old(identifierMap) && plist == old(plist) && lastVisit == old(lastVisit)
      ensures !old(disposed) && id in old(identifierMap) ==>
        && o == Done
        && (forall l :: l in old(SectorLinks(id)) ==> l.status == Aban)
        && identifierMap == old(identifierMap) - {id}
        && plist == RemoveMember(old(plist), id)
        && lastVisit == old(lastVisit) - {id}
        && TotalOf(identifierMap) + |old(identifierMap)[id].heap| == old(TotalOf(identifierMap))
    {
      if disposed {
        return Done;
      }
      if id !in identifierMap {
        return Failed(UnknownSource);
      }
      MarkAbandoned(identifierMap[id].heap);
      var shadowList := RemoveFromGroups(plist, id);
      CleanupKeepsInvariant(identifierMap, plist, lastVisit, id);
      TotalOfRemove(identifierMap, id);
      identifierMap := identifierMap - {id};
      plist := shadowList;
      lastVisit := lastVisit - {id};
      return Done;
    }

    /** dispose. A second call fails. The first sets the disposed flag,
        empties the registry, the priority list and the last-visit map, and
        marks every link that was queued anywhere as abandoned. */
    method Dispose() returns (o: Outcome)
      requires Valid()
      modifies this, QueuedLinks()
      ensures Valid()
      ensures old(disposed) ==> o == Failed(AlreadyDisposed) && unchanged(this)
      ensures !old(disposed) ==>
        && o == Done && disposed
        && identifierMap == map[] && plist == [] && lastVisit == map[]
        && (forall l :: l in old(QueuedLinks()) ==> l.status == Aban)
    {
      if disposed {
        return Failed(AlreadyDisposed);
      }
      disposed := true;
      var shadowMap := identifierMap;
      identifierMap := map[];
      plist := [];
      lastVisit := map[];
      AbandonAll(shadowMap);
      return Done;
    }

    /** put_link. Rejects (-1) a link of an undeclared source or any link
        once disposed; reports a duplicate (1) when the key is already
        queued, changing nothing; otherwise (0) queues exactly this link and
        its key, marks the link pending and records that the source is not
        exhausted. */
    method PutLink(link: LinkInfo) returns (r: int)
      requires Valid()
      modifies this, link
      ensures Valid()
      ensures disposed == old(disposed) && plist == old(plist)
      ensures link.identifier !in old(identifierMap) || old(disposed) ==> r == PUT_REJECTED
      ensures link.identifier in old(identifierMap) && !old(disposed) && link.Key() in old(identifierMap)[link.identifier].dedup ==>
        r == PUT_DUPLICATE
      ensures r != PUT_ACCEPTED ==>
        identifierMap == old(identifierMap) && lastVisit == old(lastVisit) && link.status == old(link.status)
      ensures link.identifier in old(identifierMap) && !old(disposed) && link.Key() !in old(identifierMap)[link.identifier].dedup ==>
        && r == PUT_ACCEPTED
        && var s := old(identifierMap)[link.identifier];
        && identifierMap == old(identifierMap)[link.identifier := s.(heap := s.heap + [link], dedup := s.dedup + {link.Key()})]
        && lastVisit == old(lastVisit)[link.identifier := None]
        && link.status == Pend
        && TotalOf(identifierMap) == old(TotalOf(identifierMap)) + 1
    {
      if link.identifier !in identifierMap {
        return PUT_REJECTED;
      }
      var sector := identifierMap[link.identifier];
      if disposed {
        return PUT_REJECTED;
      }
      var key := link.Key();
      if key in sector.dedup {
        return PUT_DUPLICATE;
      }
      var updated := sector.(heap := sector.heap + [link], dedup := sector.dedup + {key});
      PushKeepsValid(link.identifier, sector, link);
      TotalOfUpdate(identifierMap, link.identifier, updated);
      SectorUpdateKeepsInvariant(identifierMap, plist, lastVisit, disposed, link.identifier, updated,
        lastVisit[link.identifier := None]);
      identifierMap := identifierMap[link.identifier := updated];
      lastVisit := lastVisit[link.identifier := None];
      link.status := Pend;
      return PUT_ACCEPTED;
    }

    /** sel_link at time `now`, with this call's visiting order of every
        priority group and `jitter` standing for randint(-n, n). Walks the
        groups from high to low priority and takes a maximum-weight link from
        the first source whose gate is open and whose heap is not empty; that
        source's clock moves to now + interval + jitter, and when its heap
        empties the last visit is recorded as `now`. Nothing is taken, and
        nothing changes, when the pool is disposed or no source is eligible. */
    method SelLink(now: int, orders: seq<seq<string>>, jitter: int -> int) returns (r: Option<LinkInfo>)
      requires Valid()
      requires VisitOrders(plist, orders)
      requires forall n :: 0 <= n ==> InJitterRange(n, jitter(n))
      modifies this
      ensures Valid()
      ensures disposed == old(disposed) && plist == old(plist)
      ensures old(disposed) ==> r.None?
      ensures r.None? <==> Winner(orders, old(identifierMap), now).None?
      ensures r.None? ==> identifierMap == old(identifierMap) && lastVisit == old(lastVisit)
      ensures r.Some? ==>
        && var p := Winner(orders, old(identifierMap), now).value;
        && var id := orders[p.group][p.member];
        && Popped(old(identifierMap), identifierMap, id, r.value, now, jitter(old(identifierMap)[id].randomRange))
        && lastVisit == (if identifierMap[id].heap == [] then old(lastVisit)[id := Some(now)] else old(lastVisit))
        && TotalOf(identifierMap) + 1 == old(TotalOf(identifierMap))
      ensures r.Some? ==> old(identifierMap)[r.value.identifier].visitableTime <= now
      ensures r.Some? ==> now <= identifierMap[r.value.identifier].visitableTime
    {
      if disposed {
        return None;
      }
      var w := FindWinner(orders, identifierMap, now);
      if w.None? {
        return None;
      }
      var id := orders[w.value.group][w.value.member];
      var sector := identifierMap[id];
      var link, rest := PopMax(id, sector);
      rest := rest.(visitableTime := now + sector.interval + jitter(sector.randomRange));
      AcceptedDelayNonNegative(sector.interval, sector.randomRange, jitter(sector.randomRange));
      TotalOfUpdate(identifierMap, id, rest);
      SectorUpdateKeepsInvariant(identifierMap, plist, lastVisit, disposed, id, rest,
        if |rest.heap| == 0 then lastVisit[id := Some(now)] else lastVisit);
      identifierMap := identifierMap[id := rest];
      if |rest.heap| == 0 {
        lastVisit := lastVisit[id := Some(now)];
      }
      return Some(link);
    }
  }
}
