/** Which source sel_link takes its link from: the walk over the priority
    groups, high to low, each group in the visiting order of this call, and
    the first source found open and non-empty. */
module Selection {
  import opened Links
  import opened Sectors
  import opened PriorityList

  /** A place in the walk: the group, and the index in that group's visiting
      order. */
  datatype Pos = Pos(group: nat, member: nat)

  /** The visiting orders of one call: one per group, each a permutation of
      that group's identifiers (a singleton group is visited as it is). */
  ghost predicate VisitOrders(pl: seq<Group>, orders: seq<seq<string>>) {
    |orders| == |pl| && forall g :: 0 <= g < |pl| ==> multiset(orders[g]) == multiset(pl[g].ids)
  }

  /** sel_link may take a link from `id` at time `now`: the source is
      declared, its politeness gate is open and its heap is not empty. */
  predicate Eligible(m: map<string, Sector>, now: int, id: string) {
    id in m && now >= m[id].visitableTime && |m[id].heap| > 0
  }

  /** A source that has just been visited stays closed for at least
      interval - range seconds: whatever the jitter draw, sel_link cannot
      take from it again before then. */
  lemma GateClosedAfterVisit(m: map<string, Sector>, m': map<string, Sector>, id: string, offset: int, now: int, t: int)
    requires id in m && id in m' && m'[id].visitableTime == now + m[id].interval + offset
    requires InJitterRange(m[id].randomRange, offset)
    requires t < now + m[id].interval - m[id].randomRange
    ensures !Eligible(m', t, id)
  {
  }

  /** A freshly declared source, with its clock at the past sentinel, is
      open at every time from the sentinel on as soon as it holds a link. */
  lemma DeclaredSourceOpen(m: map<string, Sector>, id: string, now: int)
    requires id in m && m[id].visitableTime == PAST_SENTINEL && m[id].heap != []
    requires PAST_SENTINEL <= now
    ensures Eligible(m, now, id)
  {
  }

  /** The first eligible identifier of one group's order, from index i on. */
  function FirstFrom(ids: seq<string>, m: map<string, Sector>, now: int, i: nat): (r: Option<nat>)
    requires i <= |ids|
    decreases |ids| - i
    ensures r.Some? ==> i <= r.value < |ids| && Eligible(m, now, ids[r.value])
    ensures r.Some? ==> forall j :: i <= j < r.value ==> !Eligible(m, now, ids[j])
    ensures r.None? ==> forall j :: i <= j < |ids| ==> !Eligible(m, now, ids[j])
  {
    if i == |ids| then None
    else if Eligible(m, now, ids[i]) then Some(i)
    else FirstFrom(ids, m, now, i + 1)
  }

  /** The first eligible place of the walk, from group g on. */
  function WinnerFrom(orders: seq<seq<string>>, m: map<string, Sector>, now: int, g: nat): (r: Option<Pos>)
    requires g <= |orders|
    decreases |orders| - g
    ensures r.Some? ==> g <= r.value.group < |orders| && r.value.member < |orders[r.value.group]|
    ensures r.Some? ==> Eligible(m, now, orders[r.value.group][r.value.member])
    ensures r.Some? ==> forall h, i :: g <= h < r.value.group && 0 <= i < |orders[h]| ==> !Eligible(m, now, orders[h][i])
    ensures r.Some? ==> forall i :: 0 <= i < r.value.member ==> !Eligible(m, now, orders[r.value.group][i])
    ensures r.None? ==> forall h, i :: g <= h < |orders| && 0 <= i < |orders[h]| ==> !Eligible(m, now, orders[h][i])
  {
    if g == |orders| then None
    else match FirstFrom(orders[g], m, now, 0)
      case Some(i) => Some(Pos(g, i))
      case None => WinnerFrom(orders, m, now, g + 1)
  }

  /** The place sel_link takes its link from, if any. */
  function Winner(orders: seq<seq<string>>, m: map<string, Sector>, now: int): Option<Pos> {
    WinnerFrom(orders, m, now, 0)
  }

  /** sel_link's search: the groups from high to low priority, each in its
      visiting order, up to the first eligible source. */
  method FindWinner(orders: seq<seq<string>>, m: map<string, Sector>, now: int) returns (r: Option<Pos>)
    ensures r == Winner(orders, m, now)
  {
    var g := 0;
    while g < |orders|
      invariant 0 <= g <= |orders|
      invariant forall h, i :: 0 <= h < g && 0 <= i < |orders[h]| ==> !Eligible(m, now, orders[h][i])
    {
      var ids := orders[g];
      var i := 0;
      while i < |ids|
        invariant 0 <= i <= |ids|
        invariant forall j :: 0 <= j < i ==> !Eligible(m, now, ids[j])
      {
        if Eligible(m, now, ids[i]) {
          WinnerIsFirstEligible(orders, m, now, Pos(g, i));
          return Some(Pos(g, i));
        }
        i := i + 1;
      }
      g := g + 1;
    }
    return None;
  }

  /** The winner is the one eligible place with nothing eligible before it in
      the walk: the first eligible source found wins. */
  lemma WinnerIsFirstEligible(orders: seq<seq<string>>, m: map<string, Sector>, now: int, p: Pos)
    requires p.group < |orders| && p.member < |orders[p.group]|
    requires Eligible(m, now, orders[p.group][p.member])
    requires forall h, i :: 0 <= h < p.group && 0 <= i < |orders[h]| ==> !Eligible(m, now, orders[h][i])
    requires forall i :: 0 <= i < p.member ==> !Eligible(m, now, orders[p.group][i])
    ensures Winner(orders, m, now) == Some(p)
  {
  }

  /** An identifier of group g appears in that group's visiting order. */
  lemma InOrder(pl: seq<Group>, orders: seq<seq<string>>, g: nat, x: string)
    requires VisitOrders(pl, orders) && g < |pl|
    ensures x in pl[g].ids <==> x in orders[g]
  {
    assert x in pl[g].ids <==> x in multiset(pl[g].ids);
    assert x in orders[g] <==> x in multiset(orders[g]);
  }

  /** Priority order across groups: when any source of group g2 is eligible,
      the winner lies in group g2 or in a group of strictly higher priority. */
  lemma WinnerRespectsPriority(pl: seq<Group>, orders: seq<seq<string>>, m: map<string, Sector>, now: int, g2: nat, x: string)
    requires WellFormed(pl) && VisitOrders(pl, orders)
    requires g2 < |pl| && x in pl[g2].ids && Eligible(m, now, x)
    ensures Winner(orders, m, now).Some?
    ensures Winner(orders, m, now).value.group <= g2
    ensures Winner(orders, m, now).value.group < g2 ==> pl[Winner(orders, m, now).value.group].priority > pl[g2].priority
  {
    InOrder(pl, orders, g2, x);
    var i2 :| 0 <= i2 < |orders[g2]| && orders[g2][i2] == x;
  }

  /** sel_link finds nothing exactly when no declared source of the priority
      list is eligible, whatever the visiting orders. */
  lemma NoWinnerIffNoneEligible(pl: seq<Group>, orders: seq<seq<string>>, m: map<string, Sector>, now: int)
    requires VisitOrders(pl, orders)
    ensures Winner(orders, m, now).None? <==>
      forall g, i :: 0 <= g < |pl| && 0 <= i < |pl[g].ids| ==> !Eligible(m, now, pl[g].ids[i])
  {
    var w := Winner(orders, m, now);
    if w.None? {
      forall g, i | 0 <= g < |pl| && 0 <= i < |pl[g].ids| ensures !Eligible(m, now, pl[g].ids[i]) {
        InOrder(pl, orders, g, pl[g].ids[i]);
        var j :| 0 <= j < |orders[g]| && orders[g][j] == pl[g].ids[i];
        assert !Eligible(m, now, orders[g][j]);
      }
    } else {
      var p := w.value;
      var x := orders[p.group][p.member];
      InOrder(pl, orders, p.group, x);
      var i :| 0 <= i < |pl[p.group].ids| && pl[p.group].ids[i] == x;
      assert Eligible(m, now, pl[p.group].ids[i]);
    }
  }
}
