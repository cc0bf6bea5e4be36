/** The priority list of the pool: (priority, identifiers) groups sorted by
    descending priority, with the ordered insert done by declare_source and
    the removal done by cleanup_source. */
module PriorityList {
  import opened Links

  datatype Group = Group(priority: int, ids: seq<string>)

  /** The identifiers of all groups, group after group. */
  function Members(pl: seq<Group>): seq<string> {
    if pl == [] then [] else pl[0].ids + Members(pl[1..])
  }

  /** Priorities strictly descend, so no priority has two groups. */
  ghost predicate StrictlyDescending(pl: seq<Group>) {
    forall i, j :: 0 <= i < j < |pl| ==> pl[i].priority > pl[j].priority
  }

  ghost predicate NoEmptyGroup(pl: seq<Group>) {
    forall i :: 0 <= i < |pl| ==> pl[i].ids != []
  }

  ghost predicate WellFormed(pl: seq<Group>) {
    StrictlyDescending(pl) && NoEmptyGroup(pl)
  }

  /** The priority of the first group holding `id`, if any. */
  function PriorityOf(pl: seq<Group>, id: string): Option<int> {
    if pl == [] then None
    else if id in pl[0].ids then Some(pl[0].priority)
    else PriorityOf(pl[1..], id)
  }

  /** The list declare_source publishes: `id` appended to the group of equal
      priority, or a new group placed before the first lower priority. */
  function InsertGroup(pl: seq<Group>, id: string, p: int): seq<Group> {
    if pl == [] then [Group(p, [id])]
    else if p > pl[0].priority then [Group(p, [id])] + pl
    else if p == pl[0].priority then [Group(p, pl[0].ids + [id])] + pl[1..]
    else [pl[0]] + InsertGroup(pl[1..], id, p)
  }

  /** list.remove: drops the first occurrence of x. */
  function RemoveFirst(s: seq<string>, x: string): (r: seq<string>)
    ensures multiset(r) == multiset(s) - multiset{x}
  {
    if s == [] then []
    else
      assert s == [s[0]] + s[1..];
      if s[0] == x then s[1..]
      else [s[0]] + RemoveFirst(s[1..], x)
  }

  /** The list cleanup_source publishes: `id` taken out of the first group
      holding it, and that group deleted when it becomes empty. */
  function RemoveMember(pl: seq<Group>, id: string): seq<Group> {
    if pl == [] then []
    else if id in pl[0].ids then
      (var rest := RemoveFirst(pl[0].ids, id);
       if rest == [] then pl[1..] else [Group(pl[0].priority, rest)] + pl[1..])
    else [pl[0]] + RemoveMember(pl[1..], id)
  }

  // ----- Members -----

  lemma {:induction false} MembersAppend(a: seq<Group>, b: seq<Group>)
    ensures Members(a + b) == Members(a) + Members(b)
  {
    if a != [] {
      assert (a + b)[0] == a[0];
      assert (a + b)[1..] == a[1..] + b;
      MembersAppend(a[1..], b);
      assert a + b != [];
      calc {
        Members(a + b);
        (a + b)[0].ids + Members((a + b)[1..]);
        a[0].ids + Members(a[1..] + b);
        a[0].ids + (Members(a[1..]) + Members(b));
        (a[0].ids + Members(a[1..])) + Members(b);
      }
    } else {
      assert a + b == b;
    }
  }

  lemma {:induction false} MembersSplit(pl: seq<Group>, g: nat)
    requires g < |pl|
    ensures Members(pl) == Members(pl[..g]) + pl[g].ids + Members(pl[g + 1..])
  {
    var tail := [pl[g]] + pl[g + 1..];
    assert pl == pl[..g] + tail;
    MembersAppend(pl[..g], tail);
    assert tail[0] == pl[g] && tail[1..] == pl[g + 1..];
    assert Members(tail) == pl[g].ids + Members(pl[g + 1..]);
  }

  /** An identifier occurring in the list occurs in some group. */
  lemma {:induction false} MemberHasGroup(pl: seq<Group>, id: string)
    requires id in Members(pl)
    ensures exists g :: 0 <= g < |pl| && id in pl[g].ids
  {
    if id !in pl[0].ids {
      MemberHasGroup(pl[1..], id);
      var g :| 0 <= g < |pl[1..]| && id in pl[1..][g].ids;
      assert id in pl[g + 1].ids;
    }
  }

  /** An identifier that occurs once in the whole list lies in exactly one
      group; one that does not occur lies in none. */
  lemma OccurrenceGroups(pl: seq<Group>, id: string)
    requires multiset(Members(pl))[id] <= 1
    ensures multiset(Members(pl))[id] == 1 ==> exists g :: 0 <= g < |pl| && id in pl[g].ids
    ensures multiset(Members(pl))[id] == 0 ==> forall g :: 0 <= g < |pl| ==> id !in pl[g].ids
    ensures forall g1, g2 :: 0 <= g1 < |pl| && 0 <= g2 < |pl| && id in pl[g1].ids && id in pl[g2].ids ==> g1 == g2
  {
    if multiset(Members(pl))[id] == 1 {
      MemberHasGroup(pl, id);
    }
    forall g | 0 <= g < |pl| && id in pl[g].ids ensures id in Members(pl) {
      MembersSplit(pl, g);
    }
    forall g1, g2 | 0 <= g1 < |pl| && 0 <= g2 < |pl| && id in pl[g1].ids && id in pl[g2].ids
      ensures g1 == g2
    {
      if g1 < g2 {
        TwoGroupsTwice(pl, id, g1, g2);
      } else if g2 < g1 {
        TwoGroupsTwice(pl, id, g2, g1);
      }
    }
  }

  lemma TwoGroupsTwice(pl: seq<Group>, id: string, lo: nat, hi: nat)
    requires lo < hi < |pl| && id in pl[lo].ids && id in pl[hi].ids
    ensures multiset(Members(pl))[id] >= 2
  {
    MembersSplit(pl, hi);
    var front := pl[..hi];
    MembersSplit(front, lo);
    assert front[lo] == pl[lo];
    assert id in Members(front);
    assert multiset(Members(pl)) == multiset(Members(front)) + multiset(pl[hi].ids) + multiset(Members(pl[hi + 1..]));
  }

  // ----- InsertGroup -----

  /** Groups of priority above p before position k are passed over unchanged. */
  lemma {:induction false} InsertGroupSkip(pl: seq<Group>, id: string, p: int, k: nat)
    requires k <= |pl|
    requires forall j :: 0 <= j < k ==> pl[j].priority > p
    ensures InsertGroup(pl, id, p) == pl[..k] + InsertGroup(pl[k..], id, p)
  {
    if k > 0 {
      InsertGroupSkip(pl[1..], id, p, k - 1);
      assert pl[1..][k - 1..] == pl[k..];
      assert [pl[0]] + pl[1..][..k - 1] == pl[..k];
    }
  }

  /** The placement declare_source promises: with k the first position whose
      priority is not above p, `id` joins the end of group k when it has
      priority p, and otherwise a new group (p, [id]) is inserted at k. */
  lemma InsertGroupPlacement(pl: seq<Group>, id: string, p: int, k: nat)
    requires k <= |pl|
    requires forall j :: 0 <= j < k ==> pl[j].priority > p
    requires k < |pl| ==> pl[k].priority <= p
    ensures k < |pl| && pl[k].priority == p ==>
      InsertGroup(pl, id, p) == pl[..k] + [Group(p, pl[k].ids + [id])] + pl[k + 1..]
    ensures !(k < |pl| && pl[k].priority == p) ==>
      InsertGroup(pl, id, p) == pl[..k] + [Group(p, [id])] + pl[k..]
  {
    InsertGroupSkip(pl, id, p, k);
    if k < |pl| {
      assert pl[k..][1..] == pl[k + 1..];
    }
  }

  /** Every priority of the new list is p or one of the old list's. */
  lemma {:induction false} InsertGroupBounded(pl: seq<Group>, id: string, p: int, q: int)
    requires p < q && forall j :: 0 <= j < |pl| ==> pl[j].priority < q
    ensures forall j :: 0 <= j < |InsertGroup(pl, id, p)| ==> InsertGroup(pl, id, p)[j].priority < q
  {
    if pl != [] && p < pl[0].priority {
      InsertGroupBounded(pl[1..], id, p, q);
    }
  }

  /** The ordered insert keeps the list strictly descending with no empty
      group. */
  lemma {:induction false} InsertGroupWellFormed(pl: seq<Group>, id: string, p: int)
    requires WellFormed(pl)
    ensures WellFormed(InsertGroup(pl, id, p))
  {
    if pl != [] && p < pl[0].priority {
      InsertGroupWellFormed(pl[1..], id, p);
      InsertGroupBounded(pl[1..], id, p, pl[0].priority);
    }
  }

  /** The ordered insert adds exactly one occurrence of `id`. */
  lemma {:induction false} InsertGroupMembers(pl: seq<Group>, id: string, p: int)
    ensures multiset(Members(InsertGroup(pl, id, p))) == multiset(Members(pl)) + multiset{id}
  {
    if pl == [] {
    } else if p > pl[0].priority {
      assert ([Group(p, [id])] + pl)[1..] == pl;
    } else if p == pl[0].priority {
      assert ([Group(p, pl[0].ids + [id])] + pl[1..])[1..] == pl[1..];
    } else {
      InsertGroupMembers(pl[1..], id, p);
      assert ([pl[0]] + InsertGroup(pl[1..], id, p))[1..] == InsertGroup(pl[1..], id, p);
    }
  }

  /** After the insert `id` is registered at priority p, and every other
      identifier keeps its priority. */
  lemma {:induction false} InsertGroupPriority(pl: seq<Group>, id: string, p: int, x: string)
    requires WellFormed(pl) && id !in Members(pl)
    ensures PriorityOf(InsertGroup(pl, id, p), id) == Some(p)
    ensures x != id ==> PriorityOf(InsertGroup(pl, id, p), x) == PriorityOf(pl, x)
  {
    if pl == [] {
    } else if p > pl[0].priority {
      assert ([Group(p, [id])] + pl)[1..] == pl;
    } else if p == pl[0].priority {
      assert ([Group(p, pl[0].ids + [id])] + pl[1..])[1..] == pl[1..];
    } else {
      assert id !in pl[0].ids && id !in Members(pl[1..]);
      InsertGroupPriority(pl[1..], id, p, x);
      assert ([pl[0]] + InsertGroup(pl[1..], id, p))[1..] == InsertGroup(pl[1..], id, p);
    }
  }

  // ----- RemoveMember -----

  /** Groups before position k that do not hold `id` are passed over. */
  lemma {:induction false} RemoveMemberSkip(pl: seq<Group>, id: string, k: nat)
    requires k <= |pl|
    requires forall j :: 0 <= j < k ==> id !in pl[j].ids
    ensures RemoveMember(pl, id) == pl[..k] + RemoveMember(pl[k..], id)
  {
    if k > 0 {
      RemoveMemberSkip(pl[1..], id, k - 1);
      assert pl[1..][k - 1..] == pl[k..];
      assert [pl[0]] + pl[1..][..k - 1] == pl[..k];
    }
  }

  /** The removal takes exactly one occurrence of `id` out (none if absent). */
  lemma {:induction false} RemoveMemberMembers(pl: seq<Group>, id: string)
    ensures multiset(Members(RemoveMember(pl, id))) == multiset(Members(pl)) - multiset{id}
  {
    if pl == [] {
    } else if id in pl[0].ids {
      var rest := RemoveFirst(pl[0].ids, id);
      if rest != [] {
        assert ([Group(pl[0].priority, rest)] + pl[1..])[1..] == pl[1..];
      }
    } else {
      RemoveMemberMembers(pl[1..], id);
      assert ([pl[0]] + RemoveMember(pl[1..], id))[1..] == RemoveMember(pl[1..], id);
    }
  }

  lemma {:induction false} RemoveFirstIn(s: seq<string>, x: string, y: string)
    ensures y in RemoveFirst(s, x) ==> y in s
    ensures y != x ==> (y in RemoveFirst(s, x) <==> y in s)
  {
    if s != [] && s[0] != x {
      RemoveFirstIn(s[1..], x, y);
    }
  }

  /** Every priority of the new list is one of the old list's, in order. */
  lemma {:induction false} RemoveMemberBounded(pl: seq<Group>, id: string, q: int)
    requires forall j :: 0 <= j < |pl| ==> pl[j].priority < q
    ensures forall j :: 0 <= j < |RemoveMember(pl, id)| ==> RemoveMember(pl, id)[j].priority < q
  {
    if pl != [] && id !in pl[0].ids {
      RemoveMemberBounded(pl[1..], id, q);
    }
  }

  /** A non-empty group above a well-formed list of lower priorities makes a
      well-formed list. */
  lemma ConsWellFormed(g: Group, t: seq<Group>)
    requires WellFormed(t) && g.ids != []
    requires forall j :: 0 <= j < |t| ==> t[j].priority < g.priority
    ensures WellFormed([g] + t)
  {
    var r := [g] + t;
    assert forall i :: 0 < i < |r| ==> r[i] == t[i - 1];
  }

  /** The removal keeps the list strictly descending with no empty group. */
  lemma {:induction false} RemoveMemberWellFormed(pl: seq<Group>, id: string)
    requires WellFormed(pl)
    ensures WellFormed(RemoveMember(pl, id))
  {
    if pl != [] {
      var tail := pl[1..];
      assert WellFormed(tail);
      if id !in pl[0].ids {
        RemoveMemberWellFormed(tail, id);
        RemoveMemberBounded(tail, id, pl[0].priority);
        ConsWellFormed(pl[0], RemoveMember(tail, id));
      } else if RemoveFirst(pl[0].ids, id) != [] {
        ConsWellFormed(Group(pl[0].priority, RemoveFirst(pl[0].ids, id)), tail);
      }
    }
  }

  /** After the removal every other identifier keeps its priority, and `id`,
      if it occurred once, is no longer registered. */
  lemma {:induction false} RemoveMemberPriority(pl: seq<Group>, id: string, x: string)
    requires multiset(Members(pl))[id] <= 1
    ensures PriorityOf(RemoveMember(pl, id), id) == None
    ensures x != id ==> PriorityOf(RemoveMember(pl, id), x) == PriorityOf(pl, x)
  {
    if pl == [] {
    } else if id in pl[0].ids {
      var rest := RemoveFirst(pl[0].ids, id);
      RemoveFirstIn(pl[0].ids, id, x);
      assert multiset(Members(pl)) == multiset(pl[0].ids) + multiset(Members(pl[1..]));
      assert id !in rest;
      assert id !in Members(pl[1..]);
      NotMemberNoPriority(pl[1..], id);
      if rest != [] {
        assert ([Group(pl[0].priority, rest)] + pl[1..])[1..] == pl[1..];
      }
    } else {
      assert multiset(Members(pl)) == multiset(pl[0].ids) + multiset(Members(pl[1..]));
      RemoveMemberPriority(pl[1..], id, x);
      assert ([pl[0]] + RemoveMember(pl[1..], id))[1..] == RemoveMember(pl[1..], id);
    }
  }

  lemma {:induction false} NotMemberNoPriority(pl: seq<Group>, id: string)
    requires id !in Members(pl)
    ensures PriorityOf(pl, id) == None
  {
    if pl != [] {
      NotMemberNoPriority(pl[1..], id);
    }
  }

  // ----- Declaring and then cleaning up -----

  lemma {:induction false} RemoveFirstAppended(s: seq<string>, x: string)
    requires x !in s
    ensures RemoveFirst(s + [x], x) == s
  {
    if s != [] {
      assert (s + [x])[1..] == s[1..] + [x];
      RemoveFirstAppended(s[1..], x);
    }
  }

  /** cleanup_source undoes declare_source: removing a fresh identifier right
      after inserting it gives back the list it was inserted into. */
  lemma {:induction false} InsertThenRemove(pl: seq<Group>, id: string, p: int)
    requires NoEmptyGroup(pl) && id !in Members(pl)
    ensures RemoveMember(InsertGroup(pl, id, p), id) == pl
  {
    if pl != [] && p < pl[0].priority {
      assert id !in pl[0].ids;
      assert NoEmptyGroup(pl[1..]);
      InsertThenRemove(pl[1..], id, p);
    } else if pl != [] && p == pl[0].priority {
      RemoveFirstAppended(pl[0].ids, id);
      assert pl[0].ids != [];
    }
  }

  // ----- declare_source as written -----

  /** The insert as the loop is written: when no group has a priority at or
      below p, the loop runs to its end with identifier_list still naming
      the last group's list, and the identifier is appended there. */
  function InsertGroupAsWritten(pl: seq<Group>, id: string, p: int): (r: seq<Group>)
    ensures multiset(Members(r)) == multiset(Members(pl)) + multiset{id}
  {
    if pl == [] then [Group(p, [id])]
    else if p > pl[0].priority then [Group(p, [id])] + pl
    else if p == pl[0].priority then [Group(p, pl[0].ids + [id])] + pl[1..]
    else if |pl| == 1 then [Group(pl[0].priority, pl[0].ids + [id])]
    else [pl[0]] + InsertGroupAsWritten(pl[1..], id, p)
  }

  /** Declaring b.com at priority 1 after a.com at priority 3 puts b.com in
      the priority-3 group as written, and in a new priority-1 group as
      intended. */
  lemma LowestPriorityMisplaced()
    ensures InsertGroupAsWritten([Group(3, ["a.com"])], "b.com", 1) == [Group(3, ["a.com", "b.com"])]
    ensures PriorityOf(InsertGroupAsWritten([Group(3, ["a.com"])], "b.com", 1), "b.com") == Some(3)
    ensures InsertGroup([Group(3, ["a.com"])], "b.com", 1) == [Group(3, ["a.com"]), Group(1, ["b.com"])]
    ensures PriorityOf(InsertGroup([Group(3, ["a.com"])], "b.com", 1), "b.com") == Some(1)
  {
    assert ["a.com"] + ["b.com"] == ["a.com", "b.com"];
  }

  // ----- The loops of declare_source and cleanup_source -----

  /** declare_source's walk over the list: stop at the first group whose
      priority is not above p; join it when its priority equals p, otherwise
      open a new group there. */
  method InsertIntoGroups(pl: seq<Group>, id: string, p: int) returns (r: seq<Group>)
    ensures r == InsertGroup(pl, id, p)
  {
    var index := 0;
    var found := false;
    while index < |pl|
      invariant 0 <= index <= |pl| && !found
      invariant forall j :: 0 <= j < index ==> pl[j].priority > p
    {
      var current := pl[index].priority;
      if p > current {
        break;
      } else if p == current {
        found := true;
        break;
      }
      index := index + 1;
    }
    InsertGroupPlacement(pl, id, p, index);
    if found {
      r := pl[..index] + [Group(pl[index].priority, pl[index].ids + [id])] + pl[index + 1..];
    } else {
      r := pl[..index] + [Group(p, [id])] + pl[index..];
    }
  }

  /** cleanup_source's walk over the list: the first group holding `id` loses
      it, and is deleted when that leaves it empty. */
  method RemoveFromGroups(pl: seq<Group>, id: string) returns (r: seq<Group>)
    ensures r == RemoveMember(pl, id)
  {
    r := pl;
    var index := 0;
    while index < |pl|
      invariant 0 <= index <= |pl|
      invariant forall j :: 0 <= j < index ==> id !in pl[j].ids
    {
      var group := pl[index];
      if id in group.ids {
        var rest := RemoveFirst(group.ids, id);
        RemoveMemberSkip(pl, id, index);
        assert pl[index..][0] == group && pl[index..][1..] == pl[index + 1..];
        if rest == [] {
          r := pl[..index] + pl[index + 1..];
        } else {
          r := pl[..index] + [Group(group.priority, rest)] + pl[index + 1..];
        }
        return;
      }
      index := index + 1;
    }
    RemoveMemberSkip(pl, id, index);
  }

  // ----- The declare_source scenario of the test case -----

  /** Declaring baidu.com (1), dianping.com (3), google.com (1), aipang.com (3)
      and jimi.com (5) in that order yields [(5, [jimi.com]), (3, [dianping.com,
      aipang.com]), (1, [baidu.com, google.com])]. */
  lemma DeclareScenario()
    ensures
      var l1 := InsertGroup([], "baidu.com", 1);
      var l2 := InsertGroup(l1, "dianping.com", 3);
      var l3 := InsertGroup(l2, "google.com", 1);
      var l4 := InsertGroup(l3, "aipang.com", 3);
      var l5 := InsertGroup(l4, "jimi.com", 5);
      l5 == [Group(5, ["jimi.com"]), Group(3, ["dianping.com", "aipang.com"]), Group(1, ["baidu.com", "google.com"])]
  {
    var l1 := InsertGroup([], "baidu.com", 1);
    assert l1 == [Group(1, ["baidu.com"])];
    var l2 := InsertGroup(l1, "dianping.com", 3);
    assert l2 == [Group(3, ["dianping.com"]), Group(1, ["baidu.com"])];
    var l3 := InsertGroup(l2, "google.com", 1);
    assert l2[1..] == [Group(1, ["baidu.com"])];
    assert ["baidu.com"] + ["google.com"] == ["baidu.com", "google.com"];
    assert l2[1..][1..] == [];
    var tail := [Group(1, ["baidu.com", "google.com"])];
    assert InsertGroup(l2[1..], "google.com", 1) == tail;
    assert l3 == [Group(3, ["dianping.com"])] + tail;
    var l4 := InsertGroup(l3, "aipang.com", 3);
    assert l3[1..] == tail;
    assert ["dianping.com"] + ["aipang.com"] == ["dianping.com", "aipang.com"];
    assert l4 == [Group(3, ["dianping.com", "aipang.com"])] + tail;
  }
}
