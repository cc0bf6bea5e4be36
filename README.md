# LinkPool: a verified model of the crawl scheduling queue

`LinkPool` (link_pool.py) is the queue between a crawler's link extractors
and its fetchers. Sources (sites, keyed by an identifier string) are
declared with a priority and a politeness configuration: a minimum interval
between two visits and a jitter range. Each declared source owns a *sector*:
a heap of pending links ordered by weight, a dedup set of link keys
(url, post data, headers), the interval, the jitter range and the first time
the source may be visited again. The priority list groups the identifiers by
priority, highest first. `put_link` queues a link unless it is a duplicate.
`sel_link` walks the groups from high to low priority, visiting each group's
members in a random order. It takes the heaviest link of the first source
whose politeness gate is open and whose heap is not empty, then moves that
source's clock forward. `cleanup_source` and `dispose` withdraw one source or
all of them, and mark the withdrawn links abandoned.

The model is imperative, as the source is:

- `Pool.LinkPool` is a class. Its fields are the registry, the priority list,
  the last-visit map and the disposed flag. Its methods reassign those
  fields and keep `Valid()`:
  - an identifier is registered exactly when it occurs once in the
    priority list;
  - the priority list is strictly descending with no empty group;
  - the last-visit map covers the registered identifiers;
  - every sector's dedup set is exactly the keys of its links, one link per
    key;
  - a disposed pool is empty.
- `Links.LinkInfo` is a class. Its only mutable field is the status that
  the pool writes, so a worker holding a link sees it abandoned.
- The loops of the source are methods with loop invariants. Some are proved
  equal to a specification function, and the properties the source promises
  are lemmas about those functions:
  - `PriorityList.InsertIntoGroups` (against `InsertGroup`);
  - `PriorityList.RemoveFromGroups` (against `RemoveMember`);
  - `Selection.FindWinner` (against `Winner`);
  - `LinkPool.PendingLinks` (against `TotalOf`).
- The other loops state their result directly in their `ensures`:
  - `Sectors.PopMax`: a maximum-weight link leaves, with its key;
  - `Links.MarkAbandoned` and `Pool.AbandonAll`: every link walked over is
    abandoned;
  - `LinkPool.PendingLinksDist`: each source's number of pending links.

Inputs that the source draws from the environment are parameters of the
model:

- the clock (`now`, whole seconds);
- the per-group visiting order (`orders`, any permutation of each group);
- the jitter draw, `jitter(n)`, which stands for `randint(-n, n)` and is
  required to lie in `[-n, n]` for every n ≥ 0 (the only ranges an accepted
  configuration has).

A second `dispose` raises (link_pool.py:85-86), so `Dispose` fails with
`AlreadyDisposed` and changes nothing.

The model departs from the code only in `DeclareSource`, in two places,
each recorded under "## Findings".

- Its insert is the corrected `InsertGroup`, not the loop as written
  (link_pool.py:135-147), which is `InsertGroupAsWritten`. Declaring a.com at
  3 and then b.com at 1 gives [(3,[a.com,b.com])] in the code and
  [(3,[a.com]),(1,[b.com])] in the model.
- Its guard is the corrected `ConfigAccepted`, not the check as written
  (link_pool.py:113-114), which is `ConfigAcceptedAsWritten`.
  `declare_source(x, p, 0, -1)` returns 0 in the code and
  `Failed(InvalidConfig)` in the model.

## Model

| member | source | states |
|---|---|---|
| Pool.LinkPool.constructor | link_pool.py:35-42 | a new pool is valid and empty: no sources, no groups, no last visits, not disposed |
| Pool.LinkPool.PendingLinks | link_pool.py:45-52 | -1 once disposed; otherwise the number of links pending over all sectors (`TotalOf`) |
| Pool.LinkPool.PendingLinksDist | link_pool.py:55-61 | the disposed sentinel exactly when disposed; otherwise a map over exactly the declared identifiers giving each one's number of pending links |
| Pool.LinkPool.LastLinksVisit | link_pool.py:64-66 | the last-visit map covers exactly the declared identifiers, and is empty once disposed |
| Pool.PutSameRequestTwice | link_pool.py:217-235 | the dedup key is the request, not the link object: on a declared source whose queue lacks the key, two links with the same url, post data and headers (their weights and identities free) are answered 0 and then 1 |
| Pool.LinkPool.GetPendingLinks | link_pool.py:68-74 | nothing for an unknown identifier; otherwise one (url, weight) pair per pending link, as many as the dedup set has keys |
| Pool.LinkPool.TotalPendingLink | link_pool.py:76-82 | the empty answer exactly for an unknown identifier; otherwise the number of pending links, which equals the size of the dedup set |
| Pool.LinkPool.Dispose | link_pool.py:84-108 | a second call fails and changes nothing; the first sets the flag, empties the registry, the priority list and the last-visit map, marks every link queued anywhere abandoned, and keeps the invariant |
| Pool.AbandonAll | link_pool.py:95-102 | after the walk over all sectors every link queued in any of them is abandoned |
| Links.MarkAbandoned | link_pool.py:176-177 | every link of the heap walked over is abandoned |
| Pool.LinkPool.DeclareSource | link_pool.py:110-155 | with the random range defaulting to 0, fails, changing nothing, on a disposed pool, a configuration refused by the corrected guard `ConfigAccepted`, or a duplicate identifier, in that order; otherwise adds an empty sector with the past clock, records no last visit, inserts the identifier at its rank by the corrected insert `InsertGroup`, and keeps the invariant |
| PriorityList.InsertIntoGroups | link_pool.py:133-147 | the corrected index loop of declare_source (a new group when the walk runs off the end) computes `InsertGroup`: the identifier joins the group of equal priority, or a new group placed before the first lower priority |
| PriorityList.InsertGroupAsWritten | link_pool.py:133-147 | the insert as written, where a priority below every group's is appended to the last group; it still adds exactly one occurrence of the identifier to the members |
| Sectors.ConfigAccepted | link_pool.py:113-114 | the corrected guard: an accepted configuration has a non-negative interval and a jitter range that holds at least the draw 0 |
| Sectors.ConfigAcceptedAsWritten | link_pool.py:113-114 | the guard as written: it accepts everything the corrected guard accepts, and differs from it only on negative ranges |
| PriorityList.InsertGroupPlacement | link_pool.py:135-147 | when every group before index k has a higher priority and group k (if any) has a priority no higher than p, the insert appends to group k if its priority is p and otherwise opens a new group at k |
| PriorityList.InsertGroupWellFormed | link_pool.py:133-147 | the insert keeps the priority list strictly descending with no empty group |
| PriorityList.InsertGroupMembers | link_pool.py:133-147 | the insert adds exactly one occurrence of the identifier to the list's members |
| PriorityList.InsertGroupPriority | link_pool.py:133-147 | after inserting a new identifier it has exactly the declared priority, and every other identifier keeps its priority |
| PriorityList.DeclareScenario | link_pool.py:294-299 | declaring baidu.com 1, dianping.com 3, google.com 1, aipang.com 3 and jimi.com 5 yields [(5,[jimi.com]),(3,[dianping.com,aipang.com]),(1,[baidu.com,google.com])] |
| Pool.DeclareKeepsInvariant | link_pool.py:125-153 | registering a new identifier with a valid sector, inserting it into the list and recording no last visit keeps the pool invariant |
| Pool.LinkPool.RegisteredInExactlyOneGroup | link_pool.py:37-38 | under the invariant an identifier is registered exactly when some priority group holds it, and no two groups hold it |
| Pool.LinkPool.CleanupSource | link_pool.py:157-199 | a disposed pool returns Done and changes nothing; an unknown identifier fails and changes nothing; otherwise every queued link of the source is abandoned, the source leaves the registry, its group and the last-visit map, every other source stays as it was, the pending total drops by the source's size, and the invariant holds |
| PriorityList.RemoveFirst | link_pool.py:186 | `list.remove`: the result holds the identifiers of the group less exactly one occurrence of x. Python raises when x is absent; the model leaves the list unchanged there instead, a case cleanup_source never reaches because link_pool.py:185 tests membership first |
| PriorityList.RemoveFromGroups | link_pool.py:182-190 | cleanup_source's index loop computes `RemoveMember`: the first group holding the identifier loses it and is deleted when it empties |
| PriorityList.RemoveMemberMembers | link_pool.py:182-190 | the removal takes exactly one occurrence of the identifier out of the members, or none when it is absent |
| PriorityList.RemoveMemberWellFormed | link_pool.py:182-190 | the removal keeps the list strictly descending with no empty group |
| PriorityList.RemoveMemberPriority | link_pool.py:182-190 | after the removal the identifier has no priority, and every other identifier keeps its priority |
| PriorityList.InsertThenRemove | link_pool.py:182-190 | cleaning up an identifier right after declaring it gives back the priority list it was declared into |
| Pool.CleanupKeepsInvariant | link_pool.py:166-196 | taking a declared identifier out of the registry, the list and the last-visit map keeps the pool invariant |
| Pool.LinkPool.PutLink | link_pool.py:201-235 | -1 for an undeclared source or a disposed pool; 1 for a key already queued, changing nothing; otherwise 0, the heap and the dedup set grow by exactly this link and its key, the status becomes pending, the last visit is reset to none, the pending total grows by one, and the invariant holds |
| Sectors.PushKeepsValid | link_pool.py:226-228 | pushing a link of the source with a fresh key keeps the dedup set equal to the keys of the heap |
| Sectors.HeapSizeMatchesDedup | link_pool.py:228 | in a valid sector the heap and the dedup set have the same size |
| Pool.LinkPool.SelLink | link_pool.py:238-287 | nothing on a disposed pool, or when no source is eligible; otherwise the link comes from the first eligible place of the walk (`Winner`), has maximum weight in its source, leaves with its key, the source's clock becomes now + interval + jitter and no earlier than now, the last visit is now exactly when the heap empties, every other source is unchanged, and the invariant holds |
| Selection.GateClosedAfterVisit | link_pool.py:269-281 | the politeness gate: once a source is visited at now with a jitter in [-range, range], it is not eligible at any time before now + interval - range |
| Selection.DeclaredSourceOpen | link_pool.py:269-272 | a source whose clock (set at link_pool.py:122) is still the declaration sentinel and whose heap is non-empty is eligible at every time from the sentinel on |
| Selection.FindWinner | link_pool.py:252-272 | the nested walk over groups and visiting orders returns `Winner`, the first place whose source is open and non-empty |
| Selection.FirstFrom | link_pool.py:260-272 | within one group's order, the first index from i on whose source is eligible, with none eligible before it, or none at all |
| Selection.WinnerFrom | link_pool.py:252-272 | from group g on, the first eligible place, with nothing eligible in an earlier group or earlier in its own group, or nothing eligible at all |
| Selection.WinnerIsFirstEligible | link_pool.py:252-286 | an eligible place with nothing eligible before it in the walk is the winner |
| Selection.WinnerRespectsPriority | link_pool.py:252-260 | when any source of a group is eligible there is a winner, in that group or in a group of strictly higher priority |
| Selection.NoWinnerIffNoneEligible | link_pool.py:252-287 | sel_link finds nothing exactly when no source of the priority list is eligible, whatever the visiting orders |
| Sectors.PopMax | link_pool.py:274-276 | heappop and the dedup removal: a link of the source with maximum weight is taken out, the rest of the heap is the old heap minus that one link, its key leaves the dedup set, the configuration and clock are untouched, and the sector stays valid |
| Sectors.PopKeepsValid | link_pool.py:274-277 | taking out one link with its key keeps the sector valid and removes exactly that link from the bag of pending links |
| Sectors.AcceptedDelayNonNegative | link_pool.py:278-281 | under an accepted configuration every jitter draw gives a delay between 0 and twice the interval |
| Pool.SectorUpdateKeepsInvariant | link_pool.py:226-235 | replacing one declared source's sector by a valid one, with a last-visit map over the same identifiers, keeps the pool invariant |
| Pool.TotalOfRemove | link_pool.py:49-51 | the pending total is one sector's size plus the total of the others, whichever sector is counted first |
| Pool.TotalOfUpdate | link_pool.py:49-51 | replacing one sector changes the pending total by the change in that sector's size |
| Pool.TotalOfZero | link_pool.py:49-51 | no link is pending exactly when every sector's heap is empty |
| Pool.PendingIsSelectable | link_pool.py:310-313 | while links are pending and every gate is open, select finds a link, so the test's drain loop makes progress |
| PriorityList.LowestPriorityMisplaced | link_pool.py:133-147 | as written, declaring b.com at 1 after a.com at 3 puts b.com in the priority-3 group; the corrected insert opens a priority-1 group for it |
| Sectors.NegativeRangeAccepted | link_pool.py:113-114 | the guard as written accepts interval 0 with range -1, the corrected guard refuses it, and randint(1, -1) has no value to draw |

## Left out

- Threading: the sector locks, the update lock and the shadow-copy publication are not modelled, and every operation is one sequential step. The shadow copies are shallow, so a concurrent reader may observe a group list while `append` or `remove` mutates it. That aliasing only matters under concurrency and is not modelled either.
- Randomness: `random.Random`, the shuffle done by sorting with a random comparator, and `randint` become the `orders` and `jitter` parameters. Nothing is claimed about uniformity, and the statistical 50/50 check of the test case is not modelled.
- Weights are integers; the source only negates and compares them (link_pool.py:226, 274).
- Time: `datetime` becomes whole seconds. The 2010-01-01 12:00:00 sentinel is `PAST_SENTINEL`, read as seconds since the Unix epoch. A freshly declared source is open only from that instant on (`Selection.DeclaredSourceOpen`); a `now` before it finds the source closed, so callers are expected to pass current times.
- Links.LinkInfo.Key: the source keys on the url with `hash` of the post data and `hash(str(headers))`. The model keys on the raw triple, so hash collisions are not modelled.
- The `LinkInfo` class is imported from another module and is not part of this model. Only its url, post data, headers, identifier, weight and status are modelled.
- The `isinstance` check and its `TypeError`, all logging, and the `_total_link` counter, which nothing reads.
- The priority constants `LINK_PRIOR_INST` to `LINK_PRIOR_LOW` (link_pool.py:29-33): no operation reads them, and priorities are plain integers.
- Sectors.PopMax: the heap is modelled as a bag with a maximum-weight pop, not as a binary heap. On equal weights Python compares the link objects, and the model leaves that tie-break unspecified.
- Pool.LinkPool.CleanupSource and Pool.LinkPool.Dispose: the source also resets the withdrawn sectors' heap and dedup set. Those sector objects become unreachable from the pool at the same time, so the model drops them whole rather than emptying them.
- Pool.LinkPool.SelLink: the branch that skips an identifier missing from the registry is not modelled as a separate case. It is only reachable under concurrency; sequentially the invariant rules it out, and `Eligible` still checks membership.
- The test's put-and-drain loop is not replayed against the class. `DeclareScenario` covers its priority-list assertion, `PendingIsSelectable` its drain loop, and `WinnerRespectsPriority` its highest-priority-first order. The exact url lists are checked with `assertTrue` and so are not exact-order assertions.

## Findings

| source | as written | input that shows it | evidently intended | confidence | as-written member | corrected member |
|---|---|---|---|---|---|---|
| link_pool.py:133-147 | when the loop runs off the end, `identifier_list` still holds the last group's list, so a priority below every existing one is appended to the last group | declare a.com at 3, then b.com at 1: the list becomes [(3,[a.com,b.com])] | a new group (1,[b.com]) after the last group, giving [(3,[a.com]),(1,[b.com])] | high; not executed | PriorityList.InsertGroupAsWritten, PriorityList.LowestPriorityMisplaced | PriorityList.InsertGroup, PriorityList.InsertGroupPriority |
| link_pool.py:113-114 | the guard `interval_seconds - random_range < 0` lets a negative range through; sel_link then calls `randint(-r, r)` on an empty range, which raises after the link has been popped and its key removed, so the link is lost | declare with interval 0 and range -1, put a link, select it | refuse any range outside 0..interval, which makes every draw exist and every delay non-negative | medium; not executed | Sectors.ConfigAcceptedAsWritten, Sectors.NegativeRangeAccepted | Sectors.ConfigAccepted, Sectors.AcceptedDelayNonNegative |
