/** Following domain trusts: the work list of MSLDAPDump2Bloodhound.run. */
module TrustWalk {
  import opened Text

  datatype Trust = Trust(hostname: string, sid: string)

  function Sids(ts: seq<Trust>): (sids: seq<string>)
    ensures |sids| == |ts| && forall k | 0 <= k < |ts| :: sids[k] == Upper(ts[k].sid)
  {
    if ts == [] then [] else [Upper(ts[0].sid)] + Sids(ts[1..])
  }

  // -------------------------------------------------- reachability

  /** A way from domain to domain: each is in the list of trusts that the one before it gave. */
  predicate IsWay(lists: map<string, seq<string>>, way: seq<string>) {
    way != [] && forall k | 0 <= k < |way| - 1 :: way[k] in lists && way[k + 1] in lists[way[k]]
  }

  ghost predicate Reachable(lists: map<string, seq<string>>, start: string, sid: string) {
    exists way :: IsWay(lists, way) && way[0] == start && way[|way| - 1] == sid
  }

  lemma ReachableStart(lists: map<string, seq<string>>, start: string)
    ensures Reachable(lists, start, start)
  {
    assert IsWay(lists, [start]);
  }

  lemma ReachableStep(lists: map<string, seq<string>>, start: string, from: string, to: string)
    requires Reachable(lists, start, from) && from in lists && to in lists[from]
    ensures Reachable(lists, start, to)
  {
    var way :| IsWay(lists, way) && way[0] == start && way[|way| - 1] == from;
    assert IsWay(lists, way + [to]);
  }

  lemma ReachableMore(lists: map<string, seq<string>>, start: string, own: string, list: seq<string>, sid: string)
    requires Reachable(lists, start, sid) && own !in lists
    ensures Reachable(lists[own := list], start, sid)
  {
    var way :| IsWay(lists, way) && way[0] == start && way[|way| - 1] == sid;
    assert IsWay(lists[own := list], way);
  }

  /** A set that holds the start and everything in the lists of its members holds every way. */
  lemma {:induction false} ClosedHasWays(lists: map<string, seq<string>>, closed: set<string>, way: seq<string>)
    requires IsWay(lists, way) && way[0] in closed
    requires forall s, t | s in lists && s in closed && t in lists[s] :: t in closed
    ensures way[|way| - 1] in closed
    decreases |way|
  {
    if |way| > 1 { ClosedHasWays(lists, closed, way[1..]); }
  }

  // -------------------------------------------------- the walk

  /** What stays to be done or is done: everything reached is seen or waits, and what is seen or
      waits is reachable. */
  ghost predicate Walking(lists: map<string, seq<string>>, start: string, seen: map<string, string>,
      waiting: seq<Trust>) {
    && start in seen && lists.Keys <= seen.Keys
    && (forall s, t | s in lists && t in lists[s] :: t in seen || t in Sids(waiting))
    && (forall s | s in seen :: Reachable(lists, start, s))
    && (forall s | s in Sids(waiting) :: Reachable(lists, start, s))
  }

  predicate Distinct(s: seq<string>) { forall i, j | 0 <= i < j < |s| :: s[i] != s[j] }

  /** The loop over the trusts of a domain just connected to. */
  method Enqueue(seen: map<string, string>, waiting: seq<Trust>, found: seq<Trust>) returns (trusts: seq<Trust>)
    ensures forall s | s in Sids(found) :: s in seen || s in Sids(trusts)
    ensures forall s | s in Sids(waiting) :: s in Sids(trusts)
    ensures forall s | s in Sids(trusts) :: s in Sids(waiting) || s in Sids(found)
  {
    trusts := waiting;
    for i := 0 to |found|
      invariant forall s | s in Sids(found)[..i] :: s in seen || s in Sids(trusts)
      invariant forall s | s in Sids(waiting) :: s in Sids(trusts)
      invariant forall s | s in Sids(trusts) :: s in Sids(waiting) || s in Sids(found)
    {
      var trust := found[i];
      var sid := Upper(trust.sid);
      assert Sids(found)[..i + 1] == Sids(found)[..i] + [sid];
      assert sid in Sids(found);
      if sid !in seen && sid !in Sids(trusts) {
        SidsSnoc(trusts, trust);
        trusts := trusts + [trust];
      }
    }
    assert Sids(found)[..|found|] == Sids(found);
  }

  lemma SidsSnoc(ts: seq<Trust>, t: Trust)
    ensures Sids(ts + [t]) == Sids(ts) + [Upper(t.sid)]
  {}

  /** Every domain in lists but the first is there because a connection gave its list; a domain
      that was tried and is not there could not be connected to. */
  ghost predicate Recorded(lists: map<string, seq<string>>, start: string, connect: Trust -> Option<seq<Trust>>,
      tried: seq<string>) {
    && (forall s | s in lists && s != start :: exists t :: Gave(connect, t, s, lists[s]))
    && (forall s | s in tried && s !in lists :: exists t :: Refused(connect, t, s))
  }

  /** A trust with this SID, whose connection gave these SIDs, or failed. */
  predicate Gave(connect: Trust -> Option<seq<Trust>>, t: Trust, sid: string, list: seq<string>) {
    Upper(t.sid) == sid && connect(t).Some? && Sids(connect(t).value) == list
  }

  predicate Refused(connect: Trust -> Option<seq<Trust>>, t: Trust, sid: string) {
    Upper(t.sid) == sid && connect(t).None?
  }

  /** Each domain seen but the first was tried, once. */
  ghost predicate TriedOnce(seen: map<string, string>, start: string, tried: seq<string>) {
    Distinct(tried) && forall s :: s in tried <==> s in seen && s != start
  }

  ghost predicate Within(seen: map<string, string>, trusts: seq<Trust>, sids: set<string>) {
    seen.Keys <= sids && forall s | s in Sids(trusts) :: s in sids
  }

  /** From the dumped domain's trusts on, with whatever the connections give: the walk ends, it
      connects to no SID twice, and it has seen exactly what is reachable through the domains whose
      connection succeeded. lists has the SIDs that each of those gave. */
  method Walk(start: string, first: seq<Trust>, connect: Trust -> Option<seq<Trust>>, ghost sids: set<string>)
      returns (seen: map<string, string>, ghost lists: map<string, seq<string>>, ghost tried: seq<string>)
    requires start in sids && (forall s | s in Sids(first) :: s in sids)
    requires forall t: Trust, s: string :: connect(t).Some? && s in Sids(connect(t).value) ==> s in sids
    ensures forall s :: s in seen <==> Reachable(lists, start, s)
    ensures start in lists && lists[start] == Sids(first)
    ensures TriedOnce(seen, start, tried) && Recorded(lists, start, connect, tried)
  {
    hide Sids, Walking, Reachable, Recorded, TriedOnce, Within;
    seen := map[start := "SELF"];
    lists, tried := map[start := Sids(first)], [];
    var trusts := first;
    WalkBegins(start, first, connect, sids);
    while |trusts| > 0
      invariant Walking(lists, start, seen, trusts) && Within(seen, trusts, sids)
      invariant TriedOnce(seen, start, tried) && Recorded(lists, start, connect, tried)
      invariant start in lists && lists[start] == Sids(first) && start in seen
      decreases |sids - seen.Keys|, |trusts|
    {
      var trust := trusts[0];
      var sid := Upper(trust.sid);
      ghost var before := trusts;
      trusts := trusts[1..];
      if sid in seen {
        WalkSkips(lists, start, seen, before, sids);
        continue;
      }
      ghost var was := seen;
      seen := seen[sid := trust.hostname];
      OneMoreSeen(was, trust, before, sids, start, tried);
      tried := tried + [sid];
      var found := connect(trust);
      if found.None? {
        WalkFails(lists, start, was, before, connect, tried);
        continue;
      }
      ghost var waiting := trusts;
      trusts := Enqueue(seen, trusts, found.value);
      WalkGoesOn(lists, start, was, before, trusts, connect, tried, sids);
      lists := lists[sid := Sids(found.value)];
    }
    WalkEnds(lists, start, seen, trusts);
  }

  lemma SidsCons(ts: seq<Trust>)
    requires ts != []
    ensures Sids(ts) == [Upper(ts[0].sid)] + Sids(ts[1..])
  {}

  lemma WalkBegins(start: string, first: seq<Trust>, connect: Trust -> Option<seq<Trust>>, sids: set<string>)
    requires start in sids && (forall s | s in Sids(first) :: s in sids)
    ensures Walking(map[start := Sids(first)], start, map[start := "SELF"], first)
    ensures Within(map[start := "SELF"], first, sids) && TriedOnce(map[start := "SELF"], start, [])
    ensures Recorded(map[start := Sids(first)], start, connect, [])
  {
    hide Sids, Reachable;
    var lists := map[start := Sids(first)];
    ReachableStart(lists, start);
    forall s | s in Sids(first) ensures Reachable(lists, start, s) { ReachableStep(lists, start, start, s); }
  }

  lemma WalkSkips(lists: map<string, seq<string>>, start: string, seen: map<string, string>, trusts: seq<Trust>,
      sids: set<string>)
    requires trusts != [] && Upper(trusts[0].sid) in seen && Walking(lists, start, seen, trusts)
        && Within(seen, trusts, sids)
    ensures Walking(lists, start, seen, trusts[1..]) && Within(seen, trusts[1..], sids)
  {
    hide Sids, Reachable;
    SidsCons(trusts);
  }

  lemma OneMoreSeen(seen: map<string, string>, trust: Trust, trusts: seq<Trust>, sids: set<string>, start: string,
      tried: seq<string>)
    requires trusts != [] && trusts[0] == trust && Within(seen, trusts, sids) && Upper(trust.sid) !in seen
    requires TriedOnce(seen, start, tried) && start in seen
    ensures var sid, seen' := Upper(trust.sid), seen[Upper(trust.sid) := trust.hostname];
            && Within(seen', trusts[1..], sids) && |sids - seen'.Keys| < |sids - seen.Keys|
            && TriedOnce(seen', start, tried + [sid])
  {
    hide Sids, Upper;
    var sid := Upper(trust.sid);
    SidsCons(trusts);
    assert sid in Sids(trusts);
    assert sids - seen[sid := trust.hostname].Keys == (sids - seen.Keys) - {sid};
  }

  /** The domain popped, whose list is not there. */
  lemma WalkPops(lists: map<string, seq<string>>, start: string, seen: map<string, string>, trusts: seq<Trust>)
    requires trusts != [] && Walking(lists, start, seen, trusts)
    ensures var sid := Upper(trusts[0].sid);
            Reachable(lists, start, sid) && Walking(lists, start, seen[sid := trusts[0].hostname], trusts[1..])
  {
    hide Sids, Reachable, Upper;
    SidsCons(trusts);
    assert Upper(trusts[0].sid) in Sids(trusts);
  }

  lemma WalkFails(lists: map<string, seq<string>>, start: string, seen: map<string, string>, trusts: seq<Trust>,
      connect: Trust -> Option<seq<Trust>>, tried: seq<string>)
    requires trusts != [] && Walking(lists, start, seen, trusts) && connect(trusts[0]).None?
    requires tried != [] && tried[|tried| - 1] == Upper(trusts[0].sid)
        && Recorded(lists, start, connect, tried[..|tried| - 1])
    ensures Walking(lists, start, seen[Upper(trusts[0].sid) := trusts[0].hostname], trusts[1..])
    ensures Recorded(lists, start, connect, tried)
  {
    hide Sids, Reachable, Walking, Upper;
    WalkPops(lists, start, seen, trusts);
    assert Refused(connect, trusts[0], Upper(trusts[0].sid));
    assert tried == tried[..|tried| - 1] + [Upper(trusts[0].sid)];
  }

  lemma WalkGoesOn(lists: map<string, seq<string>>, start: string, seen: map<string, string>, before: seq<Trust>,
      after: seq<Trust>,
      connect: Trust -> Option<seq<Trust>>, tried: seq<string>, sids: set<string>)
    requires before != [] && Walking(lists, start, seen, before) && Upper(before[0].sid) !in seen
        && connect(before[0]).Some?
    requires tried != [] && tried[|tried| - 1] == Upper(before[0].sid)
        && Recorded(lists, start, connect, tried[..|tried| - 1])
    requires Within(seen[Upper(before[0].sid) := before[0].hostname], before[1..], sids)
    requires forall s | s in Sids(connect(before[0]).value) :: s in sids
    requires forall s | s in Sids(connect(before[0]).value) ::
               s in seen[Upper(before[0].sid) := before[0].hostname] || s in Sids(after)
    requires forall s | s in Sids(before[1..]) :: s in Sids(after)
    requires forall s | s in Sids(after) :: s in Sids(before[1..]) || s in Sids(connect(before[0]).value)
    ensures var sid, list := Upper(before[0].sid), Sids(connect(before[0]).value);
            && Walking(lists[sid := list], start, seen[sid := before[0].hostname], after)
            && Within(seen[sid := before[0].hostname], after, sids)
            && Recorded(lists[sid := list], start, connect, tried)
  {
    hide Sids, Reachable, Upper;
    var sid, list := Upper(before[0].sid), Sids(connect(before[0]).value);
    WalkPops(lists, start, seen, before);
    WalkStep(lists, start, seen[sid := before[0].hostname], before[1..], after, sid, list);
    RecordedMore(lists, start, connect, tried, before[0]);
  }

  lemma RecordedMore(lists: map<string, seq<string>>, start: string, connect: Trust -> Option<seq<Trust>>,
      tried: seq<string>, t: Trust)
    requires connect(t).Some? && Upper(t.sid) !in lists
    requires tried != [] && tried[|tried| - 1] == Upper(t.sid) && Recorded(lists, start, connect, tried[..|tried| - 1])
    ensures Recorded(lists[Upper(t.sid) := Sids(connect(t).value)], start, connect, tried)
  {
    hide Sids, Upper;
    assert Gave(connect, t, Upper(t.sid), Sids(connect(t).value));
    assert tried == tried[..|tried| - 1] + [Upper(t.sid)];
  }

  lemma WalkStep(lists: map<string, seq<string>>, start: string, seen: map<string, string>, waiting: seq<Trust>,
      trusts: seq<Trust>, sid: string, list: seq<string>)
    requires Walking(lists, start, seen, waiting) && sid in seen && sid !in lists
    requires forall s | s in Sids(waiting) :: s in Sids(trusts)
    requires forall s | s in list :: s in seen || s in Sids(trusts)
    requires forall s | s in Sids(trusts) :: s in Sids(waiting) || s in list
    ensures Walking(lists[sid := list], start, seen, trusts)
  {
    hide Sids, Reachable;
    var lists' := lists[sid := list];
    forall s | s in seen ensures Reachable(lists', start, s) { ReachableMore(lists, start, sid, list, s); }
    forall s | s in Sids(trusts) ensures Reachable(lists', start, s) {
      if s in Sids(waiting) {
        ReachableMore(lists, start, sid, list, s);
      } else {
        ReachableStep(lists', start, sid, s);
      }
    }
  }

  lemma WalkEnds(lists: map<string, seq<string>>, start: string, seen: map<string, string>, trusts: seq<Trust>)
    requires trusts == [] && Walking(lists, start, seen, trusts)
    ensures forall s :: s in seen <==> Reachable(lists, start, s)
  {
    forall s ensures s in seen <==> Reachable(lists, start, s) {
      if Reachable(lists, start, s) {
        var way :| IsWay(lists, way) && way[0] == start && way[|way| - 1] == s;
        ClosedHasWays(lists, seen.Keys, way);
      }
    }
  }
}
