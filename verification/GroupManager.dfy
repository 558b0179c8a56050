/** The socket groups of rtrlib/rtr_mgr.c: which group is active, and when another takes over.
    A callback, with all it does, is one step. */
module GroupManager {

  datatype SocketState =
    | Connecting | Established | Reset | Sync | FastReconnect | NoDataAvail | NoIncrUpdate | Fatal | Transport
    | Shutdown | Closed

  datatype Status = MgrClosed | MgrConnecting | MgrEstablished | MgrError

  /** What the manager reads of a struct rtr_socket; running means that it has a thread. */
  datatype SocketInfo = SocketInfo(state: SocketState, lastUpdate: nat, running: bool)

  /** struct rtr_mgr_group. */
  datatype Group = Group(preference: nat, status: Status, sockets: seq<SocketInfo>)

  datatype Rtval = Success | Error | InvalidParam

  // ----- One group -----

  /** rtr_mgr_config_status_is_synced. */
  predicate Synced(g: Group) {
    forall s :: s in g.sockets ==> s.lastUpdate != 0 && s.state in {Established, Reset, Sync}
  }

  function StartSocket(s: SocketInfo): SocketInfo {
    s.(running := true, state := if s.state == Shutdown then Shutdown else Connecting)
  }

  /** rtr_mgr_start_sockets from socket `j` on: it gives up at a socket that has a thread. */
  function StartFrom(g: Group, j: nat): Group
    requires j <= |g.sockets|
    decreases |g.sockets| - j
  {
    if j == |g.sockets| then g.(status := MgrConnecting)
    else if g.sockets[j].running then g
    else StartFrom(g.(sockets := g.sockets[j := StartSocket(g.sockets[j])]), j + 1)
  }

  function StartGroup(g: Group): Group {
    StartFrom(g, 0)
  }

  function StopSocket(s: SocketInfo): SocketInfo {
    if s.running then SocketInfo(Closed, 0, false) else s.(state := Shutdown)
  }

  predicate AllDown(g: Group) {
    forall s :: s in g.sockets ==> s.state == Shutdown
  }

  /** rtr_stop of socket `j`: the shutdown callback, then the thread ends. */
  function StopAt(g: Group, j: nat): Group
    requires j < |g.sockets|
  {
    var down := g.(sockets := g.sockets[j := g.sockets[j].(state := Shutdown)]);
    var status := if g.sockets[j].state != Shutdown && AllDown(down) then MgrClosed else g.status;
    Group(g.preference, status, g.sockets[j := StopSocket(g.sockets[j])])
  }

  function StopFrom(g: Group, j: nat): Group
    requires j <= |g.sockets|
    decreases |g.sockets| - j
  {
    if j == |g.sockets| then g else StopFrom(StopAt(g, j), j + 1)
  }

  /** Every socket stopped, and the group closed. */
  function CloseGroup(g: Group): Group {
    StopFrom(g, 0).(status := MgrClosed)
  }

  ghost predicate NoneRunning(g: Group) {
    forall s :: s in g.sockets ==> !s.running
  }

  lemma {:induction false} StopFromStops(g: Group, j: nat)
    requires j <= |g.sockets| && forall k :: 0 <= k < j ==> !g.sockets[k].running
    ensures var g' := StopFrom(g, j);
            && NoneRunning(g') && g'.preference == g.preference && |g'.sockets| == |g.sockets|
            && (g'.status == g.status || g'.status == MgrClosed)
    decreases |g.sockets| - j
  {
    if j < |g.sockets| { StopFromStops(StopAt(g, j), j + 1); }
  }

  /** Idle sockets are all started, and the group is connecting. */
  lemma {:induction false} StartFromStarts(g: Group, j: nat)
    requires j <= |g.sockets|
    ensures var g' := StartFrom(g, j);
            && g'.preference == g.preference && |g'.sockets| == |g.sockets|
            && (g'.status == g.status || g'.status == MgrConnecting)
            && ((forall k :: j <= k < |g.sockets| ==> !g.sockets[k].running) ==> g'.status == MgrConnecting)
    decreases |g.sockets| - j
  {
    if j < |g.sockets| && !g.sockets[j].running {
      StartFromStarts(g.(sockets := g.sockets[j := StartSocket(g.sockets[j])]), j + 1);
    }
  }

  // ----- All groups -----

  type Groups = seq<Group>

  predicate LessPreferable(gs: Groups, i: nat, k: nat)
    requires i < |gs| && k < |gs|
  {
    gs[k].status != MgrClosed && k != i && gs[k].preference > gs[i].preference
  }

  /** rtr_mgr_close_less_preferable_groups. */
  function CloseLess(gs: Groups, i: nat): (r: Groups)
    requires i < |gs|
    ensures |r| == |gs|
  {
    seq(|gs|, k requires 0 <= k < |gs| => if LessPreferable(gs, i, k) then CloseGroup(gs[k]) else gs[k])
  }

  predicate SomeEstablished(gs: Groups) {
    exists g :: g in gs && g.status == MgrEstablished
  }

  /** get_best_inactive_rtr_mgr_group: the first closed group but `i`, or the end. */
  function BestInactive(gs: Groups, i: nat, k: nat): (r: nat)
    requires k <= |gs|
    ensures k <= r <= |gs|
    ensures r < |gs| ==> r != i && gs[r].status == MgrClosed
    decreases |gs| - k
  {
    if k == |gs| || (k != i && gs[k].status == MgrClosed) then k else BestInactive(gs, i, k + 1)
  }

  predicate MorePreferableFailed(gs: Groups, i: nat)
    requires i < |gs|
  {
    forall k :: 0 <= k < |gs| && k != i && gs[k].preference < gs[i].preference ==> gs[k].status in {MgrError, MgrClosed}
  }

  function SetStatus(gs: Groups, i: nat, status: Status): (r: Groups)
    requires i < |gs|
    ensures |r| == |gs|
  {
    gs[i := gs[i].(status := status)]
  }

  function OnEstablished(gs: Groups, i: nat): Groups
    requires i < |gs|
  {
    if gs[i].status == MgrConnecting then
      if Synced(gs[i]) then CloseLess(SetStatus(gs, i, MgrEstablished), i) else gs
    else if gs[i].status == MgrError then
      if MorePreferableFailed(gs, i) && Synced(gs[i]) then CloseLess(SetStatus(gs, i, MgrEstablished), i) else gs
    else gs
  }

  function OnError(gs: Groups, i: nat): Groups
    requires i < |gs|
  {
    var gs' := SetStatus(gs, i, MgrError);
    var k := BestInactive(gs', i, 0);
    if !SomeEstablished(gs') && k < |gs'| then gs'[k := StartGroup(gs'[k])] else gs'
  }

  /** rtr_mgr_cb, after socket `j` of group `i` got a new state and time of update. A shutdown
      comes from rtr_stop, whose callback is in StopAt. */
  function OnState(gs: Groups, i: nat, j: nat, state: SocketState, lastUpdate: nat): Groups
    requires i < |gs| && j < |gs[i].sockets| && state != Shutdown
  {
    var s := gs[i].sockets[j];
    var gs' := gs[i := gs[i].(sockets := gs[i].sockets[j := s.(state := state, lastUpdate := lastUpdate)])];
    match state
    case Established => OnEstablished(gs', i)
    case Connecting => if gs'[i].status == MgrError then gs' else SetStatus(gs', i, MgrConnecting)
    case Fatal => OnError(gs', i)
    case Transport => OnError(gs', i)
    case NoDataAvail => OnError(gs', i)
    case _ => gs'
  }

  // ----- What the manager keeps -----

  ghost predicate SortedGroups(gs: Groups) {
    forall i, j :: 0 <= i < j < |gs| ==> gs[i].preference < gs[j].preference
  }

  /** Below an established group everything is closed. */
  ghost predicate Exclusive(gs: Groups) {
    forall i, j :: 0 <= i < j < |gs| && gs[i].status == MgrEstablished ==> gs[j].status == MgrClosed
  }

  ghost predicate ClosedAreIdle(gs: Groups) {
    forall g :: g in gs && g.status == MgrClosed ==> NoneRunning(g)
  }

  ghost predicate Good(gs: Groups) {
    SortedGroups(gs) && Exclusive(gs) && ClosedAreIdle(gs) && gs != []
  }

  lemma AtMostOneEstablished(gs: Groups, i: nat, j: nat)
    requires Good(gs) && i < |gs| && j < |gs| && gs[i].status == MgrEstablished && gs[j].status == MgrEstablished
    ensures i == j
  {
  }

  lemma ClosesLess(gs: Groups, i: nat)
    requires i < |gs| && SortedGroups(gs) && ClosedAreIdle(gs)
    requires forall k :: 0 <= k < i ==> gs[k].status != MgrEstablished
    ensures Good(CloseLess(gs, i))
  {
    hide CloseGroup;
    var r := CloseLess(gs, i);
    forall k | 0 <= k < |gs|
      ensures r[k].preference == gs[k].preference && (r[k].status == MgrClosed ==> NoneRunning(r[k]))
      ensures i < k ==> r[k].status == MgrClosed
    {
      ClosedGroup(gs[k]);
      assert gs[k] in gs;
      if i < k { assert gs[i].preference < gs[k].preference; }
    }
  }

  lemma ClosedGroup(g: Group)
    ensures var g' := CloseGroup(g);
            NoneRunning(g') && g'.preference == g.preference && g'.status == MgrClosed && |g'.sockets| == |g.sockets|
  {
    StopFromStops(g, 0);
  }

  /** Starting a closed group that no established group is preferred to. */
  lemma StartKeepsGood(gs: Groups, k: nat)
    requires Good(gs) && k < |gs| && forall i :: 0 <= i < k ==> gs[i].status != MgrEstablished
    requires gs[k].status == MgrClosed || k == 0
    ensures Good(gs[k := StartGroup(gs[k])])
  {
    hide StartGroup;
    StartedGroup(gs[k]);
    var gs' := gs[k := StartGroup(gs[k])];
    assert gs[k] in gs;
    forall g | g in gs' && g.status == MgrClosed ensures NoneRunning(g) {
      assert g in gs;
    }
  }

  /** A start that leaves the group closed has started nothing. */
  lemma StartedGroup(g: Group)
    ensures var g' := StartGroup(g);
            && g'.preference == g.preference && (g'.status == g.status || g'.status == MgrConnecting)
            && (NoneRunning(g) ==> g'.status == MgrConnecting)
  {
    StartFromStarts(g, 0);
  }

  lemma SetStatusKeepsGood(gs: Groups, i: nat, status: Status)
    requires Good(gs) && i < |gs| && status in {MgrConnecting, MgrError} && gs[i].status != MgrClosed
    ensures Good(SetStatus(gs, i, status))
  {
    var gs' := SetStatus(gs, i, status);
    assert forall g :: g in gs' && g != gs'[i] ==> g in gs;
  }

  lemma ErrorKeepsGood(gs: Groups, i: nat)
    requires Good(gs) && i < |gs| && gs[i].status != MgrClosed
    ensures Good(OnError(gs, i))
  {
    hide StartGroup;
    SetStatusKeepsGood(gs, i, MgrError);
    var gs' := SetStatus(gs, i, MgrError);
    var k := BestInactive(gs', i, 0);
    if !SomeEstablished(gs') && k < |gs'| {
      assert forall m :: 0 <= m < |gs'| ==> gs'[m] in gs';
      StartKeepsGood(gs', k);
    }
  }

  lemma EstablishedKeepsGood(gs: Groups, i: nat)
    requires Good(gs) && i < |gs|
    ensures Good(OnEstablished(gs, i))
  {
    hide CloseLess;
    if gs[i].status in {MgrConnecting, MgrError} {
      var gs' := SetStatus(gs, i, MgrEstablished);
      assert forall g :: g in gs' && g != gs'[i] ==> g in gs;
      ClosesLess(gs', i);
    }
  }

  /** A callback of a running socket. */
  lemma CallbackKeepsGood(gs: Groups, i: nat, j: nat, state: SocketState, lastUpdate: nat)
    requires Good(gs) && i < |gs| && j < |gs[i].sockets| && gs[i].sockets[j].running && state != Shutdown
    ensures Good(OnState(gs, i, j, state, lastUpdate))
  {
    hide OnError, OnEstablished;
    var s := gs[i].sockets[j];
    assert gs[i] in gs && s in gs[i].sockets;
    var gs' := gs[i := gs[i].(sockets := gs[i].sockets[j := s.(state := state, lastUpdate := lastUpdate)])];
    assert forall g :: g in gs' && g != gs'[i] ==> g in gs;
    assert Good(gs');
    match state
    case Established => EstablishedKeepsGood(gs', i);
    case Connecting => if gs'[i].status != MgrError { SetStatusKeepsGood(gs', i, MgrConnecting); }
    case Fatal => ErrorKeepsGood(gs', i);
    case Transport => ErrorKeepsGood(gs', i);
    case NoDataAvail => ErrorKeepsGood(gs', i);
    case _ =>
  }

  // ----- The list of groups -----

  function InsertGroup(g: Group, gs: Groups): Groups {
    if gs == [] || g.preference < gs[0].preference then [g] + gs else [gs[0]] + InsertGroup(g, gs[1..])
  }

  /** Sorting by preference, groups of equal preference in their order. */
  function SortGroups(gs: Groups): Groups {
    if gs == [] then [] else InsertGroup(gs[|gs| - 1], SortGroups(gs[..|gs| - 1]))
  }

  ghost predicate Ascending(gs: Groups) {
    forall i, j :: 0 <= i < j < |gs| ==> gs[i].preference <= gs[j].preference
  }

  lemma {:induction false} InsertGroupKeeps(g: Group, gs: Groups)
    ensures multiset(InsertGroup(g, gs)) == multiset(gs) + multiset{g}
  {
    if gs != [] && g.preference >= gs[0].preference {
      InsertGroupKeeps(g, gs[1..]);
      assert gs == [gs[0]] + gs[1..];
    }
  }

  lemma {:induction false} InsertGroupSorts(g: Group, gs: Groups)
    requires Ascending(gs)
    ensures Ascending(InsertGroup(g, gs))
  {
    if gs != [] && g.preference >= gs[0].preference {
      var r := InsertGroup(g, gs[1..]);
      InsertGroupSorts(g, gs[1..]);
      InsertGroupKeeps(g, gs[1..]);
      forall i | 0 <= i < |r| ensures gs[0].preference <= r[i].preference {
        assert r[i] in multiset(r);
        assert r[i] == g || r[i] in gs[1..];
      }
    }
  }

  lemma {:induction false} SortGroupsSorts(gs: Groups)
    ensures Ascending(SortGroups(gs)) && multiset(SortGroups(gs)) == multiset(gs)
  {
    if gs != [] {
      var rest := gs[..|gs| - 1];
      SortGroupsSorts(rest);
      InsertGroupSorts(gs[|gs| - 1], SortGroups(rest));
      InsertGroupKeeps(gs[|gs| - 1], SortGroups(rest));
      assert gs == rest + [gs[|gs| - 1]];
    }
  }

  ghost predicate UniquePreferences(gs: Groups) {
    forall i, j :: 0 <= i < j < |gs| ==> gs[i].preference != gs[j].preference
  }

  /** How many groups have a preference. */
  function Having(gs: Groups, p: nat): nat {
    if gs == [] then 0 else Having(gs[..|gs| - 1], p) + if gs[|gs| - 1].preference == p then 1 else 0
  }

  lemma {:induction false} InsertHaving(g: Group, gs: Groups, p: nat)
    ensures Having(InsertGroup(g, gs), p) == Having(gs, p) + if g.preference == p then 1 else 0
  {
    if gs == [] || g.preference < gs[0].preference {
      HavingCons(g, gs, p);
      if gs == [] { assert InsertGroup(g, gs) == [] + [g]; }
    } else {
      InsertHaving(g, gs[1..], p);
      HavingCons(gs[0], InsertGroup(g, gs[1..]), p);
      HavingCons(gs[0], gs[1..], p);
      assert gs == [gs[0]] + gs[1..];
    }
  }

  lemma {:induction false} HavingCons(g: Group, gs: Groups, p: nat)
    ensures Having([g] + gs, p) == Having(gs, p) + if g.preference == p then 1 else 0
  {
    if gs == [] {
      assert ([g] + gs)[..0] == [];
    } else {
      HavingCons(g, gs[..|gs| - 1], p);
      assert ([g] + gs)[..|gs|] == [g] + gs[..|gs| - 1];
    }
  }

  lemma {:induction false} SortHaving(gs: Groups, p: nat)
    ensures Having(SortGroups(gs), p) == Having(gs, p)
  {
    if gs != [] {
      SortHaving(gs[..|gs| - 1], p);
      InsertHaving(gs[|gs| - 1], SortGroups(gs[..|gs| - 1]), p);
    }
  }

  lemma {:induction false} HavingPositive(gs: Groups, p: nat)
    ensures Having(gs, p) > 0 <==> exists i :: 0 <= i < |gs| && gs[i].preference == p
  {
    if gs != [] { HavingPositive(gs[..|gs| - 1], p); }
  }

  lemma {:induction false} UniqueHaving(gs: Groups)
    ensures UniquePreferences(gs) <==> forall p: nat :: Having(gs, p) <= 1
  {
    if gs != [] {
      var rest, last := gs[..|gs| - 1], gs[|gs| - 1];
      UniqueHaving(rest);
      forall p: nat { HavingPositive(rest, p); }
      if UniquePreferences(gs) {
        assert UniquePreferences(rest);
        forall p: nat ensures Having(gs, p) <= 1 { HavingPositive(rest, p); }
      } else if UniquePreferences(rest) {
        var i, j :| 0 <= i < j < |gs| && gs[i].preference == gs[j].preference;
        HavingPositive(rest, last.preference);
        assert Having(gs, last.preference) > 1;
      } else {
        var p: nat :| Having(rest, p) > 1;
        assert Having(gs, p) > 1;
      }
    }
  }

  /** Sorting makes the preferences strictly increasing exactly when they are unique. */
  lemma SortUnique(gs: Groups)
    ensures SortedGroups(SortGroups(gs)) <==> UniquePreferences(gs)
  {
    hide SortGroups, Having, UniquePreferences, SortedGroups;
    var sorted := SortGroups(gs);
    SortGroupsSorts(gs);
    AscendingUnique(sorted);
    UniqueHaving(gs);
    UniqueHaving(sorted);
    if p: nat :| Having(gs, p) > 1 {
      SortHaving(gs, p);
    } else {
      forall p: nat ensures Having(sorted, p) <= 1 { SortHaving(gs, p); }
    }
  }

  lemma AscendingUnique(gs: Groups)
    requires Ascending(gs)
    ensures SortedGroups(gs) <==> UniquePreferences(gs)
  {
  }

  // ----- Adding, removing, starting, stopping -----

  const IDLE: SocketInfo := SocketInfo(Closed, 0, false)

  function NewGroup(preference: nat, sockets: nat): Group {
    Group(preference, MgrClosed, seq(sockets, _ => IDLE))
  }

  /** The best group is started if it is closed. */
  function StartBest(gs: Groups): Groups {
    if gs != [] && gs[0].status == MgrClosed then gs[0 := StartGroup(gs[0])] else gs
  }

  predicate HasPreference(gs: Groups, p: nat) {
    exists g :: g in gs && g.preference == p
  }

  /** rtr_mgr_add_group. */
  function Added(gs: Groups, preference: nat, sockets: nat): Groups {
    if HasPreference(gs, preference) then gs else StartBest(SortGroups(gs + [NewGroup(preference, sockets)]))
  }

  function IndexOf(gs: Groups, p: nat, k: nat): (r: nat)
    requires k <= |gs|
    ensures k <= r <= |gs|
    ensures r < |gs| ==> gs[r].preference == p
    ensures forall i :: k <= i < r ==> gs[i].preference != p
    decreases |gs| - k
  {
    if k == |gs| || gs[k].preference == p then k else IndexOf(gs, p, k + 1)
  }

  /** rtr_mgr_remove_group. */
  function Removed(gs: Groups, preference: nat): Groups {
    var k := IndexOf(gs, preference, 0);
    if |gs| == 1 || k == |gs| then gs else StartBest(gs[..k] + gs[k + 1..])
  }

  /** rtr_mgr_stop. */
  function StopAll(gs: Groups): Groups {
    seq(|gs|, k requires 0 <= k < |gs| => StopFrom(gs[k], 0))
  }

  lemma StartBestKeepsGood(gs: Groups)
    requires Good(gs)
    ensures Good(StartBest(gs))
  {
    if gs[0].status == MgrClosed { StartKeepsGood(gs, 0); }
  }

  lemma AddKeepsGood(gs: Groups, preference: nat, sockets: nat)
    requires Good(gs)
    ensures Good(Added(gs, preference, sockets))
  {
    hide StartBest, SortGroups;
    if !HasPreference(gs, preference) {
      var all := gs + [NewGroup(preference, sockets)];
      assert UniquePreferences(all) by {
        forall i, j | 0 <= i < j < |all| ensures all[i].preference != all[j].preference { assert all[i] in gs; }
      }
      SortUnique(all);
      SortGroupsSorts(all);
      InsertClosed(gs, NewGroup(preference, sockets), SortGroups(all));
      StartBestKeepsGood(SortGroups(all));
    }
  }

  /** A closed group anywhere in the order does no harm. */
  lemma InsertClosed(gs: Groups, g: Group, sorted: Groups)
    requires Good(gs) && g.status == MgrClosed && NoneRunning(g)
    requires SortedGroups(sorted) && multiset(sorted) == multiset(gs + [g])
    ensures Good(sorted)
  {
    assert forall x :: x in sorted <==> x in multiset(sorted);
    assert forall x :: x in sorted <==> x in gs || x == g;
    forall i, j | 0 <= i < j < |sorted| && sorted[i].status == MgrEstablished ensures sorted[j].status == MgrClosed {
      assert sorted[i] in sorted && sorted[j] in sorted;
      if sorted[j] != g {
        var a :| 0 <= a < |gs| && gs[a] == sorted[i];
        var b :| 0 <= b < |gs| && gs[b] == sorted[j];
      }
    }
    assert |multiset(sorted)| == |gs| + 1;
  }

  /** Leaving one group out. */
  lemma WithoutKeepsGood(gs: Groups, k: nat)
    requires Good(gs) && k < |gs| && 1 < |gs|
    ensures Good(gs[..k] + gs[k + 1..])
  {
    var rest := gs[..k] + gs[k + 1..];
    assert SortedGroups(rest) && Exclusive(rest) by {
      hide ClosedAreIdle;
      forall i, j | 0 <= i < j < |rest|
        ensures rest[i].preference < rest[j].preference
        ensures rest[i].status == MgrEstablished ==> rest[j].status == MgrClosed
      {
        assert rest[i] == gs[if i < k then i else i + 1] && rest[j] == gs[if j < k then j else j + 1];
      }
    }
    assert ClosedAreIdle(rest) by {
      hide NoneRunning, SortedGroups, Exclusive;
      forall g | g in rest && g.status == MgrClosed ensures NoneRunning(g) { assert g in gs; }
    }
  }

  lemma RemoveKeepsGood(gs: Groups, preference: nat)
    requires Good(gs)
    ensures Good(Removed(gs, preference))
  {
    hide StartBest, Good;
    var k := IndexOf(gs, preference, 0);
    if |gs| != 1 && k != |gs| {
      WithoutKeepsGood(gs, k);
      StartBestKeepsGood(gs[..k] + gs[k + 1..]);
    }
  }

  lemma StopKeepsGood(gs: Groups)
    requires Good(gs)
    ensures Good(StopAll(gs))
  {
    hide StopFrom;
    forall k | 0 <= k < |gs|
      ensures var g := StopAll(gs)[k];
              NoneRunning(g) && g.preference == gs[k].preference && (g.status == gs[k].status || g.status == MgrClosed)
    {
      StopFromStops(gs[k], 0);
    }
  }

  // ----- Whole runs -----

  datatype Event =
    | Callback(group: nat, socket: nat, state: SocketState, lastUpdate: nat)
    | StartManager | StopManager
    | AddGroup(preference: nat, sockets: nat) | RemoveGroup(preference: nat)

  /** A socket changes its state only while its thread runs, and never after a shutdown. */
  ghost predicate Step(gs: Groups, ev: Event, gs': Groups) {
    match ev
    case Callback(i, j, state, lastUpdate) =>
      && i < |gs| && j < |gs[i].sockets|
      && gs[i].sockets[j].running && gs[i].sockets[j].state !in {Shutdown, state} && state != Shutdown
      && gs' == OnState(gs, i, j, state, lastUpdate)
    case StartManager => gs != [] && gs' == gs[0 := StartGroup(gs[0])]
    case StopManager => gs' == StopAll(gs)
    case AddGroup(p, n) => gs' == Added(gs, p, n)
    case RemoveGroup(p) => gs' == Removed(gs, p)
  }

  lemma StepKeepsGood(gs: Groups, ev: Event, gs': Groups)
    requires Good(gs) && Step(gs, ev, gs')
    ensures Good(gs')
  {
    hide OnState, StartGroup, StopAll, Added, Removed, Good;
    match ev
    case Callback(i, j, state, lastUpdate) => CallbackKeepsGood(gs, i, j, state, lastUpdate);
    case StartManager => StartKeepsGood(gs, 0);
    case StopManager => StopKeepsGood(gs);
    case AddGroup(p, n) => AddKeepsGood(gs, p, n);
    case RemoveGroup(p) => RemoveKeepsGood(gs, p);
  }

  /** What rtr_mgr_setup_sockets builds from groups that rtr_mgr_init accepted. */
  ghost predicate SetUp(gs: Groups) {
    gs != [] && SortedGroups(gs) && forall g :: g in gs ==> g.status == MgrClosed && forall s :: s in g.sockets ==> s == IDLE
  }

  /** Over every run: the preferences stay sorted and unique, at most one group is
      established, and every group less preferred than it is closed with no socket running. */
  lemma {:induction false} EveryRunIsExclusive(run: seq<Groups>, events: seq<Event>, n: nat)
    requires |run| == |events| + 1 && n < |run| && SetUp(run[0])
    requires forall i :: 0 <= i < |events| ==> Step(run[i], events[i], run[i + 1])
    ensures SortedGroups(run[n])
    ensures forall i, j :: 0 <= i < j < |run[n]| && run[n][i].status == MgrEstablished ==>
              run[n][j].status == MgrClosed && NoneRunning(run[n][j])
    ensures Good(run[n])
    decreases n
  {
    hide Step;
    if n > 0 {
      EveryRunIsExclusive(run, events, n - 1);
      assert Step(run[n - 1], events[n - 1], run[n - 1 + 1]);
      StepKeepsGood(run[n - 1], events[n - 1], run[n]);
    }
    assert forall k :: 0 <= k < |run[n]| ==> run[n][k] in run[n];
  }
}
