/** struct rtr_mgr_config and the loops of rtrlib/rtr_mgr.c over its list of groups. */
module ManagerClass {
  import opened GroupManager

  /** rtr_mgr_init: groups are accepted exactly when there are some, each has a socket and no
      two have the same preference. */
  method Init(groups: Groups) returns (r: Rtval, sorted: Groups)
    ensures sorted == SortGroups(groups)
    ensures r == Success <==> groups != [] && UniquePreferences(groups) && forall g :: g in groups ==> g.sockets != []
  {
    hide SortGroups, UniquePreferences;
    sorted := SortGroups(groups);
    SortUnique(groups);
    SortGroupsSorts(groups);
    assert forall g :: g in sorted <==> g in multiset(sorted);
    assert forall g :: g in sorted <==> g in groups;
    if |groups| == 0 { return Error, sorted; }
    var lastPreference := 255;
    for i := 0 to |sorted|
      invariant i > 0 ==> lastPreference == sorted[i - 1].preference
      invariant forall k :: 0 < k < i ==> sorted[k - 1].preference != sorted[k].preference
      invariant forall k :: 0 <= k < i ==> sorted[k].sockets != []
    {
      if i > 0 && sorted[i].preference == lastPreference { return Error, sorted; }
      if |sorted[i].sockets| == 0 {
        assert sorted[i] in sorted;
        return Error, sorted;
      }
      lastPreference := sorted[i].preference;
    }
    StrictByNeighbours(sorted, |sorted|);
    return Success, sorted;
  }

  lemma {:induction false} StrictByNeighbours(gs: Groups, n: nat)
    requires Ascending(gs) && n <= |gs| && forall k :: 0 < k < n ==> gs[k - 1].preference != gs[k].preference
    ensures forall i, j :: 0 <= i < j < n ==> gs[i].preference < gs[j].preference
  {
    if n > 0 {
      StrictByNeighbours(gs, n - 1);
      forall i | 0 <= i < n - 1 ensures gs[i].preference < gs[n - 1].preference {
        assert gs[i].preference <= gs[n - 2].preference < gs[n - 1].preference;
      }
    }
  }

  // ----- Loops over the sockets of a group -----

  /** rtr_mgr_config_status_is_synced. */
  method IsSynced(g: Group) returns (synced: bool)
    ensures synced == Synced(g)
  {
    for i := 0 to |g.sockets|
      invariant forall k :: 0 <= k < i ==> g.sockets[k].lastUpdate != 0 && g.sockets[k].state in {Established, Reset, Sync}
    {
      var s := g.sockets[i];
      if s.lastUpdate == 0 || (s.state != Established && s.state != Reset && s.state != Sync) { return false; }
    }
    return true;
  }

  /** rtr_mgr_start_sockets. */
  method StartSockets(g: Group) returns (r: Rtval, g': Group)
    ensures g' == StartGroup(g)
    ensures r == if NoneRunning(g) then Success else Error
  {
    g' := g;
    for i := 0 to |g.sockets|
      invariant |g'.sockets| == |g.sockets| && StartFrom(g', i) == StartGroup(g)
      invariant forall k :: 0 <= k < i ==> !g.sockets[k].running
      invariant forall k :: i <= k < |g.sockets| ==> g'.sockets[k] == g.sockets[k]
    {
      if g'.sockets[i].running {
        assert g.sockets[i] in g.sockets;
        return Error, g';
      }
      g' := g'.(sockets := g'.sockets[i := StartSocket(g'.sockets[i])]);
    }
    return Success, g'.(status := MgrConnecting);
  }

  /** rtr_stop for each socket of a group, with its callback. */
  method StopSockets(g: Group) returns (g': Group)
    ensures g' == StopFrom(g, 0)
  {
    g' := g;
    for j := 0 to |g.sockets|
      invariant |g'.sockets| == |g.sockets| && StopFrom(g', j) == StopFrom(g, 0)
    {
      g' := StopAt(g', j);
    }
  }

  class Manager {
    var groups: Groups

    constructor (groups: Groups)
      requires SetUp(groups)
      ensures this.groups == groups && Good(groups)
    {
      this.groups := groups;
    }

    /** rtr_mgr_close_less_preferable_groups. */
    method CloseLessPreferable(i: nat)
      requires i < |groups|
      modifies this
      ensures groups == CloseLess(old(groups), i)
    {
      hide CloseGroup;
      ghost var was := groups;
      var preference := groups[i].preference;
      for k := 0 to |groups|
        invariant |groups| == |was|
        invariant forall m :: k <= m < |was| ==> groups[m] == was[m]
        invariant forall m :: 0 <= m < k ==> groups[m] == if LessPreferable(was, i, m) then CloseGroup(was[m]) else was[m]
      {
        if groups[k].status != MgrClosed && k != i && groups[k].preference > preference {
          var g := StopSockets(groups[k]);
          Closes(groups[k]);
          groups := groups[k := g.(status := MgrClosed)];
        }
      }
    }

    /** is_some_rtr_mgr_group_established. */
    method IsSomeEstablished() returns (some: bool)
      ensures some == SomeEstablished(groups)
    {
      for k := 0 to |groups|
        invariant forall m :: 0 <= m < k ==> groups[m].status != MgrEstablished
      {
        if groups[k].status == MgrEstablished {
          assert groups[k] in groups;
          return true;
        }
      }
      return false;
    }

    /** get_best_inactive_rtr_mgr_group. */
    method BestInactiveGroup(i: nat) returns (k: nat)
      ensures k == BestInactive(groups, i, 0)
    {
      k := 0;
      while k < |groups| && !(k != i && groups[k].status == MgrClosed)
        invariant k <= |groups| && BestInactive(groups, i, k) == BestInactive(groups, i, 0)
      {
        k := k + 1;
      }
    }

    /** _rtr_mgr_cb_state_established. */
    method HandleEstablished(i: nat)
      requires i < |groups|
      modifies this
      ensures groups == OnEstablished(old(groups), i)
    {
      hide CloseLess;
      var synced := IsSynced(groups[i]);
      if groups[i].status == MgrConnecting {
        if synced {
          groups := SetStatus(groups, i, MgrEstablished);
          CloseLessPreferable(i);
        }
      } else if groups[i].status == MgrError {
        var allError := true;
        for k := 0 to |groups|
          invariant allError <==> forall m :: 0 <= m < k && m != i && groups[m].preference < groups[i].preference ==>
                                              groups[m].status in {MgrError, MgrClosed}
        {
          if k != i && groups[k].status != MgrError && groups[k].status != MgrClosed
             && groups[k].preference < groups[i].preference {
            allError := false;
          }
        }
        if allError && synced {
          groups := SetStatus(groups, i, MgrEstablished);
          CloseLessPreferable(i);
        }
      }
    }

    /** _rtr_mgr_cb_state_error. */
    method HandleError(i: nat)
      requires i < |groups|
      modifies this
      ensures groups == OnError(old(groups), i)
    {
      hide StartGroup;
      groups := SetStatus(groups, i, MgrError);
      var some := IsSomeEstablished();
      if !some {
        var k := BestInactiveGroup(i);
        if k < |groups| {
          var r, g := StartSockets(groups[k]);
          groups := groups[k := g];
        }
      }
    }

    /** rtr_change_socket_state of a running socket and rtr_mgr_cb: what the manager keeps,
        it keeps through every callback. */
    method HandleState(i: nat, j: nat, state: SocketState, lastUpdate: nat)
      requires Good(groups) && i < |groups| && j < |groups[i].sockets| && groups[i].sockets[j].running && state != Shutdown
      modifies this
      ensures groups == OnState(old(groups), i, j, state, lastUpdate) && Good(groups)
    {
      hide OnEstablished, OnError, Good;
      CallbackKeepsGood(groups, i, j, state, lastUpdate);
      var s := groups[i].sockets[j];
      groups := groups[i := groups[i].(sockets := groups[i].sockets[j := s.(state := state, lastUpdate := lastUpdate)])];
      match state
      case Established => HandleEstablished(i);
      case Connecting => if groups[i].status != MgrError { groups := SetStatus(groups, i, MgrConnecting); }
      case Fatal => HandleError(i);
      case Transport => HandleError(i);
      case NoDataAvail => HandleError(i);
      case _ =>
    }

    /** rtr_mgr_start: the best group. */
    method Start() returns (r: Rtval)
      requires Good(groups)
      modifies this
      ensures groups == old(groups)[0 := StartGroup(old(groups)[0])] && Good(groups)
      ensures r == if NoneRunning(old(groups)[0]) then Success else Error
    {
      hide StartGroup;
      StartKeepsGood(groups, 0);
      var g;
      r, g := StartSockets(groups[0]);
      groups := groups[0 := g];
    }

    /** rtr_mgr_stop. */
    method Stop()
      requires Good(groups)
      modifies this
      ensures groups == StopAll(old(groups)) && Good(groups)
    {
      hide StopFrom;
      ghost var was := groups;
      StopKeepsGood(groups);
      for k := 0 to |groups|
        invariant |groups| == |was|
        invariant forall m :: 0 <= m < k ==> groups[m] == StopFrom(was[m], 0)
        invariant forall m :: k <= m < |was| ==> groups[m] == was[m]
      {
        var g := StopSockets(groups[k]);
        groups := groups[k := g];
      }
    }

    /** rtr_mgr_add_group. */
    method Add(preference: nat, sockets: nat) returns (r: Rtval)
      requires Good(groups)
      modifies this
      ensures groups == Added(old(groups), preference, sockets) && Good(groups)
      ensures r == if HasPreference(old(groups), preference) then InvalidParam else Success
    {
      hide SortGroups, StartGroup, Good;
      AddKeepsGood(groups, preference, sockets);
      for k := 0 to |groups|
        invariant forall m :: 0 <= m < k ==> groups[m].preference != preference
      {
        if groups[k].preference == preference {
          assert groups[k] in groups;
          return InvalidParam;
        }
      }
      groups := SortGroups(groups + [NewGroup(preference, sockets)]);
      if |groups| > 0 && groups[0].status == MgrClosed {
        var _, g := StartSockets(groups[0]);
        groups := groups[0 := g];
      }
      return Success;
    }

    /** rtr_mgr_remove_group. */
    method Remove(preference: nat) returns (r: Rtval)
      requires Good(groups)
      modifies this
      ensures groups == Removed(old(groups), preference) && Good(groups)
      ensures r == Success <==> |old(groups)| != 1 && HasPreference(old(groups), preference)
    {
      hide StartGroup, Good;
      RemoveKeepsGood(groups, preference);
      if |groups| == 1 { return Error; }
      var k := 0;
      while k < |groups| && groups[k].preference != preference
        invariant k <= |groups| && IndexOf(groups, preference, k) == IndexOf(groups, preference, 0)
      {
        k := k + 1;
      }
      if k == |groups| {
        assert forall m :: 0 <= m < |groups| ==> groups[m].preference != preference;
        return Error;
      }
      assert groups[k] in groups;
      groups := groups[..k] + groups[k + 1..];
      if |groups| > 0 && groups[0].status == MgrClosed {
        var _, g := StartSockets(groups[0]);
        groups := groups[0 := g];
      }
      return Success;
    }
  }

  lemma Closes(g: Group)
    ensures StopFrom(g, 0).(status := MgrClosed) == CloseGroup(g)
  {
  }
}
