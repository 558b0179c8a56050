/** What each event of the group manager changes, said by preferences, statuses and running
    sockets alone: which group takes over, which one is established, and that everything else
    stays (rtrlib/rtr_mgr.c). */
module Failover {
  import opened GroupManager

  // ----- One group -----

  /** A group that was started: connecting, every socket with a thread. A socket that was shut
      down before it had a thread stays so. */
  ghost predicate Started(g: Group, g': Group) {
    && g'.preference == g.preference && g'.status == MgrConnecting && |g'.sockets| == |g.sockets|
    && forall k :: 0 <= k < |g.sockets| ==>
         && g'.sockets[k].running && g'.sockets[k].lastUpdate == g.sockets[k].lastUpdate
         && g'.sockets[k].state == if g.sockets[k].state == Shutdown then Shutdown else Connecting
  }

  /** A group that was closed: no socket has a thread, and those that had one have no update. */
  ghost predicate Stopped(g: Group, g': Group) {
    && g'.preference == g.preference && |g'.sockets| == |g.sockets|
    && forall k :: 0 <= k < |g.sockets| ==>
         && !g'.sockets[k].running
         && (g.sockets[k].running ==> g'.sockets[k].state == Closed && g'.sockets[k].lastUpdate == 0)
         && (!g.sockets[k].running ==> g'.sockets[k] == g.sockets[k].(state := Shutdown))
  }

  lemma {:induction false} StartFromIs(g: Group, j: nat, h: Group)
    requires j <= |g.sockets| == |h.sockets| && h.preference == g.preference
    requires forall k :: j <= k < |g.sockets| ==> !h.sockets[k].running && h.sockets[k] == g.sockets[k]
    requires forall k :: 0 <= k < j ==>
               && h.sockets[k].running && h.sockets[k].lastUpdate == g.sockets[k].lastUpdate
               && h.sockets[k].state == if g.sockets[k].state == Shutdown then Shutdown else Connecting
    ensures Started(g, StartFrom(h, j))
    decreases |g.sockets| - j
  {
    if j < |g.sockets| { StartFromIs(g, j + 1, h.(sockets := h.sockets[j := StartSocket(h.sockets[j])])); }
  }

  lemma StartIs(g: Group)
    requires forall k :: 0 <= k < |g.sockets| ==> !g.sockets[k].running
    ensures Started(g, StartGroup(g))
  {
    StartFromIs(g, 0, g);
  }

  lemma {:induction false} StopFromIs(g: Group, j: nat, h: Group)
    requires j <= |g.sockets| == |h.sockets| && h.preference == g.preference
    requires forall k :: j <= k < |g.sockets| ==> h.sockets[k] == g.sockets[k]
    requires forall k :: 0 <= k < j ==>
               && !h.sockets[k].running
               && (g.sockets[k].running ==> h.sockets[k].state == Closed && h.sockets[k].lastUpdate == 0)
               && (!g.sockets[k].running ==> h.sockets[k] == g.sockets[k].(state := Shutdown))
    ensures Stopped(g, StopFrom(h, j))
    decreases |g.sockets| - j
  {
    if j < |g.sockets| { StopFromIs(g, j + 1, StopAt(h, j)); }
  }

  lemma StopIs(g: Group)
    ensures Stopped(g, StopFrom(g, 0)) && Stopped(g, CloseGroup(g)) && CloseGroup(g).status == MgrClosed
  {
    StopFromIs(g, 0, g);
  }

  // ----- Callbacks -----

  /** The group that is to take over from group `i`: of the other closed ones the one with the
      least preference. */
  ghost predicate Backup(gs: Groups, i: nat, b: nat) {
    && b < |gs| && b != i && gs[b].status == MgrClosed
    && forall k :: 0 <= k < |gs| && k != i && gs[k].status == MgrClosed ==> gs[b].preference <= gs[k].preference
  }

  /** Some group other than `i` is established. */
  ghost predicate OtherEstablished(gs: Groups, i: nat) {
    exists k :: 0 <= k < |gs| && k != i && gs[k].status == MgrEstablished
  }

  /** Only socket `j` of group `i` got another state and time of update, and the group a status. */
  ghost predicate SocketChanged(g: Group, j: nat, state: SocketState, lastUpdate: nat, status: Status, g': Group) {
    && g'.preference == g.preference && g'.status == status && |g'.sockets| == |g.sockets|
    && forall k :: 0 <= k < |g.sockets| ==>
         if k == j then g'.sockets[k].state == state && g'.sockets[k].lastUpdate == lastUpdate && g'.sockets[k].running == g.sockets[k].running
         else g'.sockets[k] == g.sockets[k]
  }

  lemma {:induction false} BestIsFirst(gs: Groups, i: nat, k: nat)
    requires k <= |gs|
    ensures var b := BestInactive(gs, i, k);
            forall m :: k <= m < b ==> m == i || gs[m].status != MgrClosed
    decreases |gs| - k
  {
    if k < |gs| && !(k != i && gs[k].status == MgrClosed) { BestIsFirst(gs, i, k + 1); }
  }

  /** A failing socket. Its group is in error. If no other group is established and another
      one is closed, exactly the closed group with the least preference is started, with all
      its sockets; otherwise none is. Nothing else changes. */
  lemma FailureStartsBackup(gs: Groups, i: nat, j: nat, state: SocketState, lastUpdate: nat)
    requires Good(gs) && i < |gs| && j < |gs[i].sockets| && gs[i].sockets[j].running
    requires state in {Fatal, Transport, NoDataAvail}
    ensures var gs' := OnState(gs, i, j, state, lastUpdate);
            && |gs'| == |gs|
            && SocketChanged(gs[i], j, state, lastUpdate, MgrError, gs'[i])
            && forall b: nat :: b < |gs| && b != i ==>
                 if Backup(gs, i, b) && !OtherEstablished(gs, i) then Started(gs[b], gs'[b]) else gs'[b] == gs[b]
  {
    hide StartGroup, BestInactive;
    var s := gs[i].sockets[j];
    var gs1 := gs[i := gs[i].(sockets := gs[i].sockets[j := s.(state := state, lastUpdate := lastUpdate)])];
    var gs2 := SetStatus(gs1, i, MgrError);
    var b := BestInactive(gs2, i, 0);
    BestIsFirst(gs2, i, 0);
    EstablishedOthers(gs, gs2, i);
    forall m: nat | m < |gs| && m != i ensures Backup(gs, i, m) <==> m == b {
      if m == b { LeastIsFirst(gs, i, b); }
      if Backup(gs, i, m) && b < |gs| { FirstIsLeast(gs, i, m, b); }
    }
    if b < |gs| {
      assert gs[b] in gs && NoneRunning(gs[b]);
      forall k | 0 <= k < |gs[b].sockets| ensures !gs[b].sockets[k].running { assert gs[b].sockets[k] in gs[b].sockets; }
      StartIs(gs[b]);
    }
  }

  lemma EstablishedOthers(gs: Groups, gs2: Groups, i: nat)
    requires i < |gs| == |gs2| && gs2[i].status == MgrError && forall k :: 0 <= k < |gs| && k != i ==> gs2[k] == gs[k]
    ensures SomeEstablished(gs2) <==> OtherEstablished(gs, i)
  {
    if OtherEstablished(gs, i) {
      var k :| 0 <= k < |gs| && k != i && gs[k].status == MgrEstablished;
      assert gs2[k] in gs2;
    }
  }

  lemma LeastIsFirst(gs: Groups, i: nat, b: nat)
    requires SortedGroups(gs) && b < |gs| && b != i && gs[b].status == MgrClosed
    requires forall m :: 0 <= m < b ==> m == i || gs[m].status != MgrClosed
    ensures Backup(gs, i, b)
  {
    forall k | 0 <= k < |gs| && k != i && gs[k].status == MgrClosed ensures gs[b].preference <= gs[k].preference {
      if b < k { assert gs[b].preference < gs[k].preference; }
    }
  }

  lemma FirstIsLeast(gs: Groups, i: nat, m: nat, b: nat)
    requires SortedGroups(gs) && Backup(gs, i, m) && Backup(gs, i, b)
    ensures m == b
  {
  }

  /** All sockets of the group have data: updated once, and established or synchronising. */
  ghost predicate HasData(g: Group) {
    forall k :: 0 <= k < |g.sockets| ==>
      g.sockets[k].lastUpdate != 0 && (g.sockets[k].state == Established || g.sockets[k].state == Reset || g.sockets[k].state == Sync)
  }

  /** Whether a group may become established: it was connecting, or it was in error and every
      more preferable group is in error or closed. */
  ghost predicate MayBeEstablished(gs: Groups, i: nat)
    requires i < |gs|
  {
    || gs[i].status == MgrConnecting
    || (gs[i].status == MgrError && forall k :: 0 <= k < |gs| && gs[k].preference < gs[i].preference ==>
          gs[k].status == MgrError || gs[k].status == MgrClosed)
  }

  /** A socket that is established. Its group becomes established if and only if it may and
      all its sockets have data; then every less preferable group that was not closed is
      stopped and closed. Nothing else changes. */
  lemma EstablishedTakesOver(gs: Groups, i: nat, j: nat, lastUpdate: nat)
    requires Good(gs) && i < |gs| && j < |gs[i].sockets| && gs[i].sockets[j].running
    ensures var gs' := OnState(gs, i, j, Established, lastUpdate);
            && |gs'| == |gs|
            && var now := MayBeEstablished(gs, i) && HasData(gs'[i]);
            && SocketChanged(gs[i], j, Established, lastUpdate, if now then MgrEstablished else gs[i].status, gs'[i])
            && forall k :: 0 <= k < |gs| && k != i ==>
                 if now && gs[i].preference < gs[k].preference && gs[k].status != MgrClosed
                 then gs'[k].status == MgrClosed && Stopped(gs[k], gs'[k])
                 else gs'[k] == gs[k]
  {
    hide CloseGroup;
    var s := gs[i].sockets[j];
    var gs1 := gs[i := gs[i].(sockets := gs[i].sockets[j := s.(state := Established, lastUpdate := lastUpdate)])];
    SyncedIs(gs1[i]);
    forall k | 0 <= k < |gs| ensures Stopped(gs[k], CloseGroup(gs[k])) && CloseGroup(gs[k]).status == MgrClosed {
      StopIs(gs[k]);
    }
    if gs[i].status == MgrError { FailedIs(gs, gs1, i); }
  }

  lemma FailedIs(gs: Groups, gs1: Groups, i: nat)
    requires i < |gs| == |gs1| && gs[i].status == MgrError
    requires forall k :: 0 <= k < |gs| ==> gs1[k].preference == gs[k].preference && gs1[k].status == gs[k].status
    ensures MorePreferableFailed(gs1, i) <==> MayBeEstablished(gs, i)
  {
    if MorePreferableFailed(gs1, i) {
      forall k | 0 <= k < |gs| && gs[k].preference < gs[i].preference ensures gs[k].status == MgrError || gs[k].status == MgrClosed {
        assert gs1[k].preference < gs1[i].preference;
      }
    } else {
      var k :| 0 <= k < |gs1| && k != i && gs1[k].preference < gs1[i].preference && gs1[k].status !in {MgrError, MgrClosed};
      assert gs[k].preference < gs[i].preference;
    }
  }

  lemma SyncedIs(g: Group)
    ensures Synced(g) <==> HasData(g)
  {
    if Synced(g) {
      forall k | 0 <= k < |g.sockets|
        ensures g.sockets[k].lastUpdate != 0 && (g.sockets[k].state == Established || g.sockets[k].state == Reset || g.sockets[k].state == Sync)
      {
        assert g.sockets[k] in g.sockets;
      }
    }
  }

  /** Every other callback: a socket that connects makes its group connecting unless it is in
      error; the rest change the socket only. */
  lemma OtherCallbacks(gs: Groups, i: nat, j: nat, state: SocketState, lastUpdate: nat)
    requires i < |gs| && j < |gs[i].sockets| && state !in {Fatal, Transport, NoDataAvail, Established, Shutdown}
    ensures var gs' := OnState(gs, i, j, state, lastUpdate);
            && |gs'| == |gs|
            && SocketChanged(gs[i], j, state, lastUpdate,
                             if state == Connecting && gs[i].status != MgrError then MgrConnecting else gs[i].status, gs'[i])
            && forall k :: 0 <= k < |gs| && k != i ==> gs'[k] == gs[k]
  {
  }

  // ----- The user's operations -----

  /** The group with the least preference, if it is closed, is started; the others stay. */
  lemma StartBestStarts(gs: Groups)
    requires Good(gs)
    ensures var gs' := StartBest(gs);
            && |gs'| == |gs|
            && (forall k :: 0 < k < |gs| ==> gs'[k] == gs[k] && gs[0].preference < gs[k].preference)
            && (if gs[0].status == MgrClosed then Started(gs[0], gs'[0]) else gs'[0] == gs[0])
  {
    hide StartGroup;
    assert gs[0] in gs;
    if gs[0].status == MgrClosed {
      forall k | 0 <= k < |gs[0].sockets| ensures !gs[0].sockets[k].running { assert gs[0].sockets[k] in gs[0].sockets; }
      StartIs(gs[0]);
    }
  }

  /** The groups but those of one preference. */
  ghost predicate SameButBest(gs: Groups, gs': Groups, p: nat) {
    && (forall k :: 0 <= k < |gs| && gs[k].preference != p ==>
          exists m :: 0 <= m < |gs'| && (gs'[m] == gs[k] || (m == 0 && gs[k].status == MgrClosed && Started(gs[k], gs'[m]))))
    && (forall m :: 0 <= m < |gs'| && gs'[m].preference != p ==>
          exists k :: 0 <= k < |gs| && (gs'[m] == gs[k] || (m == 0 && gs[k].status == MgrClosed && Started(gs[k], gs'[m]))))
  }

  /** `gs'` is `rest` with its first group started if it was closed. */
  ghost predicate BestStarted(rest: Groups, gs': Groups) {
    && |gs'| == |rest| > 0 && (forall m :: 0 < m < |rest| ==> gs'[m] == rest[m])
    && (if rest[0].status == MgrClosed then Started(rest[0], gs'[0]) else gs'[0] == rest[0])
  }

  lemma BestStartedSame(gs: Groups, rest: Groups, gs': Groups, p: nat)
    requires BestStarted(rest, gs')
    requires forall k :: 0 <= k < |gs| && gs[k].preference != p ==> gs[k] in rest
    requires forall x :: x in rest && x.preference != p ==> x in gs
    ensures SameButBest(gs, gs', p) && gs'[0].status != MgrClosed
    ensures forall m :: 0 <= m < |rest| ==> gs'[m].preference == rest[m].preference
  {
    hide Started;
    assert rest[0].status == MgrClosed ==> StartedPlain(rest[0], gs'[0]) by { if rest[0].status == MgrClosed { StartedIsPlain(rest[0], gs'[0]); } }
    forall k | 0 <= k < |gs| && gs[k].preference != p
      ensures exists m :: 0 <= m < |gs'| && (gs'[m] == gs[k] || (m == 0 && gs[k].status == MgrClosed && Started(gs[k], gs'[m])))
    {
      var m :| 0 <= m < |rest| && rest[m] == gs[k];
      assert gs'[m] == gs[k] || (m == 0 && gs[k].status == MgrClosed && Started(gs[k], gs'[m]));
    }
    forall m | 0 <= m < |gs'| && gs'[m].preference != p
      ensures exists k :: 0 <= k < |gs| && (gs'[m] == gs[k] || (m == 0 && gs[k].status == MgrClosed && Started(gs[k], gs'[m])))
    {
      assert rest[m] in rest && rest[m].preference == gs'[m].preference;
      var k :| 0 <= k < |gs| && gs[k] == rest[m];
      assert gs'[m] == gs[k] || (m == 0 && gs[k].status == MgrClosed && Started(gs[k], gs'[m]));
    }
  }

  ghost predicate StartedPlain(g: Group, g': Group) {
    g'.preference == g.preference && g'.status == MgrConnecting && |g'.sockets| == |g.sockets|
    && forall k :: 0 <= k < |g'.sockets| ==> g'.sockets[k].running
  }

  lemma StartedIsPlain(g: Group, g': Group)
    requires Started(g, g')
    ensures StartedPlain(g, g')
  {
  }

  /** Adding a group: refused, changing nothing, if and only if its preference is taken.
      Otherwise there is one group more, closed and idle or, if it is now the best, started;
      the best of the others is started if it is the best of all and was closed. */
  lemma AddedIs(gs: Groups, p: nat, n: nat)
    requires Good(gs)
    ensures var gs' := Added(gs, p, n);
            if exists k :: 0 <= k < |gs| && gs[k].preference == p then gs' == gs
            else
              && |gs'| == |gs| + 1 && SortedGroups(gs') && SameButBest(gs, gs', p)
              && (gs'[0].status != MgrClosed)
              && exists m :: 0 <= m < |gs'| && NewAt(gs', m, p, n)
  {
    if exists k :: 0 <= k < |gs| && gs[k].preference == p {
      var k :| 0 <= k < |gs| && gs[k].preference == p;
      assert gs[k] in gs;
    } else {
      AddedNew(gs, p, n);
    }
  }

  /** The new group. */
  ghost predicate NewAt(gs: Groups, m: nat, p: nat, n: nat)
    requires m < |gs|
  {
    && gs[m].preference == p && |gs[m].sockets| == n
    && (m > 0 ==> gs[m].status == MgrClosed && forall k :: 0 <= k < n ==> !gs[m].sockets[k].running)
    && (m == 0 ==> gs[m].status == MgrConnecting && forall k :: 0 <= k < n ==> gs[m].sockets[k].running)
  }

  lemma AddedNew(gs: Groups, p: nat, n: nat)
    requires Good(gs) && forall k :: 0 <= k < |gs| ==> gs[k].preference != p
    ensures var gs' := Added(gs, p, n);
            && |gs'| == |gs| + 1 && SortedGroups(gs') && SameButBest(gs, gs', p) && gs'[0].status != MgrClosed
            && exists m :: 0 <= m < |gs'| && NewAt(gs', m, p, n)
  {
    hide *;
    var g, all := NewGroup(p, n), gs + [NewGroup(p, n)];
    var sorted := SortGroups(all);
    SortedAfterAdd(gs, p, n);
    BestOf(sorted);
    SortGroupsSorts(all);
    SameMembers(sorted, all);
    var gs' := Added(gs, p, n);
    AddKeepsGood(gs, p, n);
    GoodIsSorted(gs');
    IsNew(p, n);
    BestStartedSame(gs, sorted, gs', p);
    LengthsSame(sorted, gs');
    assert g in all;
    var m :| 0 <= m < |sorted| && sorted[m] == g;
    NewIsThere(sorted, gs', m, p, n);
  }

  lemma IsNew(p: nat, n: nat)
    ensures NewGroup(p, n).preference == p
  {
  }

  lemma LengthsSame(rest: Groups, gs': Groups)
    requires BestStarted(rest, gs')
    ensures |gs'| == |rest| > 0
  {
  }

  lemma GoodIsSorted(gs: Groups)
    requires Good(gs)
    ensures SortedGroups(gs) && gs != []
  {
  }

  lemma NewIsThere(sorted: Groups, gs': Groups, m: nat, p: nat, n: nat)
    requires BestStarted(sorted, gs') && m < |sorted| && sorted[m] == NewGroup(p, n)
    ensures NewAt(gs', m, p, n)
  {
    if m == 0 { StartedIsPlain(sorted[0], gs'[0]); }
  }

  /** Starting the best of a good list. */
  lemma BestOf(rest: Groups)
    requires Good(rest)
    ensures BestStarted(rest, StartBest(rest))
  {
    StartBestStarts(rest);
    hide StartBest, Started;
  }

  lemma SameMembers(a: Groups, b: Groups)
    requires multiset(a) == multiset(b)
    ensures |a| == |b| && forall x :: x in a <==> x in b
  {
    assert |multiset(a)| == |a| && |multiset(b)| == |b|;
    forall x ensures x in a <==> x in b { assert x in multiset(a) <==> x in multiset(b); }
  }

  lemma SortedAfterAdd(gs: Groups, p: nat, n: nat)
    requires Good(gs) && forall k :: 0 <= k < |gs| ==> gs[k].preference != p
    ensures Good(SortGroups(gs + [NewGroup(p, n)]))
    ensures Added(gs, p, n) == StartBest(SortGroups(gs + [NewGroup(p, n)]))
  {
    hide StartBest, SortGroups;
    var all := gs + [NewGroup(p, n)];
    assert !HasPreference(gs, p);
    assert UniquePreferences(all);
    SortUnique(all);
    SortGroupsSorts(all);
    InsertClosed(gs, NewGroup(p, n), SortGroups(all));
  }

  /** Removing a group: refused, changing nothing, if and only if it is the last or there is
      none of that preference. Otherwise it is gone, the others stay in order, and the best of
      them is started if it was closed. */
  lemma RemovedIs(gs: Groups, p: nat)
    requires Good(gs)
    ensures var gs' := Removed(gs, p);
            if |gs| == 1 || (forall k :: 0 <= k < |gs| ==> gs[k].preference != p) then gs' == gs
            else
              && |gs'| == |gs| - 1 && SortedGroups(gs') && SameButBest(gs, gs', p)
              && (forall m :: 0 <= m < |gs'| ==> gs'[m].preference != p)
              && gs'[0].status != MgrClosed
  {
    var r := IndexOf(gs, p, 0);
    if |gs| != 1 && r < |gs| {
      var rest := gs[..r] + gs[r + 1..];
      RemoveKeepsGood(gs, p);
      RestIsGood(gs, p);
      RestMembers(gs, r, p);
      hide *;
      BestOf(rest);
      var gs' := Removed(gs, p);
      GoodIsSorted(gs');
      LengthsSame(rest, gs');
      BestStartedSame(gs, rest, gs', p);
    }
  }

  lemma RestMembers(gs: Groups, r: nat, p: nat)
    requires Good(gs) && r < |gs| && gs[r].preference == p
    ensures var rest := gs[..r] + gs[r + 1..];
            && (forall m :: 0 <= m < |rest| ==> rest[m].preference != p)
            && (forall x :: x in rest && x.preference != p ==> x in gs)
            && (forall k :: 0 <= k < |gs| && gs[k].preference != p ==> gs[k] in rest)
  {
    var rest := gs[..r] + gs[r + 1..];
    forall m | 0 <= m < |rest| ensures rest[m].preference != p { OnlyOne(gs, r, if m < r then m else m + 1); }
    forall k | 0 <= k < |gs| && gs[k].preference != p ensures gs[k] in rest {
      assert rest[if k < r then k else k - 1] == gs[k];
    }
  }

  lemma OnlyOne(gs: Groups, r: nat, k: nat)
    requires Good(gs) && r < |gs| && k < |gs| && k != r
    ensures gs[k].preference != gs[r].preference
  {
  }

  lemma RestIsGood(gs: Groups, p: nat)
    requires Good(gs) && |gs| != 1 && IndexOf(gs, p, 0) < |gs|
    ensures var r := IndexOf(gs, p, 0); Good(gs[..r] + gs[r + 1..]) && Removed(gs, p) == StartBest(gs[..r] + gs[r + 1..])
  {
    hide StartBest, Good;
    var r := IndexOf(gs, p, 0);
    WithoutKeepsGood(gs, r);
  }

  /** When socket `j` is shut down the group is found to be down: the sockets before it had no
      thread, so that they are shut down and not closed, and those after it were shut down. */
  predicate DownAt(g: Group, j: nat) {
    && j < |g.sockets| && g.sockets[j].state != Shutdown
    && (forall k :: 0 <= k < j ==> !g.sockets[k].running) && (forall k :: j < k < |g.sockets| ==> g.sockets[k].state == Shutdown)
  }

  ghost predicate DownBefore(g: Group, n: nat) {
    exists j: nat :: j < n && DownAt(g, j)
  }

  lemma {:induction false} StopFromStatus(g: Group, j: nat, h: Group)
    requires j <= |g.sockets| == |h.sockets| && h.status == if DownBefore(g, j) then MgrClosed else g.status
    requires forall k :: j <= k < |g.sockets| ==> h.sockets[k] == g.sockets[k]
    requires forall k :: 0 <= k < j ==> h.sockets[k].state == if g.sockets[k].running then Closed else Shutdown
    ensures StopFrom(h, j).status == if DownBefore(g, |g.sockets|) then MgrClosed else g.status
    decreases |g.sockets| - j
  {
    if j < |g.sockets| {
      DownNow(g, j, h);
      StopFromStatus(g, j + 1, StopAt(h, j));
    }
  }

  lemma DownNow(g: Group, j: nat, h: Group)
    requires j < |g.sockets| == |h.sockets|
    requires forall k :: j <= k < |g.sockets| ==> h.sockets[k] == g.sockets[k]
    requires forall k :: 0 <= k < j ==> h.sockets[k].state == if g.sockets[k].running then Closed else Shutdown
    ensures StopAt(h, j).status == if DownAt(g, j) then MgrClosed else h.status
    ensures DownBefore(g, j + 1) <==> DownBefore(g, j) || DownAt(g, j)
  {
    var down := h.(sockets := h.sockets[j := h.sockets[j].(state := Shutdown)]);
    if AllDown(down) {
      forall k | 0 <= k < |g.sockets| ensures down.sockets[k].state == Shutdown { assert down.sockets[k] in down.sockets; }
      assert forall k :: 0 <= k < j ==> down.sockets[k] == h.sockets[k];
      assert forall k :: j < k < |g.sockets| ==> down.sockets[k] == g.sockets[k];
    }
  }

  /** Stopping the manager: every socket of every group. A group is closed by it if and only if
      it is found to be down when one of its sockets is; otherwise it keeps its status. */
  lemma StopAllStops(gs: Groups)
    ensures var gs' := StopAll(gs);
            && |gs'| == |gs|
            && forall k :: 0 <= k < |gs| ==>
                 && Stopped(gs[k], gs'[k])
                 && gs'[k].status == if DownBefore(gs[k], |gs[k].sockets|) then MgrClosed else gs[k].status
  {
    hide StopFrom;
    forall k | 0 <= k < |gs|
      ensures Stopped(gs[k], StopFrom(gs[k], 0))
      ensures StopFrom(gs[k], 0).status == if DownBefore(gs[k], |gs[k].sockets|) then MgrClosed else gs[k].status
    {
      StopIs(gs[k]);
      StopFromStatus(gs[k], 0, gs[k]);
    }
  }

  /** Of the groups whose sockets all run, only those with one socket are closed. */
  lemma StoppedNotClosed(gs: Groups, i: nat)
    requires i < |gs| && gs[i].sockets != [] && forall s :: s in gs[i].sockets ==> s.running && s.state != Shutdown
    ensures StopAll(gs)[i].status == if |gs[i].sockets| == 1 then MgrClosed else gs[i].status
  {
    hide StopAll;
    StopAllStops(gs);
    var g := gs[i];
    assert forall k :: 0 <= k < |g.sockets| ==> g.sockets[k] in g.sockets;
    if |g.sockets| == 1 {
      assert DownAt(g, 0);
    } else {
      forall j: nat | j < |g.sockets| ensures !DownAt(g, j) {
        if j == 0 { assert g.sockets[1].state != Shutdown; } else { assert g.sockets[0].running; }
      }
    }
  }
}
