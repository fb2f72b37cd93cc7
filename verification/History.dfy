/** What a whole run says about one approved request: the write is the turning point of its
    history, and only lists from before it can bring the request up again. */
module History {
  import opened Types
  import opened Approval
  import opened Protocol

  ghost function Last(past: seq<Server>): Server
    requires past != []
  {
    past[|past| - 1]
  }

  // ================================================================ invariant

  ghost predicate UidsAreOld(past: seq<Server>)
    requires past != []
  {
    forall k, n | 0 <= k < |past| && n in past[k].csrs :: past[k].csrs[n].uid < Last(past).nextUid
  }

  /** The object `n` names at moment `k` and at the end is one. */
  ghost predicate SameObject(past: seq<Server>, k: nat, n: string)
    requires k < |past|
  {
    n in past[k].csrs && n in Last(past).csrs && past[k].csrs[n].uid == Last(past).csrs[n].uid
  }

  /** A deleted object does not come back: it held its name at every moment in between. */
  ghost predicate NamesAreKept(past: seq<Server>) {
    forall j, k, n | 0 <= j <= k < |past| && SameObject(past, j, n) :: SameObject(past, k, n)
  }

  ghost predicate ApprovalsPersist(past: seq<Server>)
    requires past != []
  {
    forall k, m, n | 0 <= k < |past| && m in past[k].csrs && IsApproved(past[k].csrs[m]) &&
                     n in Last(past).csrs && Last(past).csrs[n].uid == past[k].csrs[m].uid ::
      IsApproved(Last(past).csrs[n])
  }

  ghost predicate PastInv(past: seq<Server>) {
    past != [] && UidsAreOld(past) && NamesAreKept(past) && ApprovalsPersist(past)
  }

  ghost predicate IsVersionOf(server: Server, n: string, w: Write) {
    n in server.csrs && server.csrs[n].uid == w.stored.uid
  }

  /** Every version of the request from before the write is unapproved. */
  ghost predicate UnapprovedBefore(past: seq<Server>, w: Write) {
    forall k, n | 0 <= k < w.moment && k < |past| && IsVersionOf(past[k], n, w) :: !IsApproved(past[k].csrs[n])
  }

  /** Every version from the write on is approved. */
  ghost predicate ApprovedSince(past: seq<Server>, w: Write) {
    forall k, n | w.moment <= k < |past| && IsVersionOf(past[k], n, w) :: IsApproved(past[k].csrs[n])
  }

  /** Every version from the write on shows this controller's approval. */
  ghost predicate OursSince(past: seq<Server>, w: Write) {
    forall k, n | w.moment <= k < |past| && IsVersionOf(past[k], n, w) :: IsApprovedByCMA(past[k].csrs[n])
  }

  /** The further assumption that clients leave an existing approval as it is. */
  ghost predicate LeavesText(s: State, e: Event)
    requires s.past != [] && Enabled(s, e)
  {
    e.SetConditions? && IsApproved(Now(s).csrs[e.name]) ==> ApprovalIn(e.conditions) == ApprovalIn(Now(s).csrs[e.name].conditions)
  }

  ghost predicate TextIsLeft(start: State, events: seq<Event>)
    requires start.past != [] && Execute(start, events).Some?
  {
    events == [] ||
    var last := |events| - 1;
    TextIsLeft(start, events[..last]) && LeavesText(Execute(start, events[..last]).value, events[last])
  }

  // ================================================================ one step

  /** An object with an old uid was there before the step, under the same name. */
  lemma OldObjectWasThere(before: Server, after: Server, version: Option<CSR>, approves: bool, n: string)
    requires Changes(before, after, version, approves)
    requires n in after.csrs && after.csrs[n].uid < before.nextUid
    ensures n in before.csrs && before.csrs[n].uid == after.csrs[n].uid
  {
  }

  lemma NamesStayKept(past: seq<Server>, after: Server, version: Option<CSR>, approves: bool)
    requires PastInv(past) && Changes(Last(past), after, version, approves)
    ensures NamesAreKept(past + [after])
  {
    var past' := past + [after];
    forall j, k, n | 0 <= j <= k < |past'| && SameObject(past', j, n) ensures SameObject(past', k, n) {
      if j < |past| {
        assert past[j].csrs[n].uid < Last(past).nextUid;
        OldObjectWasThere(Last(past), after, version, approves, n);
        assert SameObject(past, j, n);
        if k < |past| {
          assert SameObject(past, k, n);
        }
      }
    }
  }

  lemma ApprovalsStillPersist(past: seq<Server>, after: Server, version: Option<CSR>, approves: bool)
    requires PastInv(past) && Changes(Last(past), after, version, approves) && UidsAreUnique(after)
    ensures ApprovalsPersist(past + [after])
  {
    var past' := past + [after];
    forall k, m, n | 0 <= k < |past'| && m in past'[k].csrs && IsApproved(past'[k].csrs[m]) &&
                     n in after.csrs && after.csrs[n].uid == past'[k].csrs[m].uid
      ensures IsApproved(after.csrs[n])
    {
      if k < |past| {
        assert past[k].csrs[m].uid < Last(past).nextUid;
        OldObjectWasThere(Last(past), after, version, approves, n);
        assert IsApproved(Last(past).csrs[n]);
      }
    }
  }

  lemma PastInvHolds(past: seq<Server>, after: Server, version: Option<CSR>, approves: bool)
    requires PastInv(past) && Changes(Last(past), after, version, approves) && UidsAreUnique(after)
    ensures PastInv(past + [after])
  {
    NamesStayKept(past, after, version, approves);
    ApprovalsStillPersist(past, after, version, approves);
    var past' := past + [after];
    forall k, n | 0 <= k < |past'| && n in past'[k].csrs ensures past'[k].csrs[n].uid < after.nextUid {
      if k == |past| && after.csrs[n].uid >= Last(past).nextUid {
        assert version.Some? && n == version.value.name;
      }
    }
  }

  lemma OldWriteKeepsItsPast(past: seq<Server>, after: Server, w: Write)
    requires w.moment < |past| && UnapprovedBefore(past, w)
    ensures UnapprovedBefore(past + [after], w)
  {
  }

  lemma StaysApprovedSince(past: seq<Server>, after: Server, version: Option<CSR>, approves: bool, w: Write)
    requires past != [] && w.moment < |past| && ApprovedSince(past, w) && w.stored.uid < Last(past).nextUid
    requires Changes(Last(past), after, version, approves)
    ensures ApprovedSince(past + [after], w)
  {
    var past' := past + [after];
    forall k, n | w.moment <= k < |past'| && IsVersionOf(past'[k], n, w) ensures IsApproved(past'[k].csrs[n]) {
      if k == |past| {
        OldObjectWasThere(Last(past), after, version, approves, n);
        assert IsVersionOf(past[|past| - 1], n, w);
      } else {
        assert IsVersionOf(past[k], n, w);
      }
    }
  }

  /** The new version of an approved request shows the approval it showed before. */
  ghost predicate KeepsText(before: Server, version: Option<CSR>) {
    version.Some? && version.value.name in before.csrs && IsApproved(before.csrs[version.value.name]) ==>
      ApprovalIn(version.value.conditions) == ApprovalIn(before.csrs[version.value.name].conditions)
  }

  lemma StaysOursSince(past: seq<Server>, after: Server, version: Option<CSR>, approves: bool, w: Write)
    requires past != [] && w.moment < |past| && OursSince(past, w) && w.stored.uid < Last(past).nextUid
    requires Changes(Last(past), after, version, approves) && KeepsText(Last(past), version)
    ensures OursSince(past + [after], w)
  {
    var past' := past + [after];
    forall k, n | w.moment <= k < |past'| && IsVersionOf(past'[k], n, w) ensures IsApprovedByCMA(past'[k].csrs[n]) {
      if k == |past| {
        OldObjectWasThere(Last(past), after, version, approves, n);
        assert IsVersionOf(past[|past| - 1], n, w);
      } else {
        assert IsVersionOf(past[k], n, w);
      }
    }
  }

  /** The write itself: no version before it was approved, and it shows our approval. */
  lemma NewWriteTurns(past: seq<Server>, after: Server, c: CSR, w: Write)
    requires PastInv(past) && Changes(Last(past), after, Some(c), true) && UidsAreUnique(after)
    requires w.moment == |past| && w.stored == c
    ensures UnapprovedBefore(past + [after], w) && ApprovedSince(past + [after], w) && OursSince(past + [after], w)
  {
    var past' := past + [after];
    var current := Last(past).csrs[c.name];
    assert Continues(current, c, true);
    forall k, n | 0 <= k < w.moment && k < |past'| && IsVersionOf(past'[k], n, w) ensures !IsApproved(past'[k].csrs[n]) {
      assert past'[k] == past[k];
      assert current.uid == past[k].csrs[n].uid;
    }
    assert after.csrs[c.name] == c;
    assert forall n | IsVersionOf(after, n, w) :: n == c.name;
  }

  // ================================================================ whole runs

  ghost predicate WriteHistory(past: seq<Server>, w: Write, textLeft: bool) {
    UnapprovedBefore(past, w) && ApprovedSince(past, w) && (textLeft ==> OursSince(past, w))
  }

  ghost predicate HistoryInv(past: seq<Server>, writes: seq<Write>, textLeft: bool) {
    PastInv(past) && forall i | 0 <= i < |writes| :: WriteHistory(past, writes[i], textLeft)
  }

  lemma OldWriteHistoryHolds(past: seq<Server>, after: Server, version: Option<CSR>, approves: bool, w: Write, textLeft: bool)
    requires past != [] && w.moment < |past| && w.stored.uid < Last(past).nextUid
    requires WriteHistory(past, w, textLeft) && Changes(Last(past), after, version, approves)
    requires textLeft ==> KeepsText(Last(past), version)
    ensures WriteHistory(past + [after], w, textLeft)
  {
    OldWriteKeepsItsPast(past, after, w);
    StaysApprovedSince(past, after, version, approves, w);
    if textLeft {
      StaysOursSince(past, after, version, approves, w);
    }
  }

  /** The log after a step, with the moment of the new write. */
  ghost predicate LogsNow(past: seq<Server>, writes: seq<Write>, writes': seq<Write>, version: Option<CSR>, approves: bool) {
    if approves then
      && version.Some? && |writes'| == |writes| + 1 && writes'[..|writes|] == writes
      && writes'[|writes|].stored == version.value && writes'[|writes|].moment == |past|
    else writes' == writes
  }

  lemma HistoryInvHolds(past: seq<Server>, after: Server, version: Option<CSR>, approves: bool,
                        writes: seq<Write>, writes': seq<Write>, textLeft: bool)
    requires HistoryInv(past, writes, textLeft) && UidsAreUnique(after)
    requires forall i | 0 <= i < |writes| :: writes[i].moment < |past| && writes[i].stored.uid < Last(past).nextUid
    requires Changes(Last(past), after, version, approves) && LogsNow(past, writes, writes', version, approves)
    requires textLeft ==> KeepsText(Last(past), version)
    ensures HistoryInv(past + [after], writes', textLeft)
  {
    PastInvHolds(past, after, version, approves);
    forall i | 0 <= i < |writes'| ensures WriteHistory(past + [after], writes'[i], textLeft) {
      if i < |writes| {
        assert writes'[i] == writes[i];
        OldWriteHistoryHolds(past, after, version, approves, writes[i], textLeft);
      } else {
        NewWriteTurns(past, after, version.value, writes'[i]);
      }
    }
  }

  lemma StepKeepsText(s: State, e: Event)
    requires ServerInv(s.past, s.groups) && WorkersInv(s.past, s.groups, s.workers) && Enabled(s, e) && LeavesText(s, e)
    ensures KeepsText(Now(s), NewVersion(s, e))
  {
    if e.Submit? {
      SubmittedIsCurrent(s, e);
    }
  }

  lemma StepLogsNow(s: State, e: Event)
    requires s.past != [] && Enabled(s, e)
    ensures LogsNow(s.past, s.writes, NextWrites(s, e), NewVersion(s, e), e.Submit?)
  {
  }

  lemma WritesAreOld(s: State, i: nat)
    requires Inv(s) && i < |s.writes|
    ensures s.writes[i].moment < |s.past| && s.writes[i].stored.uid < Now(s).nextUid
    ensures HoldsAt(s.past[s.writes[i].moment], s.writes[i].stored)
  {
    assert Justified(s.clientDisabled, s.groups, s.past, s.writes[i]);
    assert StaysApproved(Now(s), s.writes[i]);
  }

  lemma StepKeepsHistory(s: State, e: Event, textLeft: bool)
    requires Inv(s) && Enabled(s, e) && HistoryInv(s.past, s.writes, textLeft)
    requires textLeft ==> LeavesText(s, e)
    ensures HistoryInv(Step(s, e).past, Step(s, e).writes, textLeft)
  {
    StepChanges(s, e);
    ServerStaysWellKept(Now(s), NextServer(s, e), NewVersion(s, e), e.Submit?);
    StepLogsNow(s, e);
    if textLeft {
      StepKeepsText(s, e);
    }
    forall i | 0 <= i < |s.writes| ensures s.writes[i].moment < |s.past| && s.writes[i].stored.uid < Last(s.past).nextUid {
      WritesAreOld(s, i);
    }
    HistoryInvHolds(s.past, NextServer(s, e), NewVersion(s, e), e.Submit?, s.writes, NextWrites(s, e), textLeft);
  }

  lemma InitialHistory(s: State, textLeft: bool)
    requires Initial(s)
    ensures HistoryInv(s.past, s.writes, textLeft)
  {
  }

  lemma {:induction false} HistoryAlways(start: State, events: seq<Event>, textLeft: bool)
    requires Initial(start) && Execute(start, events).Some?
    requires textLeft ==> TextIsLeft(start, events)
    ensures HistoryInv(Execute(start, events).value.past, Execute(start, events).value.writes, textLeft)
  {
    if events == [] {
      InitialHistory(start, textLeft);
    } else {
      var init, e := events[..|events| - 1], events[|events| - 1];
      HistoryAlways(start, init, textLeft);
      InvAlways(start, init);
      StepKeepsHistory(Execute(start, init).value, e, textLeft);
    }
  }

  /** The write is the turning point: over the whole run, a version of the request is
      approved exactly if it was stored at or after the write. */
  lemma WriteIsTurningPoint(start: State, events: seq<Event>, i: nat, k: nat, n: string)
    requires Initial(start) && Execute(start, events).Some?
    requires var end := Execute(start, events).value;
             i < |end.writes| && k < |end.past| && IsVersionOf(end.past[k], n, end.writes[i])
    ensures var end := Execute(start, events).value;
            IsApproved(end.past[k].csrs[n]) <==> k >= end.writes[i].moment
  {
    HistoryAlways(start, events, false);
    var end := Execute(start, events).value;
    assert WriteHistory(end.past, end.writes[i], false);
  }

  // ================================================================ no self-triggering

  /** A version of some object that the server held at or after a moment. */
  ghost predicate StoredSince(past: seq<Server>, moment: nat, c: CSR) {
    exists k | moment <= k < |past| :: HoldsAt(past[k], c)
  }

  ghost predicate StoredBefore(past: seq<Server>, moment: nat, c: CSR) {
    exists k | 0 <= k < moment && k < |past| :: HoldsAt(past[k], c)
  }

  /** While the approved object exists, whatever its name held since the write is that
      object. */
  lemma NameHoldsApproved(past: seq<Server>, w: Write, name: string, c: CSR)
    requires past != [] && NamesAreKept(past) && OursSince(past, w)
    requires w.moment < |past| && HoldsAt(past[w.moment], w.stored)
    requires IsVersionOf(Last(past), name, w) && w.stored.name == name
    requires c.name == name && StoredSince(past, w.moment, c)
    ensures IsApprovedByCMA(c)
  {
    assert SameObject(past, w.moment, name);
    var k :| w.moment <= k < |past| && HoldsAt(past[k], c);
    assert SameObject(past, k, name);
    assert IsVersionOf(past[k], name, w);
  }

  /** The object of a write still exists, under `name`. */
  ghost predicate StandsAs(past: seq<Server>, w: Write, name: string)
    requires past != []
  {
    && NamesAreKept(past) && OursSince(past, w)
    && w.moment < |past| && HoldsAt(past[w.moment], w.stored)
    && IsVersionOf(Last(past), name, w) && w.stored.name == name == Last(past).csrs[name].name
  }

  lemma WriteStands(past: seq<Server>, w: Write, name: string)
    requires past != [] && NamesAreKept(past) && OursSince(past, w)
    requires w.moment < |past| && HoldsAt(past[w.moment], w.stored)
    requires WellKept(Last(past)) && StaysApproved(Last(past), w) && IsVersionOf(Last(past), name, w)
    ensures StandsAs(past, w, name)
  {
  }

  lemma RunKeepsWrite(start: State, events: seq<Event>, i: nat)
    requires Initial(start) && Execute(start, events).Some?
    requires i < |Execute(start, events).value.writes|
    ensures var end := Execute(start, events).value;
            var w := end.writes[i];
            w.moment < |end.past| && HoldsAt(end.past[w.moment], w.stored)
  {
    InvAlways(start, events);
    WritesAreOld(Execute(start, events).value, i);
  }

  lemma RunKeepsApproval(start: State, events: seq<Event>, i: nat)
    requires Initial(start) && Execute(start, events).Some?
    requires i < |Execute(start, events).value.writes|
    ensures var end := Execute(start, events).value; WellKept(Now(end)) && StaysApproved(Now(end), end.writes[i])
  {
    InvAlways(start, events);
  }

  lemma RunKeepsHistory(start: State, events: seq<Event>, i: nat)
    requires Initial(start) && Execute(start, events).Some? && TextIsLeft(start, events)
    requires i < |Execute(start, events).value.writes|
    ensures var end := Execute(start, events).value;
            NamesAreKept(end.past) && UnapprovedBefore(end.past, end.writes[i]) && OursSince(end.past, end.writes[i])
  {
    HistoryAlways(start, events, true);
    var end := Execute(start, events).value;
    assert WriteHistory(end.past, end.writes[i], true);
  }

  lemma WriteStandsAlways(start: State, events: seq<Event>, i: nat, name: string)
    requires Initial(start) && Execute(start, events).Some? && TextIsLeft(start, events)
    requires var end := Execute(start, events).value; i < |end.writes| && IsVersionOf(Now(end), name, end.writes[i])
    ensures StandsAs(Execute(start, events).value.past, Execute(start, events).value.writes[i], name)
  {
    RunKeepsWrite(start, events, i);
    RunKeepsApproval(start, events, i);
    RunKeepsHistory(start, events, i);
    WriteStands(Execute(start, events).value.past, Execute(start, events).value.writes[i], name);
  }

  lemma NothingOldIsRequested(past: seq<Server>, w: Write, name: string, listed: seq<CSR>, now: Time)
    requires past != [] && StandsAs(past, w, name)
    requires forall c | c in listed && c.name == name :: StoredSince(past, w.moment, c)
    ensures PendingCertFilter(Some(Last(past).csrs[name]), now) == Drop
    ensures name !in NamesOf(FilterPending(listed, now))
  {
    var current := Last(past).csrs[name];
    assert HoldsAt(past[|past| - 1], current) && StoredSince(past, w.moment, current);
    NameHoldsApproved(past, w, name, current);
    OursIsNeverWanted(current, now);
    RequestedIffWanted(listed, name, now);
    forall c | c in listed && c.name == name ensures !Wanted(c, now) {
      NameHoldsApproved(past, w, name, c);
      OursIsNeverWanted(c, now);
    }
  }

  /** An approval does not trigger itself.  While the approved object exists, and if clients
      leave approvals as they are, the event filter drops it at every clock, and its name is
      not among the requests made from a list whose entries under that name were stored at or
      after the write; a current list is one. */
  lemma ApprovalDoesNotTriggerItself(start: State, events: seq<Event>, i: nat, name: string, listed: seq<CSR>, now: Time)
    requires Initial(start) && Execute(start, events).Some? && TextIsLeft(start, events)
    requires var end := Execute(start, events).value;
             && i < |end.writes| && IsVersionOf(Now(end), name, end.writes[i])
             && forall c | c in listed && c.name == name :: StoredSince(end.past, end.writes[i].moment, c)
    ensures PendingCertFilter(Some(Now(Execute(start, events).value).csrs[name]), now) == Drop
    ensures name !in NamesOf(FilterPending(listed, now))
  {
    WriteStandsAlways(start, events, i, name);
    var end := Execute(start, events).value;
    NothingOldIsRequested(end.past, end.writes[i], name, listed, now);
  }

  /** A current list under that name needs no further condition. */
  lemma CurrentListDoesNotTrigger(start: State, events: seq<Event>, i: nat, name: string, listed: seq<CSR>, now: Time)
    requires Initial(start) && Execute(start, events).Some? && TextIsLeft(start, events)
    requires var end := Execute(start, events).value;
             && i < |end.writes| && IsVersionOf(Now(end), name, end.writes[i])
             && forall c | c in listed && c.name == name :: HoldsAt(Now(end), c)
    ensures name !in NamesOf(FilterPending(listed, now))
  {
    var end := Execute(start, events).value;
    WriteStandsAlways(start, events, i, name);
    forall c | c in listed && c.name == name ensures StoredSince(end.past, end.writes[i].moment, c) {
      assert HoldsAt(end.past[|end.past| - 1], c);
    }
    ApprovalDoesNotTriggerItself(start, events, i, name, listed, now);
  }

  /** Only stale lists bring an approved request up again: for a list whose entries under
      that name are versions of the object, its name is requested exactly when one of them
      was stored before the write. */
  lemma OnlyStaleListsTrigger(start: State, events: seq<Event>, i: nat, name: string, listed: seq<CSR>, now: Time)
    requires Initial(start) && Execute(start, events).Some? && TextIsLeft(start, events)
    requires var end := Execute(start, events).value;
             && i < |end.writes|
             && forall c | c in listed && c.name == name :: Stored(end.past, c) && c.uid == end.writes[i].stored.uid
    ensures var end := Execute(start, events).value;
            name in NamesOf(FilterPending(listed, now)) <==>
            exists c | c in listed :: c.name == name && StoredBefore(end.past, end.writes[i].moment, c)
  {
    RunKeepsHistory(start, events, i);
    var end := Execute(start, events).value;
    var w := end.writes[i];
    RequestedIffWanted(listed, name, now);
    forall c | c in listed && c.name == name ensures Wanted(c, now) <==> StoredBefore(end.past, w.moment, c) {
      VersionIsWantedIffOld(end.past, w, c, now);
    }
  }

  lemma VersionIsWantedIffOld(past: seq<Server>, w: Write, c: CSR, now: Time)
    requires UnapprovedBefore(past, w) && OursSince(past, w) && Stored(past, c) && c.uid == w.stored.uid
    ensures Wanted(c, now) <==> StoredBefore(past, w.moment, c)
  {
    if StoredBefore(past, w.moment, c) {
      var k :| 0 <= k < w.moment && k < |past| && HoldsAt(past[k], c);
      assert IsVersionOf(past[k], c.name, w);
    } else {
      var k :| 0 <= k < |past| && HoldsAt(past[k], c);
      assert IsVersionOf(past[k], c.name, w);
      OursIsNeverWanted(c, now);
    }
  }

  /** And such lists exist for every write: over any run, the version that a write was decided
      on, listed once more, requests its name at every clock. */
  lemma JudgedVersionTriggers(start: State, events: seq<Event>, i: nat) returns (judged: CSR)
    requires Initial(start) && Execute(start, events).Some? && i < |Execute(start, events).value.writes|
    ensures var end := Execute(start, events).value;
            var w := end.writes[i];
            && judged in w.job.snapshot.csrs && StoredBefore(end.past, w.moment, judged)
            && judged.name == w.stored.name && judged.uid == w.stored.uid
    ensures forall now :: judged.name in NamesOf(FilterPending([judged], now))
  {
    InvAlways(start, events);
    var end := Execute(start, events).value;
    assert Justified(end.clientDisabled, end.groups, end.past, end.writes[i]);
    judged := JudgedIsWanted(end.clientDisabled, end.groups, end.past, end.writes[i]);
  }

  lemma JudgedIsWanted(clientDisabled: bool, groups: nat, past: seq<Server>, w: Write) returns (judged: CSR)
    requires Justified(clientDisabled, groups, past, w)
    ensures judged in w.job.snapshot.csrs && StoredBefore(past, w.moment, judged)
    ensures judged.name == w.stored.name && judged.uid == w.stored.uid
    ensures forall now :: judged.name in NamesOf(FilterPending([judged], now))
  {
    judged := w.job.snapshot.csrs[w.job.target];
    assert HoldsAt(past[w.moment - 1], judged);
    forall now ensures judged.name in NamesOf(FilterPending([judged], now)) {
      RequestedIffWanted([judged], judged.name, now);
      assert judged in [judged] && Wanted(judged, now);
    }
  }
}
