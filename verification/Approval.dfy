/** Approval conditions: reading them, writing ours, and the event filters that depend on
    them (pkg/controller/controller.go and csr_check.go). */
module Approval {
  import opened Types

  const MAX_APPROVED_DELTA: Time := 30 * SECOND
  const CLOCK_SKEW: Time := 10 * SECOND

  /** The first condition of kind Approved. */
  function ApprovalIn(conditions: seq<Condition>): (a: Option<Condition>)
    ensures a.Some? <==> exists i | 0 <= i < |conditions| :: conditions[i].kind == APPROVED
    ensures a.Some? ==> a.value.kind == APPROVED
  {
    if conditions == [] then None
    else if conditions[0].kind == APPROVED then Some(conditions[0])
    else ApprovalIn(conditions[1..])
  }

  predicate IsApproved(csr: CSR) {
    ApprovalIn(csr.conditions).Some?
  }

  predicate IsRecentlyApproved(csr: CSR, now: Time) {
    var a := ApprovalIn(csr.conditions);
    a.Some? && InTimeSpan(now - MAX_APPROVED_DELTA, now + CLOCK_SKEW, a.value.lastTransition)
  }

  predicate IsApprovedByCMA(csr: CSR) {
    var a := ApprovalIn(csr.conditions);
    a.Some? && a.value.message == APPROVE_MESSAGE
  }

  // ---------------------------------------------------------------- approve

  /** The condition this controller writes. */
  function OurApproval(now: Time): Condition {
    Condition(APPROVED, "True", "NodeCSRApprove", APPROVE_MESSAGE, now, now)
  }

  predicate HasSameState(i: Condition, j: Condition) {
    i.kind == j.kind && i.status == j.status && i.reason == j.reason && i.message == j.message
  }

  /** The list with the first Approved condition brought to our state, or ours appended. */
  function Upsert(conditions: seq<Condition>, ours: Condition): (r: seq<Condition>) {
    if conditions == [] then [ours]
    else if conditions[0].kind == ours.kind then
      if HasSameState(conditions[0], ours) then conditions else [ours] + conditions[1..]
    else [conditions[0]] + Upsert(conditions[1..], ours)
  }

  /** The request object as the API server is asked to store it. */
  function Approve(csr: CSR, now: Time): CSR {
    csr.(conditions := Upsert(csr.conditions, OurApproval(now)))
  }

  /** A CertificateSigningRequest behind a pointer. */
  class Pointer {
    var csr: CSR

    constructor (csr: CSR)
      ensures this.csr == csr
    {
      this.csr := csr;
    }

    /** Updates the conditions in place and, when they changed, sends the object to the
        approval endpoint, whose answer is `accepted`. */
    method ApproveInPlace(now: Time, accepted: bool) returns (sent: Option<CSR>, failed: bool)
      modifies this
      ensures csr == Approve(old(csr), now)
      ensures sent == if csr != old(csr) then Some(csr) else None
      ensures failed <==> sent.Some? && !accepted
    {
      var needsUpdate, exists_ := false, false;
      var ours := OurApproval(now);
      ghost var before := csr.conditions;
      var i := 0;
      while i < |csr.conditions|
        invariant 0 <= i <= |before| && csr == old(csr)
        invariant !needsUpdate && !exists_
        invariant forall j | 0 <= j < i :: before[j].kind != ours.kind
      {
        if csr.conditions[i].kind == ours.kind {
          UpsertAt(before, ours, i);
          exists_ := true;
          if !HasSameState(csr.conditions[i], ours) {
            csr := csr.(conditions := csr.conditions[i := ours]);
            needsUpdate := true;
            assert csr.conditions[i] != before[i];
          }
          break;
        }
        i := i + 1;
      }
      if !exists_ {
        UpsertAt(before, ours, |before|);
        csr := csr.(conditions := csr.conditions + [ours]);
        needsUpdate := true;
        assert |csr.conditions| != |before|;
      }
      sent, failed := None, false;
      if needsUpdate {
        sent, failed := Some(csr), !accepted;
      }
    }
  }

  /** The upsert touches one position only: `k`, the first condition of that kind, or the
      end of the list when there is none. */
  lemma {:induction false} UpsertAt(conditions: seq<Condition>, ours: Condition, k: nat)
    requires k <= |conditions|
    requires forall j | 0 <= j < k :: conditions[j].kind != ours.kind
    requires k < |conditions| ==> conditions[k].kind == ours.kind
    ensures Upsert(conditions, ours) ==
            if k == |conditions| then conditions + [ours]
            else if HasSameState(conditions[k], ours) then conditions
            else conditions[k := ours]
  {
    if k > 0 {
      UpsertAt(conditions[1..], ours, k - 1);
      assert conditions == [conditions[0]] + conditions[1..];
    }
  }

  function ApprovedCount(conditions: seq<Condition>): nat {
    |set i | 0 <= i < |conditions| && conditions[i].kind == APPROVED|
  }

  lemma {:induction false} FirstApprovedPosition(conditions: seq<Condition>) returns (k: nat)
    ensures k <= |conditions|
    ensures forall j | 0 <= j < k :: conditions[j].kind != APPROVED
    ensures k < |conditions| ==> ApprovalIn(conditions) == Some(conditions[k])
    ensures k == |conditions| ==> ApprovalIn(conditions).None?
  {
    if conditions == [] || conditions[0].kind == APPROVED {
      k := 0;
    } else {
      var k' := FirstApprovedPosition(conditions[1..]);
      k := k' + 1;
      assert forall j | 1 <= j < k :: conditions[j] == conditions[1..][j - 1];
    }
  }

  /** The approval that an upserted list shows is ours. */
  lemma UpsertShowsOurs(conditions: seq<Condition>, now: Time)
    ensures ApprovalIn(Upsert(conditions, OurApproval(now))).Some?
    ensures HasSameState(ApprovalIn(Upsert(conditions, OurApproval(now))).value, OurApproval(now))
    decreases conditions
  {
    if conditions != [] && conditions[0].kind != APPROVED {
      UpsertShowsOurs(conditions[1..], now);
      assert Upsert(conditions, OurApproval(now))[1..] == Upsert(conditions[1..], OurApproval(now));
    }
  }

  /** `approve` is an idempotent upsert: afterwards the request is approved, by this
      controller and with its reason; one approval stays one; and approving again, at any time, changes
      nothing, so the first transition time is kept. */
  lemma ApproveIsIdempotent(csr: CSR, now: Time, later: Time)
    ensures IsApproved(Approve(csr, now)) && IsApprovedByCMA(Approve(csr, now))
    ensures var shown := ApprovalIn(Approve(csr, now).conditions).value;
            shown.status == "True" && shown.reason == "NodeCSRApprove"
    ensures ApprovedCount(csr.conditions) <= 1 ==> ApprovedCount(Approve(csr, now).conditions) == 1
    ensures Approve(Approve(csr, now), later) == Approve(csr, now)
  {
    var before, after := csr.conditions, Approve(csr, now).conditions;
    UpsertShowsOurs(before, now);
    var k := FirstApprovedPosition(before);
    UpsertAt(before, OurApproval(now), k);
    UpsertAt(after, OurApproval(later), k);
    if ApprovedCount(before) <= 1 {
      OnlyApproval(before, after, k);
    }
  }

  lemma OnlyApproval(before: seq<Condition>, after: seq<Condition>, k: nat)
    requires k <= |before| && k < |after| && after[k].kind == APPROVED
    requires forall j | 0 <= j < k :: before[j].kind != APPROVED
    requires k < |before| ==> before[k].kind == APPROVED && |after| == |before|
    requires k == |before| ==> |after| == |before| + 1
    requires forall j | 0 <= j < |before| && j != k :: after[j] == before[j]
    requires ApprovedCount(before) <= 1
    ensures ApprovedCount(after) == 1
  {
    var b := set i | 0 <= i < |before| && before[i].kind == APPROVED;
    var a := set i | 0 <= i < |after| && after[i].kind == APPROVED;
    if j :| j in a && j != k {
      assert {j, k} <= b;
      assert |{j, k}| == 2;
      SubsetCount({j, k}, b);
      assert false;
    }
    assert a == {k};
  }

  lemma {:induction false} SubsetCount(small: set<int>, large: set<int>)
    requires small <= large
    ensures |small| <= |large|
  {
    assert |large - small| == |large| - |small|;
  }

  // ---------------------------------------------------------------- event filters

  /** Worth reconciling: not approved, or approved just now by somebody else. */
  predicate Wanted(csr: CSR, now: Time) {
    var a := ApprovalIn(csr.conditions);
    a.Some? ==> now - MAX_APPROVED_DELTA < a.value.lastTransition < now + CLOCK_SKEW && a.value.message != APPROVE_MESSAGE
  }

  /** A filter applied to a watched object may also crash. */
  datatype Filtered = Panics | Keep | Drop

  /** `obj` is the watched object when it is a request, None when it is anything else: then
      the type assertion yields a nil pointer, which the second disjunct dereferences. */
  function PendingCertFilter(obj: Option<CSR>, now: Time): (r: Filtered)
    ensures r == match obj case None => Panics case Some(csr) => if Wanted(csr, now) then Keep else Drop
  {
    if obj.Some? && !IsApproved(obj.value) then Keep
    else if obj.None? then Panics
    else if IsRecentlyApproved(obj.value, now) && !IsApprovedByCMA(obj.value) then Keep
    else Drop
  }

  /** The requests that pass the event filter, in order. */
  function FilterPending(csrs: seq<CSR>, now: Time): seq<CSR> {
    if csrs == [] then []
    else
      var rest := FilterPending(csrs[..|csrs| - 1], now);
      var last := csrs[|csrs| - 1];
      if PendingCertFilter(Some(last), now) == Keep then rest + [last] else rest
  }

  function NamesOf(csrs: seq<CSR>): (names: seq<string>)
    ensures |names| == |csrs| && forall i | 0 <= i < |csrs| :: names[i] == csrs[i].name
  {
    seq(|csrs|, i requires 0 <= i < |csrs| => csrs[i].name)
  }

  /** The requests to reconcile after a change of the CA; `list` is None when listing fails. */
  method ToCSRs(list: Option<seq<CSR>>, now: Time) returns (requests: seq<string>)
    ensures requests == if list.None? then [] else NamesOf(FilterPending(list.value, now))
  {
    requests := [];
    if list.None? {
      return;
    }
    var csrs := list.value;
    for i := 0 to |csrs|
      invariant requests == NamesOf(FilterPending(csrs[..i], now))
    {
      assert csrs[..i + 1][..i] == csrs[..i];
      if IsApproved(csrs[i]) && (!IsRecentlyApproved(csrs[i], now) || IsApprovedByCMA(csrs[i])) {
        continue;
      }
      requests := requests + [csrs[i].name];
    }
    assert csrs[..|csrs|] == csrs;
  }

  lemma {:induction false} FilteredIsWanted(csrs: seq<CSR>, csr: CSR, now: Time)
    ensures csr in FilterPending(csrs, now) <==> csr in csrs && Wanted(csr, now)
    decreases |csrs|
  {
    if csrs != [] {
      FilteredIsWanted(csrs[..|csrs| - 1], csr, now);
      assert csrs == csrs[..|csrs| - 1] + [csrs[|csrs| - 1]];
    }
  }

  /** A name is requested exactly when some listed version under that name is wanted. */
  lemma RequestedIffWanted(csrs: seq<CSR>, name: string, now: Time)
    ensures name in NamesOf(FilterPending(csrs, now)) <==> exists c | c in csrs :: c.name == name && Wanted(c, now)
  {
    var kept := FilterPending(csrs, now);
    if name in NamesOf(kept) {
      var i :| 0 <= i < |kept| && NamesOf(kept)[i] == name;
      FilteredIsWanted(csrs, kept[i], now);
    }
    if c :| c in csrs && c.name == name && Wanted(c, now) {
      FilteredIsWanted(csrs, c, now);
      var i :| 0 <= i < |kept| && kept[i] == c;
      assert NamesOf(kept)[i] == name;
    }
  }

  /** A request that shows this controller's approval is dropped by the event filter at every
      clock. */
  lemma OursIsNeverWanted(csr: CSR, now: Time)
    requires IsApprovedByCMA(csr)
    ensures PendingCertFilter(Some(csr), now) == Drop && !Wanted(csr, now)
  {
  }

  lemma FilterOneMore(csrs: seq<CSR>, csr: CSR, now: Time)
    ensures FilterPending(csrs + [csr], now) == FilterPending(csrs, now) + if Wanted(csr, now) then [csr] else []
  {
    assert (csrs + [csr])[..|csrs|] == csrs;
  }

  lemma Associative<T>(x: seq<T>, y: seq<T>, z: seq<T>)
    ensures x + (y + z) == x + y + z
  {
  }

  lemma FilterJoinsOne(csrs: seq<CSR>, more: seq<CSR>, last: CSR, now: Time)
    requires FilterPending(csrs + more, now) == FilterPending(csrs, now) + FilterPending(more, now)
    ensures FilterPending(csrs + (more + [last]), now) == FilterPending(csrs, now) + FilterPending(more + [last], now)
  {
    var kept := if Wanted(last, now) then [last] else [];
    calc {
      FilterPending(csrs + (more + [last]), now);
      { Associative(csrs, more, [last]); }
      FilterPending(csrs + more + [last], now);
      { FilterOneMore(csrs + more, last, now); }
      FilterPending(csrs, now) + FilterPending(more, now) + kept;
      { Associative(FilterPending(csrs, now), FilterPending(more, now), kept); }
      FilterPending(csrs, now) + (FilterPending(more, now) + kept);
      { FilterOneMore(more, last, now); }
      FilterPending(csrs, now) + FilterPending(more + [last], now);
    }
  }

  lemma {:induction false} FilterJoins(csrs: seq<CSR>, more: seq<CSR>, now: Time)
    ensures FilterPending(csrs + more, now) == FilterPending(csrs, now) + FilterPending(more, now)
    decreases |more|
  {
    if more == [] {
      assert csrs + more == csrs && FilterPending(more, now) == [];
    } else {
      var init, last := more[..|more| - 1], more[|more| - 1];
      FilterJoins(csrs, init, now);
      FilterJoinsOne(csrs, init, last, now);
      assert more == init + [last];
    }
  }

  /** The requests of a list are those of its parts, in order; and one listed object is
      requested when it is unapproved, or when its first approval is another's and its
      transition lies less than 30 seconds back or 10 seconds ahead (in nanoseconds). */
  lemma RequestsAreInOrder(csrs: seq<CSR>, more: seq<CSR>, csr: CSR, now: Time)
    ensures NamesOf(FilterPending(csrs + more, now)) == NamesOf(FilterPending(csrs, now)) + NamesOf(FilterPending(more, now))
    ensures var a := ApprovalIn(csr.conditions);
            NamesOf(FilterPending([csr], now)) ==
            if a.None? || (a.value.message != APPROVE_MESSAGE && -30_000_000_000 < a.value.lastTransition - now < 10_000_000_000)
            then [csr.name] else []
  {
    FilterJoins(csrs, more, now);
    assert FilterPending([csr][..0], now) == [];
  }

  /** The approval that counts is the first one. */
  lemma {:induction false} ApprovalIsFirst(conditions: seq<Condition>, k: nat)
    requires k < |conditions| && conditions[k].kind == "Approved"
    requires forall j | 0 <= j < k :: conditions[j].kind != "Approved"
    ensures ApprovalIn(conditions) == Some(conditions[k])
  {
    if k > 0 {
      ApprovalIsFirst(conditions[1..], k - 1);
    }
  }
}
