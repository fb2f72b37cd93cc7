/** Searching the machine list (pkg/machinehandler/machinehandler.go). */
module Machines {
  import opened Types

  predicate HasInternalDNS(m: Machine, nodeName: string) {
    Address(InternalDNS, nodeName) in m.addresses
  }

  predicate LinkedTo(m: Machine, nodeName: string) {
    m.nodeRef == Some(nodeName)
  }

  /** Machine `i` is the first with that internal DNS name. */
  ghost predicate FirstByDNS(machines: seq<Machine>, i: int, nodeName: string) {
    && 0 <= i < |machines| && HasInternalDNS(machines[i], nodeName)
    && forall j | 0 <= j < i :: !HasInternalDNS(machines[j], nodeName)
  }

  /** Machine `i` is the first linked to that node. */
  ghost predicate FirstByNodeRef(machines: seq<Machine>, i: int, nodeName: string) {
    && 0 <= i < |machines| && LinkedTo(machines[i], nodeName)
    && forall j | 0 <= j < i :: !LinkedTo(machines[j], nodeName)
  }

  method FindMatchingMachineFromInternalDNS(machines: seq<Machine>, nodeName: string)
    returns (found: Option<Machine>, ghost index: int)
    ensures found.Some? ==> FirstByDNS(machines, index, nodeName) && found.value == machines[index]
    ensures found.None? <==> forall m | m in machines :: !HasInternalDNS(m, nodeName)
  {
    for i := 0 to |machines|
      invariant forall k | 0 <= k < i :: !HasInternalDNS(machines[k], nodeName)
    {
      var addresses := machines[i].addresses;
      for j := 0 to |addresses|
        invariant forall k | 0 <= k < j :: addresses[k] != Address(InternalDNS, nodeName)
      {
        if addresses[j].kind == InternalDNS && addresses[j].text == nodeName {
          return Some(machines[i]), i;
        }
      }
    }
    return None, -1;
  }

  method FindMatchingMachineFromNodeRef(machines: seq<Machine>, nodeName: string)
    returns (found: Option<Machine>, ghost index: int)
    ensures found.Some? ==> FirstByNodeRef(machines, index, nodeName) && found.value == machines[index]
    ensures found.None? <==> forall m | m in machines :: !LinkedTo(m, nodeName)
  {
    for i := 0 to |machines|
      invariant forall k | 0 <= k < i :: !LinkedTo(machines[k], nodeName)
    {
      if machines[i].nodeRef.Some? && machines[i].nodeRef.value == nodeName {
        return Some(machines[i]), i;
      }
    }
    return None, -1;
  }

  /** At most one machine is the first. */
  lemma FirstIsUnique(machines: seq<Machine>, i: int, j: int, nodeName: string)
    ensures FirstByDNS(machines, i, nodeName) && FirstByDNS(machines, j, nodeName) ==> i == j
    ensures FirstByNodeRef(machines, i, nodeName) && FirstByNodeRef(machines, j, nodeName) ==> i == j
  {
  }

  /** The first match in two lists joined is that in the left list, or else that in the
      right one. */
  lemma FirstOfJoined(front: seq<Machine>, machines: seq<Machine>, i: int, nodeName: string)
    ensures FirstByDNS(front + machines, i, nodeName) <==>
            FirstByDNS(front, i, nodeName) ||
            ((forall m | m in front :: !HasInternalDNS(m, nodeName)) && FirstByDNS(machines, i - |front|, nodeName))
    ensures FirstByNodeRef(front + machines, i, nodeName) <==>
            FirstByNodeRef(front, i, nodeName) ||
            ((forall m | m in front :: !LinkedTo(m, nodeName)) && FirstByNodeRef(machines, i - |front|, nodeName))
  {
    var all := front + machines;
    assert forall j | 0 <= j < |front| :: all[j] == front[j] && front[j] in front;
    assert forall j | 0 <= j < |machines| :: all[|front| + j] == machines[j];
  }

  /** A match found before more machines are appended stays the match. */
  lemma FirstSurvivesAppend(machines: seq<Machine>, more: seq<Machine>, i: int, nodeName: string)
    ensures FirstByDNS(machines, i, nodeName) ==> FirstByDNS(machines + more, i, nodeName)
    ensures FirstByNodeRef(machines, i, nodeName) ==> FirstByNodeRef(machines + more, i, nodeName)
  {
  }
}
