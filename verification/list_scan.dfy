/**
 The walk both list variants run to find where a new node goes: starting at a
 node already known to precede the new key, step forward while the next node
 exists and holds a key smaller than the new one. The new node is then linked
 in right after the node where the walk stops.
 */
module ListScan {

  /** From node `j`, the node the insertion walk stops at: every node stepped
      onto holds a key below `key`, and the stop node is the last one or is
      followed by a key that is not below `key`. */
  function ScanInsert(s: seq<int>, j: nat, key: int): (c: nat)
    requires j < |s|
    ensures j <= c < |s|
    ensures forall m :: j < m <= c ==> s[m] < key
    ensures c + 1 == |s| || key <= s[c + 1]
    decreases |s| - j
  {
    if j + 1 < |s| && s[j + 1] < key then ScanInsert(s, j + 1, key) else j
  }
}
