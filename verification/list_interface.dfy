/**
 The list interface that both list variants implement (create, insert, delete,
 lookup). A list is modelled by the sequence of keys met walking from the head;
 every operation reports 0 for success or "found" and -1 for failure or "not
 found". This module also holds the reference definitions the two variants are
 measured against: where the tie-break rule puts a new key, which node a delete
 removes, and the interface contract of each operation.
 */
module ListInterface {

  /** Return code of a successful insert, a successful delete and a found lookup. */
  const OK: int := 0
  /** Return code of a failed allocation, and of delete or lookup on a missing key. */
  const FAIL: int := -1

  datatype Option<T> = None | Some(value: T)

  /** The list after an operation, together with the code the operation returned. */
  datatype Outcome = Outcome(list: seq<int>, code: int)

  /** Keys ascend (duplicates allowed) from the head. */
  predicate Sorted(s: seq<int>) {
    forall i, j :: 0 <= i < j < |s| ==> s[i] <= s[j]
  }

  /** list_create: the empty list, or no list at all when the list header
      cannot be allocated (the source returns a null handle). */
  function Create(allocOk: bool): (l: Option<seq<int>>)
    ensures l.Some? <==> allocOk
    ensures l.Some? ==> |l.value| == 0
  {
    if allocOk then Some([]) else None
  }

  /** The list with a new node holding `key` linked in so that it becomes node `i`. */
  function InsertAt(s: seq<int>, i: nat, key: int): (t: seq<int>)
    requires i <= |s|
    ensures |t| == |s| + 1 && t[i] == key
    ensures forall m :: 0 <= m < i ==> t[m] == s[m]
    ensures forall m :: i <= m < |s| ==> t[m + 1] == s[m]
  {
    s[..i] + [key] + s[i..]
  }

  /** The list with node `i` unlinked: its predecessor (or the head link) now
      points at its successor. */
  function RemoveAt(s: seq<int>, i: nat): (t: seq<int>)
    requires i < |s|
    ensures |t| == |s| - 1
    ensures forall m :: 0 <= m < i ==> t[m] == s[m]
    ensures forall m :: i < m < |s| ==> t[m - 1] == s[m]
  {
    s[..i] + s[i + 1..]
  }

  /** Reference tie-break rule: the index of the first node whose key is >= `key`
      (|s| when there is none). A new node belongs immediately before it. */
  function FirstAtLeast(s: seq<int>, key: int): (i: nat)
    ensures i <= |s|
    ensures forall m :: 0 <= m < i ==> s[m] < key
    ensures i < |s| ==> key <= s[i]
  {
    if |s| == 0 || key <= s[0] then 0 else 1 + FirstAtLeast(s[1..], key)
  }

  /** Reference for delete: the index of the head-most node holding `key`
      (|s| when there is none). */
  function FirstIndexOf(s: seq<int>, key: int): (i: nat)
    ensures i <= |s|
    ensures i < |s| <==> key in s
    ensures i < |s| ==> s[i] == key
    ensures forall m :: 0 <= m < i ==> s[m] != key
  {
    if |s| == 0 || s[0] == key then 0 else 1 + FirstIndexOf(s[1..], key)
  }

  /** Interface contract of insert: either it fails with -1 and the list is
      unchanged, or it returns 0 having added exactly one copy of `key`, and an
      ascending list stays ascending. */
  predicate InsertContract(s: seq<int>, key: int, o: Outcome) {
    || (o.code == FAIL && o.list == s)
    || (&& o.code == OK
        && multiset(o.list) == multiset(s) + multiset{key}
        && (Sorted(s) ==> Sorted(o.list)))
  }

  /** Interface contract of delete: a present key loses exactly one copy and
      the call returns 0 (an ascending list stays ascending); an absent key
      leaves the list as it was and the call returns -1. */
  predicate DeleteContract(s: seq<int>, key: int, o: Outcome) {
    if key in s then
      && o.code == OK
      && multiset(o.list) == multiset(s) - multiset{key}
      && |o.list| == |s| - 1
      && (Sorted(s) ==> Sorted(o.list))
    else
      o == Outcome(s, FAIL)
  }

  /** Interface contract of lookup: 0 when the key is present, -1 otherwise. */
  predicate LookupContract(s: seq<int>, key: int, code: int) {
    code == (if key in s then OK else FAIL)
  }

  /** The tie-break position is the only one with all smaller keys before it
      and no smaller key at it. */
  lemma FirstAtLeastUnique(s: seq<int>, key: int, i: nat)
    requires i <= |s|
    requires forall m :: 0 <= m < i ==> s[m] < key
    requires i < |s| ==> key <= s[i]
    ensures i == FirstAtLeast(s, key)
  {
  }

  /** The head-most match is the only match with no match before it. */
  lemma FirstIndexOfUnique(s: seq<int>, key: int, i: nat)
    requires i <= |s|
    requires forall m :: 0 <= m < i ==> s[m] != key
    requires i < |s| ==> s[i] == key
    ensures i == FirstIndexOf(s, key)
  {
  }

  lemma InsertAtMultiset(s: seq<int>, i: nat, key: int)
    requires i <= |s|
    ensures multiset(InsertAt(s, i, key)) == multiset(s) + multiset{key}
  {
    assert s == s[..i] + s[i..];
  }

  /** Linking a key in between neighbours that bracket it keeps the list ascending. */
  lemma InsertAtSorted(s: seq<int>, i: nat, key: int)
    requires Sorted(s) && i <= |s|
    requires 0 < i ==> s[i - 1] <= key
    requires i < |s| ==> key <= s[i]
    ensures Sorted(InsertAt(s, i, key))
  {
  }

  lemma RemoveAtMultiset(s: seq<int>, i: nat)
    requires i < |s|
    ensures multiset(RemoveAt(s, i)) == multiset(s) - multiset{s[i]}
  {
    assert s == s[..i] + [s[i]] + s[i + 1..];
  }

  lemma RemoveAtSorted(s: seq<int>, i: nat)
    requires Sorted(s) && i < |s|
    ensures Sorted(RemoveAt(s, i))
  {
  }

  /** Unlinking the node just linked in gives back the original list. */
  lemma RemoveInsertAt(s: seq<int>, i: nat, key: int)
    requires i <= |s|
    ensures RemoveAt(InsertAt(s, i, key), i) == s
  {
  }
}
