/**
 The fine-grained (hand-over-hand) list with its locks stripped: what remains
 is the sequential effect of each operation on the key sequence. Its insert
 uses its own head rule: the new node becomes the head only when its key is
 strictly below the head's key, so a key equal to the head's key is linked in
 after the head.
 */
module HohList {
  import opened ListInterface
  import opened ListScan

  /** Where list_insert links the new node: as the only node of an empty list,
      in front of the head when `key` is strictly below the head's key, and
      otherwise right after the node the insertion walk stops at, which is the
      first position past the head whose key is not below `key`. */
  function InsertPoint(s: seq<int>, key: int): (i: nat)
    ensures i <= |s|
    ensures (|s| == 0 || key < s[0]) <==> i == 0
    ensures forall m :: 1 <= m < i ==> s[m] < key
    ensures i < |s| ==> key <= s[i]
  {
    if |s| == 0 || key < s[0] then 0 else ScanInsert(s, 0, key) + 1
  }

  /** On an ascending list the head rule makes no difference to the keys: the
      resulting sequence is the one the tie-break position gives, so it is
      ascending; the new node's place differs only when the head holds `key`,
      and then it is linked in second. */
  lemma SortedInsertPoint(s: seq<int>, key: int)
    requires Sorted(s)
    ensures InsertAt(s, InsertPoint(s, key), key) == InsertAt(s, FirstAtLeast(s, key), key)
    ensures Sorted(InsertAt(s, InsertPoint(s, key), key))
    ensures 0 < |s| && s[0] == key ==> InsertPoint(s, key) == 1
    ensures !(0 < |s| && s[0] == key) ==> InsertPoint(s, key) == FirstAtLeast(s, key)
  {
    var i := InsertPoint(s, key);
    if 0 < |s| && s[0] == key {
      assert FirstAtLeast(s, key) == 0;
      assert 1 < |s| ==> key <= s[1];
      assert i == 1;
      assert InsertAt(s, 1, key) == InsertAt(s, 0, key);
    } else if i != 0 {
      FirstAtLeastUnique(s, key, i);
    }
    InsertAtSorted(s, FirstAtLeast(s, key), key);
  }

  /** list_insert: -1 before anything is touched when the node cannot be
      allocated; otherwise 0 and the key linked in at this variant's position,
      which on an ascending list yields the tie-break rule's key sequence. */
  function Insert(s: seq<int>, key: int, allocOk: bool): (o: Outcome)
    ensures InsertContract(s, key, o)
    ensures !allocOk ==> o == Outcome(s, FAIL)
    ensures allocOk ==> o.code == OK && o.list == InsertAt(s, InsertPoint(s, key), key)
    ensures allocOk && Sorted(s) ==> o.list == InsertAt(s, FirstAtLeast(s, key), key)
  {
    if !allocOk then Outcome(s, FAIL)
    else
      var i := InsertPoint(s, key);
      InsertAtMultiset(s, i, key);
      assert Sorted(s) ==> Sorted(InsertAt(s, i, key)) by {
        if Sorted(s) {
          SortedInsertPoint(s, key);
        }
      }
      Outcome(InsertAt(s, i, key), OK)
  }

  /** The coupled walk of list_delete and list_lookup on a non-empty list:
      from node `j`, stop at the first node holding `key`, or at the last node
      when none does (the walk breaks out instead of stepping past it). */
  function CoupledSearch(s: seq<int>, j: nat, key: int): (c: nat)
    requires j < |s|
    ensures j <= c < |s|
    ensures forall m :: j <= m < c ==> s[m] != key
    ensures s[c] == key || c == |s| - 1
    decreases |s| - j
  {
    if s[j] == key || j + 1 == |s| then j else CoupledSearch(s, j + 1, key)
  }

  /** list_delete: -1 on an empty list; otherwise unlink the head-most node
      holding `key` (through the head link when it is the head) and return 0,
      or return -1 with the list unchanged when no node holds it. */
  function Delete(s: seq<int>, key: int): (o: Outcome)
    ensures DeleteContract(s, key, o)
    ensures key in s ==> o.list == RemoveAt(s, FirstIndexOf(s, key))
  {
    if |s| == 0 then Outcome(s, FAIL)
    else
      var c := CoupledSearch(s, 0, key);
      if s[c] == key then
        FirstIndexOfUnique(s, key, c);
        RemoveAtMultiset(s, c);
        assert Sorted(s) ==> Sorted(RemoveAt(s, c)) by {
          if Sorted(s) {
            RemoveAtSorted(s, c);
          }
        }
        Outcome(RemoveAt(s, c), OK)
      else
        assert key !in s;
        Outcome(s, FAIL)
  }

  /** list_lookup: -1 on an empty list; otherwise 0 when the coupled walk
      meets a node holding `key` and -1 when it reaches the last node without. */
  function Lookup(s: seq<int>, key: int): (code: int)
    ensures LookupContract(s, key, code)
  {
    if |s| == 0 then FAIL
    else
      var c := CoupledSearch(s, 0, key);
      assert s[c] != key ==> key !in s;
      if s[c] == key then OK else FAIL
  }

  /** A freshly created list holds nothing: every lookup and every delete
      reports -1, and delete leaves it empty. */
  lemma FreshList(key: int)
    ensures Create(true) == Some([])
    ensures Lookup(Create(true).value, key) == FAIL
    ensures Delete(Create(true).value, key) == Outcome([], FAIL)
  {
  }

  /** Inserting into an empty list gives the one-node list. */
  lemma InsertIntoEmpty(key: int)
    ensures Insert([], key, true) == Outcome([key], OK)
  {
  }

  /** A key equal to the head's key is linked in right after the head, so the
      older head still holds the key first and is the node the next delete
      removes; the new node is not. */
  lemma HeadTieKeepsOlderHead(s: seq<int>, key: int)
    requires Sorted(s) && 0 < |s| && s[0] == key
    ensures InsertPoint(s, key) == 1
    ensures FirstIndexOf(Insert(s, key, true).list, key) == 0
  {
    SortedInsertPoint(s, key);
  }

  /** Deleting a key right after inserting it gives the original key sequence
      back, on an ascending list and on any list whose head does not hold the
      key (there the new node lands at the tie-break position and is the
      head-most match). */
  lemma DeleteUndoesInsert(s: seq<int>, key: int)
    requires Sorted(s) || !(0 < |s| && s[0] == key)
    ensures Delete(Insert(s, key, true).list, key) == Outcome(s, OK)
  {
    if Sorted(s) {
      SortedInsertPoint(s, key);
    } else if 0 < |s| && s[0] < key {
      FirstAtLeastUnique(s, key, InsertPoint(s, key));
    }
    var i := FirstAtLeast(s, key);
    var t := InsertAt(s, i, key);
    FirstIndexOfUnique(t, key, i);
    RemoveInsertAt(s, i, key);
  }
}
