/**
 The coarse-grained list: one mutex serialises every operation, so each
 operation is an atomic transformation of the key sequence. The mutex itself
 is not modelled; node allocation appears as a boolean input to Insert.
 */
module GlobalList {
  import opened ListInterface
  import opened ListScan

  /** Where list_insert links the new node: at the head when the list is empty
      or the head's key is >= `key`, otherwise right after the node the
      insertion walk stops at. This is exactly the tie-break position, so a new
      key lands in front of every node already holding it. */
  function InsertPoint(s: seq<int>, key: int): (i: nat)
    ensures i == FirstAtLeast(s, key)
  {
    if |s| == 0 || key <= s[0] then 0
    else
      var i := ScanInsert(s, 0, key) + 1;
      FirstAtLeastUnique(s, key, i);
      i
  }

  /** list_insert: -1 and no change when the node cannot be allocated;
      otherwise 0 and the key linked in at the tie-break position. */
  function Insert(s: seq<int>, key: int, allocOk: bool): (o: Outcome)
    ensures InsertContract(s, key, o)
    ensures !allocOk ==> o == Outcome(s, FAIL)
    ensures allocOk ==> o.code == OK && o.list == InsertAt(s, FirstAtLeast(s, key), key)
  {
    if !allocOk then Outcome(s, FAIL)
    else
      var i := InsertPoint(s, key);
      InsertAtMultiset(s, i, key);
      assert Sorted(s) ==> Sorted(InsertAt(s, i, key)) by {
        if Sorted(s) {
          InsertAtSorted(s, i, key);
        }
      }
      Outcome(InsertAt(s, i, key), OK)
  }

  /** The search loop shared by list_delete and list_lookup: from node `j`,
      the first node holding `key`, or |s| when the walk runs off the end. */
  function FindKey(s: seq<int>, j: nat, key: int): (c: nat)
    requires j <= |s|
    ensures j <= c <= |s|
    ensures forall m :: j <= m < c ==> s[m] != key
    ensures c < |s| ==> s[c] == key
    decreases |s| - j
  {
    if j == |s| then |s|
    else if s[j] == key then j
    else FindKey(s, j + 1, key)
  }

  /** list_delete: unlink the head-most node holding `key` (rewriting the head
      link when it is the head) and return 0; return -1 when no node holds it. */
  function Delete(s: seq<int>, key: int): (o: Outcome)
    ensures DeleteContract(s, key, o)
    ensures key in s ==> o.list == RemoveAt(s, FirstIndexOf(s, key))
  {
    var c := FindKey(s, 0, key);
    FirstIndexOfUnique(s, key, c);
    if c == |s| then Outcome(s, FAIL)
    else
      RemoveAtMultiset(s, c);
      assert Sorted(s) ==> Sorted(RemoveAt(s, c)) by {
        if Sorted(s) {
          RemoveAtSorted(s, c);
        }
      }
      Outcome(RemoveAt(s, c), OK)
  }

  /** list_lookup: 0 when some node holds `key`, -1 otherwise. */
  function Lookup(s: seq<int>, key: int): (code: int)
    ensures LookupContract(s, key, code)
  {
    var c := FindKey(s, 0, key);
    FirstIndexOfUnique(s, key, c);
    if c < |s| then OK else FAIL
  }

  /** A freshly created list holds nothing: every lookup and every delete
      reports -1, and delete leaves it empty. */
  lemma FreshList(key: int)
    ensures Create(true) == Some([])
    ensures Lookup(Create(true).value, key) == FAIL
    ensures Delete(Create(true).value, key) == Outcome([], FAIL)
  {
  }

  /** The node just inserted is the head-most node holding its key: every older
      copy of the key sits behind it, so it is the one the next delete removes. */
  lemma NewestDuplicateFirst(s: seq<int>, key: int)
    ensures FirstIndexOf(Insert(s, key, true).list, key) == InsertPoint(s, key)
  {
    var i := InsertPoint(s, key);
    var t := InsertAt(s, i, key);
    FirstIndexOfUnique(t, key, i);
  }

  /** Deleting a key right after inserting it removes the node just inserted
      and restores the original list, whatever it held. */
  lemma DeleteUndoesInsert(s: seq<int>, key: int)
    ensures Delete(Insert(s, key, true).list, key) == Outcome(s, OK)
  {
    NewestDuplicateFirst(s, key);
    RemoveInsertAt(s, InsertPoint(s, key), key);
  }
}
