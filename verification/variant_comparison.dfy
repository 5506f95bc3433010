/**
 How the two list variants relate once their locks are set aside. Delete and
 lookup agree on every list. Insert adds the same key under the same return
 code in both; on an ascending list the two produce the same key sequence, and
 the only difference is WHICH node sits where among equal keys: when the new
 key equals the head's key, the coarse-grained list makes the new node the
 head, while the hand-over-hand list links it in right after the old head.
 */
module VariantComparison {
  import opened ListInterface
  import GlobalList
  import HohList

  /** Both inserts return the same code and leave the same multiset of keys,
      on every list. */
  lemma InsertMultisetsAgree(s: seq<int>, key: int, allocOk: bool)
    ensures GlobalList.Insert(s, key, allocOk).code == HohList.Insert(s, key, allocOk).code
    ensures multiset(GlobalList.Insert(s, key, allocOk).list)
         == multiset(HohList.Insert(s, key, allocOk).list)
  {
  }

  /** On an ascending list both inserts give the same ascending key sequence. */
  lemma SortedInsertsAgree(s: seq<int>, key: int, allocOk: bool)
    requires Sorted(s)
    ensures GlobalList.Insert(s, key, allocOk) == HohList.Insert(s, key, allocOk)
    ensures Sorted(GlobalList.Insert(s, key, allocOk).list)
  {
  }

  /** The new node goes to a different place in the two variants exactly when
      the list is non-empty and its head holds the new key; on an ascending
      list the coarse-grained list then puts it first and the hand-over-hand
      list second. */
  lemma PlacementDiffersOnlyOnHeadTie(s: seq<int>, key: int)
    ensures GlobalList.InsertPoint(s, key) != HohList.InsertPoint(s, key)
        <==> 0 < |s| && s[0] == key
    ensures Sorted(s) && 0 < |s| && s[0] == key ==>
              GlobalList.InsertPoint(s, key) == 0 && HohList.InsertPoint(s, key) == 1
  {
    if 0 < |s| && s[0] == key {
      assert GlobalList.InsertPoint(s, key) == 0;
      assert HohList.InsertPoint(s, key) != 0;
      if Sorted(s) {
        HohList.SortedInsertPoint(s, key);
      }
    } else if 0 < |s| && s[0] < key {
      FirstAtLeastUnique(s, key, HohList.InsertPoint(s, key));
    }
  }

  /** On a list that is not ascending the two inserts can give different key
      sequences: with head 5 followed by 3, inserting 5 puts it first in the
      coarse-grained list but last in the hand-over-hand list. */
  lemma UnsortedInsertsDiverge()
    ensures GlobalList.Insert([5, 3], 5, true).list == [5, 5, 3]
    ensures HohList.Insert([5, 3], 5, true).list == [5, 3, 5]
  {
    assert GlobalList.InsertPoint([5, 3], 5) == 0;
    assert HohList.InsertPoint([5, 3], 5) == 2;
  }

  /** Delete behaves identically in the two variants on every list. */
  lemma DeletesAgree(s: seq<int>, key: int)
    ensures GlobalList.Delete(s, key) == HohList.Delete(s, key)
  {
  }

  /** Lookup behaves identically in the two variants on every list. */
  lemma LookupsAgree(s: seq<int>, key: int)
    ensures GlobalList.Lookup(s, key) == HohList.Lookup(s, key)
  {
  }

  /** Round trip on any list and a key it does not hold, in both variants:
      after insert the key is found; deleting it returns 0 and gives the
      original list back; after that the key is no longer found. */
  lemma InsertLookupDeleteRoundTrip(s: seq<int>, key: int)
    requires key !in s
    ensures GlobalList.Lookup(GlobalList.Insert(s, key, true).list, key) == OK
    ensures HohList.Lookup(HohList.Insert(s, key, true).list, key) == OK
    ensures GlobalList.Delete(GlobalList.Insert(s, key, true).list, key) == Outcome(s, OK)
    ensures HohList.Delete(HohList.Insert(s, key, true).list, key) == Outcome(s, OK)
    ensures GlobalList.Lookup(s, key) == FAIL && HohList.Lookup(s, key) == FAIL
  {
    assert HohList.Insert(s, key, true) == GlobalList.Insert(s, key, true) by {
      PlacementDiffersOnlyOnHeadTie(s, key);
    }
    GlobalList.DeleteUndoesInsert(s, key);
  }

  /** Inserting 3, 8 and 3 into a fresh coarse-grained list gives 3, 3, 8
      with the second 3 linked in as the head. */
  lemma GlobalExampleInserts()
    ensures GlobalList.Insert([], 3, true) == Outcome([3], OK)
    ensures GlobalList.Insert([3], 8, true) == Outcome([3, 8], OK)
    ensures GlobalList.Insert([3, 8], 3, true) == Outcome([3, 3, 8], OK)
    ensures GlobalList.InsertPoint([3, 8], 3) == 0
  {
    assert GlobalList.InsertPoint([3], 8) == 1;
  }

  /** Queries on the list 3, 3, 8: 8 is found; one delete of 3 returns 0 and
      leaves 3, 8 in which 3 is still found; deleting 99 returns -1 and changes
      nothing. Both variants answer these identically. */
  lemma ExampleQueries()
    ensures GlobalList.Lookup([3, 3, 8], 8) == OK
    ensures GlobalList.Delete([3, 3, 8], 3) == Outcome([3, 8], OK)
    ensures GlobalList.Lookup([3, 8], 3) == OK
    ensures GlobalList.Delete([3, 8], 99) == Outcome([3, 8], FAIL)
    ensures HohList.Lookup([3, 3, 8], 8) == OK
    ensures HohList.Delete([3, 3, 8], 3) == Outcome([3, 8], OK)
    ensures HohList.Lookup([3, 8], 3) == OK
    ensures HohList.Delete([3, 8], 99) == Outcome([3, 8], FAIL)
  {
    DeletesAgree([3, 3, 8], 3);
    DeletesAgree([3, 8], 99);
    LookupsAgree([3, 3, 8], 8);
    LookupsAgree([3, 8], 3);
  }

  /** Inserting 3, 8 and 3 into a fresh hand-over-hand list gives the same key
      sequences and return codes, but the second 3 is linked in after the head,
      so a following delete of 3 unlinks the first 3 inserted, not the second. */
  lemma HohExampleInserts()
    ensures HohList.Insert([], 3, true) == Outcome([3], OK)
    ensures HohList.Insert([3], 8, true) == Outcome([3, 8], OK)
    ensures HohList.Insert([3, 8], 3, true) == Outcome([3, 3, 8], OK)
    ensures HohList.InsertPoint([3, 8], 3) == 1
  {
    assert HohList.InsertPoint([3], 8) == 1;
    assert HohList.InsertPoint([3, 8], 3) == 1;
  }
}
