/**
 * The outcome of the test driver built into ll.c (under `#ifdef LL`), stated
 * as postconditions: the return code of every list call, the values the
 * first ll_print shows, and the order in which values reach the teardown
 * callback. The driver's int pointers become the ints they point to.
 */
module Driver {
  import opened LL
  import opened ListSpec

  /** num_equals_3: the condition the driver searches with. */
  predicate IsThree(x: int)
  {
    x == 3
  }

  /** Where the driver's three searches for a 3 stop. */
  lemma SearchesStop()
    ensures FirstMatch([1, 3, 6, 5], IsThree) == 1
    ensures FirstMatch([3, 1, 6, 5, 3], IsThree) == 0
    ensures FirstMatch([1, 6, 5, 3], IsThree) == 3
  {
  }

  /** Creates the list and inserts 2, 1 and 0, each at the front. */
  method InsertFronts() returns (list: LinkedList<int>, codes: seq<int>)
    ensures fresh(list) && fresh(list.Repr) && list.Valid()
    ensures list.Contents == [0, 1, 2] && list.Released == []
    ensures codes == [1, 2, 3]
  {
    list := new LinkedList<int>();
    var c1 := list.InsertFirst(2);
    var c2 := list.InsertFirst(1);
    var c3 := list.InsertFirst(0);
    codes := [c1, c2, c3];
  }

  /** Appends 3, 4 and 5, then inserts 6 at index 5, ahead of the 5. */
  method InsertBacks(list: LinkedList<int>) returns (codes: seq<int>)
    requires list.Valid() && list.Contents == [0, 1, 2]
    modifies list, list.Repr
    ensures list.Valid() && fresh(list.Repr - old(list.Repr))
    ensures list.Contents == [0, 1, 2, 3, 4, 6, 5] && list.Released == old(list.Released)
    ensures codes == [4, 5, 6, 7]
  {
    var c1 := list.InsertLast(3);
    var c2 := list.InsertLast(4);
    var c3 := list.InsertLast(5);
    var c4 := list.InsertN(6, 5);
    assert list.Contents == [0, 1, 2, 3, 4] + [6] + [5];
    codes := [c1, c2, c3, c4];
  }

  /**
   * Removes index 0, then index 1, then index 2, then tries index 5, which
   * is past the end of the remaining four values and fails.
   */
  method RemoveByIndex(list: LinkedList<int>) returns (codes: seq<int>)
    requires list.Valid() && list.Contents == [0, 1, 2, 3, 4, 6, 5] && list.Released == []
    modifies list, list.Repr
    ensures list.Valid() && list.Repr <= old(list.Repr)
    ensures list.Contents == [1, 3, 6, 5] && list.Released == [0, 2, 4]
    ensures codes == [6, 5, 4, -1]
  {
    var c1 := list.RemoveFirst();
    assert list.Contents == [1, 2, 3, 4, 6, 5];
    var c2 := list.RemoveN(1);
    assert list.Contents == [1, 3, 4, 6, 5];
    var c3 := list.RemoveN(2);
    assert list.Contents == [1, 3, 6, 5];
    var c4 := list.RemoveN(5);
    codes := [c1, c2, c3, c4];
  }

  /** Removes the first 3, then puts a 3 at the front and one at the back. */
  method SearchThenReinsert(list: LinkedList<int>) returns (codes: seq<int>)
    requires list.Valid() && list.Contents == [1, 3, 6, 5] && list.Released == [0, 2, 4]
    modifies list, list.Repr
    ensures list.Valid() && fresh(list.Repr - old(list.Repr))
    ensures list.Contents == [3, 1, 6, 5, 3] && list.Released == [0, 2, 4] + [3]
    ensures codes == [3, 4, 5]
  {
    SearchesStop();
    var c1 := list.RemoveSearch(IsThree);
    assert list.Contents == [1, 6, 5];
    var c2 := list.InsertFirst(3);
    var c3 := list.InsertLast(3);
    codes := [c1, c2, c3];
  }

  /** Removes the first 3 twice: the one at the front, then the one at the back. */
  method SearchTwice(list: LinkedList<int>) returns (codes: seq<int>)
    requires list.Valid() && list.Contents == [3, 1, 6, 5, 3] && list.Released == [0, 2, 4] + [3]
    modifies list, list.Repr
    ensures list.Valid()
    ensures list.Contents == [1, 6, 5] && list.Released == [0, 2, 4] + [3] + [3] + [3]
    ensures codes == [4, 3]
  {
    SearchesStop();
    var c1 := list.RemoveSearch(IsThree);
    assert list.Contents == [1, 6, 5, 3];
    var c2 := list.RemoveSearch(IsThree);
    codes := [c1, c2];
  }

  /**
   * The whole driver: every call's return code in order, the values the
   * first ll_print shows (the contents, head to tail), and the values handed
   * to the teardown callback in order.
   */
  method Scenario() returns (codes: seq<int>, shown: seq<int>, ghost released: seq<int>)
    ensures codes == [1, 2, 3] + [4, 5, 6, 7] + [6, 5, 4, -1] + [3, 4, 5] + [4, 3]
    ensures shown == [0, 1, 2, 3, 4, 6, 5]
    ensures released == [0, 2, 4] + [3] + [3] + [3] + [1, 6, 5]
  {
    var list, c1 := InsertFronts();
    var c2 := InsertBacks(list);
    shown := list.Map(Record, []);
    FoldRecordsInOrder([], list.Contents);
    var c3 := RemoveByIndex(list);
    var c4 := SearchThenReinsert(list);
    var c5 := SearchTwice(list);
    list.Delete();
    codes := c1 + c2 + c3 + c4 + c5;
    released := list.Released;
  }
}
