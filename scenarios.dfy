/** Client code that drives the list through the sequences of calls in
    `test_basic_ops` and `test_delete_by_node_pointer`, proving each of
    their assertions from the operations' contracts alone. */
module Scenarios {
  import opened Values
  import opened ListSpec
  import opened DLists

  /** The list of `test_basic_ops` after its four appends. */
  method BuildFruitList() returns (list: DList)
    ensures list.Valid() && fresh(list.Repr)
    ensures list.Contents == [Some("apple"), Some("banana"), Some("cherry"), Some("banana")]
  {
    list := new DList();
    assert list.size == 0;
    var _ := list.InsertTail(Some("apple"));
    var _ := list.InsertTail(Some("banana"));
    var _ := list.InsertTail(Some("cherry"));
    var _ := list.InsertTail(Some("banana"));
    assert list.size == 4;
  }

  /** `test_basic_ops`: build the list, search it, then drain it by value. */
  method BasicOps() {
    var list := BuildFruitList();
    SearchFruit(list);
    DeleteFirstBanana(list);
    SearchRemainingBanana(list);
    DeleteHead(list);
    DeleteTail(list);
    DeleteLastThenMissing(list);
    ghost var _ := list.Clear();
    assert list.size == 0;
  }

  /** "banana" is found and "durian", never stored, is not. */
  method SearchFruit(list: DList)
    requires list.Valid()
    requires list.Contents == [Some("apple"), Some("banana"), Some("cherry"), Some("banana")]
  {
    var found := list.FindFirst(Some("banana"));
    assert found != null && found == list.Nodes[1];
    found := list.FindFirst(Some("durian"));
    assert found == null;
  }

  /** Removing "banana" takes out only its first copy: the size drops to
      three. */
  method DeleteFirstBanana(list: DList)
    requires list.Valid()
    requires list.Contents == [Some("apple"), Some("banana"), Some("cherry"), Some("banana")]
    modifies list.Repr
    ensures list.Valid() && list.Repr <= old(list.Repr)
    ensures list.Contents == [Some("apple"), Some("cherry"), Some("banana")]
  {
    FirstMatchAt(list.Contents, Some("banana"), 1);
    var r := list.DeleteFirstMatch(Some("banana"));
    assert r == 1 && list.size == 3;
  }

  /** After that removal a search for "banana" still succeeds: the second
      copy remains. */
  method SearchRemainingBanana(list: DList)
    requires list.Valid()
    requires list.Contents == [Some("apple"), Some("cherry"), Some("banana")]
  {
    var found := list.FindFirst(Some("banana"));
    assert found != null;
  }

  /** Removing the head ("apple") leaves "cherry" first. */
  method DeleteHead(list: DList)
    requires list.Valid()
    requires list.Contents == [Some("apple"), Some("cherry"), Some("banana")]
    modifies list.Repr
    ensures list.Valid() && list.Repr <= old(list.Repr)
    ensures list.Contents == [Some("cherry"), Some("banana")]
  {
    FirstMatchAt(list.Contents, Some("apple"), 0);
    var r := list.DeleteFirstMatch(Some("apple"));
    assert r == 1 && list.size == 2;
  }

  /** Removing the tail ("banana") then leaves the single element
      "cherry". */
  method DeleteTail(list: DList)
    requires list.Valid()
    requires list.Contents == [Some("cherry"), Some("banana")]
    modifies list.Repr
    ensures list.Valid() && list.Repr <= old(list.Repr)
    ensures list.Contents == [Some("cherry")]
  {
    FirstMatchAt(list.Contents, Some("banana"), 1);
    var r := list.DeleteFirstMatch(Some("banana"));
    assert r == 1 && list.size == 1;
  }

  /** Removing the last element empties the list; removing "nope" from
      the empty list then reports that nothing was removed. */
  method DeleteLastThenMissing(list: DList)
    requires list.Valid()
    requires list.Contents == [Some("cherry")]
    modifies list.Repr
    ensures list.Valid() && list.Repr <= old(list.Repr)
    ensures list.Contents == [] && list.size == 0
  {
    var r := list.DeleteFirstMatch(Some("cherry"));
    assert r == 1 && list.size == 0;

    r := list.DeleteFirstMatch(Some("nope"));
    assert r == 0;
  }

  /** `test_delete_by_node_pointer`: deleting the middle of three nodes by
      its handle. */
  method DeleteByNodePointer() {
    var list, a, b, c := BuildLetterList();
    DeleteMiddle(list, a, b, c);
    SearchLetters(list, a, c);
    ghost var _ := list.Clear();
  }

  /** Three appends, keeping the handle each one returns. */
  method BuildLetterList() returns (list: DList, a: Node, b: Node, c: Node)
    ensures list.Valid() && fresh(list.Repr)
    ensures list.Nodes == [a, b, c]
    ensures list.Contents == [Some("A"), Some("B"), Some("C")]
  {
    list := new DList();
    a := list.InsertTail(Some("A"));
    b := list.InsertTail(Some("B"));
    c := list.InsertTail(Some("C"));
    assert list.size == 3;
  }

  /** Deleting `b` by its handle leaves `a` and `c`, in order and linked to
      each other. */
  method DeleteMiddle(list: DList, a: Node, b: Node, c: Node)
    requires list.Valid() && list.Nodes == [a, b, c]
    requires list.Contents == [Some("A"), Some("B"), Some("C")]
    modifies list.Repr
    ensures list.Valid() && list.Repr <= old(list.Repr)
    ensures list.Nodes == [a, c] && list.Contents == [Some("A"), Some("C")]
  {
    var r := list.DeleteNode(b);
    assert r == 1 && list.size == 2;
    assert list.Nodes == [a, c];
    assert list.Contents == [Some("A"), Some("C")];
    assert a.next == c && c.prev == a;
  }

  /** After the middle deletion, "B" can no longer be found while "A" and
      "C" are found at their own handles. */
  method SearchLetters(list: DList, a: Node, c: Node)
    requires list.Valid() && list.Nodes == [a, c]
    requires list.Contents == [Some("A"), Some("C")]
  {
    var found := list.FindFirst(Some("B"));
    assert found == null;
    found := list.FindFirst(Some("A"));
    assert found == a;
    found := list.FindFirst(Some("C"));
    assert found == c;
  }
}
