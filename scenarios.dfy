/** Clients of the list that drive it the way the command loop does and check,
    from the operations' contracts alone, what each command sequence leaves behind. */
module Scenarios {
  import opened SortedStrings
  import opened DoublyLinkedList

  /** Values arriving out of order come out sorted: "b" goes into the empty list,
      "a" before the head and "c" after the tail. */
  method ArrivalOrder() returns (out: seq<string>)
    ensures out == ["a", "b", "c"]
  {
    var list := new List();
    var ok := list.Insert("b");
    assert list.Contents == ["b"];
    assert FirstNotLess(["b"], "a") == 0;
    ok := list.Insert("a");
    assert list.Contents == ["a", "b"];
    assert FirstNotLess(["a", "b"], "c") == 2;
    ok := list.Insert("c");
    assert list.Contents == ["a", "b", "c"];
    out := list.Print();
  }

  /** Values arriving in order each go after the tail. */
  method InOrder() returns (out: seq<string>)
    ensures out == ["apple", "banana", "cherry"]
  {
    var list := new List();
    var ok := list.Insert("apple");
    assert FirstNotLess(["apple"], "banana") == 1;
    ok := list.Insert("banana");
    assert list.Contents == ["apple", "banana"];
    assert FirstNotLess(["apple", "banana"], "cherry") == 2;
    ok := list.Insert("cherry");
    out := list.Print();
  }

  /** A value between two others goes into the middle. */
  method InsertMiddle() returns (out: seq<string>)
    ensures out == ["a", "b", "c"]
  {
    var list := new List();
    var ok := list.Insert("a");
    assert FirstNotLess(["a"], "c") == 1;
    ok := list.Insert("c");
    assert list.Contents == ["a", "c"];
    assert FirstNotLess(["a", "c"], "b") == 1;
    ok := list.Insert("b");
    out := list.Print();
  }

  /** A second insert of a value fails and leaves one copy. */
  method InsertTwice() returns (out: seq<string>, again: bool)
    ensures out == ["x"] && !again
  {
    var list := new List();
    var ok := list.Insert("x");
    again := list.Insert("x");
    out := list.Print();
  }

  /** Deleting the head leaves its successor; deleting it again then fails. */
  method DeleteHead() returns (out: seq<string>, again: bool)
    ensures out == ["banana"] && !again
  {
    var list := new List();
    var ok := list.Insert("apple");
    assert FirstNotLess(["apple"], "banana") == 1;
    ok := list.Insert("banana");
    assert IndexOf(["apple", "banana"], "apple") == 0;
    ok := list.Delete("apple");
    out := list.Print();
    again := list.Delete("apple");
  }

  /** Deleting a value that is not there fails and changes nothing. */
  method DeleteAbsent() returns (out: seq<string>, deleted: bool)
    ensures out == ["apple"] && !deleted
  {
    var list := new List();
    var ok := list.Insert("apple");
    deleted := list.Delete("banana");
    out := list.Print();
  }

  /** Deleting the only value empties the list. */
  method DeleteOnly() returns (out: seq<string>)
    ensures out == []
  {
    var list := new List();
    var ok := list.Insert("apple");
    ok := list.Delete("apple");
    out := list.Print();
  }

  /** On any list, a value is a member right after it is inserted, and not after
      it is deleted. */
  method MemberRoundTrip(list: List, v: string) returns (afterInsert: int, afterDelete: int)
    requires list.Valid()
    modifies list, list.nodes
    ensures afterInsert == 1 && afterDelete == 0
  {
    var ok := list.Insert(v);
    afterInsert := list.Member(v);
    RemoveElements(list.Contents, v);
    assert v !in Remove(list.Contents, v);
    ok := list.Delete(v);
    afterDelete := list.Member(v);
  }

  /** Nothing is a member of a freed list. */
  method MemberAfterFree(v: string) returns (r: int)
    ensures r == 0
  {
    var list := new List();
    var ok := list.Insert(v);
    var freed := list.FreeList();
    r := list.Member(v);
  }
}
