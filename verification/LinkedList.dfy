/** The singly linked list with an iterator that carries frame records, directory entries and
    request parameters between the components. */
module LinkedList {
  import opened Lpxstd

  class ListItem<T(0)> {
    var next: ListItem?<T>
    var data: T

    constructor Zeroed()
      ensures next == null
    {
      next := null;
    }
  }

  class List<T(0)> {
    var first: ListItem?<T>
    var last: ListItem?<T>
    var size: nat

    ghost var nodes: seq<ListItem<T>>
    ghost var Contents: seq<T>
    ghost var Repr: set<object>

    /** One acyclic chain from `first` to `last`; `size` counts it in 32 bits. */
    ghost predicate Valid()
      reads this, Repr
      ensures Valid() ==> this in Repr
    {
      && this in Repr
      && (forall i :: 0 <= i < |nodes| ==> nodes[i] in Repr)
      && size == |nodes| % TWO32
      && Chain(first, nodes)
      && |Contents| == |nodes|
      && (forall i :: 0 <= i < |nodes| ==> nodes[i].data == Contents[i])
      && (if nodes == [] then last == null else last == nodes[|nodes| - 1])
    }

    static ghost predicate Chain(start: ListItem?<T>, ns: seq<ListItem<T>>)
      reads ns
    {
      && (start == if ns == [] then null else ns[0])
      && (forall i {:trigger ns[i].next} :: 0 <= i < |ns| - 1 ==> ns[i].next == ns[i + 1])
      && (ns != [] ==> ns[|ns| - 1].next == null)
      && (forall i, j :: 0 <= i < j < |ns| ==> ns[i] != ns[j])
    }

    constructor ()
      ensures Valid() && fresh(Repr) && Contents == []
    {
      first, last, size := null, null, 0;
      nodes, Contents := [], [];
      Repr := {this};
    }

    method Append(data: T)
      requires Valid()
      modifies Repr
      ensures Valid() && fresh(Repr - old(Repr))
      ensures Contents == old(Contents) + [data]
      ensures nodes == old(nodes) + [last]
    {
      var item := new ListItem<T>.Zeroed();
      item.data := data;
      if last == null {
        first := item;
        last := item;
      } else {
        last.next := item;
        last := item;
      }
      size := (size + 1) % TWO32;
      nodes, Contents := nodes + [item], Contents + [data];
      Repr := Repr + {item};
    }

    /** None for the NULL the source returns on an empty list. */
    method Last() returns (r: Option<T>)
      requires Valid()
      ensures r == if Contents == [] then None else Some(Contents[|Contents| - 1])
    {
      if last != null {
        r := Some(last.data);
      } else {
        r := None;
      }
    }

    method Size() returns (n: nat)
      requires Valid()
      ensures n == |Contents| % TWO32
    {
      n := size;
    }

    method ToArray(arr: array<T>)
      requires Valid() && arr !in Repr
      requires |Contents| <= arr.Length
      modifies arr
      ensures arr[..] == Contents + old(arr[..])[|Contents|..]
    {
      var item := first;
      var idx := 0;
      while item != null
        invariant 0 <= idx <= |nodes|
        invariant item == if idx < |nodes| then nodes[idx] else null
        invariant arr[..idx] == Contents[..idx]
        invariant arr[idx..] == old(arr[..])[idx..]
        decreases |nodes| - idx
      {
        ghost var untouched := arr[idx + 1..];
        arr[idx] := item.data;
        assert arr[idx + 1..] == untouched;
        idx := idx + 1;
        item := item.next;
      }
      assert arr[..] == arr[..idx] + arr[idx..];
    }
  }

  /** Starts on a sentinel whose `next` is the list's first item at creation time. */
  class ListIter<T(0)> {
    var first: ListItem<T>
    var item: ListItem?<T>

    ghost var list: List<T>
    /** How many items have been advanced over; |list.nodes| + 1 once the end was passed. */
    ghost var pos: nat

    ghost predicate Valid()
      reads this, list, list.Repr, first
    {
      && list.Valid()
      && first !in list.Repr
      && first.next == list.first
      && pos <= |list.nodes| + 1
      && (item == if pos == 0 then first else if pos <= |list.nodes| then list.nodes[pos - 1] else null)
    }

    constructor (lst: List<T>)
      requires lst.Valid()
      ensures Valid() && list == lst && pos == 0 && fresh(first)
    {
      var sentinel := new ListItem<T>.Zeroed();
      sentinel.next := lst.first;
      first := sentinel;
      item := sentinel;
      list := lst;
      pos := 0;
    }

    method HasNext() returns (b: bool)
      requires Valid() && pos <= |list.nodes|
      ensures b <==> pos < |list.nodes|
    {
      b := item.next != null;
    }

    method Advance() returns (b: bool)
      requires Valid()
      modifies this
      ensures Valid() && list == old(list) && first == old(first)
      ensures pos == if old(pos) <= |list.nodes| then old(pos) + 1 else old(pos)
      ensures b <==> pos <= |list.nodes|
    {
      if item == null {
        return false;
      }
      item := item.next;
      pos := pos + 1;
      b := item != null;
    }

    /** The sentinel carries no data, so an `Advance` comes first. */
    method Peek() returns (r: Option<T>)
      requires Valid() && pos >= 1
      ensures r == if pos <= |list.nodes| then Some(list.Contents[pos - 1]) else None
    {
      if item == null {
        return None;
      }
      r := Some(item.data);
    }
  }

  /** When a list may grow under an iterator: the iterator goes on to see the new item exactly when
      the list was not empty and its end had not been passed. */
  method AppendUnderIterator<T(0)>(lst: List<T>, it: ListIter<T>, data: T)
    requires it.Valid() && it.list == lst && it !in lst.Repr
    modifies lst.Repr
    ensures it.list == lst && it.pos == old(it.pos)
    ensures lst.Valid() && lst.Contents == old(lst.Contents) + [data]
    ensures it.Valid() <==> 0 < |old(lst.Contents)| && it.pos <= |old(lst.Contents)|
  {
    ghost var n := |lst.nodes|;
    lst.Append(data);
    assert lst.nodes[n] == lst.last;
  }
}
