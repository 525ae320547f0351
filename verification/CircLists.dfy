/** The fixed-capacity circular list of circ_list.h: a push goes in front and, once full, drops the oldest item. */
module CircLists {
  import opened Integers

  class CircList<T(0)> {
    var head: int
    var size: int
    const list: array<T>

    ghost predicate Valid()
      reads this, list
    {
      0 < list.Length && 0 <= head < list.Length && 0 <= size <= list.Length
    }

    /** The items, newest first. */
    ghost function Contents(): (s: seq<T>)
      requires Valid()
      reads this, list
      ensures |s| == size
    {
      seq(size, i requires 0 <= i < size reads this, list requires Valid() => list[ModuloAdd(head, i, list.Length)])
    }

    constructor (capacity: int)
      requires 0 < capacity
      ensures Valid() && fresh(list) && list.Length == capacity
      ensures Contents() == []
    {
      list := new T[capacity];
      head, size := 0, 0;
    }

    method Push(item: T)
      requires Valid()
      modifies this, list
      ensures Valid()
      ensures Contents() == ([item] + old(Contents()))[..Min(old(size) + 1, list.Length)]
    {
      head := ModuloAdd(head, -1, list.Length);
      list[head] := item;
      size := Min(size + 1, list.Length);
    }

    method Item(index: int) returns (item: T)
      requires Valid() && 0 <= index < size
      ensures item == Contents()[index]
    {
      item := list[ModuloAdd(head, index, list.Length)];
    }

    method SetItem(index: int, item: T)
      requires Valid() && 0 <= index < size
      modifies list
      ensures Valid()
      ensures Contents() == old(Contents())[index := item]
    {
      list[ModuloAdd(head, index, list.Length)] := item;
    }

    method Reset()
      requires Valid()
      modifies this
      ensures Valid() && Contents() == []
    {
      head, size := 0, 0;
    }
  }
}
