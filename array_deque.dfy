/**
 * The fixed-capacity circular array deque of proj1/ArrayDeque.java.
 *
 * The class keeps the Java fields as they are: a backing array of eight slots,
 * a `size` counter and two cursors, `nextFront` (the slot the next `addFirst`
 * writes) and `nextBack` (the slot the next `addLast` writes). A slot holding
 * Java `null` is `None`.
 *
 * The deque's items, first to last, are the `size` slots that follow
 * `nextFront` cyclically (`Contents`). `addFirst` and `addLast` keep that view
 * and the relation `nextBack == nextFront + size + 1 (mod 8)` (`Coherent`).
 * `removeFirst`, `removeLast` and `get` are modelled exactly as written; the
 * members whose names end in `Intended` are the corrected operations, proved
 * against the same view.
 */
module ArrayDequeModel {
  import opened Wrappers

  /** The length of the backing array; the deque never grows. */
  const Capacity: nat := 8

  /** What `removeFirst` yields: the slot value it returns, or the
      ArrayIndexOutOfBoundsException it raises for a negative index. */
  datatype Removal<T> = Returned(item: Option<T>) | IndexOutOfBounds(index: int)

  /** The `count` slots that follow `front` cyclically: the items from first to last. */
  function Window<T>(slots: seq<Option<T>>, front: int, count: int): seq<Option<T>>
    requires |slots| == Capacity && 0 <= front < Capacity && 0 <= count <= Capacity
  {
    seq(count, k requires 0 <= k < count => slots[(front + 1 + k) % Capacity])
  }

  /** Writing at the front cursor and stepping it back prepends one item. */
  lemma WindowPushFront<T>(slots: seq<Option<T>>, front: int, count: int, x: Option<T>)
    requires |slots| == Capacity && 0 <= front < Capacity && 0 <= count < Capacity
    ensures Window(slots[front := x], (front - 1 + Capacity) % Capacity, count + 1)
            == [x] + Window(slots, front, count)
  {
    var front' := (front - 1 + Capacity) % Capacity;
    var after := Window(slots[front := x], front', count + 1);
    var before := Window(slots, front, count);
    forall k | 0 <= k < count + 1
      ensures after[k] == ([x] + before)[k]
    {
      if k == 0 {
        assert (front' + 1) % Capacity == front;
      } else {
        assert (front' + 1 + k) % Capacity == (front + 1 + (k - 1)) % Capacity != front;
      }
    }
  }

  /** Writing at the slot just past the last item appends one item. */
  lemma WindowPushBack<T>(slots: seq<Option<T>>, front: int, count: int, x: Option<T>)
    requires |slots| == Capacity && 0 <= front < Capacity && 0 <= count < Capacity
    ensures Window(slots[(front + count + 1) % Capacity := x], front, count + 1)
            == Window(slots, front, count) + [x]
  {
    var back := (front + count + 1) % Capacity;
    var after := Window(slots[back := x], front, count + 1);
    var before := Window(slots, front, count);
    forall k | 0 <= k < count + 1
      ensures after[k] == (before + [x])[k]
    {
      if k < count {
        assert (front + 1 + k) % Capacity != back;
      }
    }
  }

  /** The slot after the front cursor holds the first item; clearing it and
      advancing the cursor drops exactly that item. */
  lemma WindowPopFront<T>(slots: seq<Option<T>>, front: int, count: int)
    requires |slots| == Capacity && 0 <= front < Capacity && 0 < count <= Capacity
    ensures slots[(front + 1) % Capacity] == Window(slots, front, count)[0]
    ensures Window(slots[(front + 1) % Capacity := None], (front + 1) % Capacity, count - 1)
            == Window(slots, front, count)[1..]
  {
    var first := (front + 1) % Capacity;
    var after := Window(slots[first := None], first, count - 1);
    var before := Window(slots, front, count);
    forall k | 0 <= k < count - 1
      ensures after[k] == before[1..][k]
    {
      assert (first + 1 + k) % Capacity == (front + 1 + (k + 1)) % Capacity != first;
    }
  }

  /** The slot `front + count` holds the last item; clearing it drops exactly that item. */
  lemma WindowPopBack<T>(slots: seq<Option<T>>, front: int, count: int)
    requires |slots| == Capacity && 0 <= front < Capacity && 0 < count <= Capacity
    ensures slots[(front + count) % Capacity] == Window(slots, front, count)[count - 1]
    ensures Window(slots[(front + count) % Capacity := None], front, count - 1)
            == Window(slots, front, count)[..count - 1]
  {
    var last := (front + count) % Capacity;
    var after := Window(slots[last := None], front, count - 1);
    var before := Window(slots, front, count);
    forall k | 0 <= k < count - 1
      ensures after[k] == before[..count - 1][k]
    {
      assert (front + 1 + k) % Capacity != last;
    }
  }

  class ArrayDeque<T> {
    var size: int
    var nextFront: int
    var nextBack: int
    var data: array<Option<T>>  // the Java field `array` (a reserved word here)
    var arrayLength: int

    /** The bounds every operation keeps: eight slots, size within capacity,
        both cursors inside the array. */
    ghost predicate Valid()
      reads this
    {
      arrayLength == data.Length == Capacity &&
      0 <= size <= arrayLength &&
      0 <= nextFront < arrayLength &&
      0 <= nextBack < arrayLength
    }

    /** The items from first to last, as the cursors and `size` describe them. */
    ghost function Contents(): seq<Option<T>>
      reads this, data
      requires Valid()
    {
      Window(data[..], nextFront, size)
    }

    /** The back cursor sits just past the last item. */
    ghost predicate Coherent()
      reads this
      requires Valid()
    {
      nextBack == (nextFront + size + 1) % Capacity
    }

    constructor ()
      ensures Valid() && fresh(data)
      ensures arrayLength == 8 && size == 0 && nextFront == 0 && nextBack == 1
      ensures forall i :: 0 <= i < data.Length ==> data[i] == None
      ensures Contents() == [] && Coherent()
    {
      var slots := new Option<T>[8](_ => None);
      data := slots;
      size := 0;
      nextFront := 0;
      nextBack := 1;
      arrayLength := slots.Length;
    }

    /** addFirst: a no-op when full; otherwise the item goes into slot
        `nextFront`, which then steps back one (wrapping). */
    method AddFirst(item: T)
      requires Valid()
      modifies this, data
      ensures Valid() && data == old(data) && arrayLength == old(arrayLength)
      ensures old(size) == arrayLength ==>
        data[..] == old(data[..]) && size == old(size) &&
        nextFront == old(nextFront) && nextBack == old(nextBack)
      ensures old(size) < arrayLength ==>
        data[..] == old(data[..])[old(nextFront) := Some(item)] &&
        size == old(size) + 1 &&
        nextFront == (old(nextFront) - 1 + arrayLength) % arrayLength &&
        nextBack == old(nextBack)
      ensures old(size) < arrayLength ==> Contents() == [Some(item)] + old(Contents())
      ensures old(Coherent()) ==> Coherent()
    {
      if size < arrayLength {
        WindowPushFront(data[..], nextFront, size, Some(item));
        data[nextFront] := Some(item);
        size := size + 1;
        nextFront := (nextFront - 1 + arrayLength) % arrayLength;
      }
    }

    /** addLast: a no-op when full; otherwise the item goes into slot
        `nextBack`, which then steps forward one (wrapping). */
    method AddLast(item: T)
      requires Valid()
      modifies this, data
      ensures Valid() && data == old(data) && arrayLength == old(arrayLength)
      ensures old(size) == arrayLength ==>
        data[..] == old(data[..]) && size == old(size) &&
        nextFront == old(nextFront) && nextBack == old(nextBack)
      ensures old(size) < arrayLength ==>
        data[..] == old(data[..])[old(nextBack) := Some(item)] &&
        size == old(size) + 1 &&
        nextBack == (old(nextBack) + 1) % arrayLength &&
        nextFront == old(nextFront)
      ensures old(Coherent()) && old(size) < arrayLength ==>
        Contents() == old(Contents()) + [Some(item)]
      ensures old(Coherent()) ==> Coherent()
    {
      if size < arrayLength {
        if Coherent() {
          WindowPushBack(data[..], nextFront, size, Some(item));
        }
        data[nextBack] := Some(item);
        size := size + 1;
        nextBack := (nextBack + 1) % arrayLength;
      }
    }

    /** isEmpty: whether the deque holds no item; reads only. */
    method IsEmpty() returns (r: bool)
      requires Valid()
      ensures r <==> Contents() == []
    {
      r := size == 0;
    }

    /** size(): the number of items; reads only. */
    method Size() returns (r: int)
      requires Valid()
      ensures r == |Contents()|
    {
      r := size;
    }

    /** removeFirst as written. Empty: returns null. Front cursor on the last
        slot: returns and clears slot 0, the cursor goes to 0. Otherwise it
        reads and clears slot `nextFront - 1` (raising for slot -1) and moves
        the cursor forward. The back cursor is never touched. */
    method RemoveFirst() returns (r: Removal<T>)
      requires Valid()
      modifies this, data
      ensures Valid() && data == old(data) && arrayLength == old(arrayLength)
      ensures nextBack == old(nextBack)
      ensures old(size) == 0 ==>
        r == Returned(None) && data[..] == old(data[..]) &&
        size == old(size) && nextFront == old(nextFront)
      ensures old(size) > 0 && old(nextFront) == arrayLength - 1 ==>
        r == Returned(old(data[0])) && data[..] == old(data[..])[0 := None] &&
        nextFront == 0 && size == old(size) - 1
      ensures old(size) > 0 && old(nextFront) == 0 ==>
        r == IndexOutOfBounds(-1) && data[..] == old(data[..]) &&
        size == old(size) && nextFront == old(nextFront)
      ensures old(size) > 0 && 0 < old(nextFront) < arrayLength - 1 ==>
        r == Returned(old(data[nextFront - 1])) &&
        data[..] == old(data[..])[old(nextFront) - 1 := None] &&
        nextFront == (old(nextFront) + 1) % arrayLength && size == old(size) - 1
      // Only the wrap-around branch removes the first item.
      ensures old(size) > 0 && old(nextFront) == arrayLength - 1 ==>
        r == Returned(old(Contents())[0]) && Contents() == old(Contents())[1..]
      // Every branch keeps nextFront + size, so the back cursor stays just past the items.
      ensures old(Coherent()) ==> Coherent()
    {
      var empty := IsEmpty();
      if empty {
        return Returned(None);
      }
      if nextFront == arrayLength - 1 {
        WindowPopFront(data[..], nextFront, size);
        var frontValue := data[0];
        data[0] := None;
        nextFront := 0;
        size := size - 1;
        r := Returned(frontValue);
      } else if nextFront - 1 < 0 {
        r := IndexOutOfBounds(nextFront - 1);
      } else {
        var frontValue := data[nextFront - 1];
        data[nextFront - 1] := None;
        nextFront := (nextFront + 1) % data.Length;
        size := size - 1;
        r := Returned(frontValue);
      }
    }

    /** removeLast as written: returns slot `nextBack`; when that slot is
        non-null it is cleared and the back cursor steps back one (wrapping).
        `size` is never changed. */
    method RemoveLast() returns (r: Option<T>)
      requires Valid()
      modifies this, data
      ensures Valid() && data == old(data) && arrayLength == old(arrayLength)
      ensures size == old(size) && nextFront == old(nextFront)
      ensures r == old(data[nextBack])
      ensures r == None ==> data[..] == old(data[..]) && nextBack == old(nextBack)
      ensures r != None ==>
        data[..] == old(data[..])[old(nextBack) := None] &&
        nextBack == (if old(nextBack) == 0 then arrayLength - 1 else old(nextBack) - 1)
    {
      if data[nextBack] == None {
        return None;
      }
      var nextBackValue := data[nextBack];
      data[nextBack] := None;
      if nextBack == 0 {
        nextBack := data.Length - 1;
      } else {
        nextBack := nextBack - 1;
      }
      r := nextBackValue;
    }

    /** get as written: null outside `0 .. arrayLength - 1`, otherwise the
        physical slot `index`, whatever the cursors are. */
    method Get(index: int) returns (r: Option<T>)
      requires Valid()
      ensures index < 0 || index > arrayLength - 1 ==> r == None
      ensures 0 <= index < arrayLength ==> r == data[index]
    {
      if index > data.Length - 1 || index < 0 {
        return None;
      }
      r := data[index];
    }

    /** removeFirst as its documentation describes it: removes and returns the
        first item, or returns null when empty. */
    method RemoveFirstIntended() returns (r: Option<T>)
      requires Valid() && Coherent()
      modifies this, data
      ensures Valid() && Coherent() && data == old(data) && arrayLength == old(arrayLength)
      ensures old(size) == 0 ==> r == None && Contents() == old(Contents())
      ensures old(size) > 0 ==> r == old(Contents())[0] && Contents() == old(Contents())[1..]
    {
      if size == 0 {
        return None;
      }
      var first := (nextFront + 1) % arrayLength;
      WindowPopFront(data[..], nextFront, size);
      r := data[first];
      data[first] := None;
      nextFront := first;
      size := size - 1;
    }

    /** removeLast as its documentation describes it: removes and returns the
        last item, or returns null when empty. */
    method RemoveLastIntended() returns (r: Option<T>)
      requires Valid() && Coherent()
      modifies this, data
      ensures Valid() && Coherent() && data == old(data) && arrayLength == old(arrayLength)
      ensures old(size) == 0 ==> r == None && Contents() == old(Contents())
      ensures old(size) > 0 ==>
        r == old(Contents())[old(size) - 1] && Contents() == old(Contents())[..old(size) - 1]
    {
      if size == 0 {
        return None;
      }
      var last := (nextBack - 1 + arrayLength) % arrayLength;
      assert last == (nextFront + size) % Capacity;
      WindowPopBack(data[..], nextFront, size);
      r := data[last];
      data[last] := None;
      nextBack := last;
      size := size - 1;
    }

    /** get as its documentation describes it: the item at logical position
        `index` counted from the front, or null when there is none. */
    method GetIntended(index: int) returns (r: Option<T>)
      requires Valid()
      ensures 0 <= index < |Contents()| ==> r == Contents()[index]
      ensures index < 0 || index >= |Contents()| ==> r == None
    {
      if index < 0 || index >= size {
        return None;
      }
      r := data[(nextFront + 1 + index) % arrayLength];
    }
  }

  /** Two `addFirst` calls put the front item in slot 7; `removeFirst` then
      reads slot 5, which is empty, yet lowers the size to 1 and moves the
      front cursor past slot 7, so the item 2 is lost and 1 is first again. */
  method RemoveFirstMissesFront() returns (front: Option<int>, r: Removal<int>, n: int, first: Option<int>)
    ensures front == Some(2) && r == Returned(None) && n == 1 && first == Some(1)
  {
    var d := new ArrayDeque<int>();
    d.AddFirst(1);
    d.AddFirst(2);
    front := d.GetIntended(0);
    r := d.RemoveFirst();
    n := d.Size();
    first := d.GetIntended(0);
  }

  /** After one `addLast` the front cursor is 0, so `removeFirst` indexes slot -1. */
  method RemoveFirstOutOfBounds() returns (front: Option<int>, r: Removal<int>)
    ensures front == Some(1) && r == IndexOutOfBounds(-1)
  {
    var d := new ArrayDeque<int>();
    d.AddLast(1);
    front := d.GetIntended(0);
    r := d.RemoveFirst();
  }

  /** After one `addLast`, `removeLast` reads the empty slot past the last item
      and returns null; the item stays. */
  method RemoveLastMissesBack() returns (back: Option<int>, r: Option<int>, n: int)
    ensures back == Some(1) && r == None && n == 1
  {
    var d := new ArrayDeque<int>();
    d.AddLast(1);
    back := d.GetIntended(0);
    r := d.RemoveLast();
    n := d.Size();
  }

  /** On a deque filled by eight `addLast` calls, `removeLast` returns the
      first item, not the last, and the size stays 8. */
  method RemoveLastOnFullDeque() returns (back: Option<int>, r: Option<int>, n: int)
    ensures back == Some(8) && r == Some(1) && n == 8
  {
    var d := new ArrayDeque<int>();
    d.AddLast(1);
    assert d.size == 1 && d.nextBack == 2 && d.data[1] == Some(1);
    d.AddLast(2);
    d.AddLast(3);
    d.AddLast(4);
    assert d.size == 4 && d.nextBack == 5 && d.data[1] == Some(1);
    d.AddLast(5);
    d.AddLast(6);
    d.AddLast(7);
    assert d.size == 7 && d.nextBack == 0 && d.data[1] == Some(1);
    d.AddLast(8);
    assert d.size == 8 && d.nextBack == 1 && d.data[1] == Some(1);
    back := d.GetIntended(7);
    r := d.RemoveLast();
    n := d.Size();
  }

  /** After one `addLast` the first item sits in slot 1, so `get(0)` returns null. */
  method GetReadsPhysicalSlot() returns (first: Option<int>, r: Option<int>)
    ensures first == Some(7) && r == None
  {
    var d := new ArrayDeque<int>();
    d.AddLast(7);
    first := d.GetIntended(0);
    r := d.Get(0);
  }
}
