/** The growable list of list.c: a sequence of stored items and the number
    of slots allocated for them. */
module Lists {
  import opened Common
  import opened Values
  import opened Items

  // ---------------------------------------------------------------------
  // Reading.

  /** `get_item` (list.c:196-238) and the typed getters built on it
      (list.c:453-554): the item at `pos`, or nothing when `pos` is out of
      range. A kind that does not match is only logged; the stored item is
      returned all the same. */
  function ListGet(l: List, pos: nat, kind: Kind): (r: Option<Item>)
    ensures r.None? <==> pos >= |l.items|
    ensures r.Some? ==> r.value == l.items[pos]
  {
    if pos >= |l.items| then None else Some(l.items[pos])
  }

  /** `list_get_type` (list.c:443-451): the item's kind, or RESERVED_ERROR
      when there is no item at `pos`. */
  function ListGetType(l: List, pos: nat): (r: Kind)
    ensures pos >= |l.items| ==> r == ReservedError
    ensures pos < |l.items| ==> r == l.items[pos].kind
    ensures Storable(r) ==> pos < |l.items|
  {
    match ListGet(l, pos, ReservedEmpty)
    case None => ReservedError
    case Some(i) => i.kind
  }

  /** `list_get_item_size` (list.c:410-418): the item's `size`, or 0. */
  function ListGetItemSize(l: List, pos: nat): (r: nat)
    ensures pos >= |l.items| ==> r == 0
    ensures pos < |l.items| ==> r == l.items[pos].size
  {
    match ListGet(l, pos, ReservedEmpty)
    case None => 0
    case Some(i) => i.size
  }

  // ---------------------------------------------------------------------
  // Adding and replacing.

  /** `list_append` (list.c:702-768). The list grows first, so a failed copy
      still leaves the grown list behind. */
  function ListAppend(l: List, a: ItemArg): (r: Outcome<List>)
    requires ListValid(l) && ArgShape(a)
    ensures ListValid(r.state) && |r.state.items| < r.state.capacity
    ensures r.ok <==> Store(a).Some?
    ensures r.ok ==> r.state.items == l.items + [Store(a).value]
    ensures !r.ok ==> r.state.items == l.items
    ensures |l.items| + 1 < l.capacity ==> r.state.capacity == l.capacity
    ensures |l.items| + 1 >= l.capacity ==> r.state.capacity == CalculateNewSize(l.capacity)
  {
    var l1 := CheckAvailability(l);
    match Store(a)
    case None => Outcome(false, l1)
    case Some(i) => Outcome(true, List(l1.items + [i], l1.capacity))
  }

  /** `list_insert` (list.c:626-700): positions past the end append;
      otherwise the item goes in front of the one at `pos`. */
  function ListInsert(l: List, pos: nat, a: ItemArg): (r: Outcome<List>)
    requires ListValid(l) && ArgShape(a)
    ensures ListValid(r.state) && |r.state.items| < r.state.capacity
    ensures pos > |l.items| ==> r == ListAppend(l, a)
    ensures r.ok <==> Store(a).Some?
    ensures r.ok && pos <= |l.items| ==>
      r.state.items == l.items[..pos] + [Store(a).value] + l.items[pos..]
    ensures !r.ok ==> r.state.items == l.items
    ensures r.state.capacity == CheckAvailability(l).capacity
  {
    if pos > |l.items| then ListAppend(l, a)
    else
      var l1 := CheckAvailability(l);
      match Store(a)
      case None => Outcome(false, l1)
      case Some(i) => Outcome(true, List(l1.items[..pos] + [i] + l1.items[pos..], l1.capacity))
  }

  /** `list_replace` (list.c:556-624): out of range or a failed copy changes
      nothing; otherwise only slot `pos` changes. */
  function ListReplace(l: List, pos: nat, a: ItemArg): (r: Outcome<List>)
    requires ArgShape(a)
    ensures r.ok <==> pos < |l.items| && Store(a).Some?
    ensures !r.ok ==> r.state == l
    ensures r.state.capacity == l.capacity && |r.state.items| == |l.items|
    ensures r.ok ==> r.state.items[pos] == Store(a).value
    ensures forall j :: 0 <= j < |l.items| && j != pos ==> r.state.items[j] == l.items[j]
  {
    if pos >= |l.items| then Outcome(false, l)
    else
      match Store(a)
      case None => Outcome(false, l)
      case Some(i) => Outcome(true, List(l.items[pos := i], l.capacity))
  }

  // ---------------------------------------------------------------------
  // Removing.

  /** The shrink step at the end of `list_remove` (list.c:831-855): once a
      list above the minimum size is at most a quarter full, its size moves
      halfway towards its length (never below the minimum). */
  function Shrink(l: List): (r: List)
    requires ListValid(l)
    ensures ListValid(r) && r.items == l.items && r.capacity <= l.capacity
    ensures l.capacity > ListMinimumSize && 4 * |l.items| <= l.capacity ==>
      var target := |l.items| + (l.capacity - |l.items|) / 2;
      r.capacity == if target < ListMinimumSize then ListMinimumSize else target
    ensures !(l.capacity > ListMinimumSize && 4 * |l.items| <= l.capacity) ==> r == l
  {
    if l.capacity > ListMinimumSize && 4 * |l.items| <= l.capacity then
      var newSize := |l.items| + (l.capacity - |l.items|) / 2;
      if newSize >= l.capacity then l else ListResize(l, newSize)
    else l
  }

  /** `list_remove` (list.c:802-857): out of range is a no-op; otherwise the
      item at `pos` goes and the list may shrink. */
  function ListRemove(l: List, pos: nat): (r: List)
    requires ListValid(l)
    ensures ListValid(r)
    ensures pos >= |l.items| ==> r == l
    ensures pos < |l.items| ==> r.items == l.items[..pos] + l.items[pos + 1..]
    ensures pos < |l.items| ==>
      var n := |l.items| - 1;
      var target := n + (l.capacity - n) / 2;
      if l.capacity > ListMinimumSize && 4 * n <= l.capacity
      then r.capacity == (if target < ListMinimumSize then ListMinimumSize else target)
      else r.capacity == l.capacity
  {
    if pos >= |l.items| then l
    else Shrink(List(l.items[..pos] + l.items[pos + 1..], l.capacity))
  }

  /** `list_pop` (list.c:770-800): hands the item at `pos` to the caller
      (its kind, size, payload and destructor) and removes it. */
  function ListPop(l: List, pos: nat): (r: (Option<Item>, List))
    requires ListValid(l)
    ensures r.0.None? <==> pos >= |l.items|
    ensures r.0.None? ==> r.1 == l
    ensures r.0.Some? ==> r.0.value == l.items[pos] && r.1 == ListRemove(l, pos)
  {
    if pos >= |l.items| then (None, l) else (Some(l.items[pos]), ListRemove(l, pos))
  }

  // ---------------------------------------------------------------------
  // list_empty.

  /** The odd-indexed elements of `s`: s[1], s[3], ... */
  function OddIndexed<T>(s: seq<T>): (r: seq<T>)
    ensures |r| == |s| / 2
    ensures forall i :: 0 <= i < |r| ==> r[i] == s[2 * i + 1]
    decreases |s|
  {
    if |s| < 2 then [] else [s[1]] + OddIndexed(s[2..])
  }

  /** The loop of `list_empty` (list.c:859-874) from `index` on: it removes
      the item at `index` and then moves to the next index, while the items
      behind have just moved down by one. */
  function EmptyFrom(l: List, index: nat): (r: List)
    requires ListValid(l)
    ensures ListValid(r)
    ensures index <= |l.items| ==> r.items == l.items[..index] + OddIndexed(l.items[index..])
    ensures index >= |l.items| ==> r == l
    decreases |l.items| - index
  {
    if index < |l.items| then
      var l1 := ListRemove(l, index);
      var r := EmptyFrom(l1, index + 1);
      OddStep(l.items, index, l1.items, r.items);
      r
    else
      assert index == |l.items| ==> l.items[index..] == [];
      l
  }

  /** One turn of the `list_empty` loop on the items: removing the item at
      `index` and keeping every second item from `index + 1` on keeps every
      second item from `index` on. */
  lemma OddStep(s: seq<Item>, index: nat, s1: seq<Item>, rs: seq<Item>)
    requires index < |s| && s1 == s[..index] + s[index + 1..]
    requires index + 1 <= |s1| ==> rs == s1[..index + 1] + OddIndexed(s1[index + 1..])
    requires index + 1 > |s1| ==> rs == s1
    ensures rs == s[..index] + OddIndexed(s[index..])
  {
    var p := s[..index];
    var t := s[index..];
    assert s1 == p + t[1..];
    if |t| == 1 {
      assert s1 == p && t[1..] == [];
    } else {
      assert s1[..index + 1] == p + [t[1]] && s1[index + 1..] == t[2..];
      assert OddIndexed(t) == [t[1]] + OddIndexed(t[2..]);
    }
  }

  /** `list_empty` as written. */
  function ListEmpty(l: List): (r: List)
    requires ListValid(l)
    ensures ListValid(r) && |r.items| == |l.items| / 2
  {
    assert l.items[..0] == [] && l.items[0..] == l.items;
    EmptyFrom(l, 0)
  }

  /** `list_empty` keeps every second item: of n items, the floor(n/2) at
      odd positions survive, in order. */
  lemma EmptyLeavesHalf(l: List)
    requires ListValid(l)
    ensures ListEmpty(l).items == OddIndexed(l.items)
  {
    assert l.items[..0] == [] && l.items[0..] == l.items;
  }

  /** Two items are enough to see it: emptying [a, b] leaves [b]. */
  lemma EmptyTwoItems(a: Item, b: Item)
    ensures ListEmpty(List([a, b], 8)).items == [b]
  {
    EmptyLeavesHalf(List([a, b], 8));
  }

  /** What `list_empty` evidently intends: remove the first item until none
      is left. */
  function ListClear(l: List): (r: List)
    requires ListValid(l)
    ensures ListValid(r) && r.items == []
    decreases |l.items|
  {
    if |l.items| == 0 then l else ListClear(ListRemove(l, 0))
  }

  // ---------------------------------------------------------------------
  // list_contains.

  /** The `size` bytes `memcmp(data, item->data, item->size)` reads at an
      item's data pointer. The model holds them when the item stores at
      least `size` bytes, or when `size` is 0. Otherwise they are the fields
      of a list or map, memory behind a NULL pointer or past a short
      string's copy, and `raw(item)` stands for them. */
  function ItemBytes(i: Item, raw: Item -> seq<byte>): (r: seq<byte>)
    ensures i.data.Bytes? && |i.data.bytes| >= i.size ==> r == i.data.bytes[..i.size]
    ensures i.size == 0 ==> r == []
    ensures !(i.data.Bytes? && |i.data.bytes| >= i.size) && i.size > 0 ==> r == raw(i)
  {
    if i.data.Bytes? && |i.data.bytes| >= i.size then i.data.bytes[..i.size]
    else if i.size == 0 then []
    else raw(i)
  }

  /** `memcmp(data, item->data, item->size) == 0` for a query of exactly
      `size` bytes. */
  predicate SameBytes(query: seq<byte>, i: Item, raw: Item -> seq<byte>) {
    ItemBytes(i, raw) == query
  }

  /** Some item has the query's size and different bytes. */
  predicate HoldsDiffering(l: List, query: seq<byte>, raw: Item -> seq<byte>) {
    exists j :: 0 <= j < |l.items| && l.items[j].size == |query| && !SameBytes(query, l.items[j], raw)
  }

  /** Some item has the query's size and bytes. */
  predicate HoldsSame(l: List, query: seq<byte>, raw: Item -> seq<byte>) {
    exists j :: 0 <= j < |l.items| && l.items[j].size == |query| && SameBytes(query, l.items[j], raw)
  }

  /** The loop of `list_contains` (list.c:420-441) as written: it reports a
      hit for an item of the same size whose bytes DIFFER from the query,
      because the `memcmp` result is used without `!`. */
  method ListContainsAsWritten(l: List, query: seq<byte>, raw: Item -> seq<byte>) returns (found: bool)
    ensures found <==> HoldsDiffering(l, query, raw)
  {
    var index := 0;
    while index < |l.items|
      invariant 0 <= index <= |l.items|
      invariant forall j :: 0 <= j < index && l.items[j].size == |query| ==> SameBytes(query, l.items[j], raw)
    {
      var i := l.items[index];
      if |query| == i.size && !SameBytes(query, i, raw) {
        return true;
      }
      index := index + 1;
    }
    return false;
  }

  /** What `list_contains` evidently intends: some item has the query's size
      and bytes. */
  method ListContains(l: List, query: seq<byte>, raw: Item -> seq<byte>) returns (found: bool)
    ensures found <==> HoldsSame(l, query, raw)
  {
    var index := 0;
    while index < |l.items|
      invariant 0 <= index <= |l.items|
      invariant forall j :: 0 <= j < index && l.items[j].size == |query| ==> !SameBytes(query, l.items[j], raw)
    {
      var i := l.items[index];
      if |query| == i.size && SameBytes(query, i, raw) {
        return true;
      }
      index := index + 1;
    }
    return false;
  }

  /** A one-item list holding the int 1 (eight bytes): as written,
      `list_contains` says it does not hold 1 and does hold 2, whatever the
      memory the model does not hold. */
  lemma ContainsInverted(raw: Item -> seq<byte>)
    ensures var one: seq<byte> := [1, 0, 0, 0, 0, 0, 0, 0];
      var two: seq<byte> := [2, 0, 0, 0, 0, 0, 0, 0];
      var l := List([Item(IntKind, 8, Bytes(one), 0)], 8);
      HoldsDiffering(l, two, raw) && !HoldsDiffering(l, one, raw)
      && HoldsSame(l, one, raw) && !HoldsSame(l, two, raw)
  {
    var one: seq<byte> := [1, 0, 0, 0, 0, 0, 0, 0];
    var two: seq<byte> := [2, 0, 0, 0, 0, 0, 0, 0];
    var l := List([Item(IntKind, 8, Bytes(one), 0)], 8);
    assert one[..8] == one;
    assert one[..8][0] != two[0];
    assert l.items[0].size == 8 && !SameBytes(two, l.items[0], raw);
    assert SameBytes(one, l.items[0], raw);
  }

  // ---------------------------------------------------------------------
  // The shifting loops over the slot array.

  /** The loop of `list_insert` (list.c:692-698) over the `slots` array,
      `len` of which hold items: move the tail up one slot and put `x` at
      `pos`. It writes slot `len`, which exists because `check_availability`
      ran first. */
  method InsertShift<T>(slots: seq<T>, len: nat, pos: nat, x: T) returns (r: seq<T>)
    requires pos <= len < |slots|
    ensures |r| == |slots|
    ensures r[..len + 1] == slots[..pos] + [x] + slots[pos..len]
    ensures r[len + 1..] == slots[len + 1..]
  {
    r := slots;
    var index := len;
    while index > pos
      invariant pos <= index <= len && |r| == |slots|
      invariant r[..index] == slots[..index]
      invariant forall j :: index < j <= len ==> r[j] == slots[j - 1]
      invariant r[len + 1..] == slots[len + 1..]
    {
      r := r[index := r[index - 1]];
      index := index - 1;
    }
    r := r[pos := x];
    assert r[..len + 1] == slots[..pos] + [x] + slots[pos..len] by {
      forall j | 0 <= j < len + 1
        ensures r[j] == (slots[..pos] + [x] + slots[pos..len])[j]
      {
        if j > pos {
          assert r[j] == slots[j - 1];
        }
      }
    }
  }

  /** The loop of `list_remove` (list.c:827-829) as written: it copies slot
      `index + 1` down for every index below `len`, so its last read is slot
      `len` itself, which must exist. */
  method RemoveShiftAsWritten<T>(slots: seq<T>, len: nat, pos: nat) returns (r: seq<T>)
    requires pos < len < |slots|
    ensures |r| == |slots|
    ensures r[..len - 1] == slots[..pos] + slots[pos + 1..len]
  {
    r := slots;
    var index := pos;
    while index < len
      invariant pos <= index <= len && |r| == |slots|
      invariant r[..pos] == slots[..pos]
      invariant forall j :: pos <= j < index ==> r[j] == slots[j + 1]
      invariant r[index..] == slots[index..]
    {
      r := r[index := r[index + 1]];
      index := index + 1;
    }
    assert r[..len - 1] == slots[..pos] + slots[pos + 1..len] by {
      forall j | 0 <= j < len - 1
        ensures r[j] == (slots[..pos] + slots[pos + 1..len])[j]
      {
        if j >= pos {
          assert r[j] == slots[j + 1];
        }
      }
    }
  }

  /** The same shift stopping one slot earlier, which never reads past the
      last item and so also works when every slot is in use. */
  method RemoveShift<T>(slots: seq<T>, len: nat, pos: nat) returns (r: seq<T>)
    requires pos < len <= |slots|
    ensures |r| == |slots|
    ensures r[..len - 1] == slots[..pos] + slots[pos + 1..len]
  {
    r := slots;
    var index := pos;
    while index + 1 < len
      invariant pos <= index <= len - 1 && |r| == |slots|
      invariant r[..pos] == slots[..pos]
      invariant forall j :: pos <= j < index ==> r[j] == slots[j + 1]
      invariant r[index..] == slots[index..]
    {
      r := r[index := r[index + 1]];
      index := index + 1;
    }
    assert r[..len - 1] == slots[..pos] + slots[pos + 1..len] by {
      forall j | 0 <= j < len - 1
        ensures r[j] == (slots[..pos] + slots[pos + 1..len])[j]
      {
        if j >= pos {
          assert r[j] == slots[j + 1];
        }
      }
    }
  }

  /** `list_resize` to the list's own length (or less) fills every slot,
      and the next `list_remove` then reads slot `capacity`, one past the
      array: 10 items resized to 8 leave 8 items in 8 slots. */
  lemma ResizeFillsEverySlot(l: List, size: nat)
    requires ListValid(l) && ListMinimumSize <= size <= |l.items|
    ensures var r := ListResize(l, size);
      |r.items| == r.capacity == size
  {
  }

  // ---------------------------------------------------------------------
  // Growth.

  /** Appending `n` copies of `a` to `l`. */
  function AppendTimes(l: List, a: ItemArg, n: nat): (r: List)
    requires ListValid(l) && ArgShape(a)
    ensures ListValid(r)
  {
    if n == 0 then l else ListAppend(AppendTimes(l, a, n - 1), a).state
  }

  /** From a fresh list, seven appends fit in the initial eight slots and
      the eighth grows the list to twelve. */
  lemma EighthAppendGrows(a: ItemArg)
    requires ArgShape(a) && Store(a).Some?
    ensures AppendTimes(ListInit(), a, 7).capacity == 8
    ensures |AppendTimes(ListInit(), a, 7).items| == 7
    ensures AppendTimes(ListInit(), a, 8).capacity == 12
  {
    var l := ListInit();
    assert |AppendTimes(l, a, 1).items| == 1;
    assert |AppendTimes(l, a, 2).items| == 2;
    assert |AppendTimes(l, a, 3).items| == 3;
    assert |AppendTimes(l, a, 4).items| == 4;
    assert |AppendTimes(l, a, 5).items| == 5;
    assert |AppendTimes(l, a, 6).items| == 6;
    assert |AppendTimes(l, a, 7).items| == 7;
  }
}
