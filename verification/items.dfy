/** Creating stored items from caller items (`item_init` and
    `item_init_pointer`, identical in list.c:42-155 and map.c:71-184), and the
    two container copies they call for nested values, `list_copy` and
    `map_copy`. `list_copy` appends, so the list growth rule lives here too. */
module Items {
  import opened Common
  import opened Values
  import opened CStrings

  // ---------------------------------------------------------------------
  // List capacity.

  /** A list every library operation keeps: at least the minimum number of
      slots, and no more items than slots. */
  predicate ListValid(l: List) {
    l.capacity >= ListMinimumSize && |l.items| <= l.capacity
  }

  /** `calculate_new_size` (list.c:19-21): one and a half times the size
      (sizes 0 and 1 are first bumped by one), truncated to an integer. */
  function CalculateNewSize(s: nat): (r: nat)
    ensures var t := if s <= 1 then s + 1 else s;
      2 * r <= 3 * t < 2 * r + 2
  {
    var t := if s <= 1 then s + 1 else s;
    t + t / 2
  }

  /** `list_resize` (list.c:330-378): requests below the minimum become the
      minimum; items beyond the new size are dropped. */
  function ListResize(l: List, size: nat): (r: List)
    ensures r.capacity == if size < ListMinimumSize then ListMinimumSize else size
    ensures |l.items| <= r.capacity ==> r.items == l.items
    ensures |l.items| > r.capacity ==> r.items == l.items[..r.capacity]
    ensures ListValid(r)
  {
    var n := if size < ListMinimumSize then ListMinimumSize else size;
    List(if n < |l.items| then l.items[..n] else l.items, n)
  }

  /** `check_availability` (list.c:23-40): grow before adding an item when
      the new length would reach the capacity. Afterwards there is room for
      one more item with a slot to spare. */
  function CheckAvailability(l: List): (r: List)
    requires ListValid(l)
    ensures ListValid(r) && r.items == l.items
    ensures |r.items| + 1 < r.capacity
    ensures |l.items| + 1 < l.capacity ==> r == l
    ensures |l.items| + 1 >= l.capacity ==> r.capacity == CalculateNewSize(l.capacity)
  {
    if |l.items| + 1 >= l.capacity then ListResize(l, CalculateNewSize(l.capacity)) else l
  }

  /** Appending an item the list already owns (the path `list_copy` takes):
      grow if needed, then add it at the end. */
  function AppendStored(l: List, item: Item): (r: List)
    requires ListValid(l)
    ensures ListValid(r) && r.items == l.items + [item]
    ensures |r.items| < r.capacity
  {
    var l1 := CheckAvailability(l);
    List(l1.items + [item], l1.capacity)
  }

  // ---------------------------------------------------------------------
  // Well-formed payloads.

  /** A stored item has a NULL payload only if it is a NULL-kind item. */
  predicate StoredShape(i: Item) {
    i.data.NoData? ==> i.kind.NullKind?
  }

  predicate ItemsShaped(items: seq<Item>) {
    forall i :: 0 <= i < |items| ==> StoredShape(items[i])
  }

  /** Every stored key of a map carries a payload (keys are always copied
      from byte buffers). */
  predicate KeysCarryData(m: Map) {
    (m.first.Some? ==> m.first.value in m.heap)
    && forall id :: id in m.heap ==> !m.heap[id].key.data.NoData?
  }

  /** What the C code needs of a caller's item to copy it without reading
      outside a buffer: a byte payload of at least `size` bytes, a string, or
      a pointer to a list or map built by the library. */
  predicate ArgShape(a: ItemArg) {
    a.Adopts()
    || match a.kind
       case NullKind => true
       case ListKind => a.dataCopy.NoData? || (a.dataCopy.ListData? && ItemsShaped(a.dataCopy.list.items))
       case MapKind => a.dataCopy.NoData? || (a.dataCopy.MapData? && KeysCarryData(a.dataCopy.table))
       case StringKind => a.dataCopy.Bytes?
       case _ => a.dataCopy.Bytes? && |a.dataCopy.bytes| >= a.size
  }

  /** The characters `item_init` keeps of a string: `string_copy` stops at
      the first NUL and after `size` bytes, while the item's `size` keeps the
      requested value. */
  function StringPayload(b: seq<byte>, size: nat): seq<byte> {
    b[..Min(StrLen(b), size)]
  }

  // ---------------------------------------------------------------------
  // list_copy and map_copy.

  function AppendAll(acc: List, items: seq<Item>): (r: List)
    requires ListValid(acc)
    ensures ListValid(r) && r.items == acc.items + items
    decreases |items|
  {
    if items == [] then acc
    else
      var r := AppendAll(AppendStored(acc, items[0]), items[1..]);
      assert acc.items + [items[0]] + items[1..] == acc.items + items;
      r
  }

  /** `list_copy` (list.c:285-328): a fresh list with every item of `l`
      appended. Each stored item has a non-NULL payload or is a NULL item,
      so `list_append` takes the adopting path: the copy shares the
      payloads, and its items are equal to the original's. */
  function ListCopy(l: List): (r: List)
    requires ItemsShaped(l.items)
    ensures ListValid(r) && r.items == l.items
  {
    AppendAll(ListInit(), l.items)
  }

  /** `map_copy` (map.c:464-512): starts from a fresh map and calls `map_set`
      with each stored key, but a stored key always carries `data`, which
      `map_set` refuses (map.c:999-1008). So only an empty map can be copied.
      The copy's seed would come from a stack address; the model reuses the
      source map's seed. */
  function MapCopy(m: Map): (r: Option<Map>)
    requires KeysCarryData(m)
    ensures r.Some? <==> m.first.None?
    ensures r.Some? ==> r.value == MapInit(m.seed)
  {
    if m.first.None? then Some(MapInit(m.seed)) else None
  }

  // ---------------------------------------------------------------------
  // item_init / item_init_pointer.

  /** The item a container stores for a caller's item, or `None` when the
      copy fails (a NULL list or map to copy, or a map that cannot be
      copied). */
  function Store(a: ItemArg): (r: Option<Item>)
    requires ArgShape(a)
    ensures r.Some? ==>
      (r.value.kind == a.kind && r.value.size == a.size
       && r.value.destructor == a.destructor && StoredShape(r.value))
    ensures a.Adopts() ==> r == Some(Item(a.kind, a.size, a.data, a.destructor))
    ensures !a.Adopts() && a.kind.ListKind? ==>
      (r.Some? <==> a.dataCopy.ListData?)
      && (r.Some? ==> r.value.data.ListData? && r.value.data.list.items == a.dataCopy.list.items)
    ensures !a.Adopts() && a.kind.MapKind? ==>
      (r.Some? <==> a.dataCopy.MapData? && a.dataCopy.table.first.None?)
    ensures !a.Adopts() && a.kind.NullKind? ==> r == Some(Item(NullKind, a.size, NoData, a.destructor))
    ensures !a.Adopts() && a.kind.StringKind? ==>
      r.Some? && r.value.data.Bytes?
      && |r.value.data.bytes| == Min(StrLen(a.dataCopy.bytes), a.size)
      && r.value.data.bytes == CString(a.dataCopy.bytes)[..|r.value.data.bytes|]
    ensures !a.Adopts() && ByteKind(a.kind) && !a.kind.StringKind? ==>
      r == Some(Item(a.kind, a.size, Bytes(a.dataCopy.bytes[..a.size]), a.destructor))
  {
    if a.Adopts() then Some(Item(a.kind, a.size, a.data, a.destructor))
    else
      match a.kind
      case ListKind =>
        if a.dataCopy.ListData? then
          Some(Item(a.kind, a.size, ListData(ListCopy(a.dataCopy.list)), a.destructor))
        else None
      case MapKind =>
        if a.dataCopy.MapData? then
          match MapCopy(a.dataCopy.table)
          case Some(c) => Some(Item(a.kind, a.size, MapData(c), a.destructor))
          case None => None
        else None
      case NullKind => Some(Item(NullKind, a.size, NoData, a.destructor))
      case StringKind => Some(Item(a.kind, a.size, Bytes(StringPayload(a.dataCopy.bytes, a.size)), a.destructor))
      case _ => Some(Item(a.kind, a.size, Bytes(a.dataCopy.bytes[..a.size]), a.destructor))
  }

  /** The caller's item that hands a stored item back unchanged: the copy
      made by `list_copy`'s appends. */
  function AsArg(i: Item): ItemArg {
    ItemArg(i.kind, i.size, i.data, NoData, i.destructor)
  }

  lemma StoreStoredItem(i: Item)
    requires StoredShape(i)
    ensures ArgShape(AsArg(i)) && Store(AsArg(i)) == Some(i)
  {
  }

  /** A string stored from a buffer whose string is exactly `size` NUL-free
      bytes long reads back as those bytes. */
  lemma StoreExactString(s: seq<byte>, tail: seq<byte>, destructor: nat)
    requires NulFree(s)
    ensures var a := ItemArg(StringKind, |s|, NoData, Bytes(s + [Nul] + tail), destructor);
      ArgShape(a) && Store(a) == Some(Item(StringKind, |s|, Bytes(s), destructor))
  {
    StrLenOfTerminated(s, tail);
  }
}
