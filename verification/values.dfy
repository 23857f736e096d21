/** The tagged values stored in lists and maps (list.h:12-43, map.h:13-54).

    `ltype` and `mtype` are the same enumeration under two prefixes, so one
    `Kind` serves both. A stored item is a kind, the `size` field and the
    payload; a payload is raw bytes, a nested list or map, or nothing (the
    NULL pointer). Lists are a sequence of items and the number of slots
    allocated. Maps are an arena of nodes addressed by node identities:
    buckets hold identities, and the doubly linked insertion-order list is
    the sequence `order` together with the `first`/`last` anchors, which are
    kept as separate fields because the library can leave `last` pointing
    at a freed node. */
module Values {
  import opened Common

  datatype Kind =
    | BoolKind | CharKind | DoubleKind | GenericKind | IntKind | UIntKind
    | ListKind | MapKind | NullKind | SizeKind | StringKind
    | ReservedError | ReservedEmpty

  /** The enumerator's value in C. */
  function Ordinal(k: Kind): (n: nat)
    ensures n < 13
    ensures k.ReservedError? <==> n == 11
    ensures k.ReservedEmpty? <==> n == 12
  {
    match k
    case BoolKind => 0
    case CharKind => 1
    case DoubleKind => 2
    case GenericKind => 3
    case IntKind => 4
    case UIntKind => 5
    case ListKind => 6
    case MapKind => 7
    case NullKind => 8
    case SizeKind => 9
    case StringKind => 10
    case ReservedError => 11
    case ReservedEmpty => 12
  }

  /** The kind with a given enumerator value. The enumeration is a
      bijection onto 0..12, so `ltype` and `mtype` values convert into each
      other kind for kind. */
  function FromOrdinal(n: nat): (k: Option<Kind>)
    ensures k.Some? <==> n < 13
    ensures k.Some? ==> Ordinal(k.value) == n
    ensures forall c :: Ordinal(c) == n ==> k == Some(c)
  {
    if n == 0 then Some(BoolKind)
    else if n == 1 then Some(CharKind)
    else if n == 2 then Some(DoubleKind)
    else if n == 3 then Some(GenericKind)
    else if n == 4 then Some(IntKind)
    else if n == 5 then Some(UIntKind)
    else if n == 6 then Some(ListKind)
    else if n == 7 then Some(MapKind)
    else if n == 8 then Some(NullKind)
    else if n == 9 then Some(SizeKind)
    else if n == 10 then Some(StringKind)
    else if n == 11 then Some(ReservedError)
    else if n == 12 then Some(ReservedEmpty)
    else None
  }

  /** The eleven kinds a value can have; the two reserved kinds are a
      failure result and the "any kind" wildcard of lookups. */
  predicate Storable(k: Kind): (b: bool)
    ensures b <==> Ordinal(k) < 11
  {
    !(k.ReservedError? || k.ReservedEmpty?)
  }

  /** Kinds whose payload is a copied byte buffer. */
  predicate ByteKind(k: Kind) {
    !(k.ListKind? || k.MapKind? || k.NullKind?)
  }

  datatype Data =
    | NoData
    | Bytes(bytes: seq<byte>)
    | ListData(list: List)
    | MapData(table: Map)

  /** A stored `list_item`/`map_item`. `destructor` identifies the caller's
      `generic_free` function; 0 is NULL. */
  datatype Item = Item(kind: Kind, size: nat, data: Data, destructor: nat)

  /** An item as a caller passes it in. A payload in `data` is adopted (the
      container takes the pointer); otherwise `dataCopy` is copied. */
  datatype ItemArg = ItemArg(kind: Kind, size: nat, data: Data, dataCopy: Data, destructor: nat)
  {
    predicate Adopts() {
      !data.NoData?
    }
  }

  /** A map key as a caller passes it: the `size` bytes at `data_copy`, and
      whether a `data` pointer was (wrongly) supplied as well. */
  datatype KeyArg = KeyArg(kind: Kind, bytes: seq<byte>, adopts: bool, destructor: nat)

  datatype List = List(items: seq<Item>, capacity: nat)
  {
    function Length(): nat {
      |items|
    }
  }

  type NodeId = nat

  datatype Node = Node(hash: u32, key: Item, value: Item)

  datatype Map = Map(
    seed: u32,
    buckets: seq<Option<NodeId>>,
    heap: map<NodeId, Node>,
    order: seq<NodeId>,
    length: nat,
    first: Option<NodeId>,
    last: Option<NodeId>,
    nextId: NodeId)
  {
    function Capacity(): nat {
      |buckets|
    }
  }

  const ListMinimumSize: nat := 8
  const MapMinimumSize: nat := 8

  /** `list_init` (list.c:240-283): no items, eight slots. */
  function ListInit(): (l: List)
    ensures l.Length() == 0 && l.capacity == ListMinimumSize
  {
    List([], ListMinimumSize)
  }

  function EmptyBuckets(n: nat): (b: seq<Option<NodeId>>)
    ensures |b| == n && forall i :: 0 <= i < n ==> b[i].None?
  {
    seq(n, i => None)
  }

  /** `map_init` (map.c:403-462) with the seed the library derives from a
      stack address supplied as a parameter. */
  function MapInit(seed: u32): (m: Map)
    ensures m.length == 0 && m.Capacity() == MapMinimumSize
    ensures m.order == [] && m.heap == map[] && m.first.None? && m.last.None?
    ensures forall i :: 0 <= i < m.Capacity() ==> m.buckets[i].None?
  {
    Map(seed, EmptyBuckets(MapMinimumSize), map[], [], 0, None, None, 0)
  }
}
