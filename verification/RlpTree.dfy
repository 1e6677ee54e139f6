/**
 Rebuilding nested RLP items from segmented Cairo memory. A list is a run of triples (length, pointer, is_list) up
 to the end of its segment; its pointer leads to bytes or, when the flag is set, to another list.
 */
module RlpTree {
  import opened Wrappers
  import opened Bytes

  /** A memory cell; `Hole` is an unset cell, which Python reads as None. */
  datatype Cell = Felt(n: nat) | Ptr(segment: nat, offset: nat) | Hole

  type Memory = seq<seq<Cell>>

  datatype Item = Leaf(bytes: seq<Byte>) | List(items: seq<Item>)

  /** `TooDeep` is Python's RecursionError; `Malformed` stands for all other exceptions. */
  datatype Error = Malformed | TooDeep

  predicate IsPointer(mem: Memory, p: Cell) {
    p.Ptr? && p.segment < |mem|
  }

  /** `serialize_list` without a length: the cells from the pointer to the end of its segment. */
  function CellsFrom(mem: Memory, p: Cell): seq<Cell>
    requires IsPointer(mem, p)
  {
    if p.offset <= |mem[p.segment]| then mem[p.segment][p.offset..] else []
  }

  predicate Falsy(c: Cell) {
    c == Felt(0) || c == Hole
  }

  predicate IsByte(c: Cell) {
    c.Felt? && c.n < 256
  }

  /** `cells[:n]`; slicing by None keeps everything. */
  function Prefix(cells: seq<Cell>, n: Cell): seq<Cell>
    requires !n.Ptr?
  {
    if n.Felt? && n.n < |cells| then cells[..n.n] else cells
  }

  /** `bytes(cells)` */
  function ToBytes(cells: seq<Cell>): (r: Result<seq<Byte>, Error>)
    ensures r.Err? ==> r.error == Malformed
  {
    if cells == [] then Ok([])
    else if !IsByte(cells[0]) then Err(Malformed)
    else
      match ToBytes(cells[1..])
      case Err(e) => Err(e)
      case Ok(bytes) => Ok([cells[0].n as Byte] + bytes)
  }

  /** What one triple stands for; `limit` bounds the depth of the calls. */
  function ReadItem(mem: Memory, dataLen: Cell, dataPtr: Cell, isList: Cell, limit: nat): Result<Item, Error>
    decreases limit, 0
  {
    if Falsy(isList) then
      if !IsPointer(mem, dataPtr) || dataLen.Ptr? then Err(Malformed)
      else
        match ToBytes(Prefix(CellsFrom(mem, dataPtr), dataLen))
        case Ok(bytes) => Ok(Leaf(bytes))
        case Err(e) => Err(e)
    else if limit == 0 then Err(TooDeep)
    else
      match ReadItems(mem, dataPtr, limit - 1)
      case Ok(items) => Ok(List(items))
      case Err(e) => Err(e)
  }

  /** The first `n` triples of a list. */
  function ReadTriples(mem: Memory, raw: seq<Cell>, n: nat, limit: nat): Result<seq<Item>, Error>
    requires 3 * n <= |raw|
    decreases limit, 1 + n
  {
    if n == 0 then Ok([])
    else
      match ReadTriples(mem, raw, n - 1, limit)
      case Err(e) => Err(e)
      case Ok(items) =>
        match ReadItem(mem, raw[3 * n - 3], raw[3 * n - 2], raw[3 * n - 1], limit)
        case Err(e) => Err(e)
        case Ok(item) => Ok(items + [item])
  }

  /** The list at `p`, when `limit` further nested calls are allowed; an incomplete triple is an IndexError. */
  function ReadItems(mem: Memory, p: Cell, limit: nat): Result<seq<Item>, Error>
    decreases limit, if IsPointer(mem, p) then 2 + |mem[p.segment]| else 0
  {
    if !IsPointer(mem, p) then Err(Malformed)
    else
      var raw := CellsFrom(mem, p);
      match ReadTriples(mem, raw, |raw| / 3, limit)
      case Err(e) => Err(e)
      case Ok(items) => if |raw| % 3 == 0 then Ok(items) else Err(Malformed)
  }

  /** `serialize_rlp_item` */
  method SerializeRlpItem(mem: Memory, p: Cell, limit: nat) returns (result: Result<seq<Item>, Error>)
    ensures result == ReadItems(mem, p, limit)
    decreases limit, 1
  {
    if !IsPointer(mem, p) {
      return Err(Malformed);
    }
    var raw := CellsFrom(mem, p);
    var items: seq<Item> := [];
    var i := 0;
    ghost var n := 0;
    while i < |raw|
      invariant i == 3 * n && 3 * n <= |raw|
      invariant ReadTriples(mem, raw, n, limit) == Ok(items)
    {
      if i + 2 >= |raw| {
        assert n == |raw| / 3;
        return Err(Malformed);
      }
      var item := SerializeTriple(mem, raw[i], raw[i + 1], raw[i + 2], limit);
      TripleOutcome(mem, raw, n, limit, Ok(items), item);
      n := n + 1;
      if item.Err? {
        ErrorStays(mem, raw, n, |raw| / 3, limit, item.error);
        return Err(item.error);
      }
      items := items + [item.value];
      i := i + 3;
    }
    assert n == |raw| / 3;
    return Ok(items);
  }

  /** The body of its loop. */
  method SerializeTriple(mem: Memory, dataLen: Cell, dataPtr: Cell, isList: Cell, limit: nat)
    returns (item: Result<Item, Error>)
    ensures item == ReadItem(mem, dataLen, dataPtr, isList, limit)
    decreases limit, 0
  {
    if Falsy(isList) {
      if !IsPointer(mem, dataPtr) || dataLen.Ptr? {
        return Err(Malformed);
      }
      var cells := CellsFrom(mem, dataPtr);
      if dataLen.Felt? && dataLen.n < |cells| {
        cells := cells[..dataLen.n];
      }
      var bytes := ConvertToBytes(cells);
      item := match bytes { case Ok(data) => Ok(Leaf(data)) case Err(e) => Err(e) };
    } else if limit == 0 {
      item := Err(TooDeep);
    } else {
      var nested := SerializeRlpItem(mem, dataPtr, limit - 1);
      item := match nested { case Ok(list) => Ok(List(list)) case Err(e) => Err(e) };
    }
  }

  /** `bytes` of a list of cells; the first cell that is no byte raises. */
  method ConvertToBytes(cells: seq<Cell>) returns (result: Result<seq<Byte>, Error>)
    ensures result == ToBytes(cells)
  {
    var bytes: seq<Byte> := [];
    var i := 0;
    assert cells[0..] == cells;
    assert ToBytes(cells).Ok? ==> bytes + ToBytes(cells).value == ToBytes(cells).value;
    while i < |cells|
      invariant 0 <= i <= |cells|
      invariant ToBytes(cells) == match ToBytes(cells[i..]) { case Ok(rest) => Ok(bytes + rest) case Err(e) => Err(e) }
    {
      if !IsByte(cells[i]) {
        return Err(Malformed);
      }
      assert cells[i..][1..] == cells[i + 1..];
      var byte := cells[i].n as Byte;
      ghost var rest := ToBytes(cells[i + 1..]);
      assert rest.Ok? ==> bytes + ([byte] + rest.value) == bytes + [byte] + rest.value;
      bytes := bytes + [byte];
      i := i + 1;
    }
    assert bytes + [] == bytes;
    return Ok(bytes);
  }

  /** One more triple: the first error stays, an item is appended. */
  lemma {:induction false} TripleOutcome(mem: Memory, raw: seq<Cell>, n: nat, limit: nat,
          before: Result<seq<Item>, Error>, item: Result<Item, Error>)
    requires 3 * n + 3 <= |raw| && ReadTriples(mem, raw, n, limit) == before
    requires ReadItem(mem, raw[3 * n], raw[3 * n + 1], raw[3 * n + 2], limit) == item
    ensures ReadTriples(mem, raw, n + 1, limit) ==
      if before.Err? then before else if item.Err? then Err(item.error) else Ok(before.value + [item.value])
  {
  }

  lemma {:induction false} ErrorStays(mem: Memory, raw: seq<Cell>, n: nat, m: nat, limit: nat, e: Error)
    requires n <= m && 3 * m <= |raw| && ReadTriples(mem, raw, n, limit) == Err(e)
    ensures ReadTriples(mem, raw, m, limit) == Err(e)
  {
    if n < m {
      ErrorStays(mem, raw, n, m - 1, limit, e);
    }
  }

  // The layout of a tree.

  /** How many cells a segment has from the pointer on. */
  function Rest(mem: Memory, p: Cell): nat
    requires p.Ptr? && p.segment < |mem|
  {
    if p.offset <= |mem[p.segment]| then |mem[p.segment]| - p.offset else 0
  }

  lemma {:induction false} CellsFromAt(mem: Memory, p: Cell)
    requires p.Ptr? && p.segment < |mem|
    ensures |CellsFrom(mem, p)| == Rest(mem, p)
    ensures forall i :: 0 <= i < Rest(mem, p) ==> CellsFrom(mem, p)[i] == mem[p.segment][p.offset + i]
  {
  }

  /** The cells at `p`, as many as declared or to the end of the segment, are these bytes. */
  ghost predicate BytesAt(mem: Memory, dataLen: Cell, p: Cell, bytes: seq<Byte>) {
    && p.Ptr? && p.segment < |mem| && !dataLen.Ptr?
    && |bytes| == (if dataLen.Felt? && dataLen.n < Rest(mem, p) then dataLen.n else Rest(mem, p))
    && forall i :: 0 <= i < |bytes| ==> mem[p.segment][p.offset + i] == Felt(bytes[i])
  }

  ghost predicate ItemAt(mem: Memory, dataLen: Cell, dataPtr: Cell, isList: Cell, item: Item)
    decreases item
  {
    match item
    case Leaf(bytes) => (isList == Felt(0) || isList == Hole) && BytesAt(mem, dataLen, dataPtr, bytes)
    case List(items) => isList != Felt(0) && isList != Hole && LaidOut(mem, dataPtr, items)
  }

  /** Memory holds `items` at `p`: one triple per item, up to the end of the segment. */
  ghost predicate LaidOut(mem: Memory, p: Cell, items: seq<Item>)
    decreases items
  {
    && p.Ptr? && p.segment < |mem| && Rest(mem, p) == 3 * |items|
    && var cells, o := mem[p.segment], p.offset;
       forall k :: 0 <= k < |items| ==>
         ItemAt(mem, cells[o + 3 * k], cells[o + 3 * k + 1], cells[o + 3 * k + 2], items[k])
  }

  lemma {:induction false} LaidOutInCells(mem: Memory, p: Cell, items: seq<Item>)
    ensures LaidOut(mem, p, items) <==>
      && IsPointer(mem, p) && |CellsFrom(mem, p)| == 3 * |items|
      && TriplesAt(mem, CellsFrom(mem, p), |items|, items)
  {
    if IsPointer(mem, p) {
      CellsFromAt(mem, p);
      if Rest(mem, p) == 3 * |items| {
        var raw, cells, o := CellsFrom(mem, p), mem[p.segment], p.offset;
        assert forall x :: 0 <= x < |raw| ==> raw[x] == cells[o + x];
      }
    }
  }

  /** How many nested calls an item needs. */
  function Nesting(item: Item): nat {
    match item
    case Leaf(_) => 0
    case List(items) => 1 + Depth(items)
  }

  function Depth(items: seq<Item>): nat {
    if items == [] then 0
    else
      var init, last := Depth(items[..|items| - 1]), Nesting(items[|items| - 1]);
      if init < last then last else init
  }

  lemma {:induction false} BytesAreRead(cells: seq<Cell>, bytes: seq<Byte>)
    ensures ToBytes(cells) == Ok(bytes)
        <==> |bytes| == |cells| && forall i :: 0 <= i < |bytes| ==> cells[i] == Felt(bytes[i])
  {
    if cells != [] && bytes != [] {
      BytesAreRead(cells[1..], bytes[1..]);
      assert bytes == [bytes[0]] + bytes[1..];
      assert forall i :: 0 <= i < |bytes| - 1 && i + 1 < |cells| ==>
        cells[1..][i] == cells[i + 1] && bytes[1..][i] == bytes[i + 1];
      if |bytes| == |cells| && cells[0] == Felt(bytes[0])
          && (forall i :: 0 <= i < |bytes[1..]| ==> cells[1..][i] == Felt(bytes[1..][i])) {
        forall i | 0 <= i < |bytes|
          ensures cells[i] == Felt(bytes[i])
        {
          assert i > 0 ==> cells[i] == cells[1..][i - 1] && bytes[i] == bytes[1..][i - 1];
        }
      }
    }
  }

  lemma {:induction false} LeafIsRead(mem: Memory, dataLen: Cell, dataPtr: Cell, isList: Cell, limit: nat,
          bytes: seq<Byte>)
    requires Falsy(isList)
    ensures ReadItem(mem, dataLen, dataPtr, isList, limit) == Ok(Leaf(bytes)) <==> BytesAt(mem, dataLen, dataPtr, bytes)
  {
    if IsPointer(mem, dataPtr) && !dataLen.Ptr? {
      BytesAreRead(Prefix(CellsFrom(mem, dataPtr), dataLen), bytes);
    }
  }

  lemma {:induction false} ItemIsRead(mem: Memory, dataLen: Cell, dataPtr: Cell, isList: Cell, limit: nat, item: Item)
    ensures ReadItem(mem, dataLen, dataPtr, isList, limit) == Ok(item)
       <==> ItemAt(mem, dataLen, dataPtr, isList, item) && Nesting(item) <= limit
    decreases limit, 0
  {
    match item {
      case Leaf(bytes) =>
        if Falsy(isList) {
          LeafIsRead(mem, dataLen, dataPtr, isList, limit, bytes);
        }
      case List(items) =>
        if !Falsy(isList) && limit > 0 {
          RebuildIsExact(mem, dataPtr, limit - 1, items);
        }
    }
  }

  ghost predicate TriplesAt(mem: Memory, raw: seq<Cell>, n: nat, items: seq<Item>)
    requires 3 * n <= |raw|
  {
    |items| == n && forall k :: 0 <= k < n ==> ItemAt(mem, raw[3 * k], raw[3 * k + 1], raw[3 * k + 2], items[k])
  }

  lemma {:induction false} TriplesAreRead(mem: Memory, raw: seq<Cell>, n: nat, limit: nat, items: seq<Item>)
    requires 3 * n <= |raw|
    ensures ReadTriples(mem, raw, n, limit) == Ok(items) <==> TriplesAt(mem, raw, n, items) && Depth(items) <= limit
    decreases limit, 1 + n
  {
    if n == 0 {
    } else if |items| == n {
      var init, last := items[..n - 1], items[n - 1];
      assert items == init + [last];
      TriplesAreRead(mem, raw, n - 1, limit, init);
      ItemIsRead(mem, raw[3 * n - 3], raw[3 * n - 2], raw[3 * n - 1], limit, last);
      TriplesSnoc(mem, raw, n, items);
      if ReadTriples(mem, raw, n, limit) == Ok(items) {
        var read := ReadTriples(mem, raw, n - 1, limit).value;
        assert (read + [last])[..n - 1] == read;
      }
    } else if ReadTriples(mem, raw, n, limit) == Ok(items) {
      var read := ReadTriples(mem, raw, n - 1, limit).value;
      TriplesAreRead(mem, raw, n - 1, limit, read);
    }
  }

  lemma {:induction false} TriplesSnoc(mem: Memory, raw: seq<Cell>, n: nat, items: seq<Item>)
    requires 0 < n && 3 * n <= |raw| && |items| == n
    ensures TriplesAt(mem, raw, n, items) <==>
      TriplesAt(mem, raw, n - 1, items[..n - 1])
          && ItemAt(mem, raw[3 * n - 3], raw[3 * n - 2], raw[3 * n - 1], items[n - 1])
  {
    assert forall k :: 0 <= k < n - 1 ==> items[..n - 1][k] == items[k];
  }

  /**
   The rebuilt tree is exactly the tree that memory holds: the reader succeeds with `items` if and only if memory
   lays out `items` at the pointer and their depth is within the limit.
   */
  lemma {:induction false} RebuildIsExact(mem: Memory, p: Cell, limit: nat, items: seq<Item>)
    ensures ReadItems(mem, p, limit) == Ok(items) <==> LaidOut(mem, p, items) && Depth(items) <= limit
    decreases limit, if IsPointer(mem, p) then 2 + |mem[p.segment]| else 0
  {
    if IsPointer(mem, p) {
      var raw := CellsFrom(mem, p);
      TriplesAreRead(mem, raw, |raw| / 3, limit, items);
    }
    LaidOutInCells(mem, p, items);
  }

  // Every tree has a layout.

  /** Other cells of the segments: in front of everything, and behind the bytes of a leaf. */
  datatype Around = Around(front: seq<Cell>, back: seq<Cell>)

  function Felts(bytes: seq<Byte>): (cells: seq<Cell>)
    ensures |cells| == |bytes|
    ensures forall i :: 0 <= i < |bytes| ==> cells[i] == Felt(bytes[i])
  {
    seq(|bytes|, i requires 0 <= i < |bytes| => Felt(bytes[i]))
  }

  /** Writes an item behind `mem` and returns the triple that stands for it. */
  function PlaceItem(mem: Memory, item: Item, around: Around): (Memory, seq<Cell>)
    decreases item
  {
    match item
    case Leaf(bytes) =>
      var segment := around.front + Felts(bytes) + around.back;
      (mem + [segment], [Felt(|bytes|), Ptr(|mem|, |around.front|), Felt(0)])
    case List(items) =>
      var (next, p) := Place(mem, items, around);
      (next, [Felt(|items|), p, Felt(1)])
  }

  function PlaceTriples(mem: Memory, items: seq<Item>, around: Around): (Memory, seq<Cell>)
    decreases items, 0
  {
    if items == [] then (mem, [])
    else
      var (before, raw) := PlaceTriples(mem, items[..|items| - 1], around);
      var (next, triple) := PlaceItem(before, items[|items| - 1], around);
      (next, raw + triple)
  }

  /** One segment per list, written after the segments of its items. */
  function Place(mem: Memory, items: seq<Item>, around: Around): (Memory, Cell)
    decreases items, 1
  {
    var (next, raw) := PlaceTriples(mem, items, around);
    (next + [around.front + raw], Ptr(|next|, |around.front|))
  }

  ghost predicate Extends(mem: Memory, next: Memory) {
    |mem| <= |next| && next[..|mem|] == mem
  }

  lemma {:induction false} ExtendsTransitive(a: Memory, b: Memory, c: Memory)
    requires Extends(a, b) && Extends(b, c)
    ensures Extends(a, c)
  {
    assert c[..|a|] == c[..|b|][..|a|];
  }

  lemma {:induction false} CellsStay(mem: Memory, next: Memory, p: Cell)
    requires Extends(mem, next) && IsPointer(mem, p)
    ensures IsPointer(next, p) && next[p.segment] == mem[p.segment]
  {
    assert next[p.segment] == next[..|mem|][p.segment];
  }

  lemma {:induction false} ItemStays(mem: Memory, next: Memory, dataLen: Cell, dataPtr: Cell, isList: Cell, item: Item)
    requires Extends(mem, next) && ItemAt(mem, dataLen, dataPtr, isList, item)
    ensures ItemAt(next, dataLen, dataPtr, isList, item)
    decreases item
  {
    match item {
      case Leaf(bytes) => CellsStay(mem, next, dataPtr);
      case List(items) => LayoutStays(mem, next, dataPtr, items);
    }
  }

  lemma {:induction false} LayoutStays(mem: Memory, next: Memory, p: Cell, items: seq<Item>)
    requires Extends(mem, next) && LaidOut(mem, p, items)
    ensures LaidOut(next, p, items)
    decreases items
  {
    CellsStay(mem, next, p);
    var cells, o := mem[p.segment], p.offset;
    forall k | 0 <= k < |items|
      ensures ItemAt(next, cells[o + 3 * k], cells[o + 3 * k + 1], cells[o + 3 * k + 2], items[k])
    {
      ItemStays(mem, next, cells[o + 3 * k], cells[o + 3 * k + 1], cells[o + 3 * k + 2], items[k]);
    }
  }

  lemma {:induction false} TriplesStay(mem: Memory, next: Memory, raw: seq<Cell>, n: nat, items: seq<Item>)
    requires 3 * n <= |raw| && Extends(mem, next) && TriplesAt(mem, raw, n, items)
    ensures TriplesAt(next, raw, n, items)
  {
    forall k | 0 <= k < n
      ensures ItemAt(next, raw[3 * k], raw[3 * k + 1], raw[3 * k + 2], items[k])
    {
      ItemStays(mem, next, raw[3 * k], raw[3 * k + 1], raw[3 * k + 2], items[k]);
    }
  }

  lemma {:induction false} PlacedItem(mem: Memory, item: Item, around: Around)
    ensures var (next, triple) := PlaceItem(mem, item, around);
      Extends(mem, next) && |triple| == 3 && ItemAt(next, triple[0], triple[1], triple[2], item)
    decreases item
  {
    match item {
      case Leaf(bytes) =>
        var next := PlaceItem(mem, item, around).0;
        var segment := next[|mem|];
        assert forall i :: 0 <= i < |bytes| ==> segment[|around.front| + i] == Felts(bytes)[i];
      case List(items) => PlacedList(mem, items, around);
    }
  }

  lemma {:induction false} PlacedTriples(mem: Memory, items: seq<Item>, around: Around)
    ensures var (next, raw) := PlaceTriples(mem, items, around);
      Extends(mem, next) && |raw| == 3 * |items| && TriplesAt(next, raw, |items|, items)
    decreases items, 0
  {
    if items != [] {
      var n, init, last := |items|, items[..|items| - 1], items[|items| - 1];
      var (before, raw) := PlaceTriples(mem, init, around);
      var (next, triple) := PlaceItem(before, last, around);
      PlacedTriples(mem, init, around);
      PlacedItem(before, last, around);
      ExtendsTransitive(mem, before, next);
      TriplesStay(before, next, raw, n - 1, init);
      assert TriplesAt(next, raw + triple, n - 1, init);
      TriplesSnoc(next, raw + triple, n, items);
    }
  }

  lemma {:induction false} PlacedList(mem: Memory, items: seq<Item>, around: Around)
    ensures var (next, p) := Place(mem, items, around); Extends(mem, next) && LaidOut(next, p, items)
    decreases items, 1
  {
    var (before, raw) := PlaceTriples(mem, items, around);
    var (next, p) := Place(mem, items, around);
    PlacedTriples(mem, items, around);
    ExtendsTransitive(mem, before, next);
    TriplesStay(before, next, raw, |items|, items);
    CellsFromAt(next, p);
    assert CellsFrom(next, p) == raw;
    LaidOutInCells(next, p, items);
  }

  /** Every nested tree survives the trip through memory, at any offsets and among any other cells. */
  lemma {:induction false} PlacedTreeIsRebuilt(mem: Memory, items: seq<Item>, around: Around)
    ensures var (next, p) := Place(mem, items, around); ReadItems(next, p, Depth(items)) == Ok(items)
  {
    var (next, p) := Place(mem, items, around);
    PlacedList(mem, items, around);
    RebuildIsExact(next, p, Depth(items), items);
  }

  // Termination.

  /** The cell points somewhere and the cell behind it flags a list. */
  predicate IsListPointer(mem: Memory, s: nat, o: nat) {
    s < |mem| && o + 1 < |mem[s]| && IsPointer(mem, mem[s][o]) && !Falsy(mem[s][o + 1])
  }

  /** List pointers lead to segments of smaller rank: the graph of segments has no cycle. */
  ghost predicate Ranked(mem: Memory, rank: seq<nat>) {
    && |rank| == |mem|
    && (forall s: nat, o: nat {:trigger IsListPointer(mem, s, o)} ::
          IsListPointer(mem, s, o) ==> rank[mem[s][o].segment] < rank[s])
  }

  /** On acyclic memory a limit above the rank of the first segment is never exhausted. */
  lemma {:induction false} AcyclicMemoryIsReadInFull(mem: Memory, rank: seq<nat>, p: Cell, limit: nat)
    requires Ranked(mem, rank) && (IsPointer(mem, p) ==> rank[p.segment] < limit)
    ensures ReadItems(mem, p, limit) != Err(TooDeep)
    decreases limit, 1
  {
    if IsPointer(mem, p) {
      var raw := CellsFrom(mem, p);
      if ReadTriples(mem, raw, |raw| / 3, limit) == Err(TooDeep) {
        var i := FailingTriple(mem, raw, |raw| / 3, limit, TooDeep);
        AcyclicItem(mem, rank, p, 3 * i, limit);
      }
    }
  }

  /** What triple `i` of a list stands for. */
  function TripleOf(mem: Memory, raw: seq<Cell>, i: nat, limit: nat): Result<Item, Error>
    requires 3 * i + 2 < |raw|
  {
    ReadItem(mem, raw[3 * i], raw[3 * i + 1], raw[3 * i + 2], limit)
  }

  /** The error of a list is that of one of its triples. */
  lemma {:induction false} FailingTriple(mem: Memory, raw: seq<Cell>, n: nat, limit: nat, e: Error) returns (i: nat)
    requires 3 * n <= |raw| && ReadTriples(mem, raw, n, limit) == Err(e)
    ensures i < n && TripleOf(mem, raw, i, limit) == Err(e)
  {
    if ReadTriples(mem, raw, n - 1, limit) == Err(e) {
      i := FailingTriple(mem, raw, n - 1, limit, e);
    } else {
      i := n - 1;
    }
  }

  lemma {:induction false} ListPointerDescends(mem: Memory, rank: seq<nat>, p: Cell, i: nat)
    requires Ranked(mem, rank) && IsPointer(mem, p) && i + 1 < |CellsFrom(mem, p)|
    ensures IsPointer(mem, CellsFrom(mem, p)[i]) && !Falsy(CellsFrom(mem, p)[i + 1])
      ==> rank[CellsFrom(mem, p)[i].segment] < rank[p.segment]
  {
    var o := p.offset + i;
    assert mem[p.segment][o] == CellsFrom(mem, p)[i] && mem[p.segment][o + 1] == CellsFrom(mem, p)[i + 1];
    assert IsPointer(mem, CellsFrom(mem, p)[i]) && !Falsy(CellsFrom(mem, p)[i + 1])
        ==> IsListPointer(mem, p.segment, o);
  }

  lemma {:induction false} AcyclicItem(mem: Memory, rank: seq<nat>, p: Cell, i: nat, limit: nat)
    requires Ranked(mem, rank) && IsPointer(mem, p) && rank[p.segment] < limit && i + 2 < |CellsFrom(mem, p)|
    ensures var raw := CellsFrom(mem, p); ReadItem(mem, raw[i], raw[i + 1], raw[i + 2], limit) != Err(TooDeep)
    decreases limit, 0
  {
    var raw := CellsFrom(mem, p);
    if !Falsy(raw[i + 2]) {
      ListPointerDescends(mem, rank, p, i + 1);
      AcyclicMemoryIsReadInFull(mem, rank, raw[i + 1], limit - 1);
    }
  }

  // Memory that exhausts every limit.

  /** The first `n` triples stand for items. */
  ghost predicate HoldsItems(mem: Memory, raw: seq<Cell>, n: nat)
    requires 3 * n <= |raw|
  {
    exists items :: TriplesAt(mem, raw, n, items)
  }

  /** Triple `i` points to a list of `cycle`, and the triples before it stand for items. */
  ghost predicate LeadsInto(mem: Memory, p: Cell, i: nat, cycle: set<Cell>)
    requires IsPointer(mem, p)
  {
    var raw := CellsFrom(mem, p);
    && 3 * i + 2 < |raw| && !Falsy(raw[3 * i + 2]) && raw[3 * i + 1] in cycle
    && HoldsItems(mem, raw, i)
  }

  ghost predicate Leads(mem: Memory, p: Cell, cycle: set<Cell>) {
    IsPointer(mem, p) && exists i: nat :: LeadsInto(mem, p, i, cycle)
  }

  /** Every list of `cycle` leads into `cycle` again. */
  ghost predicate Cyclic(mem: Memory, cycle: set<Cell>) {
    forall p {:trigger Leads(mem, p, cycle)} :: p in cycle ==> Leads(mem, p, cycle)
  }

  ghost predicate OnCycle(mem: Memory, p: Cell) {
    exists cycle :: p in cycle && Cyclic(mem, cycle)
  }

  ghost predicate Endless(mem: Memory, p: Cell) {
    forall limit: nat :: ReadItems(mem, p, limit) == Err(TooDeep)
  }

  /** A list exhausts every limit exactly when it lies on, or leads to, a cycle of lists. */
  lemma {:induction false} CyclicMemoryIsTooDeep(mem: Memory, p: Cell)
    ensures Endless(mem, p) <==> OnCycle(mem, p)
  {
    if Endless(mem, p) {
      EndlessIsCyclic(mem, p);
    } else if OnCycle(mem, p) {
      CyclicIsEndless(mem, p);
    }
  }

  lemma {:induction false} CyclicIsEndless(mem: Memory, p: Cell)
    requires OnCycle(mem, p)
    ensures Endless(mem, p)
  {
    var cycle :| p in cycle && Cyclic(mem, cycle);
    forall limit: nat
      ensures ReadItems(mem, p, limit) == Err(TooDeep)
    {
      CyclicIsTooDeep(mem, cycle, p, limit);
    }
  }

  lemma {:induction false} CyclicIsTooDeep(mem: Memory, cycle: set<Cell>, p: Cell, limit: nat)
    requires Cyclic(mem, cycle) && p in cycle
    ensures ReadItems(mem, p, limit) == Err(TooDeep)
    decreases limit
  {
    assert Leads(mem, p, cycle);
    var raw := CellsFrom(mem, p);
    var i: nat :| LeadsInto(mem, p, i, cycle);
    if limit > 0 {
      CyclicIsTooDeep(mem, cycle, raw[3 * i + 1], limit - 1);
    }
    TooDeepComesFirst(mem, raw, i, limit);
    ErrorStays(mem, raw, i + 1, |raw| / 3, limit, TooDeep);
  }

  /** A triple that is too deep ends the list when the triples before it stand for items. */
  lemma {:induction false} TooDeepComesFirst(mem: Memory, raw: seq<Cell>, i: nat, limit: nat)
    requires 3 * i + 2 < |raw| && HoldsItems(mem, raw, i)
    requires ReadItem(mem, raw[3 * i], raw[3 * i + 1], raw[3 * i + 2], limit) == Err(TooDeep)
    ensures ReadTriples(mem, raw, i + 1, limit) == Err(TooDeep)
  {
    var items :| TriplesAt(mem, raw, i, items);
    var before, high := ReadTriples(mem, raw, i, limit), limit + Depth(items);
    TriplesAreRead(mem, raw, i, high, items);
    if before.Err? && before.error == Malformed {
      TriplesSettle(mem, raw, i, limit, high);
    }
    assert before.Err? ==> before.error == TooDeep;
    TripleOutcome(mem, raw, i, limit, before, Err(TooDeep));
  }

  /** The lists that memory points to, and `p`, as far as they are endless. */
  ghost function EndlessLists(mem: Memory, p: Cell): set<Cell> {
    (set s, o | 0 <= s < |mem| && 0 <= o < |mem[s]| && Endless(mem, mem[s][o]) :: mem[s][o]) +
    if Endless(mem, p) then {p} else {}
  }

  lemma {:induction false} EndlessIsCyclic(mem: Memory, p: Cell)
    requires Endless(mem, p)
    ensures OnCycle(mem, p)
  {
    var cycle := EndlessLists(mem, p);
    forall q | q in cycle
      ensures Leads(mem, q, cycle)
    {
      EndlessTriples(mem, q);
      var raw := CellsFrom(mem, q);
      var i := EndlessTriple(mem, q, |raw| / 3);
      var o := q.offset + 3 * i + 1;
      assert mem[q.segment][o] == raw[3 * i + 1];
      assert LeadsInto(mem, q, i, cycle);
    }
  }

  ghost predicate EndlessTo(mem: Memory, raw: seq<Cell>, n: nat)
    requires 3 * n <= |raw|
  {
    forall limit: nat :: ReadTriples(mem, raw, n, limit) == Err(TooDeep)
  }

  lemma {:induction false} EndlessTriples(mem: Memory, p: Cell)
    requires Endless(mem, p)
    ensures IsPointer(mem, p) && EndlessTo(mem, CellsFrom(mem, p), |CellsFrom(mem, p)| / 3)
  {
    assert ReadItems(mem, p, 0) == Err(TooDeep);
    var raw := CellsFrom(mem, p);
    forall limit: nat
      ensures ReadTriples(mem, raw, |raw| / 3, limit) == Err(TooDeep)
    {
      assert ReadItems(mem, p, limit) == Err(TooDeep);
    }
  }

  /** Some triple of an endless list is an endless list, behind triples that stand for items. */
  lemma {:induction false} EndlessTriple(mem: Memory, p: Cell, n: nat) returns (i: nat)
    requires IsPointer(mem, p) && 3 * n <= |CellsFrom(mem, p)| && EndlessTo(mem, CellsFrom(mem, p), n)
    ensures i < n && !Falsy(CellsFrom(mem, p)[3 * i + 2]) && Endless(mem, CellsFrom(mem, p)[3 * i + 1])
    ensures HoldsItems(mem, CellsFrom(mem, p), i)
  {
    var raw := CellsFrom(mem, p);
    assert ReadTriples(mem, raw, n, 0) == Err(TooDeep);
    i := n - 1;
    if !EndlessTo(mem, raw, i) {
      var least: nat :| ReadTriples(mem, raw, i, least) != Err(TooDeep);
      assert ReadTriples(mem, raw, n, least) == Err(TooDeep);
      LastTripleIsEndless(mem, p, i, least);
      TriplesAreRead(mem, raw, i, least, ReadTriples(mem, raw, i, least).value);
    } else {
      i := EndlessTriple(mem, p, i);
    }
  }

  lemma {:induction false} LastTripleIsEndless(mem: Memory, p: Cell, i: nat, least: nat)
    requires IsPointer(mem, p) && 3 * i + 2 < |CellsFrom(mem, p)|
    requires EndlessTo(mem, CellsFrom(mem, p), i + 1)
    requires ReadTriples(mem, CellsFrom(mem, p), i, least) != Err(TooDeep)
    ensures !Falsy(CellsFrom(mem, p)[3 * i + 2]) && Endless(mem, CellsFrom(mem, p)[3 * i + 1])
    ensures ReadTriples(mem, CellsFrom(mem, p), i, least).Ok?
  {
    var raw := CellsFrom(mem, p);
    assert ReadTriples(mem, raw, i + 1, least) == Err(TooDeep);
    assert TripleOf(mem, raw, i, least) == Err(TooDeep);
    var list := raw[3 * i + 1];
    forall limit: nat
      ensures ReadItems(mem, list, limit) == Err(TooDeep)
    {
      var high := least + limit + 1;
      TriplesSettle(mem, raw, i, least, high);
      assert ReadTriples(mem, raw, i + 1, high) == Err(TooDeep);
      assert TripleOf(mem, raw, i, high) == Err(TooDeep);
      if ReadItems(mem, list, limit) != Err(TooDeep) {
        ItemsSettle(mem, list, limit, high - 1);
      }
    }
  }

  // A result other than TooDeep stays the same for all larger limits.

  lemma {:induction false} ItemSettles(mem: Memory, dataLen: Cell, dataPtr: Cell, isList: Cell, limit: nat, high: nat)
    requires limit <= high && ReadItem(mem, dataLen, dataPtr, isList, limit) != Err(TooDeep)
    ensures ReadItem(mem, dataLen, dataPtr, isList, high) == ReadItem(mem, dataLen, dataPtr, isList, limit)
    decreases limit, 0
  {
    if !Falsy(isList) {
      ItemsSettle(mem, dataPtr, limit - 1, high - 1);
    }
  }

  lemma {:induction false} TriplesSettle(mem: Memory, raw: seq<Cell>, n: nat, limit: nat, high: nat)
    requires 3 * n <= |raw| && limit <= high && ReadTriples(mem, raw, n, limit) != Err(TooDeep)
    ensures ReadTriples(mem, raw, n, high) == ReadTriples(mem, raw, n, limit)
    decreases limit, 1 + n
  {
    if n > 0 {
      TriplesSettle(mem, raw, n - 1, limit, high);
      if ReadTriples(mem, raw, n - 1, limit).Ok? {
        ItemSettles(mem, raw[3 * n - 3], raw[3 * n - 2], raw[3 * n - 1], limit, high);
      }
    }
  }

  lemma {:induction false} ItemsSettle(mem: Memory, p: Cell, limit: nat, high: nat)
    requires limit <= high && ReadItems(mem, p, limit) != Err(TooDeep)
    ensures ReadItems(mem, p, high) == ReadItems(mem, p, limit)
    decreases limit, if IsPointer(mem, p) then 2 + |mem[p.segment]| else 0
  {
    if IsPointer(mem, p) {
      var raw := CellsFrom(mem, p);
      TriplesSettle(mem, raw, |raw| / 3, limit, high);
    }
  }

  /** For example, a list that contains itself. */
  lemma {:induction false} ListInItselfIsTooDeep()
    ensures Endless([[Felt(1), Ptr(0, 0), Felt(1)]], Ptr(0, 0))
  {
    var mem, p := [[Felt(1), Ptr(0, 0), Felt(1)]], Ptr(0, 0);
    assert CellsFrom(mem, p) == mem[0];
    assert TriplesAt(mem, mem[0], 0, []);
    assert LeadsInto(mem, p, 0, {p});
    assert Cyclic(mem, {p});
    CyclicMemoryIsTooDeep(mem, p);
  }
}
