/** Carving a span into objects, as Populate does (central_freelist.cc). */
module Carving {
  import opened Collections
  import opened Arithmetic

  const WORD: nat := 0x1_0000_0000_0000_0000

  /** The objects of `size` bytes from `p` on that end at `limit` at the latest. */
  function Pieces(p: nat, limit: nat, size: nat): seq<nat>
    decreases limit - p
  {
    if size == 0 || p + size > limit then [] else [p] + Pieces(p + size, limit, size)
  }

  /** (length << kPageShift) / ByteSizeForClass; a class without objects has none in a span. */
  function Count(bytes: nat, size: nat): nat { if size == 0 then 0 else bytes / size }

  lemma CountStep(x: nat, size: nat)
    requires 0 < size
    ensures (x + size) / size == x / size + 1
  {
    QuotientUnique(x + size, size, x / size + 1, x % size);
  }

  lemma {:induction false} PiecesCount(p: nat, limit: nat, size: nat)
    requires 0 < size && p <= limit
    ensures |Pieces(p, limit, size)| == Count(limit - p, size)
    decreases limit - p
  {
    if p + size <= limit {
      PiecesCount(p + size, limit, size);
      CountStep(limit - p - size, size);
    } else {
      QuotientUnique(limit - p, size, 0, limit - p);
    }
  }

  lemma {:induction false} PieceInside(p: nat, limit: nat, size: nat, o: nat)
    requires o in Pieces(p, limit, size)
    ensures 0 < size && p <= o && o + size <= limit
    decreases limit - p
  {
    if o != p { PieceInside(p + size, limit, size, o); }
  }

  /** No two objects share a byte. */
  lemma {:induction false} PiecesApart(p: nat, limit: nat, size: nat, i: nat, j: nat)
    requires i < j < |Pieces(p, limit, size)|
    ensures Pieces(p, limit, size)[i] + size <= Pieces(p, limit, size)[j]
    decreases limit - p
  {
    var rest := Pieces(p + size, limit, size);
    assert Pieces(p, limit, size)[j] == rest[j - 1];
    if i == 0 {
      assert rest[j - 1] in rest;
      PieceInside(p + size, limit, size, rest[j - 1]);
    } else {
      PiecesApart(p + size, limit, size, i - 1, j - 1);
    }
  }

  lemma PiecesDistinct(p: nat, limit: nat, size: nat)
    ensures Distinct(Pieces(p, limit, size))
  {
    var q := Pieces(p, limit, size);
    forall i, j | 0 <= i < j < |q| ensures q[i] != q[j] {
      PiecesApart(p, limit, size, i, j);
      PieceInside(p, limit, size, q[i]);
    }
  }

  /** What is left at the end is too short for an object. */
  lemma {:induction false} PiecesFill(p: nat, limit: nat, size: nat)
    requires 0 < size && p <= limit
    ensures var q := Pieces(p, limit, size); limit < size + if q == [] then p else q[|q| - 1] + size
    decreases limit - p
  {
    if p + size <= limit { PiecesFill(p + size, limit, size); }
  }

  /** The loop of Populate: `num` objects on the free list, in address order. The sum of the address and the
      size may pass the top of the address space before it passes the limit. */
  method Carve(start: nat, bytes: nat, size: nat) returns (objs: seq<nat>, num: nat)
    requires 0 < size < WORD && start + bytes < WORD
    ensures objs == Pieces(start, start + bytes, size) && num == |objs| == bytes / size
  {
    PiecesCount(start, start + bytes, size);
    var ptr, limit := start, start + bytes;
    objs, num := [], 0;
    while true
      invariant start <= ptr <= limit && num == |objs|
      invariant objs + Pieces(ptr, limit, size) == Pieces(start, limit, size)
      decreases limit - ptr
    {
      var next := (ptr + size) % WORD;
      if next < ptr || next > limit { break; }
      objs := objs + [ptr];
      num := num + 1;
      ptr := next;
    }
  }
}
