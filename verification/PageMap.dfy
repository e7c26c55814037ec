/** The page maps (pagemap.h): a flat array, and radix trees of two and three levels that behave like it. */
module PageMaps {

  import opened Wrappers
  import opened Arithmetic

  const WORD_MAX: nat := 0xffff_ffff_ffff_ffff

  // ------------------------------------------------------------------ shifts and masks

  /** k >> bits, and k & (length - 1), for length == 1 << bits. */
  function Row(k: nat, length: nat): nat
    requires length > 0
  {
    if k < length then 0 else 1 + Row(k - length, length)
  }

  function Col(k: nat, length: nat): (c: nat)
    requires length > 0
    ensures c < length
  {
    if k < length then k else Col(k - length, length)
  }

  lemma {:induction false} RowCol(k: nat, length: nat)
    requires length > 0
    ensures k == Times(Row(k, length), length) + Col(k, length)
  {
    if k >= length { RowCol(k - length, length); }
  }

  lemma RowIsQuotient(k: nat, length: nat)
    requires length > 0
    ensures Row(k, length) == k / length && Col(k, length) == k % length
  {
    RowCol(k, length);
    TimesIsProduct(Row(k, length), length);
    QuotientUnique(k, length, Row(k, length), Col(k, length));
  }

  function Shift(k: nat, length: nat): (i: nat)
    requires length > 0
    ensures i == Row(k, length)
  {
    RowIsQuotient(k, length);
    k / length
  }

  function Mask(k: nat, length: nat): (i: nat)
    requires length > 0
    ensures i == Col(k, length)
  {
    RowIsQuotient(k, length);
    k % length
  }

  function ShiftLeft(i: nat, length: nat): (k: nat)
    ensures k == Times(i, length)
  {
    TimesIsProduct(i, length);
    i * length
  }

  lemma SameCell(j: nat, k: nat, length: nat)
    requires length > 0 && Row(j, length) == Row(k, length) && Col(j, length) == Col(k, length)
    ensures j == k
  {
    RowCol(j, length);
    RowCol(k, length);
  }

  lemma {:induction false} RowMono(j: nat, k: nat, length: nat)
    requires length > 0 && j <= k
    ensures Row(j, length) <= Row(k, length)
    ensures Row(j, length) == Row(k, length) ==> Col(k, length) - Col(j, length) == k - j
  {
    if j >= length { RowMono(j - length, k - length, length); }
    else if k >= length { RowCol(k - length, length); }
  }

  lemma {:induction false} RowStart(i: nat, length: nat)
    requires length > 0
    ensures Row(Times(i, length), length) == i && Col(Times(i, length), length) == 0
  {
    if i > 0 { RowStart(i - 1, length); }
  }

  /** The first number of the next row comes after every number of this one. */
  lemma NextRow(k: nat, j: nat, length: nat)
    requires length > 0
    ensures var next := Times(Row(k, length) + 1, length);
            && k < next && (k <= j < next ==> Row(j, length) == Row(k, length))
  {
    var next := Times(Row(k, length) + 1, length);
    RowCol(k, length);
    RowStart(Row(k, length) + 1, length);
    if k <= j < next {
      RowMono(k, j, length);
      RowMono(j, next, length);
    }
  }

  // ------------------------------------------------------------------ the specification

  /** A sum, and a difference, of 64-bit numbers. */
  function Wrap(x: int): (w: nat)
    ensures w <= WORD_MAX
  {
    x % (WORD_MAX + 1)
  }

  /** The last number that Ensure(start, n) looks at. */
  function Last(start: nat, n: nat): nat { Wrap(start + n - 1) }

  lemma LastIs(start: nat, n: nat)
    requires start <= WORD_MAX && n <= WORD_MAX
    ensures 0 < start + n <= WORD_MAX + 1 ==> Last(start, n) == start + n - 1
    ensures start + n > WORD_MAX + 1 ==> Last(start, n) < start
    ensures start + n == 0 ==> Last(start, n) == WORD_MAX
  {
    if start + n > WORD_MAX + 1 { WrapOver(start + n - 1); }
  }

  lemma WrapOver(x: int)
    requires WORD_MAX < x <= 2 * WORD_MAX + 1
    ensures Wrap(x) == x - (WORD_MAX + 1)
  {
  }

  /** Numbers from the end of the map on are in no row of it. */
  lemma RowBeyond(k: nat, rows: nat, length: nat)
    requires length > 0 && Times(rows, length) <= k
    ensures Row(k, length) >= rows
  {
    RowStart(rows, length);
    RowMono(Times(rows, length), k, length);
  }

  /** The answer of the flat map: n <= LENGTH - x on 64-bit numbers. */
  predicate FlatAnswer(x: nat, n: nat, length: nat) { n <= Wrap(length - x) }

  predicate InRange(x: nat, n: nat, length: nat) { n == 0 || x + n <= length }

  lemma FlatAnswerIs(x: nat, n: nat, length: nat)
    requires x <= WORD_MAX && n <= WORD_MAX && length <= WORD_MAX
    ensures FlatAnswer(x, n, length) <==> x + n <= length + if x <= length then 0 else WORD_MAX + 1
  {
    if x > length { assert Wrap(length - x) == length - x + WORD_MAX + 1; }
  }

  /** The answer is right for every count exactly when `x` is at most LENGTH. */
  lemma FlatRightExactly(x: nat, length: nat)
    requires x <= WORD_MAX && length <= WORD_MAX
    ensures (forall n: nat :: n <= WORD_MAX ==> (FlatAnswer(x, n, length) <==> InRange(x, n, length))) <==> x <= length
  {
    if x <= length {
      forall n: nat | n <= WORD_MAX ensures FlatAnswer(x, n, length) <==> InRange(x, n, length) { FlatAnswerIs(x, n, length); }
    } else {
      FlatAnswerIs(x, 1, length);
      assert FlatAnswer(x, 1, length) && !InRange(x, 1, length);
    }
  }

  /** One past the end, the flat map says that a number out of range is ensured. */
  lemma FlatPastEnd(length: nat)
    requires length < WORD_MAX
    ensures FlatAnswer(length + 1, 1, length) && !InRange(length + 1, 1, length)
  {
    FlatAnswerIs(length + 1, 1, length);
  }

  // ------------------------------------------------------------------ one level

  class PageMap1<V> {
    const array_: array<Option<V>>

    ghost function At(k: nat): Option<V>
      reads array_
    {
      if k < array_.Length then array_[k] else None
    }

    constructor (length: nat)
      ensures fresh(array_) && array_.Length == length && forall k: nat :: At(k) == None
    {
      array_ := new Option<V>[length](_ => None);
    }

    method Ensure(x: nat, n: nat) returns (ok: bool)
      requires x <= WORD_MAX && n <= WORD_MAX && array_.Length <= WORD_MAX
      ensures x <= array_.Length ==> (ok <==> x + n <= array_.Length)
      ensures x > array_.Length ==> (ok <==> x + n <= WORD_MAX + 1 + array_.Length)
    {
      FlatAnswerIs(x, n, array_.Length);
      ok := n <= Wrap(array_.Length - x);
    }

    method Get(k: nat) returns (v: Option<V>)
      ensures v == At(k)
    {
      v := if k >= array_.Length then None else array_[k];
    }

    method Set(k: nat, v: Option<V>)
      requires k < array_.Length
      modifies array_
      ensures forall j: nat :: At(j) == if j == k then v else old(At(j))
    {
      array_[k] := v;
    }

    ghost predicate IsNext(k: nat, r: Option<V>)
      reads array_
    {
      if r == None then forall j: nat :: k <= j ==> At(j) == None
      else exists p: nat :: k <= p && At(p) == r && forall j: nat :: k <= j < p ==> At(j) == None
    }

    method Next(k: nat) returns (r: Option<V>)
      ensures IsNext(k, r)
    {
      var i := k;
      while i < array_.Length
        invariant forall j: nat :: k <= j < i ==> At(j) == None
      {
        if array_[i] != None {
          assert At(i) == array_[i];
          return array_[i];
        }
        i := i + 1;
      }
      return None;
    }
  }

  // ------------------------------------------------------------------ two levels

  class PageMap2<V> {
    const leafLength: nat
    const root: array<array?<Option<V>>>
    /** How often the allocator has refused. */
    ghost var refusals: nat

    ghost function Leaves(): set<object>
      reads root
    {
      set i | 0 <= i < root.Length && root[i] != null :: root[i] as object
    }

    ghost predicate Valid()
      reads root
    {
      && leafLength > 0 && Times(root.Length, leafLength) <= WORD_MAX
      && (forall i :: 0 <= i < root.Length && root[i] != null ==> root[i].Length == leafLength)
      && (forall i, j :: 0 <= i < j < root.Length && root[i] != null ==> root[i] != root[j])
    }

    /** The value at a number. */
    ghost function At(k: nat): Option<V>
      requires Valid()
      reads root, Leaves()
    {
      var i1 := Row(k, leafLength);
      if i1 < root.Length && root[i1] != null then root[i1][Col(k, leafLength)] else None
    }

    ghost predicate Ensured(k: nat)
      requires leafLength > 0
      reads root
    {
      Row(k, leafLength) < root.Length && root[Row(k, leafLength)] != null
    }

    constructor (rootLength: nat, leafLength: nat)
      requires leafLength > 0 && Times(rootLength, leafLength) <= WORD_MAX
      ensures Valid() && fresh(root) && this.leafLength == leafLength && root.Length == rootLength
      ensures forall k: nat :: At(k) == None
    {
      this.leafLength := leafLength;
      root := new array?<Option<V>>[rootLength](_ => null);
    }

    method Get(k: nat) returns (v: Option<V>)
      requires Valid()
      ensures v == At(k)
    {
      var i1, i2 := Shift(k, leafLength), Mask(k, leafLength);
      if i1 >= root.Length || root[i1] == null { return None; }
      return root[i1][i2];
    }

    method Set(k: nat, v: Option<V>)
      requires Valid() && Ensured(k)
      modifies Leaves()
      ensures Valid() && At(k) == v && forall j: nat :: j != k ==> At(j) == old(At(j))
      ensures forall j: nat :: Ensured(j) == old(Ensured(j))
    {
      var i1, i2 := Shift(k, leafLength), Mask(k, leafLength);
      var leaf := root[i1];
      assert leaf as object in Leaves();
      leaf[i2] := v;
      forall j: nat | j != k ensures At(j) == old(At(j)) {
        if Row(j, leafLength) == i1 && Col(j, leafLength) == i2 { SameCell(j, k, leafLength); }
      }
    }
  
    /** The allocator for nodes and leaves; it may refuse. */
    method Allocate() returns (ok: bool)
      modifies this`refusals
      ensures refusals == old(refusals) + (if ok then 0 else 1)
    {
      ok := *;
      if !ok { refusals := refusals + 1; }
    }

    /** Makes the leaf of a row; it can fail when the allocator does. */
    method MakeLeaf(i1: nat) returns (ok: bool)
      requires Valid() && i1 < root.Length
      modifies root, this`refusals
      ensures Valid() && fresh(Leaves() - old(Leaves()))
      ensures ok ==> root[i1] != null
      ensures refusals == old(refusals) + (if ok then 0 else 1)
      ensures forall k: nat :: old(Ensured(k)) ==> Ensured(k)
      ensures forall k: nat :: At(k) == old(At(k))
    {
      if root[i1] != null { return true; }
      ok := Allocate();
      if ok {
        var leaf := new Option<V>[leafLength](_ => None);
        root[i1] := leaf;
      }
    }

    /** An answer that keeps its promise: true when every number was made, and false, unless the
        allocator refused, when the last number is outside the map. */
    ghost predicate Right(start: nat, n: nat, ok: bool, refused: bool)
      requires leafLength > 0
      reads root
    {
      && (ok ==> forall k: nat :: start <= k < start + n ==> Ensured(k))
      && (!ok && !refused ==> n > 0 && Row(start + n - 1, leafLength) >= root.Length)
    }

    /** Makes leaves for the numbers from `start` on. The answer is right exactly when the last number
        does not wrap around; when it wraps upwards nothing is made and the answer is true. */
    method Ensure(start: nat, n: nat) returns (ok: bool, refused: bool)
      requires Valid() && start <= WORD_MAX && n <= WORD_MAX
      modifies root, this`refusals
      ensures Valid() && fresh(Leaves() - old(Leaves()))
      ensures forall k: nat :: At(k) == old(At(k))
      ensures forall k: nat :: old(Ensured(k)) ==> Ensured(k)
      ensures refusals == old(refusals) + (if refused then 1 else 0)
      ensures Right(start, n, ok, refused) <==> 0 < start + n <= WORD_MAX + 1 || refused
      ensures start + n > WORD_MAX + 1 ==> ok && root[..] == old(root[..])
    {
      LastIs(start, n);
      ok, refused := EnsureThrough(start, Last(start, n));
      if start + n > WORD_MAX + 1 {
        RowBeyond(start + n - 1, root.Length, leafLength);
        assert !Ensured(start + n - 1);
      } else if start + n == 0 {
        RowBeyond(WORD_MAX, root.Length, leafLength);
        assert !Ensured(WORD_MAX);
      }
    }

    /** The loop: stops at the end of the map or when the allocator refuses. */
    method EnsureThrough(start: nat, last: nat) returns (ok: bool, refused: bool)
      requires Valid()
      modifies root, this`refusals
      ensures Valid() && fresh(Leaves() - old(Leaves()))
      ensures forall k: nat :: At(k) == old(At(k))
      ensures forall k: nat :: old(Ensured(k)) ==> Ensured(k)
      ensures refusals == old(refusals) + (if refused then 1 else 0)
      ensures ok ==> !refused && forall k: nat :: start <= k <= last ==> Ensured(k)
      ensures !ok && !refused ==> Row(last, leafLength) >= root.Length
      ensures last < start ==> ok && root[..] == old(root[..])
    {
      var key := start;
      while key <= last
        invariant Valid() && fresh(Leaves() - old(Leaves())) && refusals == old(refusals)
        invariant forall k: nat :: At(k) == old(At(k))
        invariant forall k: nat :: old(Ensured(k)) ==> Ensured(k)
        invariant start <= key && forall k: nat :: start <= k < key ==> Ensured(k)
        invariant last < start ==> root[..] == old(root[..])
        decreases last + 1 - key
      {
        var i1 := Shift(key, leafLength);
        if i1 >= root.Length {
          RowMono(key, last, leafLength);
          return false, false;
        }
        var made := MakeLeaf(i1);
        if !made { return false, true; }
        NextRow(key, key, leafLength);
        ghost var was := key;
        key := ShiftLeft(i1 + 1, leafLength);
        forall k: nat | was <= k < key ensures Ensured(k) { NextRow(was, k, leafLength); }
      }
      return true, false;
    }

    /** No number from `a` up to `b` has a value. */
    ghost predicate Vacant(a: nat, b: nat)
      requires Valid()
      reads root, Leaves()
    {
      forall j: nat :: a <= j < b ==> At(j) == None
    }

    ghost predicate IsNext(k: nat, r: Option<V>)
      requires Valid()
      reads root, Leaves()
    {
      if r == None then forall j: nat :: k <= j ==> At(j) == None
      else exists p: nat :: k <= p && At(p) == r && Vacant(k, p)
    }

    /** The value at the least number from `k` on that has one. */
    method Next(k: nat) returns (r: Option<V>)
      requires Valid()
      ensures IsNext(k, r)
    {
      var key := k;
      while true
        invariant k <= key && Vacant(k, key)
        decreases root.Length - Row(key, leafLength)
      {
        var i1, i2 := Shift(key, leafLength), Mask(key, leafLength);
        if i1 >= root.Length {
          forall j: nat | key <= j ensures At(j) == None { RowMono(key, j, leafLength); }
          return None;
        }
        var found := ScanLeaf(k, key, i1, i2);
        if found.Some? {
          ghost var p := key + (found.value - i2);
          assert k <= p && At(p) == root[i1][found.value] && Vacant(k, p);
          return root[i1][found.value];
        }
        NextRow(key, key, leafLength);
        key := ShiftLeft(i1 + 1, leafLength);
        RowStart(i1 + 1, leafLength);
      }
    }

    /** The scan of one leaf from a column on, when nothing from `k` up to here has a value. */
    method ScanLeaf(k: nat, key: nat, i1: nat, i2: nat) returns (found: Option<nat>)
      requires Valid() && i1 == Row(key, leafLength) && i2 == Col(key, leafLength) && i1 < root.Length
      requires k <= key && Vacant(k, key)
      ensures found == None ==> Vacant(k, Times(i1 + 1, leafLength))
      ensures found.Some? ==> root[i1] != null && i2 <= found.value < leafLength && root[i1][found.value] != None
      ensures found.Some? ==> var p := key + (found.value - i2); At(p) == root[i1][found.value] && Vacant(k, p)
    {
      var leaf := root[i1];
      if leaf != null {
        var c := i2;
        while c < leafLength
          invariant i2 <= c <= leafLength
          invariant forall x :: i2 <= x < c ==> leaf[x] == None
        {
          if leaf[c] != None {
            CellOf(key, c - i2, leafLength);
            forall j: nat | key <= j < key + (c - i2) ensures At(j) == None { CellOf(key, j - key, leafLength); }
            return Some(c);
          }
          c := c + 1;
        }
      }
      forall j: nat | key <= j < Times(i1 + 1, leafLength) ensures At(j) == None {
        NextRow(key, j, leafLength);
        RowMono(key, j, leafLength);
      }
      return None;
    }
  }

  // ------------------------------------------------------------------ three levels

  class PageMap3<V> {
    const interiorLength: nat
    const leafLength: nat
    const root: array<array?<array?<Option<V>>>>
    ghost var repr: set<object>
    /** How often the allocator has refused. */
    ghost var refusals: nat

    ghost predicate NodesOk()
      reads this`repr, repr
    {
      && interiorLength > 0 && leafLength > 0 && root in repr && this !in repr && root.Length == interiorLength
      && Times(Times(root.Length, interiorLength), leafLength) <= WORD_MAX
      && (forall i :: 0 <= i < root.Length && root[i] != null ==> root[i] in repr && root[i].Length == interiorLength)
      && (forall i, j :: 0 <= i < j < root.Length && root[i] != null ==> root[i] != root[j])
    }

    /** The leaf of a row, if both levels above it are there. */
    ghost function LeafAt(row: nat): array?<Option<V>>
      requires NodesOk()
      reads this`repr, repr
    {
      var i1 := Row(row, interiorLength);
      if i1 < root.Length && root[i1] != null then root[i1][Col(row, interiorLength)] else null
    }

    ghost predicate Valid()
      reads this`repr, repr
    {
      && NodesOk()
      && (forall row: nat :: LeafAt(row) != null ==> LeafAt(row) in repr && LeafAt(row).Length == leafLength)
      && (forall row: nat, other: nat :: LeafAt(row) != null && row != other ==> LeafAt(row) != LeafAt(other))
    }

    ghost function At(k: nat): Option<V>
      requires Valid()
      reads this`repr, repr
    {
      var leaf := LeafAt(Row(k, leafLength));
      if leaf != null then leaf[Col(k, leafLength)] else None
    }

    ghost predicate Ensured(k: nat)
      requires NodesOk()
      reads this`repr, repr
    {
      LeafAt(Row(k, leafLength)) != null
    }

    constructor (interiorLength: nat, leafLength: nat)
      requires interiorLength > 0 && leafLength > 0 && Times(Times(interiorLength, interiorLength), leafLength) <= WORD_MAX
      ensures Valid() && fresh(repr) && this.interiorLength == interiorLength && this.leafLength == leafLength
      ensures forall k: nat :: At(k) == None
    {
      this.interiorLength, this.leafLength := interiorLength, leafLength;
      root := new array?<array?<Option<V>>>[interiorLength](_ => null);
      repr := {root};
    }

    method Get(k: nat) returns (v: Option<V>)
      requires Valid()
      ensures v == At(k)
    {
      var row := Shift(k, leafLength);
      var i1, i2, i3 := Shift(row, interiorLength), Mask(row, interiorLength), Mask(k, leafLength);
      if i1 >= root.Length || root[i1] == null || root[i1][i2] == null { return None; }
      assert root[i1][i2] == LeafAt(row);
      return root[i1][i2][i3];
    }

    method Set(k: nat, v: Option<V>)
      requires Valid() && Ensured(k)
      modifies repr
      ensures Valid() && At(k) == v && forall j: nat :: j != k ==> At(j) == old(At(j))
      ensures repr == old(repr) && forall j: nat :: Ensured(j) == old(Ensured(j))
    {
      var row := Shift(k, leafLength);
      var i1, i2, i3 := Shift(row, interiorLength), Mask(row, interiorLength), Mask(k, leafLength);
      var leaf := root[i1][i2];
      assert leaf == LeafAt(row);
      leaf[i3] := v;
      assert NodesOk() && forall r: nat :: LeafAt(r) == old(LeafAt(r));
      forall j: nat | j != k ensures At(j) == old(At(j)) {
        if Row(j, leafLength) == row && Col(j, leafLength) == i3 { SameCell(j, k, leafLength); }
      }
    }

    /** The allocator for nodes and leaves; it may refuse. */
    method Allocate() returns (ok: bool)
      modifies this`refusals
      ensures refusals == old(refusals) + (if ok then 0 else 1)
    {
      ok := *;
      if !ok { refusals := refusals + 1; }
    }

    /** Makes the second-level node of a row; it can fail when the allocator does. */
    method MakeNode(i1: nat) returns (ok: bool)
      requires Valid() && i1 < root.Length
      modifies root, this`repr, this`refusals
      ensures Valid() && fresh(repr - old(repr)) && old(repr) <= repr
      ensures ok ==> root[i1] != null
      ensures refusals == old(refusals) + (if ok then 0 else 1)
      ensures forall row: nat :: LeafAt(row) == old(LeafAt(row))
      ensures forall k: nat :: At(k) == old(At(k))
    {
      if root[i1] != null { return true; }
      ok := Allocate();
      if ok {
        var node := new array?<Option<V>>[interiorLength](_ => null);
        root[i1] := node;
        repr := repr + {node};
        assert NodesOk() && forall row: nat :: LeafAt(row) == old(LeafAt(row));
      }
    }

    /** Makes the leaf of a row in a node that is there. */
    method MakeLeaf(row: nat, i1: nat, i2: nat) returns (ok: bool)
      requires Valid() && i1 == Row(row, interiorLength) && i2 == Col(row, interiorLength) && i1 < root.Length && root[i1] != null
      modifies root[i1], this`repr, this`refusals
      ensures Valid() && fresh(repr - old(repr)) && old(repr) <= repr
      ensures ok ==> LeafAt(row) != null
      ensures refusals == old(refusals) + (if ok then 0 else 1)
      ensures forall other: nat :: old(LeafAt(other)) != null ==> LeafAt(other) == old(LeafAt(other))
      ensures forall k: nat :: At(k) == old(At(k))
    {
      assert LeafAt(row) == root[i1][i2];
      if root[i1][i2] != null { return true; }
      ok := Allocate();
      if ok {
        var leaf := new Option<V>[leafLength](_ => None);
        root[i1][i2] := leaf;
        repr := repr + {leaf};
        assert NodesOk();
        forall other: nat | other != row ensures LeafAt(other) == old(LeafAt(other)) {
          if Row(other, interiorLength) == i1 && Col(other, interiorLength) == i2 { SameCell(other, row, interiorLength); }
        }
      }
    }

    method EnsureRow(row: nat) returns (ok: bool)
      requires Valid() && Row(row, interiorLength) < root.Length
      modifies repr, this`repr, this`refusals
      ensures Valid() && fresh(repr - old(repr)) && old(repr) <= repr
      ensures ok ==> LeafAt(row) != null
      ensures refusals == old(refusals) + (if ok then 0 else 1)
      ensures forall k: nat :: old(Ensured(k)) ==> Ensured(k)
      ensures forall k: nat :: At(k) == old(At(k))
    {
      var i1, i2 := Shift(row, interiorLength), Mask(row, interiorLength);
      ok := MakeNode(i1);
      if ok { ok := MakeLeaf(row, i1, i2); }
    }

    /** An answer that keeps its promise, as for two levels. */
    ghost predicate Right(start: nat, n: nat, ok: bool, refused: bool)
      requires NodesOk()
      reads this`repr, repr
    {
      && (ok ==> forall k: nat :: start <= k < start + n ==> Ensured(k))
      && (!ok && !refused ==> n > 0 && Row(Row(start + n - 1, leafLength), interiorLength) >= root.Length)
    }

    /** A number from the end of the map on. */
    lemma Beyond(k: nat)
      requires NodesOk() && k >= WORD_MAX
      ensures Row(Row(k, leafLength), interiorLength) >= root.Length
    {
      RowBeyond(k, Times(root.Length, interiorLength), leafLength);
      RowBeyond(Row(k, leafLength), root.Length, interiorLength);
    }

    method Ensure(start: nat, n: nat) returns (ok: bool, refused: bool)
      requires Valid() && start <= WORD_MAX && n <= WORD_MAX
      modifies repr, this`repr, this`refusals
      ensures Valid() && fresh(repr - old(repr))
      ensures forall k: nat :: At(k) == old(At(k))
      ensures forall k: nat :: old(Ensured(k)) ==> Ensured(k)
      ensures refusals == old(refusals) + (if refused then 1 else 0)
      ensures Right(start, n, ok, refused) <==> 0 < start + n <= WORD_MAX + 1 || refused
      ensures start + n > WORD_MAX + 1 ==> ok && forall k: nat :: Ensured(k) == old(Ensured(k))
    {
      LastIs(start, n);
      ok, refused := EnsureThrough(start, Last(start, n));
      if start + n > WORD_MAX + 1 {
        Beyond(start + n - 1);
        assert !Ensured(start + n - 1);
      } else if start + n == 0 {
        Beyond(WORD_MAX);
        assert !Ensured(WORD_MAX);
      }
    }

    /** The loop: stops at the end of the map or when the allocator refuses. */
    method EnsureThrough(start: nat, last: nat) returns (ok: bool, refused: bool)
      requires Valid()
      modifies repr, this`repr, this`refusals
      ensures Valid() && fresh(repr - old(repr))
      ensures forall k: nat :: At(k) == old(At(k))
      ensures forall k: nat :: old(Ensured(k)) ==> Ensured(k)
      ensures refusals == old(refusals) + (if refused then 1 else 0)
      ensures ok ==> !refused && forall k: nat :: start <= k <= last ==> Ensured(k)
      ensures !ok && !refused ==> Row(Row(last, leafLength), interiorLength) >= root.Length
      ensures last < start ==> ok && forall k: nat :: Ensured(k) == old(Ensured(k))
    {
      if last < start { return true, false; }
      var key := start;
      while key <= last
        invariant Valid() && fresh(repr - old(repr)) && old(repr) <= repr && refusals == old(refusals)
        invariant forall k: nat :: At(k) == old(At(k))
        invariant forall k: nat :: old(Ensured(k)) ==> Ensured(k)
        invariant start <= key && forall k: nat :: start <= k < key ==> Ensured(k)
        decreases last + 1 - key
      {
        var row := Shift(key, leafLength);
        if Shift(row, interiorLength) >= root.Length {
          RowMono(key, last, leafLength);
          RowMono(row, Row(last, leafLength), interiorLength);
          return false, false;
        }
        var made := EnsureRow(row);
        if !made { return false, true; }
        NextRow(key, key, leafLength);
        ghost var was := key;
        key := ShiftLeft(row + 1, leafLength);
        forall k: nat | was <= k < key ensures Ensured(k) { NextRow(was, k, leafLength); }
      }
      return true, false;
    }

    /** No number from `a` up to `b` has a value. */
    ghost predicate Vacant(a: nat, b: nat)
      requires Valid()
      reads this`repr, repr
    {
      forall j: nat :: a <= j < b ==> At(j) == None
    }

    ghost predicate IsNext(k: nat, r: Option<V>)
      requires Valid()
      reads this`repr, repr
    {
      if r == None then forall j: nat :: k <= j ==> At(j) == None
      else exists p: nat :: k <= p && At(p) == r && Vacant(k, p)
    }

    /** The value at the least number from `k` on that has one; skips missing nodes and missing leaves. */
    method Next(k: nat) returns (r: Option<V>)
      requires Valid()
      ensures IsNext(k, r)
    {
      var key := k;
      while true
        invariant k <= key && Vacant(k, key)
        decreases Times(root.Length, interiorLength) - Row(key, leafLength)
      {
        var row := Shift(key, leafLength);
        var i1, i2, i3 := Shift(row, interiorLength), Mask(row, interiorLength), Mask(key, leafLength);
        RowBelow(row, root.Length, interiorLength);
        if i1 >= root.Length {
          forall j: nat | key <= j ensures At(j) == None {
            RowMono(key, j, leafLength);
            RowMono(row, Row(j, leafLength), interiorLength);
          }
          return None;
        }
        if root[i1] == null {
          SkipNode(k, key, row);
          key := ShiftLeft(ShiftLeft(i1 + 1, interiorLength), leafLength);
          RowStart(Times(i1 + 1, interiorLength), leafLength);
        } else {
          var found := ScanLeaf(k, key, row, i3);
          if found.Some? {
            ghost var p := key + (found.value - i3);
            assert root[i1][i2] == LeafAt(row);
            assert k <= p && At(p) == LeafAt(row)[found.value] && Vacant(k, p);
            return root[i1][i2][found.value];
          }
          NextRow(key, key, leafLength);
          key := ShiftLeft(row + 1, leafLength);
          RowStart(row + 1, leafLength);
        }
      }
    }

    /** Under a missing node nothing has a value. */
    lemma SkipNode(k: nat, key: nat, row: nat)
      requires Valid() && row == Row(key, leafLength) && k <= key && Vacant(k, key)
      requires Row(row, interiorLength) < root.Length && root[Row(row, interiorLength)] == null
      ensures var next := Times(Row(row, interiorLength) + 1, interiorLength);
              row < next && key < Times(next, leafLength) && Vacant(k, Times(next, leafLength))
    {
      var i1 := Row(row, interiorLength);
      var next := Times(i1 + 1, interiorLength);
      NextRow(row, row, interiorLength);
      RowStart(next, leafLength);
      if Times(next, leafLength) <= key { RowMono(Times(next, leafLength), key, leafLength); }
      forall j: nat | key <= j < Times(next, leafLength) ensures At(j) == None {
        RowMono(key, j, leafLength);
        RowBefore(j, next, leafLength);
        NextRow(row, Row(j, leafLength), interiorLength);
      }
    }

    /** The scan of one leaf from a column on, when nothing from `k` up to here has a value. */
    method ScanLeaf(k: nat, key: nat, row: nat, i3: nat) returns (found: Option<nat>)
      requires Valid() && row == Row(key, leafLength) && i3 == Col(key, leafLength) && Row(row, interiorLength) < root.Length
      requires root[Row(row, interiorLength)] != null && k <= key && Vacant(k, key)
      ensures found == None ==> Vacant(k, Times(row + 1, leafLength))
      ensures found.Some? ==> LeafAt(row) != null && i3 <= found.value < leafLength && LeafAt(row)[found.value] != None
      ensures found.Some? ==> var p := key + (found.value - i3); At(p) == LeafAt(row)[found.value] && Vacant(k, p)
    {
      var leaf := root[Shift(row, interiorLength)][Mask(row, interiorLength)];
      assert leaf == LeafAt(row);
      if leaf != null {
        var c := i3;
        while c < leafLength
          invariant i3 <= c <= leafLength
          invariant forall x :: i3 <= x < c ==> leaf[x] == None
        {
          if leaf[c] != None {
            CellOf(key, c - i3, leafLength);
            forall j: nat | key <= j < key + (c - i3) ensures At(j) == None { CellOf(key, j - key, leafLength); }
            return Some(c);
          }
          c := c + 1;
        }
      }
      forall j: nat | key <= j < Times(row + 1, leafLength) ensures At(j) == None {
        NextRow(key, j, leafLength);
        RowMono(key, j, leafLength);
      }
      return None;
    }
  }

  /** Further along the same row. */
  lemma {:induction false} CellOf(k: nat, d: nat, length: nat)
    requires length > 0 && Col(k, length) + d < length
    ensures Row(k + d, length) == Row(k, length) && Col(k + d, length) == Col(k, length) + d
  {
    if k >= length { CellOf(k - length, d, length); }
  }

  lemma RowBefore(j: nat, next: nat, length: nat)
    requires length > 0 && j < Times(next, length)
    ensures Row(j, length) < next
  {
    RowCol(j, length);
    if Row(j, length) >= next {
      if Row(j, length) > next { TimesGap(next, Row(j, length), length); }
    }
  }

  lemma RowBelow(row: nat, rows: nat, length: nat)
    requires length > 0
    ensures Row(row, length) < rows ==> row < Times(rows, length)
  {
    if row >= Times(rows, length) {
      RowStart(rows, length);
      RowMono(Times(rows, length), row, length);
    }
  }

  /** Asking for the last 64-bit number and one more: the answer is true and nothing was made. */
  method WrapsOnTwoLevels() returns (pages: PageMap2<nat>, ok: bool)
    ensures pages.Valid() && ok && !pages.Ensured(WORD_MAX)
  {
    var refused;
    pages := new PageMap2<nat>(1, 1);
    ok, refused := pages.Ensure(WORD_MAX, 2);
    RowBeyond(WORD_MAX, pages.root.Length, pages.leafLength);
  }

  method WrapsOnThreeLevels() returns (pages: PageMap3<nat>, ok: bool)
    ensures pages.Valid() && ok && !pages.Ensured(WORD_MAX)
  {
    var refused;
    pages := new PageMap3<nat>(1, 1);
    ok, refused := pages.Ensure(WORD_MAX, 2);
    pages.Beyond(WORD_MAX);
  }
}
