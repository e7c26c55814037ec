/** SizeMap (common.cc, common.h): the table of size classes and the map from sizes to classes. */
module SizeMaps {

  import opened Arithmetic
  import opened SizeClasses
  import opened SizeTables
  import opened NaturalAlignment
  import opened Bits

  /** The two nested loops that choose the size of a span. */
  method ChooseSpan(size: nat, granularity: nat, blocks: nat) returns (bytes: nat)
    requires size > 0 && granularity > 0
    ensures Least(bytes, granularity, size, blocks)
  {
    ghost var bound := 8 * size + size * blocks;
    ghost var k: nat := 0;
    bytes := 0;
    while true
      invariant bytes == Times(k, granularity)
      invariant NoneFit(k + 1, granularity, size, blocks)
      invariant bytes < bound + granularity
      decreases bound + granularity - bytes
    {
      ghost var was := bytes;
      bytes, k := bytes + granularity, k + 1;
      while bytes % size > bytes / 8
        invariant bytes == Times(k, granularity) && k > 0 && was < bytes
        invariant NoneFit(k, granularity, size, blocks)
        decreases bound + granularity - bytes
      {
        if bytes >= bound { LargeFits(bytes, size, blocks); }
        bytes, k := bytes + granularity, k + 1;
      }
      if bytes / size >= blocks { return; }
      if bytes >= bound { LargeFits(bytes, size, blocks); }
    }
  }

  /** The span granularity: the system's page size, but at least one page of ours and a multiple of it. */
  method Granularity(native: nat) returns (granularity: nat)
    ensures granularity >= K_PAGE_SIZE && granularity % K_PAGE_SIZE == 0
    ensures granularity == if native > K_PAGE_SIZE && native % K_PAGE_SIZE == 0 then native else K_PAGE_SIZE
  {
    granularity := if native > K_PAGE_SIZE then native else K_PAGE_SIZE;
    if granularity > K_PAGE_SIZE && granularity % K_PAGE_SIZE != 0 { granularity := K_PAGE_SIZE; }
  }

  class SizeMap {
    const classToSize: array<nat>
    const classToPages: array<nat>
    const classArray: array<nat>
    var numSizeClasses: nat
    var minSpanPages: nat

    constructor ()
      ensures fresh(classToSize) && fresh(classToPages) && fresh(classArray) && Shaped()
    {
      classToSize := new nat[K_CLASS_SIZES_MAX];
      classToPages := new nat[K_CLASS_SIZES_MAX];
      classArray := new nat[K_CLASS_ARRAY_SIZE];
      numSizeClasses, minSpanPages := 0, 0;
      new;
      assert classToSize != classToPages;
    }

    ghost predicate Shaped()
      reads this
    {
      && classToSize.Length == K_CLASS_SIZES_MAX && classToPages.Length == K_CLASS_SIZES_MAX
      && classArray.Length == K_CLASS_ARRAY_SIZE
      && classToSize != classToPages && classToSize != classArray && classToPages != classArray
    }

    /** One size: a class of its own, or the new end of the last class when spans and objects agree. */
    method AddSize(sc: nat, size: nat, granularity: nat, transfer: nat) returns (sc': nat)
      requires Shaped() && sc < K_CLASS_SIZES_MAX && Classes(classToSize[..], classToPages[..], sc, granularity, transfer)
      requires Tried(size) && size <= K_MAX_SIZE && granularity > 0 && granularity % K_PAGE_SIZE == 0
      requires Follows(if sc > 1 then classToSize[sc - 1] else 0, size)
      modifies classToSize, classToPages
      ensures sc <= sc' <= sc + 1 && 1 < sc' && classToSize[sc' - 1] == size
      ensures Classes(classToSize[..], classToPages[..], sc', granularity, transfer)
    {
      var blocks := NumMoveSize(size, transfer) / 4;
      var bytes := ChooseSpan(size, granularity, blocks);
      WholePages(bytes, granularity, size, blocks);
      var myPages := bytes / K_PAGE_SIZE;
      if sc > 1 && myPages == classToPages[sc - 1] {
        var myObjects := Objects(myPages, size);
        var prevObjects := Objects(classToPages[sc - 1], classToSize[sc - 1]);
        if myObjects == prevObjects {
          ghost var was := classToSize[..];
          classToSize[sc - 1] := size;
          Lengthened(was, classToSize[..], classToPages[..], sc, size);
          LengthenedMembers(was, classToSize[..], classToPages[..], granularity, transfer, sc, size);
          return sc;
        }
      }
      ghost var was, had := classToSize[..], classToPages[..];
      classToPages[sc] := myPages;
      classToSize[sc] := size;
      Appended(was, classToSize[..], had, classToPages[..], sc, size, myPages);
      AppendedMembers(was, classToSize[..], had, classToPages[..], granularity, transfer, sc, size, myPages);
      return sc + 1;
    }

    /** The first loop of Init. */
    method MakeClasses(granularity: nat, transfer: nat)
      requires Shaped() && granularity > 0 && granularity % K_PAGE_SIZE == 0
      modifies classToSize, classToPages, this`numSizeClasses
      ensures 1 < numSizeClasses <= 106
      ensures Classes(classToSize[..], classToPages[..], numSizeClasses, granularity, transfer)
      ensures classToSize[numSizeClasses - 1] == K_MAX_SIZE
    {
      var sc, size := 1, K_ALIGNMENT;
      while size <= K_MAX_SIZE
        invariant Tried(size) && 1 <= sc <= Rank(size) + 1 && (sc == 1 ==> size == K_ALIGNMENT)
        invariant size <= K_MAX_SIZE + K_PAGE_SIZE
        invariant Classes(classToSize[..], classToPages[..], sc, granularity, transfer)
        invariant sc > 1 ==> var last := classToSize[sc - 1]; Tried(last) && last <= K_MAX_SIZE && last + Alignment(last) == size
        decreases K_MAX_SIZE + K_PAGE_SIZE - size
      {
        var alignment := AlignmentForSize(size);
        NextTried(size);
        RankBound(size);
        if sc > 1 { FollowsNext(classToSize[sc - 1]); }
        sc := AddSize(sc, size, granularity, transfer);
        size := size + alignment;
      }
      NextAligned(classToSize[sc - 1]);
      RankBound(K_MAX_SIZE);
      numSizeClasses := sc;
    }

    /** The sizes of one class, from just above the class before it. */
    method FillClass(c: nat, from: nat)
      requires Shaped() && ClassTable(classToSize[..], numSizeClasses) && 1 <= c < numSizeClasses
      requires from % 8 == 0 && from == if c == 1 then 0 else classToSize[c - 1] + K_ALIGNMENT
      requires Mapped(classToSize[..], numSizeClasses, classArray[..], ClassIndex(from))
      modifies classArray
      ensures Mapped(classToSize[..], numSizeClasses, classArray[..], ClassIndex(classToSize[c] + K_ALIGNMENT))
    {
      var max := classToSize[c];
      FromBelow(classToSize[..], numSizeClasses, c);
      var s := from;
      ghost var e, f := from / 8, max / 8;
      assert s == 8 * e && max == 8 * f && from <= max;
      while s <= max
        invariant s == 8 * e && from <= s && e <= f + 1
        invariant Mapped(classToSize[..], numSizeClasses, classArray[..], ClassIndex(s))
      {
        MappedNext(classToSize[..], numSizeClasses, classArray[..], c, s);
        ghost var classes := classArray[..];
        classArray[ClassIndex(s)] := c;
        assert classArray[..] == classes[ClassIndex(s) := c];
        s, e := s + K_ALIGNMENT, e + 1;
      }
    }

    /** The second loop of Init. */
    method MapSizes()
      requires Shaped() && ClassTable(classToSize[..], numSizeClasses)
      modifies classArray
      ensures Mapped(classToSize[..], numSizeClasses, classArray[..], ClassIndex(classToSize[numSizeClasses - 1] + K_ALIGNMENT))
    {
      var c, next := 1, 0;
      while c < numSizeClasses
        invariant 1 <= c <= numSizeClasses && next % 8 == 0 && next == if c == 1 then 0 else classToSize[c - 1] + K_ALIGNMENT
        invariant Mapped(classToSize[..], numSizeClasses, classArray[..], ClassIndex(next))
      {
        FillClass(c, next);
        FromBelow(classToSize[..], numSizeClasses, c);
        next := classToSize[c] + K_ALIGNMENT;
        c := c + 1;
      }
    }

    /** After Init: good classes in increasing order, few enough, and every size mapped to the least class. */
    ghost predicate Ready(granularity: nat, transfer: nat)
      reads this, classToSize, classToPages, classArray
    {
      && Shaped() && 1 < numSizeClasses <= K_CLASS_SIZES_MAX
      && Classes(classToSize[..], classToPages[..], numSizeClasses, granularity, transfer)
      && Mapped(classToSize[..], numSizeClasses, classArray[..], ClassIndex(K_MAX_SIZE) + 1)
    }

    /** Init; false where the original stops the program, which it does exactly for a granularity of five
        pages. */
    method Init(native: nat, transfer: nat) returns (ok: bool, ghost granularity: nat)
      requires Shaped() && transfer > 0
      modifies this, classToSize, classToPages, classArray
      ensures granularity == if native > K_PAGE_SIZE && native % K_PAGE_SIZE == 0 then native else K_PAGE_SIZE
      ensures Ready(granularity, transfer) && minSpanPages * K_PAGE_SIZE == granularity
      ensures ok <==> Natural(classToSize[..], numSizeClasses)
      ensures ok <==> native != ODD_GRANULARITY
    {
      var bytes := Granularity(native);
      granularity := bytes;
      minSpanPages := bytes / K_PAGE_SIZE;
      MakeTable(bytes, transfer);
      ok := CheckNatural(bytes, transfer);
      NaturalExactly(classToSize[..], classToPages[..], numSizeClasses, bytes, transfer);
    }

    /** Both loops of Init. */
    method MakeTable(granularity: nat, transfer: nat)
      requires Shaped() && granularity > 0 && granularity % K_PAGE_SIZE == 0
      modifies this`numSizeClasses, classToSize, classToPages, classArray
      ensures Ready(granularity, transfer) && classToSize[numSizeClasses - 1] == K_MAX_SIZE
    {
      MakeClasses(granularity, transfer);
      TableOfClasses(classToSize[..], classToPages[..], numSizeClasses, granularity, transfer);
      MapSizes();
    }

    /** The check at the end of Init, alignment by alignment. */
    method CheckNatural(ghost granularity: nat, ghost transfer: nat) returns (ok: bool)
      requires Ready(granularity, transfer)
      ensures ok <==> Natural(classToSize[..], numSizeClasses)
    {
      var align := K_MIN_ALIGN;
      FirstAlign(classToSize[..], numSizeClasses, align);
      while align <= K_PAGE_SIZE
        invariant IsPower(align) && K_MIN_ALIGN <= align
        invariant NaturalUpTo(classToSize[..], numSizeClasses, align)
        decreases 2 * K_PAGE_SIZE - align
      {
        ok := CheckAlign(align, granularity, transfer);
        if !ok { return; }
        NextAlign(classToSize[..], numSizeClasses, align);
        align := 2 * align;
      }
      NaturalAll(classToSize[..], numSizeClasses, align);
      ok := true;
    }

    /** One alignment: the multiples of it below a page. */
    method CheckAlign(align: nat, ghost granularity: nat, ghost transfer: nat) returns (ok: bool)
      requires Ready(granularity, transfer) && IsPower(align) && K_MIN_ALIGN <= align <= K_PAGE_SIZE
      ensures ok ==> NaturalBelow(classToSize[..], numSizeClasses, align, K_PAGE_SIZE)
      ensures !ok ==> !Natural(classToSize[..], numSizeClasses)
    {
      TableOfClasses(classToSize[..], classToPages[..], numSizeClasses, granularity, transfer);
      FirstSize(classToSize[..], numSizeClasses, align);
      var size := align;
      while size < K_PAGE_SIZE
        invariant 0 < size && size % align == 0
        invariant NaturalBelow(classToSize[..], numSizeClasses, align, size)
      {
        var c := SizeClass(size, granularity, transfer);
        if classToSize[c] % align != 0 {
          assert !Naturally(classToSize[..], numSizeClasses, align, size, c);
          return false;
        }
        NextSize(classToSize[..], numSizeClasses, align, size, c);
        NextMultiple(size, align);
        size := size + align;
      }
      return true;
    }

    /** SizeClass: the least class that holds the size. */
    method SizeClass(size: nat, ghost granularity: nat, ghost transfer: nat) returns (c: nat)
      requires Ready(granularity, transfer) && size <= K_MAX_SIZE
      ensures LeastClass(classToSize[..], numSizeClasses, size, c)
    {
      IndexBound(size);
      TableOfClasses(classToSize[..], classToPages[..], numSizeClasses, granularity, transfer);
      MappedSize(classToSize[..], numSizeClasses, classArray[..], size);
      c := classArray[ClassIndex(size)];
    }
  }
}
