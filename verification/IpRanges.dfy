/**
 * The interval set that the Android client uses to subtract excluded networks from the
 * tunnelled ones, and its decomposition of an interval into CIDR blocks.
 *
 * Addresses of one family are the numbers 0 .. maxIp.
 */
module IpRanges {
  import opened Powers

  datatype Option<T> = None | Some(value: T)

  datatype Range = Range(start: nat, end: nat)

  predicate InRange(r: Range, x: nat) { r.start <= x <= r.end }

  predicate Covers(rs: seq<Range>, x: nat) {
    exists i :: 0 <= i < |rs| && InRange(rs[i], x)
  }

  /** Sorted, disjoint, and no two neighbours even touching. */
  predicate Normal(rs: seq<Range>, maxIp: nat) {
    && (forall i :: 0 <= i < |rs| ==> rs[i].start <= rs[i].end <= maxIp)
    && (forall i, j :: 0 <= i < j < |rs| ==> rs[i].end + 1 < rs[j].start)
  }

  predicate Intersect(a: Range, b: Range) { a.start <= b.end && a.end >= b.start }

  function Plus(a: Range, b: Range, maxIp: nat): Option<Range> {
    if a.start > b.end && a.start != 0 && a.start - 1 == b.end then Some(Range(b.start, a.end))
    else if a.end < b.start && a.end != maxIp && a.end + 1 == b.start then Some(Range(a.start, b.end))
    else if !Intersect(a, b) then None
    else Some(Range(if a.start <= b.start then a.start else b.start, if a.end >= b.end then a.end else b.end))
  }

  function Minus(a: Range, b: Range): Option<seq<Range>>
    requires b.start <= b.end
  {
    if b.start <= a.start && b.end >= a.end then Some([])
    else if !Intersect(a, b) then None
    else Some((if a.start < b.start then [Range(a.start, b.start - 1)] else [])
              + (if a.end > b.end then [Range(b.end + 1, a.end)] else []))
  }

  predicate Before(a: Range, b: Range) {
    a.start < b.start || (a.start == b.start && a.end < b.end)
  }

  /** Insertion into the sorted set: an element already there is not added again. */
  function Insert(rs: seq<Range>, r: Range): seq<Range> {
    if rs == [] || Before(r, rs[0]) then [r] + rs
    else if r == rs[0] then rs
    else [rs[0]] + Insert(rs[1..], r)
  }

  lemma {:induction false} InsertBetween(a: seq<Range>, r: Range, b: seq<Range>)
    requires forall i :: 0 <= i < |a| ==> Before(a[i], r)
    requires b != [] ==> Before(r, b[0])
    ensures Insert(a + b, r) == a + [r] + b
  {
    if a == [] {
      assert a + b == b;
    } else {
      InsertBetween(a[1..], r, b);
      assert (a + b)[1..] == a[1..] + b;
      assert [a[0]] + (a[1..] + [r] + b) == a + [r] + b;
    }
  }

  lemma InsertAt(a: seq<Range>, r: Range, b: seq<Range>, maxIp: nat)
    requires Normal(a + [r] + b, maxIp)
    ensures Insert(a + b, r) == a + [r] + b
  {
    var s := a + [r] + b;
    assert s[|a|] == r;
    assert forall i :: 0 <= i < |a| ==> s[i] == a[i];
    assert forall i :: 0 <= i < |b| ==> s[|a| + 1 + i] == b[i];
    InsertBetween(a, r, b);
  }

  lemma CoversConcat(a: seq<Range>, b: seq<Range>, x: nat)
    ensures Covers(a + b, x) <==> Covers(a, x) || Covers(b, x)
  {
    if Covers(a, x) {
      var i :| 0 <= i < |a| && InRange(a[i], x);
      assert InRange((a + b)[i], x);
    }
    if Covers(b, x) {
      var i :| 0 <= i < |b| && InRange(b[i], x);
      assert InRange((a + b)[|a| + i], x);
    }
    if Covers(a + b, x) {
      var i :| 0 <= i < |a + b| && InRange((a + b)[i], x);
      if i < |a| { assert InRange(a[i], x); } else { assert InRange(b[i - |a|], x); }
    }
  }

  lemma CoversOne(r: Range, x: nat)
    ensures Covers([r], x) <==> InRange(r, x)
  {
    if InRange(r, x) { assert InRange([r][0], x); }
  }

  lemma CoversAround(a: seq<Range>, m: seq<Range>, b: seq<Range>, x: nat)
    ensures Covers(a + m + b, x) <==> Covers(a, x) || Covers(m, x) || Covers(b, x)
  {
    CoversConcat(a + m, b, x);
    CoversConcat(a, m, x);
  }

  predicate Precedes(a: seq<Range>, b: seq<Range>) {
    forall i, j :: 0 <= i < |a| && 0 <= j < |b| ==> a[i].end + 1 < b[j].start
  }

  lemma NormalSplit(a: seq<Range>, b: seq<Range>, maxIp: nat)
    requires Normal(a + b, maxIp)
    ensures Normal(a, maxIp) && Normal(b, maxIp) && Precedes(a, b)
  {
    var s := a + b;
    assert forall i :: 0 <= i < |a| ==> s[i] == a[i];
    assert forall j :: 0 <= j < |b| ==> s[|a| + j] == b[j];
  }

  lemma NormalJoin(a: seq<Range>, b: seq<Range>, maxIp: nat)
    requires Normal(a, maxIp) && Normal(b, maxIp) && Precedes(a, b)
    ensures Normal(a + b, maxIp)
  {
  }

  /** Replacing one interval by normal pieces lying inside it keeps the list normal. */
  lemma ReplaceKeepsNormal(a: seq<Range>, r: Range, m: seq<Range>, b: seq<Range>, maxIp: nat)
    requires Normal(a + [r] + b, maxIp)
    requires Normal(m, maxIp)
    requires forall i :: 0 <= i < |m| ==> r.start <= m[i].start && m[i].end <= r.end
    ensures Normal(a + m + b, maxIp)
  {
    NormalSplit(a + [r], b, maxIp);
    NormalSplit(a, [r], maxIp);
    assert (a + [r])[|a|] == r && [r][0] == r;
    assert forall i :: 0 <= i < |a| ==> (a + [r])[i] == a[i];
    NormalJoin(a, m, maxIp);
    assert forall i :: 0 <= i < |a + m| ==> (a + m)[i] == if i < |a| then a[i] else m[i - |a|];
    NormalJoin(a + m, b, maxIp);
  }

  lemma DropOne(a: seq<Range>, r: Range, b: seq<Range>, maxIp: nat)
    requires Normal(a + [r] + b, maxIp)
    ensures Normal(a + b, maxIp)
  {
    ReplaceKeepsNormal(a, r, [], b, maxIp);
    assert a + [] + b == a + b;
  }

  lemma SplitAround(s: seq<Range>, i: nat)
    requires i < |s|
    ensures s == s[..i] + [s[i]] + s[i + 1..]
  {
  }

  class IpRangeSet {
    const maxIp: nat
    var ranges: seq<Range>

    predicate Valid() reads this { Normal(ranges, maxIp) }

    constructor (maxIp: nat)
      ensures Valid() && this.maxIp == maxIp && ranges == []
    {
      this.maxIp := maxIp;
      ranges := [];
    }

    /** After adding, exactly the union is covered, in normal form. */
    method Add(r: Range)
      requires Valid() && r.start <= r.end <= maxIp
      modifies this
      ensures Valid()
      ensures forall x :: Covers(ranges, x) <==> old(Covers(ranges, x)) || InRange(r, x)
    {
      var i, toAdd := 0, r;
      while i < |ranges|
        invariant 0 <= i <= |ranges|
        invariant Valid() && toAdd.start <= toAdd.end <= maxIp
        invariant forall j :: 0 <= j < i ==> ranges[j].end + 1 < toAdd.start
        invariant forall x :: Covers(ranges, x) || InRange(toAdd, x) <==> old(Covers(ranges, x)) || InRange(r, x)
        decreases |ranges| - i
      {
        var cur := ranges[i];
        if toAdd.end < cur.start && toAdd.end != maxIp && toAdd.end + 1 != cur.start { break; }
        SplitAround(ranges, i);
        ghost var a, b := ranges[..i], ranges[i + 1..];
        match Plus(cur, toAdd, maxIp)
        case None => i := i + 1;
        case Some(merged) =>
          if merged == cur {
            forall x | InRange(toAdd, x) ensures Covers(ranges, x) { assert InRange(ranges[i], x); }
            return;
          }
          DropOne(a, cur, b, maxIp);
          forall x ensures Covers(ranges, x) || InRange(toAdd, x) <==> Covers(a + b, x) || InRange(merged, x) {
            CoversAround(a, [cur], b, x);
            CoversOne(cur, x);
            CoversConcat(a, b, x);
          }
          ranges := ranges[..i] + ranges[i + 1..];
          toAdd := merged;
      }
      PlacedAt(ranges, i, toAdd, maxIp);
      ranges := Insert(ranges, toAdd);
    }

    /** After removing, exactly the difference is covered, in normal form. */
    method Remove(r: Range)
      requires Valid() && r.start <= r.end <= maxIp
      modifies this
      ensures Valid()
      ensures forall x :: Covers(ranges, x) <==> old(Covers(ranges, x)) && !InRange(r, x)
    {
      var i, split := 0, [];
      ghost var done := [];
      while i < |ranges|
        invariant 0 <= i <= |ranges| && old(ranges) == done + ranges[i..]
        invariant Removing(done, ranges[..i], split, ranges[i..], r, maxIp)
        decreases |ranges| - i
      {
        var cur := ranges[i];
        ghost var a, b := ranges[..i], ranges[i + 1..];
        assert ranges[i..] == [cur] + b;
        if r.end < cur.start { break; }
        assert done + ([cur] + b) == (done + [cur]) + b;
        match Minus(cur, r) {
          case None =>
            RemovingSkips(done, a, split, cur, b, r, maxIp);
            i := i + 1;
            assert ranges[..i] == a + [cur] && ranges[i..] == b;
          case Some(pieces) =>
            RemovingCuts(done, a, split, cur, b, r, maxIp);
            ranges := ranges[..i] + ranges[i + 1..];
            assert ranges[..i] == a && ranges[i..] == b;
            split := split + pieces;
        }
        done := done + [cur];
      }
      RemovingEnds(done, ranges[..i], split, ranges[i..], r, maxIp);
      assert ranges == ranges[..i] + ranges[i..];
      ranges := InsertAll(ranges, split);
    }

    /**
     * IpRangeSet.subnets: aligned blocks with exactly the set as their union, and no list of
     * such blocks with that union is shorter.
     */
    method Subnets(width: nat) returns (blocks: seq<Block>)
      requires Valid() && maxIp == Pow2(width) - 1
      ensures Fewest(blocks, ranges, width)
    {
      blocks := [];
      var i := 0;
      while i < |ranges|
        invariant 0 <= i <= |ranges| && Fewest(blocks, ranges[..i], width)
      {
        var more := RangeSubnets(width, ranges[i]);
        NextFewest(blocks, ranges, i, more, width, maxIp);
        blocks := blocks + more;
        i := i + 1;
      }
      assert ranges[..i] == ranges;
    }
  }

  lemma PlacedNormal(a: seq<Range>, r: Range, b: seq<Range>, maxIp: nat)
    requires Normal(a + b, maxIp) && r.start <= r.end <= maxIp
    requires forall j :: 0 <= j < |a| ==> a[j].end + 1 < r.start
    requires b != [] ==> r.end + 1 < b[0].start
    ensures Normal(a + [r] + b, maxIp)
  {
    var rs, s := a + b, a + [r] + b;
    assert forall p :: 0 <= p < |a| ==> s[p] == a[p] == rs[p];
    assert s[|a|] == r;
    assert forall p :: |a| < p < |s| ==> s[p] == rs[p - 1];
    forall q | |a| < q < |s| ensures r.end + 1 < s[q].start {
      assert rs[|a|] == b[0];
      assert q == |a| + 1 || rs[|a|].end + 1 < rs[q - 1].start;
    }
  }

  lemma PlacedAt(rs: seq<Range>, i: nat, r: Range, maxIp: nat)
    requires Normal(rs, maxIp) && i <= |rs| && r.start <= r.end <= maxIp
    requires forall j :: 0 <= j < i ==> rs[j].end + 1 < r.start
    requires i < |rs| ==> r.end + 1 < rs[i].start
    ensures Normal(Insert(rs, r), maxIp)
    ensures forall x :: Covers(Insert(rs, r), x) <==> Covers(rs, x) || InRange(r, x)
  {
    var a, b := rs[..i], rs[i..];
    assert rs == a + b;
    PlacedNormal(a, r, b, maxIp);
    InsertAt(a, r, b, maxIp);
    forall x ensures Covers(Insert(rs, r), x) <==> Covers(rs, x) || InRange(r, x) {
      CoversAround(a, [r], b, x);
      CoversOne(r, x);
      CoversConcat(a, b, x);
    }
  }

  /** Adding a whole list to the sorted set. */
  function InsertAll(rs: seq<Range>, more: seq<Range>): seq<Range>
    decreases more
  {
    if more == [] then rs else InsertAll(Insert(rs, more[0]), more[1..])
  }

  lemma {:induction false} InsertAllAt(a: seq<Range>, m: seq<Range>, b: seq<Range>, maxIp: nat)
    requires Normal(a + m + b, maxIp)
    ensures InsertAll(a + b, m) == a + m + b
    decreases m
  {
    if m != [] {
      var s, t := a + m + b, a + [m[0]] + b;
      assert forall i :: 0 <= i < |t| ==> t[i] == s[if i <= |a| then i else i + |m| - 1];
      InsertAt(a, m[0], b, maxIp);
      assert s == (a + [m[0]]) + m[1..] + b;
      InsertAllAt(a + [m[0]], m[1..], b, maxIp);
    } else {
      assert a + m + b == a + b;
    }
  }

  /**
   * What the removal loop keeps: `done` are the intervals seen so far, `a` those of them left
   * alone, `split` the remains of the others, `b` the intervals still to come.
   */
  ghost predicate Removing(done: seq<Range>, a: seq<Range>, split: seq<Range>, b: seq<Range>, r: Range, maxIp: nat) {
    && Normal(a + split + b, maxIp)
    && (forall j :: 0 <= j < |a| ==> a[j].end < r.start)
    && (forall j :: 0 <= j < |split| ==> split[j].end + 1 >= r.start)
    && (forall x :: Covers(a + split, x) <==> Covers(done, x) && !InRange(r, x))
  }

  lemma HeadAt(a: seq<Range>, m: seq<Range>, b: seq<Range>)
    ensures m != [] ==> (a + m + b)[|a|] == m[0]
  {
  }

  lemma RemovingSkips(done: seq<Range>, a: seq<Range>, split: seq<Range>, cur: Range, b: seq<Range>, r: Range, maxIp: nat)
    requires r.start <= r.end && Removing(done, a, split, [cur] + b, r, maxIp)
    requires r.end >= cur.start && Minus(cur, r).None?
    ensures Removing(done + [cur], a + [cur], split, b, r, maxIp)
  {
    var s := a + split + ([cur] + b);
    assert s[|a| + |split|] == cur;
    HeadAt(a, split, [cur] + b);
    assert a + [cur] + split + b == s;
    assert a + [cur] + split == (a + split) + [cur];
    forall x ensures Covers(a + [cur] + split, x) <==> Covers(done + [cur], x) && !InRange(r, x) {
      CoversConcat(a + split, [cur], x);
      CoversConcat(done, [cur], x);
      CoversOne(cur, x);
    }
  }

  lemma RemovingCuts(done: seq<Range>, a: seq<Range>, split: seq<Range>, cur: Range, b: seq<Range>, r: Range, maxIp: nat)
    requires r.start <= r.end && Removing(done, a, split, [cur] + b, r, maxIp)
    requires r.end >= cur.start && Minus(cur, r).Some?
    ensures Removing(done + [cur], a, split + Minus(cur, r).value, b, r, maxIp)
  {
    var pieces := Minus(cur, r).value;
    var s := a + split + ([cur] + b);
    assert s == (a + split) + [cur] + b;
    assert s[|a| + |split|] == cur;
    MinusNormal(cur, r, maxIp);
    ReplaceKeepsNormal(a + split, cur, pieces, b, maxIp);
    assert (a + split) + pieces + b == a + (split + pieces) + b;
    assert a + (split + pieces) == (a + split) + pieces;
    forall x ensures Covers(a + (split + pieces), x) <==> Covers(done + [cur], x) && !InRange(r, x) {
      CoversConcat(a + split, pieces, x);
      CoversConcat(done, [cur], x);
      CoversOne(cur, x);
      MinusCovers(cur, r, x);
    }
  }

  lemma RemovingEnds(done: seq<Range>, a: seq<Range>, split: seq<Range>, b: seq<Range>, r: Range, maxIp: nat)
    requires Removing(done, a, split, b, r, maxIp)
    requires b != [] ==> r.end < b[0].start
    ensures InsertAll(a + b, split) == a + split + b
    ensures forall x :: Covers(a + split + b, x) <==> Covers(done + b, x) && !InRange(r, x)
  {
    InsertAllAt(a, split, b, maxIp);
    var s := a + split + b;
    assert forall j :: 0 <= j < |b| ==> s[|a| + |split| + j] == b[j];
    assert forall j :: 0 <= j < |b| ==> r.end < b[j].start;
    forall x ensures Covers(s, x) <==> Covers(done + b, x) && !InRange(r, x) {
      CoversConcat(a + split, b, x);
      CoversConcat(done, b, x);
    }
  }

  lemma MinusNormal(a: Range, b: Range, maxIp: nat)
    requires a.start <= a.end <= maxIp && b.start <= b.end && Minus(a, b).Some?
    ensures Normal(Minus(a, b).value, maxIp)
    ensures forall p :: p in Minus(a, b).value ==> a.start <= p.start && p.end <= a.end && p.end + 1 >= b.start
  {
  }

  lemma MinusCovers(a: Range, b: Range, x: nat)
    requires b.start <= b.end && Minus(a, b).Some?
    ensures Covers(Minus(a, b).value, x) <==> InRange(a, x) && !InRange(b, x)
  {
    var m := Minus(a, b).value;
    if InRange(a, x) && !InRange(b, x) {
      if x < b.start { assert InRange(m[0], x); } else { assert InRange(m[|m| - 1], x); }
    }
  }

  /**
   * The normal form is unique: the stored list depends only on the set of addresses, so no
   * order of additions and removals with the same effect can be told apart.
   */
  lemma {:induction false} NormalIsUnique(a: seq<Range>, b: seq<Range>, maxIp: nat)
    requires Normal(a, maxIp) && Normal(b, maxIp)
    requires forall x :: Covers(a, x) <==> Covers(b, x)
    ensures a == b
  {
    FirstCovered(a, maxIp);
    FirstCovered(b, maxIp);
    if a != [] && b != [] {
      FirstAgrees(a, b, maxIp);
      TailsAgree(a, b, maxIp);
      NormalIsUnique(a[1..], b[1..], maxIp);
      assert a == [a[0]] + a[1..] && b == [b[0]] + b[1..];
    }
  }

  lemma TailsAgree(a: seq<Range>, b: seq<Range>, maxIp: nat)
    requires Normal(a, maxIp) && Normal(b, maxIp) && a != [] && b != [] && a[0] == b[0]
    requires forall x :: Covers(a, x) <==> Covers(b, x)
    ensures Normal(a[1..], maxIp) && Normal(b[1..], maxIp)
    ensures forall x :: Covers(a[1..], x) <==> Covers(b[1..], x)
  {
    forall x ensures Covers(a[1..], x) <==> Covers(b[1..], x) {
      TailCovers(a, x, maxIp);
      TailCovers(b, x, maxIp);
    }
  }

  lemma FirstCovered(a: seq<Range>, maxIp: nat)
    requires Normal(a, maxIp)
    ensures a != [] ==> Covers(a, a[0].start)
  {
    assert a != [] ==> InRange(a[0], a[0].start);
  }

  lemma TailCovers(a: seq<Range>, x: nat, maxIp: nat)
    requires Normal(a, maxIp) && a != []
    ensures Covers(a[1..], x) <==> Covers(a, x) && x > a[0].end
  {
    assert a == [a[0]] + a[1..];
    CoversConcat([a[0]], a[1..], x);
    CoversOne(a[0], x);
    if Covers(a[1..], x) {
      var i :| 0 <= i < |a[1..]| && InRange(a[1..][i], x);
      assert a[1..][i] == a[i + 1];
    }
  }

  lemma StartsAtLeast(a: seq<Range>, b: seq<Range>, maxIp: nat)
    requires Normal(a, maxIp) && Normal(b, maxIp) && a != [] && b != []
    requires forall x :: Covers(a, x) ==> Covers(b, x)
    ensures b[0].start <= a[0].start
    ensures a[0].start <= b[0].start ==> a[0].end <= b[0].end
  {
    assert InRange(a[0], a[0].start);
    assert Covers(b, a[0].start);
    assert !Covers(b, b[0].end + 1);
    assert !Covers(a, b[0].end + 1);
    assert !InRange(a[0], b[0].end + 1);
  }

  lemma FirstAgrees(a: seq<Range>, b: seq<Range>, maxIp: nat)
    requires Normal(a, maxIp) && Normal(b, maxIp) && a != [] && b != []
    requires forall x :: Covers(a, x) <==> Covers(b, x)
    ensures a[0] == b[0]
  {
    StartsAtLeast(a, b, maxIp);
    StartsAtLeast(b, a, maxIp);
  }

  // ---------------------------------------------------------------- CIDR blocks

  /** The network `net` with its low `free` bits free, that is, mask length width - free. */
  datatype Block = Block(net: nat, free: nat) {
    function Last(): nat { net + Pow2(free) - 1 }
  }

  predicate Aligned(b: Block, width: nat) {
    b.free <= width && Multiple(b.net, b.free) && b.Last() < Pow2(width)
  }

  predicate InBlock(b: Block, x: nat) { b.net <= x <= b.Last() }

  predicate InSome(bs: seq<Block>, x: nat) {
    exists i :: 0 <= i < |bs| && InBlock(bs[i], x)
  }

  lemma InSomeConcat(a: seq<Block>, b: seq<Block>, x: nat)
    ensures InSome(a + b, x) <==> InSome(a, x) || InSome(b, x)
  {
    if InSome(a, x) {
      var i :| 0 <= i < |a| && InBlock(a[i], x);
      assert InBlock((a + b)[i], x);
    }
    if InSome(b, x) {
      var i :| 0 <= i < |b| && InBlock(b[i], x);
      assert InBlock((a + b)[|a| + i], x);
    }
    if InSome(a + b, x) {
      var i :| 0 <= i < |a + b| && InBlock((a + b)[i], x);
      if i < |a| { assert InBlock(a[i], x); } else { assert InBlock(b[i - |a|], x); }
    }
  }

  lemma InSomeOne(b: Block, x: nat)
    ensures InSome([b], x) <==> InBlock(b, x)
  {
    if InBlock(b, x) { assert InBlock([b][0], x); }
  }

  /** Trailing zero bits of `x` in a word of `width` bits; all of them when x is zero. */
  function TrailingZeros(x: nat, width: nat): (k: nat)
    ensures k <= width
  {
    if width == 0 || x % 2 == 1 then 0 else 1 + TrailingZeros(x / 2, width - 1)
  }

  lemma {:induction false} TrailingZerosAlign(x: nat, width: nat, m: nat)
    requires m <= width
    ensures Multiple(x, m) <==> m <= TrailingZeros(x, width)
  {
    if m > 0 && x % 2 == 0 { TrailingZerosAlign(x / 2, width - 1, m - 1); }
  }

  /** An aligned block within `hi` that cannot be doubled in place. */
  predicate Maximal(b: Block, hi: nat, width: nat) {
    && Aligned(b, width) && b.Last() <= hi
    && (b.free < width ==> !(Multiple(b.net, b.free + 1) && b.net + Pow2(b.free + 1) - 1 <= hi))
  }

  /** The blocks follow one another without gap from `lo` up to but not including `next`. */
  predicate Tiling(bs: seq<Block>, lo: nat, next: nat) {
    if bs == [] then lo == next else
      && bs[0].net == lo && bs[|bs| - 1].Last() + 1 == next
      && (forall i :: 0 < i < |bs| ==> bs[i].net == bs[i - 1].Last() + 1)
  }

  /** The inner loop of IpRange.subnets: lengthen the mask until the block fits. */
  method FittingBlock(width: nat, current: nat, end: nat) returns (b: Block)
    requires current <= end < Pow2(width)
    ensures b.net == current && Maximal(b, end, width)
  {
    var free := TrailingZeros(current, width);
    TrailingZerosAlign(current, width, free);
    if free < width { TrailingZerosAlign(current, width, free + 1); }
    while current + Pow2(free) - 1 > end
      invariant 0 <= free <= width && Multiple(current, free)
      invariant free < width ==> !(Multiple(current, free + 1) && current + Pow2(free + 1) - 1 <= end)
      decreases free
    {
      MultipleOfSmaller(current, free - 1, free);
      free := free - 1;
    }
    b := Block(current, free);
  }

  /** IpRange.subnets: consecutive blocks, each as large as alignment and the end allow. */
  method RangeSubnets(width: nat, r: Range) returns (blocks: seq<Block>)
    requires r.start <= r.end < Pow2(width)
    ensures Tiling(blocks, r.start, r.end + 1)
    ensures forall i :: 0 <= i < |blocks| ==> Maximal(blocks[i], r.end, width)
  {
    var current := r.start;
    blocks := [];
    while current <= r.end
      invariant r.start <= current <= r.end + 1 && Tiling(blocks, r.start, current)
      invariant forall i :: 0 <= i < |blocks| ==> Maximal(blocks[i], r.end, width)
      decreases r.end + 1 - current
    {
      var b := FittingBlock(width, current, r.end);
      blocks := blocks + [b];
      if b.Last() == Pow2(width) - 1 { return; }
      current := b.Last() + 1;
    }
  }

  /** Nothing is lost and nothing is added by the decomposition. */
  lemma {:induction false} TilingCovers(bs: seq<Block>, lo: nat, next: nat, x: nat)
    requires Tiling(bs, lo, next)
    ensures lo <= next
    ensures InSome(bs, x) <==> lo <= x < next
    decreases |bs|
  {
    if bs != [] {
      var n := |bs| - 1;
      var init, b := bs[..n], bs[n];
      assert Tiling(init, lo, b.net) by {
        if n > 0 { assert init[n - 1] == bs[n - 1]; }
      }
      TilingCovers(init, lo, b.net, x);
      assert bs == init + [b];
      InSomeConcat(init, [b], x);
      InSomeOne(b, x);
    }
  }

  // ---------------------------------------------------------------- minimality

  /** Two aligned blocks that meet are nested: the one with fewer free bits lies inside. */
  lemma {:induction false} Nested(a: Block, b: Block, x: nat)
    requires Multiple(a.net, a.free) && Multiple(b.net, b.free) && a.free <= b.free
    requires InBlock(a, x) && InBlock(b, x)
    ensures b.net <= a.net && a.Last() <= b.Last()
    decreases a.free
  {
    if a.free > 0 {
      Nested(Block(a.net / 2, a.free - 1), Block(b.net / 2, b.free - 1), x / 2);
    }
  }

  function Avoiding(bs: seq<Block>, b: Block): seq<Block> {
    if bs == [] then []
    else (if bs[0].net <= b.Last() && b.net <= bs[0].Last() then [] else [bs[0]]) + Avoiding(bs[1..], b)
  }

  lemma {:induction false} AvoidingKeeps(bs: seq<Block>, b: Block)
    ensures |Avoiding(bs, b)| <= |bs|
    ensures forall c :: c in Avoiding(bs, b) <==> c in bs && !(c.net <= b.Last() && b.net <= c.Last())
  {
    if bs != [] { AvoidingKeeps(bs[1..], b); }
  }

  lemma {:induction false} AvoidingShrinks(bs: seq<Block>, b: Block, i: nat)
    requires i < |bs| && bs[i].net <= b.Last() && b.net <= bs[i].Last()
    ensures |Avoiding(bs, b)| < |bs|
  {
    if i == 0 { AvoidingKeeps(bs[1..], b); }
    else { AvoidingShrinks(bs[1..], b, i - 1); }
  }

  /** `bs` is some list of aligned blocks whose union is exactly lo .. hi, in any order. */
  predicate Decomposes(bs: seq<Block>, lo: nat, hi: nat, width: nat) {
    && (forall c :: c in bs ==> Aligned(c, width) && lo <= c.net && c.Last() <= hi)
    && (forall x :: lo <= x <= hi ==> InSome(bs, x))
  }

  /** No list of CIDR blocks with the same union is shorter than the one the code builds. */
  lemma {:induction false} SubnetsAreMinimal(bs: seq<Block>, lo: nat, hi: nat, width: nat, other: seq<Block>)
    requires Tiling(bs, lo, hi + 1)
    requires forall i :: 0 <= i < |bs| ==> Maximal(bs[i], hi, width)
    requires Decomposes(other, lo, hi, width)
    ensures |bs| <= |other|
    decreases |bs|
  {
    if bs != [] {
      var b := bs[0];
      forall c | c in other && c.net <= b.Last() ensures c.Last() <= b.Last() { InsideFirst(b, c, hi, width); }
      DropFirst(other, b, hi, width);
      assert InSome(other, lo);
      var i :| 0 <= i < |other| && InBlock(other[i], lo);
      AvoidingShrinks(other, b, i);
      if |bs| > 1 { SubnetsAreMinimal(bs[1..], b.Last() + 1, hi, width, Avoiding(other, b)); }
    }
  }

  lemma DropFirst(other: seq<Block>, b: Block, hi: nat, width: nat)
    requires Decomposes(other, b.net, hi, width)
    requires forall c :: c in other && c.net <= b.Last() ==> c.Last() <= b.Last()
    ensures Decomposes(Avoiding(other, b), b.Last() + 1, hi, width)
  {
    var rest := Avoiding(other, b);
    AvoidingKeeps(other, b);
    forall x | b.Last() + 1 <= x <= hi ensures InSome(rest, x) {
      assert InSome(other, x);
      var i :| 0 <= i < |other| && InBlock(other[i], x);
      assert other[i] in rest;
      var j :| 0 <= j < |rest| && rest[j] == other[i];
      assert InBlock(rest[j], x);
    }
  }

  lemma InsideFirst(b: Block, c: Block, hi: nat, width: nat)
    requires Maximal(b, hi, width) && Aligned(c, width)
    requires b.net <= c.net <= b.Last() && c.Last() <= hi
    ensures c.Last() <= b.Last()
  {
    if c.free <= b.free {
      Nested(c, b, c.net);
    } else {
      Nested(b, c, c.net);
      MultipleOfSmaller(c.net, b.free + 1, c.free);
      if b.free + 1 < c.free { Pow2Grows(b.free + 1, c.free); }
    }
  }

  // ---------------------------------------------------------------- the whole set

  /** Aligned blocks whose union is the union of the intervals. */
  ghost predicate SameUnion(bs: seq<Block>, rs: seq<Range>, width: nat) {
    && (forall c :: c in bs ==> Aligned(c, width))
    && (forall x :: InSome(bs, x) <==> Covers(rs, x))
  }

  /** And no list of aligned blocks with that union is shorter. */
  ghost predicate Fewest(bs: seq<Block>, rs: seq<Range>, width: nat) {
    SameUnion(bs, rs, width) && forall other :: SameUnion(other, rs, width) ==> |bs| <= |other|
  }

  lemma NextFewest(blocks: seq<Block>, rs: seq<Range>, i: nat, more: seq<Block>, width: nat, maxIp: nat)
    requires Normal(rs, maxIp) && i < |rs| && Fewest(blocks, rs[..i], width)
    requires Tiling(more, rs[i].start, rs[i].end + 1)
    requires forall k :: 0 <= k < |more| ==> Maximal(more[k], rs[i].end, width)
    ensures Fewest(blocks + more, rs[..i + 1], width)
  {
    assert rs[..i + 1] == rs[..i] + [rs[i]];
    PrefixNormal(rs, i + 1, maxIp);
    NextUnion(blocks, rs[..i], more, rs[i], width);
    forall other | SameUnion(other, rs[..i + 1], width) ensures |blocks + more| <= |other| {
      NextMinimal(blocks, rs[..i], more, rs[i], other, width, maxIp);
    }
  }

  lemma PrefixNormal(rs: seq<Range>, i: nat, maxIp: nat)
    requires Normal(rs, maxIp) && i <= |rs|
    ensures Normal(rs[..i], maxIp)
  {
  }

  lemma NextUnion(blocks: seq<Block>, rs: seq<Range>, more: seq<Block>, r: Range, width: nat)
    requires SameUnion(blocks, rs, width) && Tiling(more, r.start, r.end + 1)
    requires forall i :: 0 <= i < |more| ==> Maximal(more[i], r.end, width)
    ensures SameUnion(blocks + more, rs + [r], width)
  {
    forall x ensures InSome(blocks + more, x) <==> Covers(rs + [r], x) {
      CoversConcat(rs, [r], x);
      CoversOne(r, x);
      InSomeConcat(blocks, more, x);
      TilingCovers(more, r.start, r.end + 1, x);
    }
  }

  function Inside(bs: seq<Block>, r: Range): seq<Block> {
    if bs == [] then [] else (if InRange(r, bs[0].net) then [bs[0]] else []) + Inside(bs[1..], r)
  }

  function Outside(bs: seq<Block>, r: Range): seq<Block> {
    if bs == [] then [] else (if InRange(r, bs[0].net) then [] else [bs[0]]) + Outside(bs[1..], r)
  }

  lemma {:induction false} Parted(bs: seq<Block>, r: Range)
    ensures |Inside(bs, r)| + |Outside(bs, r)| == |bs|
    ensures forall c :: c in Inside(bs, r) <==> c in bs && InRange(r, c.net)
    ensures forall c :: c in Outside(bs, r) <==> c in bs && !InRange(r, c.net)
  {
    if bs != [] { Parted(bs[1..], r); }
  }

  lemma InSomeMember(bs: seq<Block>, c: Block, x: nat)
    requires c in bs && InBlock(c, x)
    ensures InSome(bs, x)
  {
    var i :| 0 <= i < |bs| && bs[i] == c;
    assert InBlock(bs[i], x);
  }

  /** A covered stretch cannot jump the gap in front of the last interval. */
  lemma {:induction false} StaysBehind(rs: seq<Range>, r: Range, from: nat, to: nat, maxIp: nat)
    requires Normal(rs + [r], maxIp) && from <= to
    requires forall x :: from <= x <= to ==> Covers(rs + [r], x)
    ensures InRange(r, from) ==> to <= r.end
    ensures !InRange(r, from) ==> to < r.start
  {
    var s := rs + [r];
    assert Covers(s, from) && Covers(s, to);
    assert from < r.start <= to ==> Covers(s, r.start - 1);
    GapsAround(rs, r, maxIp);
  }

  lemma GapsAround(rs: seq<Range>, r: Range, maxIp: nat)
    requires Normal(rs + [r], maxIp)
    ensures forall x :: x > r.end ==> !Covers(rs + [r], x)
    ensures r.start > 0 ==> !Covers(rs + [r], r.start - 1)
  {
    var s := rs + [r];
    assert s[|rs|] == r && forall i :: 0 <= i < |rs| ==> s[i] == rs[i];
  }

  lemma BlocksFit(rs: seq<Range>, r: Range, other: seq<Block>, width: nat, maxIp: nat)
    requires Normal(rs + [r], maxIp) && SameUnion(other, rs + [r], width)
    ensures forall c :: c in other ==> if InRange(r, c.net) then c.Last() <= r.end else c.Last() < r.start
  {
    forall c | c in other ensures if InRange(r, c.net) then c.Last() <= r.end else c.Last() < r.start {
      forall x | c.net <= x <= c.Last() ensures Covers(rs + [r], x) { InSomeMember(other, c, x); }
      StaysBehind(rs, r, c.net, c.Last(), maxIp);
    }
  }

  lemma InsidePart(rs: seq<Range>, r: Range, other: seq<Block>, width: nat, maxIp: nat)
    requires Normal(rs + [r], maxIp) && SameUnion(other, rs + [r], width)
    ensures Decomposes(Inside(other, r), r.start, r.end, width)
  {
    Parted(other, r);
    BlocksFit(rs, r, other, width, maxIp);
    forall x | r.start <= x <= r.end ensures InSome(Inside(other, r), x) {
      CoversConcat(rs, [r], x);
      CoversOne(r, x);
      var i :| 0 <= i < |other| && InBlock(other[i], x);
      InSomeMember(Inside(other, r), other[i], x);
    }
  }

  lemma OutsidePart(rs: seq<Range>, r: Range, other: seq<Block>, width: nat, maxIp: nat)
    requires Normal(rs + [r], maxIp) && SameUnion(other, rs + [r], width)
    ensures SameUnion(Outside(other, r), rs, width)
  {
    Parted(other, r);
    BlocksFit(rs, r, other, width, maxIp);
    var outer := Outside(other, r);
    forall x ensures InSome(outer, x) <==> Covers(rs, x) {
      CoversConcat(rs, [r], x);
      CoversOne(r, x);
      EndsBefore(rs, r, x, maxIp);
      if Covers(rs, x) {
        var i :| 0 <= i < |other| && InBlock(other[i], x);
        InSomeMember(outer, other[i], x);
      }
      if InSome(outer, x) {
        var i :| 0 <= i < |outer| && InBlock(outer[i], x);
        InSomeMember(other, outer[i], x);
      }
    }
  }

  lemma EndsBefore(rs: seq<Range>, r: Range, x: nat, maxIp: nat)
    requires Normal(rs + [r], maxIp)
    ensures Covers(rs, x) ==> x < r.start
  {
    var s := rs + [r];
    assert s[|rs|] == r && forall i :: 0 <= i < |rs| ==> s[i] == rs[i];
  }

  lemma NextMinimal(blocks: seq<Block>, rs: seq<Range>, more: seq<Block>, r: Range, other: seq<Block>, width: nat, maxIp: nat)
    requires Normal(rs + [r], maxIp) && SameUnion(other, rs + [r], width)
    requires forall o :: SameUnion(o, rs, width) ==> |blocks| <= |o|
    requires Tiling(more, r.start, r.end + 1)
    requires forall i :: 0 <= i < |more| ==> Maximal(more[i], r.end, width)
    ensures |blocks + more| <= |other|
  {
    InsidePart(rs, r, other, width, maxIp);
    OutsidePart(rs, r, other, width, maxIp);
    Parted(other, r);
    SubnetsAreMinimal(more, r.start, r.end, width, Inside(other, r));
  }
}
