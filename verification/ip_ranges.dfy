/** Public IPv4 address ranges as inclusive integer intervals: the table of
    public ranges, its total size, intersection with a requested interval,
    division into pieces of about equal size, and the loop that calls a
    function for every address of an interval. Addresses are the 32-bit
    unsigned integers of their dotted form. */
module IpRanges {

  /** The addresses `lo` .. `hi`, both included. */
  datatype Range = Range(lo: int, hi: int)

  const AddressSpace: int := 0x1_0000_0000

  /** The integers that have a dotted form: converting any other integer to
      text raises an error, so the operations that write an address out
      require this of it. */
  predicate InAddressSpace(x: int) {
    0 <= x < AddressSpace
  }

  predicate Contains(r: Range, x: int) {
    r.lo <= x <= r.hi
  }

  function Size(r: Range): (n: int) {
    r.hi - r.lo + 1
  }

  /** `inner` lies inside `outer`. */
  predicate Inside(inner: Range, outer: Range) {
    outer.lo <= inner.lo && inner.hi <= outer.hi
  }

  /** Some range of `rs` contains `x`. */
  predicate Covered(rs: seq<Range>, x: int) {
    exists j :: 0 <= j < |rs| && Contains(rs[j], x)
  }

  predicate NonEmpty(rs: seq<Range>) {
    forall j :: 0 <= j < |rs| ==> rs[j].lo <= rs[j].hi
  }

  /** Every range ends before the next one starts: sorted and disjoint. */
  predicate Ascending(rs: seq<Range>) {
    forall j, k :: 0 <= j < k < |rs| ==> rs[j].hi < rs[k].lo
  }

  /** `q` lies inside one of the first `n` ranges of `table`. */
  predicate InsideOne(q: Range, table: seq<Range>, n: int)
    requires n <= |table|
  {
    exists t :: 0 <= t < n && Inside(q, table[t])
  }

  /** Every range of `rs` lies inside one range of `table`. */
  predicate EachInsideOne(rs: seq<Range>, table: seq<Range>) {
    forall j :: 0 <= j < |rs| ==> InsideOne(rs[j], table, |table|)
  }

  /** `getValidPublicIpRange`: the thirteen public ranges, in address order. */
  function ValidPublicIpRange(): (table: seq<Range>)
    ensures |table| == 13
    ensures NonEmpty(table) && Ascending(table)
    ensures forall j :: 0 <= j < |table| ==> 0 <= table[j].lo && table[j].hi < AddressSpace
  {
    [ Range(16777216, 167772159),    // 1.0.0.0 .. 9.255.255.255
      Range(184549376, 1681915903),  // 11.0.0.0 .. 100.63.255.255
      Range(1686110208, 2130641151), // 100.128.0.0 .. 126.255.0.255
      Range(2147483648, 2851995647), // 128.0.0.0 .. 169.253.255.255
      Range(2852061184, 2886729727), // 169.255.0.0 .. 172.15.255.255
      Range(2887778304, 3221225471), // 172.32.0.0 .. 191.255.255.255
      Range(3221225728, 3221225983), // 192.0.1.0 .. 192.0.1.255
      Range(3221226240, 3227017983), // 192.0.3.0 .. 192.88.98.255
      Range(3227018240, 3232235519), // 192.88.100.0 .. 192.167.255.255
      Range(3232301056, 3323068415), // 192.169.0.0 .. 198.17.255.255
      Range(3323199488, 3325256703), // 198.20.0.0 .. 198.51.99.255
      Range(3325256960, 3405803775), // 198.51.101.0 .. 203.0.112.255
      Range(3405804032, 3744923903)  // 203.0.114.0 .. 223.55.0.255
    ]
  }

  /** The number of addresses in `rs`, summed in order. */
  function Total(rs: seq<Range>): (n: int)
    decreases |rs|
  {
    if |rs| == 0 then 0 else Total(rs[..|rs| - 1]) + Size(rs[|rs| - 1])
  }

  /** `getNumberOfPublicIp`: the stored constant is the number of addresses
      in the table. */
  function NumberOfPublicIp(): (n: int)
    ensures n == Total(ValidPublicIpRange())
  {
    var t := ValidPublicIpRange();
    assert t[..13] == t;
    TotalPrefix(t, 0);
    assert Total(t[..1]) == 150994944;
    TotalPrefix(t, 1);
    assert Total(t[..2]) == 1648361472;
    TotalPrefix(t, 2);
    assert Total(t[..3]) == 2092892416;
    TotalPrefix(t, 3);
    assert Total(t[..4]) == 2797404416;
    TotalPrefix(t, 4);
    assert Total(t[..5]) == 2832072960;
    TotalPrefix(t, 5);
    assert Total(t[..6]) == 3165520128;
    TotalPrefix(t, 6);
    assert Total(t[..7]) == 3165520384;
    TotalPrefix(t, 7);
    assert Total(t[..8]) == 3171312128;
    TotalPrefix(t, 8);
    assert Total(t[..9]) == 3176529408;
    TotalPrefix(t, 9);
    assert Total(t[..10]) == 3267296768;
    TotalPrefix(t, 10);
    assert Total(t[..11]) == 3269353984;
    TotalPrefix(t, 11);
    assert Total(t[..12]) == 3349900800;
    TotalPrefix(t, 12);
    assert Total(t[..13]) == 3689020672;
    3689020672
  }

  /** One more range of a prefix adds its size to the total. */
  lemma TotalPrefix(rs: seq<Range>, k: int)
    requires 0 <= k < |rs|
    ensures Total(rs[..k + 1]) == Total(rs[..k]) + Size(rs[k])
  {
    assert rs[..k + 1][..k] == rs[..k];
  }

  // ---- coverage of concatenations ----

  lemma CoveredConcat(a: seq<Range>, b: seq<Range>, x: int)
    ensures Covered(a + b, x) <==> Covered(a, x) || Covered(b, x)
  {
    if Covered(a + b, x) {
      var j :| 0 <= j < |a + b| && Contains((a + b)[j], x);
      if j >= |a| {
        assert b[j - |a|] == (a + b)[j];
      }
    }
    if Covered(a, x) {
      var j :| 0 <= j < |a| && Contains(a[j], x);
      assert (a + b)[j] == a[j];
    }
    if Covered(b, x) {
      var j :| 0 <= j < |b| && Contains(b[j], x);
      assert (a + b)[|a| + j] == b[j];
    }
  }

  lemma CoveredSingle(q: Range, x: int)
    ensures Covered([q], x) <==> Contains(q, x)
  {
    if Contains(q, x) {
      assert [q][0] == q;
    }
  }

  // ---- getValidPublicIps ----

  function Max(a: int, b: int): (m: int) { if a >= b then a else b }
  function Min(a: int, b: int): (m: int) { if a <= b then a else b }

  /** Appending a range that lies after all of `r` and inside one of the
      first `n` table ranges keeps `r` sorted and each range inside one. */
  lemma AppendOne(r: seq<Range>, q: Range, table: seq<Range>, n: int)
    requires 0 < n <= |table|
    requires NonEmpty(r) && Ascending(r) && q.lo <= q.hi && Inside(q, table[n - 1])
    requires forall j :: 0 <= j < |r| ==> r[j].hi < q.lo && InsideOne(r[j], table, n)
    ensures NonEmpty(r + [q]) && Ascending(r + [q])
    ensures forall j :: 0 <= j < |r + [q]| ==> InsideOne((r + [q])[j], table, n)
  {
    AscendingConcat(r, [q]);
    forall j | 0 <= j < |r + [q]| ensures InsideOne((r + [q])[j], table, n) {
      if j < |r| {
        assert (r + [q])[j] == r[j];
      } else {
        assert (r + [q])[j] == q;
      }
    }
  }

  /** What lies inside one of the first `n` ranges lies inside one of the
      first `n + 1`. */
  lemma InsideOneMore(r: seq<Range>, table: seq<Range>, n: int)
    requires n < |table|
    requires forall j :: 0 <= j < |r| ==> InsideOne(r[j], table, n)
    ensures forall j :: 0 <= j < |r| ==> InsideOne(r[j], table, n + 1)
  {
    forall j | 0 <= j < |r| ensures InsideOne(r[j], table, n + 1) {
      assert InsideOne(r[j], table, n);
      var t :| 0 <= t < n && Inside(r[j], table[t]);
    }
  }

  /** Some of the first `n` ranges of `rs` contains `x`. */
  predicate CoveredUpTo(rs: seq<Range>, n: int, x: int)
    requires n <= |rs|
  {
    exists j :: 0 <= j < n && Contains(rs[j], x)
  }

  /** What the loop of `getValidPublicIps` has built after the first `n`
      table ranges: sorted, disjoint, inside `begin` .. `end` and each inside
      one of those ranges, covering exactly their addresses in the interval. */
  ghost predicate Clipped(r: seq<Range>, table: seq<Range>, n: int, begin: int, end: int)
    requires n <= |table|
  {
    && NonEmpty(r) && Ascending(r)
    && (forall j :: 0 <= j < |r| ==> begin <= r[j].lo && r[j].hi <= end)
    && (forall j :: 0 <= j < |r| ==> InsideOne(r[j], table, n))
    && (forall x :: Covered(r, x) <==> begin <= x <= end && CoveredUpTo(table, n, x))
  }

  lemma CoveredUpToNext(table: seq<Range>, i: int, x: int)
    requires 0 <= i < |table|
    ensures CoveredUpTo(table, i + 1, x) <==> CoveredUpTo(table, i, x) || Contains(table[i], x)
  {
    if CoveredUpTo(table, i + 1, x) {
      var j :| 0 <= j < i + 1 && Contains(table[j], x);
    }
  }

  /** A table range that misses `begin` .. `end` adds nothing. */
  lemma ClipSkip(r: seq<Range>, table: seq<Range>, i: int, begin: int, end: int)
    requires 0 <= i < |table| && Clipped(r, table, i, begin, end)
    requires Max(begin, table[i].lo) > Min(end, table[i].hi)
    ensures Clipped(r, table, i + 1, begin, end)
  {
    InsideOneMore(r, table, i);
    forall x ensures CoveredUpTo(table, i + 1, x) <==> CoveredUpTo(table, i, x) || Contains(table[i], x) {
      CoveredUpToNext(table, i, x);
    }
  }

  /** A table range that meets `begin` .. `end` adds its overlap with it. */
  lemma ClipAppend(r: seq<Range>, q: Range, table: seq<Range>, i: int, begin: int, end: int)
    requires 0 <= i < |table| && Ascending(table) && Clipped(r, table, i, begin, end)
    requires q == Range(Max(begin, table[i].lo), Min(end, table[i].hi)) && q.lo <= q.hi
    ensures Clipped(r + [q], table, i + 1, begin, end)
  {
    forall j | 0 <= j < |r| ensures r[j].hi < q.lo && InsideOne(r[j], table, i + 1) {
      assert InsideOne(r[j], table, i);
      var t :| 0 <= t < i && Inside(r[j], table[t]);
    }
    assert Inside(q, table[i]);
    AppendOne(r, q, table, i + 1);
    forall x ensures Covered(r + [q], x) <==> begin <= x <= end && CoveredUpTo(table, i + 1, x) {
      CoveredConcat(r, [q], x);
      CoveredSingle(q, x);
      CoveredUpToNext(table, i, x);
    }
  }

  /** After the whole table, the result is what `getValidPublicIps` promises. */
  lemma ClipDone(r: seq<Range>, table: seq<Range>, begin: int, end: int)
    requires Clipped(r, table, |table|, begin, end)
    ensures EachInsideOne(r, table)
    ensures forall x :: Covered(r, x) <==> begin <= x <= end && Covered(table, x)
  {
    forall x ensures CoveredUpTo(table, |table|, x) == Covered(table, x) {
    }
  }

  /** The loop of `getValidPublicIps`: the overlap of each range of `table`
      with `begin` .. `end`, in table order, skipping ranges that miss it. */
  method Intersect(table: seq<Range>, begin: int, end: int) returns (r: seq<Range>)
    requires NonEmpty(table) && Ascending(table)
    ensures NonEmpty(r) && Ascending(r)
    ensures forall j :: 0 <= j < |r| ==> begin <= r[j].lo && r[j].hi <= end
    ensures EachInsideOne(r, table)
    ensures forall x :: Covered(r, x) <==> begin <= x <= end && Covered(table, x)
  {
    r := [];
    var i := 0;
    while i < |table|
      invariant 0 <= i <= |table|
      invariant Clipped(r, table, i, begin, end)
    {
      var p := table[i];
      if p.lo <= end && p.hi >= begin {
        var lo := Max(begin, p.lo);
        var hi := Min(end, p.hi);
        if lo <= hi {
          ClipAppend(r, Range(lo, hi), table, i, begin, end);
          r := r + [Range(lo, hi)];
        } else {
          ClipSkip(r, table, i, begin, end);
        }
      } else {
        ClipSkip(r, table, i, begin, end);
      }
      i := i + 1;
    }
    ClipDone(r, table, begin, end);
  }

  /** Once a non-empty range passes the overlap test of the loop, its clipped
      part is never empty when `begin <= end`: the second test of the loop
      only matters for an empty interval, which `ValidPublicIps` returns on
      before the loop. */
  lemma OverlapNotEmpty(p: Range, begin: int, end: int)
    requires begin <= end && p.lo <= p.hi && p.lo <= end && p.hi >= begin
    ensures Max(begin, p.lo) <= Min(end, p.hi)
  {
  }

  /** `getValidPublicIps`: the parts of the public ranges that lie between
      `begin` and `end`, in table order; nothing when `begin > end`, after
      writing both out in the error message. */
  method ValidPublicIps(begin: int, end: int) returns (r: seq<Range>)
    requires begin > end ==> InAddressSpace(begin) && InAddressSpace(end)
    ensures begin > end ==> r == []
    ensures NonEmpty(r) && Ascending(r)
    ensures forall j :: 0 <= j < |r| ==> begin <= r[j].lo && r[j].hi <= end
    ensures EachInsideOne(r, ValidPublicIpRange())
    ensures forall x :: Covered(r, x) <==> begin <= x <= end && Covered(ValidPublicIpRange(), x)
  {
    if begin > end {
      return [];
    }
    r := Intersect(ValidPublicIpRange(), begin, end);
  }

  // ---- getDividedPublicIpRange ----

  /** The pieces the inner loop cuts from `start` .. `hi`: `step` addresses at
      a time, and what is left over as a last, smaller piece. */
  function Pieces(start: int, hi: int, step: int): (p: seq<Range>)
    requires step >= 1
    decreases hi - start + 1
  {
    if start > hi then []
    else if hi - start + 1 >= step then [Range(start, start + step - 1)] + Pieces(start + step, hi, step)
    else [Range(start, hi)]
  }

  /** The pieces of every range of `rs`, in order. */
  function SplitAll(rs: seq<Range>, step: int): (s: seq<Range>)
    requires step >= 1
    decreases |rs|
  {
    if |rs| == 0 then [] else SplitAll(rs[..|rs| - 1], step) + Pieces(rs[|rs| - 1].lo, rs[|rs| - 1].hi, step)
  }

  /** `p` tiles `start` .. `hi` exactly: its ranges follow each other with no
      gap, begin at `start` and end at `hi`; each has `step` addresses except
      the last, which has between 1 and `step`. */
  predicate Tiles(p: seq<Range>, start: int, hi: int, step: int) {
    && (start > hi <==> p == [])
    && (start <= hi ==> p[0].lo == start && p[|p| - 1].hi == hi)
    && (forall j :: 0 <= j < |p| - 1 ==> p[j].hi + 1 == p[j + 1].lo && Size(p[j]) == step)
    && (forall j :: 0 <= j < |p| ==> 1 <= Size(p[j]) <= step)
  }

  lemma {:induction false} PiecesTile(start: int, hi: int, step: int)
    requires step >= 1
    ensures Tiles(Pieces(start, hi, step), start, hi, step)
    decreases hi - start + 1
  {
    if start <= hi && hi - start + 1 >= step {
      PiecesTile(start + step, hi, step);
      var head, rest := Range(start, start + step - 1), Pieces(start + step, hi, step);
      var p := [head] + rest;
      assert Pieces(start, hi, step) == p;
      forall j | 0 <= j < |p| - 1 ensures p[j].hi + 1 == p[j + 1].lo && Size(p[j]) == step {
        if j > 0 {
          assert p[j] == rest[j - 1] && p[j + 1] == rest[j];
        }
      }
      forall j | 0 <= j < |p| ensures 1 <= Size(p[j]) <= step {
        if j > 0 {
          assert p[j] == rest[j - 1];
        }
      }
      if rest != [] {
        assert p[|p| - 1] == rest[|rest| - 1];
      }
    } else if start <= hi {
      assert Pieces(start, hi, step) == [Range(start, hi)];
    }
  }

  /** `p` is sorted, disjoint, lies in `start` .. `hi` and covers all of it. */
  ghost predicate CoversExactly(p: seq<Range>, start: int, hi: int) {
    && NonEmpty(p) && Ascending(p)
    && (forall j :: 0 <= j < |p| ==> start <= p[j].lo && p[j].hi <= hi)
    && (forall x :: Covered(p, x) <==> start <= x <= hi)
  }

  lemma {:induction false} PiecesCover(start: int, hi: int, step: int)
    requires step >= 1
    ensures CoversExactly(Pieces(start, hi, step), start, hi)
    decreases hi - start + 1
  {
    if start <= hi && hi - start + 1 >= step {
      PiecesCover(start + step, hi, step);
      var head, rest := Range(start, start + step - 1), Pieces(start + step, hi, step);
      var p := [head] + rest;
      assert Pieces(start, hi, step) == p;
      forall j | 0 <= j < |p| ensures start <= p[j].lo <= p[j].hi <= hi {
        if j > 0 {
          assert p[j] == rest[j - 1];
        }
      }
      forall j, k | 0 <= j < k < |p| ensures p[j].hi < p[k].lo {
        assert p[k] == rest[k - 1];
        if j > 0 {
          assert p[j] == rest[j - 1];
        }
      }
      forall x ensures Covered(p, x) <==> start <= x <= hi {
        CoveredConcat([head], rest, x);
        CoveredSingle(head, x);
      }
    } else if start <= hi {
      assert Pieces(start, hi, step) == [Range(start, hi)];
      forall x ensures Covered([Range(start, hi)], x) <==> start <= x <= hi {
        CoveredSingle(Range(start, hi), x);
      }
    }
  }

  /** The properties the division keeps, for pieces `s` of the ranges `rs`. */
  ghost predicate DividedWell(s: seq<Range>, rs: seq<Range>, step: int) {
    && NonEmpty(s) && Ascending(s)
    && EachInsideOne(s, rs)
    && (forall j :: 0 <= j < |s| ==> Size(s[j]) <= step)
    && (forall x :: Covered(s, x) <==> Covered(rs, x))
  }

  /** Two sorted lists, the first wholly before the second, join sorted. */
  lemma {:induction false} AscendingConcat(a: seq<Range>, b: seq<Range>)
    requires Ascending(a) && Ascending(b)
    requires forall j, k :: 0 <= j < |a| && 0 <= k < |b| ==> a[j].hi < b[k].lo
    ensures Ascending(a + b)
  {
    forall j, k | 0 <= j < k < |a + b| ensures (a + b)[j].hi < (a + b)[k].lo {
      if k < |a| {
        assert (a + b)[j] == a[j] && (a + b)[k] == a[k];
      } else if j >= |a| {
        assert (a + b)[j] == b[j - |a|] && (a + b)[k] == b[k - |a|];
      } else {
        assert (a + b)[j] == a[j] && (a + b)[k] == b[k - |a|];
      }
    }
  }

  /** Every piece is non-empty, at most `step` long and inside the range it
      was cut from. */
  lemma {:induction false} SplitAllInside(rs: seq<Range>, step: int)
    requires step >= 1
    ensures NonEmpty(SplitAll(rs, step)) && EachInsideOne(SplitAll(rs, step), rs)
    ensures forall j :: 0 <= j < |SplitAll(rs, step)| ==> Size(SplitAll(rs, step)[j]) <= step
    decreases |rs|
  {
    if |rs| > 0 {
      var init, last := rs[..|rs| - 1], rs[|rs| - 1];
      SplitAllInside(init, step);
      PiecesCover(last.lo, last.hi, step);
      PiecesTile(last.lo, last.hi, step);
      var a, b := SplitAll(init, step), Pieces(last.lo, last.hi, step);
      var s := a + b;
      assert SplitAll(rs, step) == s;
      forall j | 0 <= j < |s|
        ensures s[j].lo <= s[j].hi && Size(s[j]) <= step && InsideOne(s[j], rs, |rs|)
      {
        if j < |a| {
          assert s[j] == a[j];
          var t :| 0 <= t < |init| && Inside(a[j], init[t]);
          assert rs[t] == init[t];
        } else {
          assert s[j] == b[j - |a|];
          assert Inside(s[j], rs[|rs| - 1]);
        }
      }
    }
  }

  /** The pieces of sorted, disjoint ranges are sorted and disjoint. */
  lemma {:induction false} SplitAllAscending(rs: seq<Range>, step: int)
    requires step >= 1 && NonEmpty(rs) && Ascending(rs)
    ensures Ascending(SplitAll(rs, step))
    decreases |rs|
  {
    if |rs| > 0 {
      var init, last := rs[..|rs| - 1], rs[|rs| - 1];
      SplitAllAscending(init, step);
      SplitAllInside(init, step);
      PiecesCover(last.lo, last.hi, step);
      var a, b := SplitAll(init, step), Pieces(last.lo, last.hi, step);
      forall j, k | 0 <= j < |a| && 0 <= k < |b| ensures a[j].hi < b[k].lo {
        var t :| 0 <= t < |init| && Inside(a[j], init[t]);
        assert rs[t] == init[t];
      }
      AscendingConcat(a, b);
    }
  }

  /** The pieces cover exactly the addresses the ranges cover. */
  lemma {:induction false} SplitAllCovered(rs: seq<Range>, step: int, x: int)
    requires step >= 1
    ensures Covered(SplitAll(rs, step), x) <==> Covered(rs, x)
    decreases |rs|
  {
    if |rs| > 0 {
      var init, last := rs[..|rs| - 1], rs[|rs| - 1];
      SplitAllCovered(init, step, x);
      PiecesCover(last.lo, last.hi, step);
      CoveredConcat(SplitAll(init, step), Pieces(last.lo, last.hi, step), x);
      assert rs == init + [last];
      CoveredConcat(init, [last], x);
      CoveredSingle(last, x);
    }
  }

  /** All of the above together. */
  lemma SplitAllCover(rs: seq<Range>, step: int)
    requires step >= 1 && NonEmpty(rs) && Ascending(rs)
    ensures DividedWell(SplitAll(rs, step), rs, step)
  {
    SplitAllInside(rs, step);
    SplitAllAscending(rs, step);
    forall x ensures Covered(SplitAll(rs, step), x) <==> Covered(rs, x) {
      SplitAllCovered(rs, step, x);
    }
  }

  /** Cutting `start` .. `hi` gives just enough pieces of at most `step`
      addresses: one fewer piece would not hold them all. */
  lemma {:induction false} PiecesCount(start: int, hi: int, step: int)
    requires step >= 1 && start <= hi
    ensures hi - start + 1 <= |Pieces(start, hi, step)| * step
    ensures (|Pieces(start, hi, step)| - 1) * step < hi - start + 1
    decreases hi - start + 1
  {
    if hi - start + 1 > step {
      PiecesCount(start + step, hi, step);
      var k := |Pieces(start + step, hi, step)|;
      assert |Pieces(start, hi, step)| == k + 1;
      assert (k + 1) * step == k * step + step;
    } else if hi - start + 1 == step {
      assert Pieces(start + step, hi, step) == [];
    }
  }

  lemma SumBelowProduct(x: int, y: int, a: int, p: int, d: int)
    requires x <= a * d && y <= p * d
    ensures x + y <= (a + p) * d
  {
    assert (a + p) * d == a * d + p * d;
  }

  lemma DivSum(a: int, b: int, d: int)
    requires a >= 0 && b >= 0 && d >= 1
    ensures a / d + b / d <= (a + b) / d
  {
    var qa, qb := a / d, b / d;
    assert qa * d <= a && qb * d <= b;
    assert (qa + qb) * d <= a + b;
    DivLower(qa + qb, a + b, d);
  }

  lemma DivLower(k: int, a: int, d: int)
    requires d >= 1 && k * d <= a
    ensures k <= a / d
  {
    var q := a / d;
    assert a == q * d + a % d && a % d < d;
    assert (k - q - 1) * d == k * d - (q + 1) * d;
    assert (k - q - 1) * d < 0;
  }

  /** The division yields at least `total / step` pieces, rounded up: no
      piece is larger than `step`. */
  lemma {:induction false} SplitAllCountLower(rs: seq<Range>, step: int)
    requires step >= 1 && NonEmpty(rs)
    ensures Total(rs) <= |SplitAll(rs, step)| * step
    decreases |rs|
  {
    if |rs| > 0 {
      var init, last := rs[..|rs| - 1], rs[|rs| - 1];
      assert NonEmpty(init);
      SplitAllCountLower(init, step);
      PiecesCount(last.lo, last.hi, step);
      var a, p := |SplitAll(init, step)|, |Pieces(last.lo, last.hi, step)|;
      assert Total(rs) == Total(init) + Size(last);
      assert |SplitAll(rs, step)| == a + p;
      SumBelowProduct(Total(init), Size(last), a, p, step);
    }
  }

  /** The division yields at most `total / step + |rs|` pieces: every range
      adds at most one piece smaller than `step`. */
  lemma {:induction false} SplitAllCountUpper(rs: seq<Range>, step: int)
    requires step >= 1 && NonEmpty(rs)
    ensures |SplitAll(rs, step)| <= Total(rs) / step + |rs|
    decreases |rs|
  {
    if |rs| > 0 {
      var init, last := rs[..|rs| - 1], rs[|rs| - 1];
      assert NonEmpty(init);
      SplitAllCountUpper(init, step);
      PiecesCount(last.lo, last.hi, step);
      TotalNonNegative(init);
      var a, p := |SplitAll(init, step)|, |Pieces(last.lo, last.hi, step)|;
      assert Total(rs) == Total(init) + Size(last);
      assert |SplitAll(rs, step)| == a + p;
      DivLower(p - 1, Size(last), step);
      DivSum(Total(init), Size(last), step);
    }
  }

  lemma {:induction false} TotalNonNegative(rs: seq<Range>)
    requires NonEmpty(rs)
    ensures Total(rs) >= 0
    decreases |rs|
  {
    if |rs| > 0 {
      assert NonEmpty(rs[..|rs| - 1]);
      TotalNonNegative(rs[..|rs| - 1]);
    }
  }

  /** The inner loop of `getDividedPublicIpRange`: cuts `step` addresses at
      a time off what remains of `p`, and the rest as a last, smaller piece. */
  method CutRange(p: Range, step: int) returns (pieces: seq<Range>)
    requires step >= 1
    ensures pieces == Pieces(p.lo, p.hi, step)
  {
    pieces := [];
    var remaining := p.hi - p.lo + 1;
    if remaining <= 0 {
      return;
    }
    while remaining > 0
      invariant 0 <= remaining <= p.hi - p.lo + 1
      invariant pieces + Pieces(p.hi - remaining + 1, p.hi, step) == Pieces(p.lo, p.hi, step)
      decreases remaining
    {
      ghost var lo := p.hi - remaining + 1;
      var turn := InnerTurn(p.hi, remaining, step);
      if remaining >= step {
        assert turn == (Range(lo, lo + step - 1), remaining - step);
        assert Pieces(lo, p.hi, step) == [turn.0] + Pieces(lo + step, p.hi, step);
      } else {
        assert turn == (Range(lo, p.hi), 0);
        assert Pieces(lo, p.hi, step) == [turn.0];
      }
      pieces := pieces + [turn.0];
      remaining := turn.1;
    }
  }

  /** The outer loop of `getDividedPublicIpRange`: the pieces of each range of
      `table` in turn. */
  method CutRanges(table: seq<Range>, step: int) returns (r: seq<Range>)
    requires step >= 1
    ensures r == SplitAll(table, step)
  {
    r := [];
    var i := 0;
    while i < |table|
      invariant 0 <= i <= |table|
      invariant r == SplitAll(table[..i], step)
    {
      var pieces := CutRange(table[i], step);
      assert table[..i + 1][..i] == table[..i];
      r := r + pieces;
      i := i + 1;
    }
    assert table[..i] == table;
  }

  /** `getDividedPublicIpRange`: the table itself when at most thirteen
      ranges are asked for; otherwise every table range cut into pieces of
      `total / n` addresses. A step of 0 would never finish, so `n` is at
      most the number of public addresses. */
  method DividedPublicIpRange(n: int) returns (r: seq<Range>)
    requires n <= 13 || n <= NumberOfPublicIp()
    ensures n <= 13 ==> r == ValidPublicIpRange()
    ensures n > 13 ==> r == SplitAll(ValidPublicIpRange(), NumberOfPublicIp() / n)
    ensures NonEmpty(r) && Ascending(r) && EachInsideOne(r, ValidPublicIpRange())
    ensures forall x :: Covered(r, x) <==> Covered(ValidPublicIpRange(), x)
    ensures n > 13 ==> DividedWell(r, ValidPublicIpRange(), NumberOfPublicIp() / n)
    ensures n > 13 ==> NumberOfPublicIp() <= |r| * (NumberOfPublicIp() / n)
    ensures n > 13 ==> |r| <= NumberOfPublicIp() / (NumberOfPublicIp() / n) + 13
  {
    var table := ValidPublicIpRange();
    if n <= |table| {
      forall j | 0 <= j < |table| ensures InsideOne(table[j], table, |table|) {
        assert Inside(table[j], table[j]);
      }
      return table;
    }
    var step := NumberOfPublicIp() / n;
    assert step >= 1;
    r := DivideTable(step);
  }

  /** Every table range cut into pieces of `step` addresses, in table order:
      no fewer pieces than it takes to hold every public address, and at
      most one short piece per table range. */
  method DivideTable(step: int) returns (r: seq<Range>)
    requires step >= 1
    ensures r == SplitAll(ValidPublicIpRange(), step)
    ensures DividedWell(r, ValidPublicIpRange(), step)
    ensures NumberOfPublicIp() <= |r| * step
    ensures |r| <= NumberOfPublicIp() / step + 13
  {
    var table := ValidPublicIpRange();
    r := CutRanges(table, step);
    SplitAllCover(table, step);
    SplitAllCountLower(table, step);
    SplitAllCountUpper(table, step);
  }

  /** One turn of the inner loop of `getDividedPublicIpRange` as written,
      with `remaining` addresses left before `hi`: the range it appends and
      what remains after it. */
  function InnerTurn(hi: int, remaining: int, step: int): (turn: (Range, int))
    ensures remaining >= step ==> Size(turn.0) == step && turn.1 == remaining - step
    ensures remaining < step ==> turn.0.hi == hi && turn.1 == 0
    ensures turn.0.lo == hi - remaining + 1
  {
    if remaining >= step then (Range(hi - remaining + 1, hi - remaining + step), remaining - step)
    else (Range(hi - remaining + 1, hi), 0)
  }

  /** Asked for more ranges than there are public addresses, the code as
      written divides down to a step of 0; a turn with step 0 appends an
      empty range and leaves `remaining` where it was, so the inner loop
      never ends. */
  lemma StepZeroStalls(n: int, hi: int, remaining: int)
    requires n > NumberOfPublicIp() && remaining > 0
    ensures |ValidPublicIpRange()| == 13 < n && NumberOfPublicIp() / n == 0
    ensures var turn := InnerTurn(hi, remaining, NumberOfPublicIp() / n);
      turn.1 == remaining && Size(turn.0) == 0
  {
  }

  /** `getDividedPublicIpRange` with every piece at least one address long:
      the same result as the code as written wherever that one finishes,
      and a finite, covering division for every `n`. */
  method CorrectedDividedPublicIpRange(n: int) returns (r: seq<Range>)
    ensures n <= 13 ==> r == ValidPublicIpRange()
    ensures n > 13 ==> r == SplitAll(ValidPublicIpRange(), Max(1, NumberOfPublicIp() / n))
    ensures 13 < n <= NumberOfPublicIp() ==> Max(1, NumberOfPublicIp() / n) == NumberOfPublicIp() / n
    ensures NonEmpty(r) && Ascending(r) && EachInsideOne(r, ValidPublicIpRange())
    ensures forall x :: Covered(r, x) <==> Covered(ValidPublicIpRange(), x)
    ensures n > 13 ==> DividedWell(r, ValidPublicIpRange(), Max(1, NumberOfPublicIp() / n))
    ensures n > NumberOfPublicIp() ==> NumberOfPublicIp() <= |r| <= NumberOfPublicIp() + 13
  {
    if n <= 13 {
      r := DividedPublicIpRange(n);
    } else if n <= NumberOfPublicIp() {
      r := DividedPublicIpRange(n);
      DivLower(1, NumberOfPublicIp(), n);
    } else {
      StepZeroStalls(n, 0, 1);
      r := DivideTable(1);
    }
  }

  // ---- ipLoop ----

  /** One call of the checking function: the address and the loop count. */
  datatype Call = Call(ip: int, count: int)

  /** `ipLoop`: calls the checking function once for every address from
      `begin` to `end`, with the address and the number of calls before it;
      returns false, calling nothing, when `begin > end`. Both ends are
      written out as text first, whatever their order. */
  method IpLoop(begin: int, end: int) returns (ok: bool, calls: seq<Call>)
    requires InAddressSpace(begin) && InAddressSpace(end)
    ensures ok <==> begin <= end
    ensures !ok ==> calls == []
    ensures ok ==> |calls| == end - begin + 1
    ensures forall k :: 0 <= k < |calls| ==> calls[k] == Call(begin + k, k)
  {
    calls := [];
    var count := 0;
    if begin > end {
      return false, calls;
    }
    var ip := begin;
    while ip < end + 1
      invariant begin <= ip <= end + 1
      invariant count == ip - begin && |calls| == count
      invariant forall k :: 0 <= k < |calls| ==> calls[k] == Call(begin + k, k)
    {
      calls := calls + [Call(ip, count)];
      count := count + 1;
      ip := ip + 1;
    }
    return true, calls;
  }
}
