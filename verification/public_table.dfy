/** The public table against the special-purpose IPv4 blocks it is meant to
    leave out: every address is either public or in one reserved block. The
    table as written stops two of its ranges short, so some public
    addresses are in neither; the corrected table restores them. */
module PublicTable {
  import opened IpRanges

  /** The special-purpose blocks the public table leaves out, in address
      order: this network, the private networks, shared address space,
      loopback, link local, the IETF protocol block, the three documentation
      networks, the 6to4 relay anycast block, benchmarking, multicast and
      the reserved block up to the broadcast address. */
  function Reserved(): (rs: seq<Range>)
    ensures |rs| == 15
  {
    [ Range(0, 16777215),               // 0.0.0.0/8
      Range(167772160, 184549375),      // 10.0.0.0/8
      Range(1681915904, 1686110207),    // 100.64.0.0/10
      Range(2130706432, 2147483647),    // 127.0.0.0/8
      Range(2851995648, 2852061183),    // 169.254.0.0/16
      Range(2886729728, 2887778303),    // 172.16.0.0/12
      Range(3221225472, 3221225727),    // 192.0.0.0/24
      Range(3221225984, 3221226239),    // 192.0.2.0/24
      Range(3227017984, 3227018239),    // 192.88.99.0/24
      Range(3232235520, 3232301055),    // 192.168.0.0/16
      Range(3323068416, 3323199487),    // 198.18.0.0/15
      Range(3325256704, 3325256959),    // 198.51.100.0/24
      Range(3405803776, 3405804031),    // 203.0.113.0/24
      Range(3758096384, 4026531839),    // 224.0.0.0/4
      Range(4026531840, 4294967295)     // 240.0.0.0/4
    ]
  }

  /** The reserved blocks are sorted and disjoint. */
  lemma ReservedSorted()
    ensures NonEmpty(Reserved()) && Ascending(Reserved())
  {
  }

  /** The public table with its third range ending at 126.255.255.255 and
      its last at 223.255.255.255, next to loopback and multicast. */
  function CorrectedPublicIpRange(): (table: seq<Range>)
    ensures |table| == 13
  {
    [ Range(16777216, 167772159),
      Range(184549376, 1681915903),
      Range(1686110208, 2130706431),   // 126.255.255.255 where 2130641151 was written
      Range(2147483648, 2851995647),
      Range(2852061184, 2886729727),
      Range(2887778304, 3221225471),
      Range(3221225728, 3221225983),
      Range(3221226240, 3227017983),
      Range(3227018240, 3232235519),
      Range(3232301056, 3323068415),
      Range(3323199488, 3325256703),
      Range(3325256960, 3405803775),
      Range(3405804032, 3758096383)    // 223.255.255.255 where 3744923903 was written
    ]
  }

  /** The corrected table differs from the one as written in the ends of
      two ranges only. */
  lemma CorrectedDiffers()
    ensures CorrectedPublicIpRange()
         == ValidPublicIpRange()[2 := Range(ValidPublicIpRange()[2].lo, 2130706431)]
                                [12 := Range(ValidPublicIpRange()[12].lo, 3758096383)]
  {
  }

  // ---- the table as written ----

  /** An address strictly between two neighbours of a sorted list is in
      none of its ranges. */
  lemma GapNotCovered(rs: seq<Range>, k: int, x: int)
    requires NonEmpty(rs) && Ascending(rs) && 0 <= k < |rs| - 1
    requires rs[k].hi < x < rs[k + 1].lo
    ensures !Covered(rs, x)
  {
    forall j | 0 <= j < |rs| ensures !Contains(rs[j], x) {
      if j < k {
        assert rs[j].hi < rs[k].lo;
      } else if j > k + 1 {
        assert rs[k + 1].hi < rs[j].lo;
      }
    }
  }

  /** The addresses the table as written leaves out: 126.255.1.0 ..
      126.255.255.255, below loopback, and 223.55.1.0 .. 223.255.255.255,
      below multicast. */
  predicate InAsWrittenGap(x: int) {
    || (2130641152 <= x <= 2130706431)
    || (3744923904 <= x <= 3758096383)
  }

  /** As written, the table misses every address of the two gaps, although
      none of them is in a reserved block; the corrected table has them. */
  lemma AsWrittenGap(x: int)
    requires InAsWrittenGap(x)
    ensures !Covered(ValidPublicIpRange(), x) && !Covered(Reserved(), x)
    ensures Covered(CorrectedPublicIpRange(), x)
  {
    var t, r, c := ValidPublicIpRange(), Reserved(), CorrectedPublicIpRange();
    ReservedSorted();
    if x <= 2130706431 {
      GapNotCovered(t, 2, x);
      GapNotCovered(r, 2, x);
      assert Contains(c[2], x);
    } else {
      forall j | 0 <= j < |t| ensures !Contains(t[j], x) {
        if j < 12 {
          assert t[j].hi < t[12].lo;
        }
      }
      GapNotCovered(r, 12, x);
      assert Contains(c[12], x);
    }
  }

  // ---- two lists that alternate without gaps ----

  /** `r` is sorted, and `r` and `t` alternate: `r[0]`, `t[0]`, `r[1]`,
      `t[1]`, ..., `t[n - 1]`, `r[n]`, `r[n + 1]`, each range starting right
      after the one before ends. */
  predicate Alternates(r: seq<Range>, t: seq<Range>) {
    && |r| == |t| + 2 && NonEmpty(r) && Ascending(r)
    && (forall j :: 0 <= j < |t| ==> r[j].hi + 1 == t[j].lo && t[j].hi + 1 == r[j + 1].lo)
    && r[|t|].hi + 1 == r[|t| + 1].lo
  }

  /** The last range of `r[..i + 1]` that starts at or below `x`. */
  lemma {:induction false} LastStart(r: seq<Range>, x: int, i: int) returns (k: int)
    requires 0 <= i < |r| && r[0].lo <= x
    requires i + 1 < |r| ==> x < r[i + 1].lo
    ensures 0 <= k <= i && r[k].lo <= x
    ensures k + 1 < |r| ==> x < r[k + 1].lo
    decreases i
  {
    if r[i].lo <= x {
      k := i;
    } else {
      k := LastStart(r, x, i - 1);
    }
  }

  /** In a sorted list, a later range starts and ends no earlier. */
  lemma AscendingOrder(r: seq<Range>, i: int, j: int)
    requires NonEmpty(r) && Ascending(r) && 0 <= i <= j < |r|
    ensures r[i].lo <= r[j].lo && r[i].hi <= r[j].hi
  {
    if i < j {
      assert r[i].hi < r[j].lo;
    }
  }

  /** Between the first address of `r` and the last, an address is in `t`
      exactly when it is in no range of `r`. */
  lemma AlternatesPartition(r: seq<Range>, t: seq<Range>, x: int)
    requires Alternates(r, t) && r[0].lo <= x <= r[|r| - 1].hi
    ensures Covered(t, x) <==> !Covered(r, x)
  {
    AlternatesCover(r, t, x);
    AlternatesDisjoint(r, t, x);
  }

  /** Every address from the first of `r` to the last is in `r` or in `t`. */
  lemma AlternatesCover(r: seq<Range>, t: seq<Range>, x: int)
    requires Alternates(r, t) && r[0].lo <= x <= r[|r| - 1].hi
    ensures Covered(t, x) || Covered(r, x)
  {
    var k := LastStart(r, x, |r| - 1);
    if x > r[k].hi {
      // x lies past r[k] and before r[k + 1]: the gap t[k] fills
      assert k < |t|;
      assert Contains(t[k], x);
    } else {
      assert Contains(r[k], x);
    }
  }

  /** No address is both in `r` and in `t`. */
  lemma AlternatesDisjoint(r: seq<Range>, t: seq<Range>, x: int)
    requires Alternates(r, t)
    ensures !(Covered(t, x) && Covered(r, x))
  {
    if Covered(t, x) && Covered(r, x) {
      var j :| 0 <= j < |t| && Contains(t[j], x);
      var i :| 0 <= i < |r| && Contains(r[i], x);
      if i <= j {
        // r[i] ends no later than r[j], right before t[j] starts
        AscendingOrder(r, i, j);
      } else {
        // r[i] starts no earlier than r[j + 1], right after t[j] ends
        AscendingOrder(r, j + 1, i);
      }
    }
  }

  // ---- the corrected table ----

  /** The reserved blocks and the corrected table alternate, from 0.0.0.0 to
      255.255.255.255. */
  lemma CorrectedAlternates()
    ensures Alternates(Reserved(), CorrectedPublicIpRange())
    ensures Reserved()[0].lo == 0 && Reserved()[14].hi == AddressSpace - 1
  {
    var t, r := CorrectedPublicIpRange(), Reserved();
    ReservedSorted();
    forall j | 0 <= j < |t| ensures r[j].hi + 1 == t[j].lo && t[j].hi + 1 == r[j + 1].lo {
      ReservedBeforePublic(j);
      PublicBeforeReserved(j);
    }
  }

  /** Reserved block `j` ends right before public range `j` starts. One
      branch per index keeps each solver query to a single pair of literals;
      a quantified form over the whole table runs out of resource. */
  lemma ReservedBeforePublic(j: int)
    requires 0 <= j < 13
    ensures Reserved()[j].hi + 1 == CorrectedPublicIpRange()[j].lo
  {
    var t, r := CorrectedPublicIpRange(), Reserved();
    if j == 0 { assert r[0].hi + 1 == t[0].lo; }
    else if j == 1 { assert r[1].hi + 1 == t[1].lo; }
    else if j == 2 { assert r[2].hi + 1 == t[2].lo; }
    else if j == 3 { assert r[3].hi + 1 == t[3].lo; }
    else if j == 4 { assert r[4].hi + 1 == t[4].lo; }
    else if j == 5 { assert r[5].hi + 1 == t[5].lo; }
    else if j == 6 { assert r[6].hi + 1 == t[6].lo; }
    else if j == 7 { assert r[7].hi + 1 == t[7].lo; }
    else if j == 8 { assert r[8].hi + 1 == t[8].lo; }
    else if j == 9 { assert r[9].hi + 1 == t[9].lo; }
    else if j == 10 { assert r[10].hi + 1 == t[10].lo; }
    else if j == 11 { assert r[11].hi + 1 == t[11].lo; }
    else { assert r[12].hi + 1 == t[12].lo; }
  }

  /** Public range `j` ends right before reserved block `j + 1` starts,
      one branch per index as in `ReservedBeforePublic`. */
  lemma PublicBeforeReserved(j: int)
    requires 0 <= j < 13
    ensures CorrectedPublicIpRange()[j].hi + 1 == Reserved()[j + 1].lo
  {
    var t, r := CorrectedPublicIpRange(), Reserved();
    if j == 0 { assert t[0].hi + 1 == r[1].lo; }
    else if j == 1 { assert t[1].hi + 1 == r[2].lo; }
    else if j == 2 { assert t[2].hi + 1 == r[3].lo; }
    else if j == 3 { assert t[3].hi + 1 == r[4].lo; }
    else if j == 4 { assert t[4].hi + 1 == r[5].lo; }
    else if j == 5 { assert t[5].hi + 1 == r[6].lo; }
    else if j == 6 { assert t[6].hi + 1 == r[7].lo; }
    else if j == 7 { assert t[7].hi + 1 == r[8].lo; }
    else if j == 8 { assert t[8].hi + 1 == r[9].lo; }
    else if j == 9 { assert t[9].hi + 1 == r[10].lo; }
    else if j == 10 { assert t[10].hi + 1 == r[11].lo; }
    else if j == 11 { assert t[11].hi + 1 == r[12].lo; }
    else { assert t[12].hi + 1 == r[13].lo; }
  }

  /** With the corrected table, every 32-bit address is public exactly when
      it is in no reserved block. */
  lemma CorrectedPartition(x: int)
    requires 0 <= x < AddressSpace
    ensures Covered(CorrectedPublicIpRange(), x) <==> !Covered(Reserved(), x)
  {
    CorrectedAlternates();
    AlternatesPartition(Reserved(), CorrectedPublicIpRange(), x);
  }

  /** The corrected table lies in the address space and is sorted. */
  lemma CorrectedSorted()
    ensures NonEmpty(CorrectedPublicIpRange()) && Ascending(CorrectedPublicIpRange())
    ensures forall j :: 0 <= j < 13 ==>
      0 <= CorrectedPublicIpRange()[j].lo && CorrectedPublicIpRange()[j].hi < AddressSpace
  {
  }

  /** With the corrected table, an integer is a public address exactly when
      it is a 32-bit address in no reserved block. */
  lemma CorrectedPublic(x: int)
    ensures Covered(CorrectedPublicIpRange(), x) <==> 0 <= x < AddressSpace && !Covered(Reserved(), x)
  {
    if 0 <= x < AddressSpace {
      CorrectedPartition(x);
    } else {
      CorrectedSorted();
    }
  }

  /** `getValidPublicIps` over the corrected table: the public addresses of
      `begin` .. `end` are those of its 32-bit addresses outside every
      reserved block. */
  method CorrectedPublicIps(begin: int, end: int) returns (r: seq<Range>)
    requires begin > end ==> InAddressSpace(begin) && InAddressSpace(end)
    ensures begin > end ==> r == []
    ensures NonEmpty(r) && Ascending(r)
    ensures forall x :: Covered(r, x) <==> begin <= x <= end && 0 <= x < AddressSpace && !Covered(Reserved(), x)
  {
    if begin > end {
      return [];
    }
    CorrectedSorted();
    r := Intersect(CorrectedPublicIpRange(), begin, end);
    forall x ensures Covered(r, x) <==> begin <= x <= end && 0 <= x < AddressSpace && !Covered(Reserved(), x) {
      CorrectedPublic(x);
    }
  }

  /** Replacing one range changes the total by the difference in size. */
  lemma {:induction false} TotalUpdate(rs: seq<Range>, k: int, q: Range)
    requires 0 <= k < |rs|
    ensures Total(rs[k := q]) == Total(rs) - Size(rs[k]) + Size(q)
    decreases |rs|
  {
    var n := |rs| - 1;
    assert rs[k := q][..n] == if k == n then rs[..n] else rs[..n][k := q];
    if k < n {
      TotalUpdate(rs[..n], k, q);
    }
  }

  /** The corrected table holds 13237760 addresses more than the table as
      written: 65280 below loopback and 13172480 below multicast. */
  lemma CorrectedTotal()
    ensures Total(CorrectedPublicIpRange()) == NumberOfPublicIp() + 13237760
  {
    var t := ValidPublicIpRange();
    var t2 := t[2 := Range(t[2].lo, 2130706431)];
    CorrectedDiffers();
    TotalUpdate(t, 2, Range(t[2].lo, 2130706431));
    TotalUpdate(t2, 12, Range(t[12].lo, 3758096383));
  }
}
