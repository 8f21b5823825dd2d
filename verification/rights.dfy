/** Maximal Unix rights observed in a long-format directory listing
    (the scanner's `getMaxRights`).

    Every line longer than ten characters whose first character is 'd'
    (a directory) or '-' (a regular file) contributes the permission
    characters in its columns 1..9 to a nine-bit vector of its kind; the bits
    accumulate by OR over the whole listing. Each vector is then written as
    the three-digit number the `chmod` notation uses, or -1 when no line of
    that kind was seen. */
module Rights {
  import opened FtpReplies

  /** Nine permission bits: owner read, write, execute, then group, then
      other, in the order of listing columns 1..9. */
  type Bits = b: seq<bool> | |b| == 9 witness NoBits

  const NoBits: seq<bool> := [false, false, false, false, false, false, false, false, false]

  /** Whether character `c` in listing column `i` (1..9) grants the right
      that column stands for: 'r' in a read column, 'w' in a write column,
      'x', 'X' or 's' in an execute column. */
  predicate Grants(c: char, i: int) {
    || (c == 'r' && i % 3 == 1)
    || (c == 'w' && i % 3 == 2)
    || ((c == 'x' || c == 'X' || c == 's') && i % 3 == 0)
  }

  /** Whether `line` takes part in the vector of entry kind `kind`:
      it is longer than ten characters and starts with `kind`. */
  predicate Counts(line: string, kind: char) {
    |line| > 10 && line[0] == kind
  }

  /** Some line of `lines` takes part in the vector of kind `kind`. */
  predicate Seen(lines: seq<string>, kind: char) {
    exists k :: 0 <= k < |lines| && Counts(lines[k], kind)
  }

  /** Some line of kind `kind` grants the right of bit `j` (column j + 1). */
  predicate Observed(lines: seq<string>, kind: char, j: int)
    requires 0 <= j < 9
  {
    exists k :: 0 <= k < |lines| && Counts(lines[k], kind) && Grants(lines[k][j + 1], j + 1)
  }

  /** The union of the rights of all lines of kind `kind`, stated bit by bit:
      the meaning the accumulation below must have. */
  function Union(lines: seq<string>, kind: char): (b: Bits)
  {
    seq(9, j requires 0 <= j < 9 => Observed(lines, kind, j))
  }

  /** The rights one line grants. */
  function LineBits(line: string): (b: Bits)
    requires |line| > 10
  {
    seq(9, j requires 0 <= j < 9 => Grants(line[j + 1], j + 1))
  }

  function Or(a: Bits, b: Bits): (c: Bits) {
    seq(9, j requires 0 <= j < 9 => a[j] || b[j])
  }

  /** The state of the accumulation loop: whether a directory line and a
      file line were seen, and the two vectors so far. */
  datatype Tally = Tally(sawDir: bool, sawFile: bool, dirBits: Bits, fileBits: Bits)

  const Start := Tally(false, false, NoBits, NoBits)

  /** One pass of the loop body over `line`; other kinds of line, links
      among them, leave the tally alone. */
  function Step(t: Tally, line: string): (t': Tally) {
    if |line| > 10 && line[0] == 'd' then
      t.(sawDir := true, dirBits := Or(t.dirBits, LineBits(line)))
    else if |line| > 10 && line[0] == '-' then
      t.(sawFile := true, fileBits := Or(t.fileBits, LineBits(line)))
    else
      t
  }

  /** The loop over the listing, in order. */
  function Accumulate(t: Tally, lines: seq<string>): (t': Tally)
    decreases |lines|
  {
    if |lines| == 0 then t else Accumulate(Step(t, lines[0]), lines[1..])
  }

  /** The accumulation from `t` over `lines` ORs into `t` exactly the rights
      of the lines of each kind, and records exactly whether a line of each
      kind occurs. */
  lemma {:induction false} AccumulateMeaning(t: Tally, lines: seq<string>)
    ensures Accumulate(t, lines).sawDir == (t.sawDir || Seen(lines, 'd'))
    ensures Accumulate(t, lines).sawFile == (t.sawFile || Seen(lines, '-'))
    ensures forall j :: 0 <= j < 9 ==>
      Accumulate(t, lines).dirBits[j] == (t.dirBits[j] || Observed(lines, 'd', j))
    ensures forall j :: 0 <= j < 9 ==>
      Accumulate(t, lines).fileBits[j] == (t.fileBits[j] || Observed(lines, '-', j))
    decreases |lines|
  {
    if |lines| > 0 {
      var line, rest := lines[0], lines[1..];
      var t' := Step(t, line);
      AccumulateMeaning(t', rest);
      assert forall k :: 0 < k < |lines| ==> lines[k] == rest[k - 1];
      assert Seen(lines, 'd') == (Counts(line, 'd') || Seen(rest, 'd')) by {
        if Seen(rest, 'd') {
          var k :| 0 <= k < |rest| && Counts(rest[k], 'd');
          assert lines[k + 1] == rest[k];
        }
      }
      assert Seen(lines, '-') == (Counts(line, '-') || Seen(rest, '-')) by {
        if Seen(rest, '-') {
          var k :| 0 <= k < |rest| && Counts(rest[k], '-');
          assert lines[k + 1] == rest[k];
        }
      }
      forall j | 0 <= j < 9
        ensures Observed(lines, 'd', j) == ((Counts(line, 'd') && Grants(line[j + 1], j + 1)) || Observed(rest, 'd', j))
        ensures Observed(lines, '-', j) == ((Counts(line, '-') && Grants(line[j + 1], j + 1)) || Observed(rest, '-', j))
      {
        if Observed(rest, 'd', j) {
          var k :| 0 <= k < |rest| && Counts(rest[k], 'd') && Grants(rest[k][j + 1], j + 1);
          assert lines[k + 1] == rest[k];
        }
        if Observed(rest, '-', j) {
          var k :| 0 <= k < |rest| && Counts(rest[k], '-') && Grants(rest[k][j + 1], j + 1);
          assert lines[k + 1] == rest[k];
        }
      }
    }
  }

  /** The digit of triad `t` (0 owner, 1 group, 2 other): 4 for read,
      2 for write, 1 for execute. */
  function Digit(b: Bits, t: int): (d: int)
    requires 0 <= t < 3
    ensures 0 <= d <= 7
  {
    (if b[3 * t] then 4 else 0) + (if b[3 * t + 1] then 2 else 0) + (if b[3 * t + 2] then 1 else 0)
  }

  /** The numbers that read as three octal digits: 000 .. 777. */
  predicate IsRights(n: int) {
    0 <= n && n / 100 <= 7 && (n / 10) % 10 <= 7 && n % 10 <= 7
  }

  /** A vector written in three-digit notation, by adding the weight of each
      set bit: 400, 200, 100, 40, 20, 10, 4, 2, 1. */
  function Encode(b: Bits): (n: int)
    ensures n == 100 * Digit(b, 0) + 10 * Digit(b, 1) + Digit(b, 2)
    ensures 0 <= n <= 777 && IsRights(n)
    ensures n / 100 == Digit(b, 0) && (n / 10) % 10 == Digit(b, 1) && n % 10 == Digit(b, 2)
  {
    var n :=
      (if b[0] then 400 else 0) + (if b[1] then 200 else 0) + (if b[2] then 100 else 0)
      + (if b[3] then 40 else 0) + (if b[4] then 20 else 0) + (if b[5] then 10 else 0)
      + (if b[6] then 4 else 0) + (if b[7] then 2 else 0) + (if b[8] then 1 else 0);
    assert (if b[0] then 400 else 0) + (if b[1] then 200 else 0) + (if b[2] then 100 else 0) == 100 * Digit(b, 0);
    assert (if b[3] then 40 else 0) + (if b[4] then 20 else 0) + (if b[5] then 10 else 0) == 10 * Digit(b, 1);
    ThreeDigits(Digit(b, 0), Digit(b, 1), Digit(b, 2));
    n
  }

  /** The decimal digits of `100 * o + 10 * g + a` are `o`, `g` and `a`. */
  lemma ThreeDigits(o: int, g: int, a: int)
    requires 0 <= o <= 7 && 0 <= g <= 7 && 0 <= a <= 7
    ensures (100 * o + 10 * g + a) / 100 == o
    ensures ((100 * o + 10 * g + a) / 10) % 10 == g
    ensures (100 * o + 10 * g + a) % 10 == a
  {
    var n := 100 * o + 10 * g + a;
    assert n / 10 == 10 * o + g;
  }

  /** The three bits a digit 0 .. 7 stands for. */
  function TriadOf(d: int): (triad: seq<bool>) {
    [d / 4 % 2 == 1, d / 2 % 2 == 1, d % 2 == 1]
  }

  /** The digit of one triad gives back its three bits. */
  lemma TriadOfDigit(b: Bits, t: int)
    requires 0 <= t < 3
    ensures TriadOf(Digit(b, t)) == b[3 * t..3 * t + 3]
  {
    var d := Digit(b, t);
    assert d / 4 % 2 == 1 <==> b[3 * t];
    assert d / 2 % 2 == 1 <==> b[3 * t + 1];
    assert d % 2 == 1 <==> b[3 * t + 2];
  }

  /** The bits a three-digit rights number stands for. */
  function Decode(n: int): (b: Bits)
    requires IsRights(n)
  {
    TriadOf(n / 100) + TriadOf((n / 10) % 10) + TriadOf(n % 10)
  }

  /** Encoding loses no bit. */
  lemma DecodeEncode(b: Bits)
    ensures Decode(Encode(b)) == b
  {
    TriadOfDigit(b, 0);
    TriadOfDigit(b, 1);
    TriadOfDigit(b, 2);
    assert b == b[0..3] + b[3..6] + b[6..9];
  }

  /** Every number in 000 .. 777 with octal digits is the encoding of one vector. */
  lemma EncodeDecode(n: int)
    requires IsRights(n)
    ensures Encode(Decode(n)) == n
  {
    var x, y, z := TriadOf(n / 100), TriadOf((n / 10) % 10), TriadOf(n % 10);
    var b := Decode(n);
    assert b == x + y + z;
    assert b[0..3] == x && b[3..6] == y && b[6..9] == z;
    DigitOfTriad(b, 0, n / 100);
    DigitOfTriad(b, 1, (n / 10) % 10);
    DigitOfTriad(b, 2, n % 10);
    DecimalDigits(n);
  }

  /** A number below 1000 is the sum of its decimal digits by weight. */
  lemma DecimalDigits(n: int)
    requires 0 <= n && n / 100 <= 9
    ensures n == 100 * (n / 100) + 10 * ((n / 10) % 10) + n % 10
  {
    assert n / 10 == 10 * (n / 100) + (n / 10) % 10;
  }

  /** A triad holding the bits of digit `d` has digit `d`. */
  lemma DigitOfTriad(b: Bits, t: int, d: int)
    requires 0 <= t < 3 && 0 <= d <= 7
    requires b[3 * t..3 * t + 3] == TriadOf(d)
    ensures Digit(b, t) == d
  {
    assert b[3 * t] == TriadOf(d)[0] && b[3 * t + 1] == TriadOf(d)[1] && b[3 * t + 2] == TriadOf(d)[2];
  }

  /** `getMaxRights`, given the outcome of fetching the long listing:
      the pair (directory rights, file rights). */
  function MaxRights(listing: Result<seq<string>>): (r: Result<(int, int)>)
    ensures listing == Err(ErrorPerm) ==> r == Ok((-1, -1))
    ensures listing.Err? && listing.error != ErrorPerm ==> r == Err(listing.error)
    ensures listing.Ok? ==> r.Ok?
    ensures listing.Ok? ==> (r.value.0 == -1 <==> !Seen(listing.value, 'd'))
    ensures listing.Ok? ==> (r.value.1 == -1 <==> !Seen(listing.value, '-'))
    ensures listing.Ok? && Seen(listing.value, 'd') ==> r.value.0 == Encode(Union(listing.value, 'd'))
    ensures listing.Ok? && Seen(listing.value, '-') ==> r.value.1 == Encode(Union(listing.value, '-'))
  {
    match listing
    case Err(ErrorPerm) => Ok((-1, -1))
    case Err(e) => Err(e)
    case Ok(lines) =>
      if |lines| <= 0 then Ok((-1, -1))
      else
        var t := Accumulate(Start, lines);
        AccumulateMeaning(Start, lines);
        assert t.dirBits == Union(lines, 'd');
        assert t.fileBits == Union(lines, '-');
        if !t.sawDir && !t.sawFile then Ok((-1, -1))
        else
          Ok((if t.sawDir then Encode(t.dirBits) else -1,
              if t.sawFile then Encode(t.fileBits) else -1))
  }
}

module RightsLemmas {
  import opened FtpReplies
  import opened Rights

  /** `m` is absent or every right it grants is also granted by `n`. */
  predicate Included(m: int, n: int) {
    m == -1 || (n != -1 && IsRights(m) && IsRights(n) && forall j :: 0 <= j < 9 ==> Decode(m)[j] ==> Decode(n)[j])
  }

  /** The rights of a listing only grow when lines are added to it, in any
      position: the result is the best permission seen, never one entry's. */
  lemma {:induction false} MaxRightsMonotone(a: seq<string>, b: seq<string>)
    requires forall l :: l in a ==> l in b
    ensures MaxRights(Ok(a)).Ok? && MaxRights(Ok(b)).Ok?
    ensures Included(MaxRights(Ok(a)).value.0, MaxRights(Ok(b)).value.0)
    ensures Included(MaxRights(Ok(a)).value.1, MaxRights(Ok(b)).value.1)
  {
    KindMonotone(a, b, 'd');
    KindMonotone(a, b, '-');
    var ra, rb := MaxRights(Ok(a)).value, MaxRights(Ok(b)).value;
    if Seen(a, 'd') {
      DecodeEncode(Union(a, 'd'));
      DecodeEncode(Union(b, 'd'));
    }
    if Seen(a, '-') {
      DecodeEncode(Union(a, '-'));
      DecodeEncode(Union(b, '-'));
    }
  }

  lemma KindMonotone(a: seq<string>, b: seq<string>, kind: char)
    requires forall l :: l in a ==> l in b
    ensures Seen(a, kind) ==> Seen(b, kind)
    ensures forall j :: 0 <= j < 9 ==> Union(a, kind)[j] ==> Union(b, kind)[j]
  {
    if Seen(a, kind) {
      var k :| 0 <= k < |a| && Counts(a[k], kind);
      assert a[k] in b;
    }
    forall j | 0 <= j < 9 && Union(a, kind)[j] ensures Union(b, kind)[j] {
      var k :| 0 <= k < |a| && Counts(a[k], kind) && Grants(a[k][j + 1], j + 1);
      assert a[k] in b;
    }
  }

  /** Reordering the listing, or repeating lines of it, changes nothing. */
  lemma MaxRightsOrderIndependent(a: seq<string>, b: seq<string>)
    requires forall l :: l in a <==> l in b
    ensures MaxRights(Ok(a)) == MaxRights(Ok(b))
  {
    KindMonotone(a, b, 'd');
    KindMonotone(b, a, 'd');
    KindMonotone(a, b, '-');
    KindMonotone(b, a, '-');
    assert Union(a, 'd') == Union(b, 'd');
    assert Union(a, '-') == Union(b, '-');
  }

  /** Appending lines to a listing never removes a right from its result. */
  lemma MaxRightsAppend(a: seq<string>, b: seq<string>)
    ensures Included(MaxRights(Ok(a)).value.0, MaxRights(Ok(a + b)).value.0)
    ensures Included(MaxRights(Ok(a)).value.1, MaxRights(Ok(a + b)).value.1)
  {
    MaxRightsMonotone(a, a + b);
  }

  /** Lines of ten characters or fewer, and lines of any other kind (links
      'l' among them), contribute nothing. */
  lemma MaxRightsIgnoresOtherLines(a: seq<string>, other: seq<string>)
    requires forall l :: l in other ==> !Counts(l, 'd') && !Counts(l, '-')
    ensures MaxRights(Ok(a + other)) == MaxRights(Ok(a))
  {
    KindIgnoresOtherLines(a, other, 'd');
    KindIgnoresOtherLines(a, other, '-');
  }

  lemma KindIgnoresOtherLines(a: seq<string>, other: seq<string>, kind: char)
    requires forall l :: l in other ==> !Counts(l, kind)
    ensures Seen(a + other, kind) == Seen(a, kind)
    ensures Union(a + other, kind) == Union(a, kind)
  {
    var ab := a + other;
    KindMonotone(a, ab, kind);
    if Seen(ab, kind) {
      var k :| 0 <= k < |ab| && Counts(ab[k], kind);
      assert k < |a|;
      assert a[k] == ab[k];
    }
    forall j | 0 <= j < 9 && Union(ab, kind)[j] ensures Union(a, kind)[j] {
      var k :| 0 <= k < |ab| && Counts(ab[k], kind) && Grants(ab[k][j + 1], j + 1);
      assert k < |a|;
      assert a[k] == ab[k];
    }
  }

  /** A listing of one directory and one file. */
  lemma ExampleDirAndFile()
    ensures MaxRights(Ok(["drwxr-xr-x d", "-rw-r--r-- f"])) == Ok((755, 644))
  {
    var lines := ["drwxr-xr-x d", "-rw-r--r-- f"];
    assert Counts(lines[0], 'd') && Counts(lines[1], '-');
    ExampleDirBits(lines);
    ExampleFileBits(lines);
  }

  lemma ExampleDirBits(lines: seq<string>)
    requires lines == ["drwxr-xr-x d", "-rw-r--r-- f"]
    ensures Encode(Union(lines, 'd')) == 755
  {
    assert !Counts(lines[1], 'd');
    var u := Union(lines, 'd');
    assert u[0] && u[1] && u[2] by {
      assert Grants(lines[0][1], 1) && Grants(lines[0][2], 2) && Grants(lines[0][3], 3);
    }
    assert u[3] && u[5] by { assert Grants(lines[0][4], 4) && Grants(lines[0][6], 6); }
    assert u[6] && u[8] by { assert Grants(lines[0][7], 7) && Grants(lines[0][9], 9); }
    assert !u[4] && !u[7] by { assert !Grants(lines[0][5], 5) && !Grants(lines[0][8], 8); }
  }

  lemma ExampleFileBits(lines: seq<string>)
    requires lines == ["drwxr-xr-x d", "-rw-r--r-- f"]
    ensures Encode(Union(lines, '-')) == 644
  {
    assert !Counts(lines[0], '-');
    var v := Union(lines, '-');
    assert v[0] && v[1] by { assert Grants(lines[1][1], 1) && Grants(lines[1][2], 2); }
    assert v[3] && v[6] by { assert Grants(lines[1][4], 4) && Grants(lines[1][7], 7); }
    assert !v[2] && !v[4] && !v[5] by {
      assert !Grants(lines[1][3], 3) && !Grants(lines[1][5], 5) && !Grants(lines[1][6], 6);
    }
    assert !v[7] && !v[8] by { assert !Grants(lines[1][8], 8) && !Grants(lines[1][9], 9); }
  }

  /** Two directory lines give the union of their rights, not either one. */
  lemma ExampleUnion()
    ensures MaxRights(Ok(["drwx------ a", "d---r-xr-x b"])) == Ok((755, -1))
  {
    var lines := ["drwx------ a", "d---r-xr-x b"];
    assert Counts(lines[0], 'd');
    assert !Counts(lines[0], '-') && !Counts(lines[1], '-');
    ExampleUnionBits(lines);
  }

  lemma ExampleUnionBits(lines: seq<string>)
    requires lines == ["drwx------ a", "d---r-xr-x b"]
    ensures Encode(Union(lines, 'd')) == 755
  {
    var u := Union(lines, 'd');
    assert u[0] && u[1] && u[2] by {
      assert Grants(lines[0][1], 1) && Grants(lines[0][2], 2) && Grants(lines[0][3], 3);
    }
    assert u[3] && u[5] by { assert Grants(lines[1][4], 4) && Grants(lines[1][6], 6); }
    assert u[6] && u[8] by { assert Grants(lines[1][7], 7) && Grants(lines[1][9], 9); }
    assert !u[4] && !u[7] by {
      assert !Grants(lines[0][5], 5) && !Grants(lines[1][5], 5);
      assert !Grants(lines[0][8], 8) && !Grants(lines[1][8], 8);
    }
  }

  /** A listing of links only, and an empty listing, give no rights. */
  lemma ExampleLinksOnly()
    ensures MaxRights(Ok(["lrwxrwxrwx p -> /"])) == Ok((-1, -1))
    ensures MaxRights(Ok([])) == Ok((-1, -1))
  {
    var lines := ["lrwxrwxrwx p -> /"];
    assert !Counts(lines[0], 'd') && !Counts(lines[0], '-');
  }
}
