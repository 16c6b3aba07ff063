/** The price cache of the "means to an end" service
    (rust/protohackers/src/means_to_end.rs): 9-byte request frames are
    parsed into inserts and queries, and a query answers the mean price of
    the points whose timestamps fall in a closed range. */
module MeansToEnd {
  import opened Common

  datatype Operation =
    | Insert(timestamp: i32, price: i32)
    | Query(minTime: i32, maxTime: i32)

  const OP_INSERT: byte := 0x49  // 'I'
  const OP_QUERY: byte := 0x51   // 'Q'

  // ---------------------------------------------------------------------
  // Big-endian two's-complement i32 (`i32::from_be_bytes`).

  function I32FromBe(b: seq<byte>): (x: i32)
    requires |b| == 4
  {
    var u := b[0] as int * 0x100_0000 + b[1] as int * 0x1_0000 + b[2] as int * 0x100 + b[3] as int;
    if u >= 0x8000_0000 then u - 0x1_0000_0000 else u
  }

  /** `i32::to_be_bytes`, the writer the parser is checked against. */
  function I32ToBe(x: i32): (b: seq<byte>)
    ensures |b| == 4
  {
    var u := if x < 0 then x + 0x1_0000_0000 else x;
    [u / 0x100_0000, (u / 0x1_0000) % 0x100, (u / 0x100) % 0x100, u % 0x100]
  }

  lemma I32RoundTrip(x: i32)
    ensures I32FromBe(I32ToBe(x)) == x
  {
    var u := if x < 0 then x + 0x1_0000_0000 else x;
    var b := I32ToBe(x);
    assert u / 0x1_0000 == b[0] * 0x100 + b[1];
    assert u / 0x100 == (u / 0x1_0000) * 0x100 + b[2];
    assert u == (u / 0x100) * 0x100 + b[3];
  }

  lemma I32BytesRoundTrip(b: seq<byte>)
    requires |b| == 4
    ensures I32ToBe(I32FromBe(b)) == b
  {
    var u := b[0] as int * 0x100_0000 + b[1] as int * 0x1_0000 + b[2] as int * 0x100 + b[3] as int;
    assert u / 0x100 == b[0] as int * 0x1_0000 + b[1] as int * 0x100 + b[2] as int;
    assert u / 0x1_0000 == b[0] as int * 0x100 + b[1] as int;
    assert u / 0x100_0000 == b[0];
  }

  // ---------------------------------------------------------------------
  // Frames.

  /** `Operation::parse`: the first byte selects the operation and bytes
      1..5 and 5..9 are its two fields. The source reads all nine bytes
      before it looks at the first, so a shorter frame panics; the server
      always passes exactly nine. Any other first byte is an error that
      carries the frame. */
  function Parse(data: seq<byte>): (r: Result<Operation, seq<byte>>)
    requires |data| >= 9
  {
    var int0, int1 := I32FromBe(data[1..5]), I32FromBe(data[5..9]);
    if data[0] == OP_INSERT then Ok(Insert(int0, int1))
    else if data[0] == OP_QUERY then Ok(Query(int0, int1))
    else Err(data)
  }

  /** The frame a client sends for an operation. */
  function Encode(op: Operation): (b: seq<byte>)
    ensures |b| == 9
  {
    match op
    case Insert(t, p) => [OP_INSERT] + I32ToBe(t) + I32ToBe(p)
    case Query(lo, hi) => [OP_QUERY] + I32ToBe(lo) + I32ToBe(hi)
  }

  /** Every operation survives the trip through its frame. */
  lemma ParseEncode(op: Operation)
    ensures Parse(Encode(op)) == Ok(op)
  {
    var b := Encode(op);
    match op {
      case Insert(t, p) =>
        assert b[1..5] == I32ToBe(t) && b[5..9] == I32ToBe(p);
        I32RoundTrip(t);
        I32RoundTrip(p);
      case Query(lo, hi) =>
        assert b[1..5] == I32ToBe(lo) && b[5..9] == I32ToBe(hi);
        I32RoundTrip(lo);
        I32RoundTrip(hi);
    }
  }

  /** A nine-byte frame parses exactly when it starts with 'I' or 'Q', and
      then it is the frame of the operation it parses to. */
  lemma EncodeParse(data: seq<byte>)
    requires |data| == 9
    ensures Parse(data).Ok? <==> data[0] == OP_INSERT || data[0] == OP_QUERY
    ensures Parse(data).Ok? ==> Encode(Parse(data).value) == data
  {
    I32BytesRoundTrip(data[1..5]);
    I32BytesRoundTrip(data[5..9]);
    assert data == [data[0]] + data[1..5] + data[5..9];
  }

  // ---------------------------------------------------------------------
  // The stored points, ordered by timestamp.

  datatype DataPoint = DataPoint(timestamp: i32, price: i32)

  predicate SortedByTime(s: seq<DataPoint>) {
    forall i, j :: 0 <= i < j < |s| ==> s[i].timestamp <= s[j].timestamp
  }

  /** Inserts `p` after every point whose timestamp is not later than its
      own, which keeps points of equal timestamp in arrival order. */
  function InsertByTime(s: seq<DataPoint>, p: DataPoint): (r: seq<DataPoint>)
    ensures |r| == |s| + 1
    ensures multiset(r) == multiset(s) + multiset{p}
    decreases |s|
  {
    if |s| == 0 then [p]
    else if p.timestamp < s[|s| - 1].timestamp then
      assert s == s[..|s| - 1] + [s[|s| - 1]];
      InsertByTime(s[..|s| - 1], p) + [s[|s| - 1]]
    else s + [p]
  }

  /** The stable `sort_by_key(|p| p.timestamp)`, as an insertion sort. */
  function SortByTime(s: seq<DataPoint>): (r: seq<DataPoint>)
    ensures |r| == |s|
    decreases |s|
  {
    if |s| == 0 then [] else InsertByTime(SortByTime(s[..|s| - 1]), s[|s| - 1])
  }

  lemma {:induction false} InsertByTimeSorted(s: seq<DataPoint>, p: DataPoint)
    requires SortedByTime(s)
    ensures SortedByTime(InsertByTime(s, p))
    decreases |s|
  {
    if |s| > 0 && p.timestamp < s[|s| - 1].timestamp {
      var init := s[..|s| - 1];
      var last := s[|s| - 1];
      assert SortedByTime(init);
      InsertByTimeSorted(init, p);
      var r := InsertByTime(init, p);
      forall i | 0 <= i < |r| ensures r[i].timestamp <= last.timestamp {
        assert r[i] in multiset(init) + multiset{p};
        if r[i] != p {
          var k :| 0 <= k < |init| && init[k] == r[i];
        }
      }
    }
  }

  /** The sort yields a timestamp-ordered list... */
  lemma {:induction false} SortByTimeSorted(s: seq<DataPoint>)
    ensures SortedByTime(SortByTime(s))
    decreases |s|
  {
    if |s| > 0 {
      SortByTimeSorted(s[..|s| - 1]);
      InsertByTimeSorted(SortByTime(s[..|s| - 1]), s[|s| - 1]);
    }
  }

  /** ...that is a permutation of its input. */
  lemma {:induction false} SortByTimePermutation(s: seq<DataPoint>)
    ensures multiset(SortByTime(s)) == multiset(s)
    decreases |s|
  {
    if |s| > 0 {
      var init, last := s[..|s| - 1], s[|s| - 1];
      SortByTimePermutation(init);
      var sortedInit := SortByTime(init);
      assert SortByTime(s) == InsertByTime(sortedInit, last);
      assert multiset(SortByTime(s)) == multiset(sortedInit) + multiset{last};
      MultisetSnoc(s);
    }
  }

  /** A list's elements are those of all but its last, plus the last. */
  lemma MultisetSnoc(s: seq<DataPoint>)
    requires |s| > 0
    ensures multiset(s) == multiset(s[..|s| - 1]) + multiset{s[|s| - 1]}
  {
    assert s == s[..|s| - 1] + [s[|s| - 1]];
  }

  // ---------------------------------------------------------------------
  // The answer to a query.

  predicate InRange(p: DataPoint, lo: int, hi: int) {
    lo <= p.timestamp <= hi
  }

  /** The number of points with a timestamp in [lo, hi]. */
  function Count(s: seq<DataPoint>, lo: int, hi: int): nat
    decreases |s|
  {
    if |s| == 0 then 0
    else Count(s[..|s| - 1], lo, hi) + (if InRange(s[|s| - 1], lo, hi) then 1 else 0)
  }

  /** The sum of the prices of the points with a timestamp in [lo, hi]. */
  function Total(s: seq<DataPoint>, lo: int, hi: int): int
    decreases |s|
  {
    if |s| == 0 then 0
    else Total(s[..|s| - 1], lo, hi) + (if InRange(s[|s| - 1], lo, hi) then s[|s| - 1].price else 0)
  }

  /** Rust's `/` on integers: the quotient truncated toward zero. */
  function TruncDiv(a: int, b: int): int
    requires b > 0
  {
    if a >= 0 then a / b else -((-a) / b)
  }

  /** The answer to a query whose range is not empty: the truncated mean,
      or 0 when no point is in range. */
  function Mean(total: int, count: nat): int {
    if count == 0 then 0 else TruncDiv(total, count)
  }

  lemma {:induction false} TotalBounds(s: seq<DataPoint>, lo: int, hi: int)
    ensures -0x8000_0000 * Count(s, lo, hi) <= Total(s, lo, hi) <= 0x7FFF_FFFF * Count(s, lo, hi)
    decreases |s|
  {
    if |s| > 0 {
      TotalBounds(s[..|s| - 1], lo, hi);
    }
  }

  lemma MulMonotone(x: int, y: int, n: int)
    requires x <= y && n > 0
    ensures x * n <= y * n
  {
  }

  /** A quotient of a non-negative dividend that is at most `hi * n`. */
  lemma DivAtMost(a: int, n: int, hi: int)
    requires n > 0 && 0 <= a <= hi * n
    ensures 0 <= a / n <= hi
  {
    var q := a / n;
    assert a == q * n + a % n;
    if q > hi {
      MulMonotone(hi + 1, q, n);
    }
  }

  lemma TruncDivBounds(a: int, n: int, lo: int, hi: int)
    requires n > 0 && lo <= 0 <= hi && lo * n <= a <= hi * n
    ensures lo <= TruncDiv(a, n) <= hi
  {
    if a >= 0 {
      DivAtMost(a, n, hi);
    } else {
      assert -a <= (-lo) * n;
      DivAtMost(-a, n, -lo);
    }
  }

  /** The mean of i32 prices is itself an i32, so `as i32` does not wrap. */
  lemma MeanFitsI32(s: seq<DataPoint>, lo: int, hi: int)
    ensures -0x8000_0000 <= Mean(Total(s, lo, hi), Count(s, lo, hi)) <= 0x7FFF_FFFF
  {
    var n := Count(s, lo, hi);
    if n > 0 {
      TotalBounds(s, lo, hi);
      TruncDivBounds(Total(s, lo, hi), n, -0x8000_0000, 0x7FFF_FFFF);
    }
  }

  /** Removing one point from anywhere in the list. */
  lemma {:induction false} CountTotalRemove(s: seq<DataPoint>, k: nat, lo: int, hi: int)
    requires k < |s|
    ensures var rest := s[..k] + s[k + 1..];
      && Count(s, lo, hi) == Count(rest, lo, hi) + (if InRange(s[k], lo, hi) then 1 else 0)
      && Total(s, lo, hi) == Total(rest, lo, hi) + (if InRange(s[k], lo, hi) then s[k].price else 0)
    decreases |s|
  {
    var rest := s[..k] + s[k + 1..];
    if k < |s| - 1 {
      var init := s[..|s| - 1];
      CountTotalRemove(init, k, lo, hi);
      assert init[..k] + init[k + 1..] == rest[..|rest| - 1];
      assert rest[|rest| - 1] == s[|s| - 1];
    } else {
      assert rest == s[..|s| - 1];
    }
  }

  lemma MultisetRemove<T>(b: seq<T>, k: nat)
    requires k < |b|
    ensures multiset(b[..k] + b[k + 1..]) == multiset(b) - multiset{b[k]}
  {
    assert b == b[..k] + [b[k]] + b[k + 1..];
  }

  /** The count and the total do not depend on the order of the points. */
  lemma {:induction false} CountTotalPermutation(a: seq<DataPoint>, b: seq<DataPoint>, lo: int, hi: int)
    requires multiset(a) == multiset(b)
    ensures Count(a, lo, hi) == Count(b, lo, hi) && Total(a, lo, hi) == Total(b, lo, hi)
    decreases |a|
  {
    if |a| > 0 {
      var x := a[|a| - 1];
      var init := a[..|a| - 1];
      assert a == init + [x];
      assert x in multiset(b);
      var k :| 0 <= k < |b| && b[k] == x;
      var rest := b[..k] + b[k + 1..];
      MultisetRemove(b, k);
      assert multiset(a) == multiset(init) + multiset{x};
      CountTotalPermutation(init, rest, lo, hi);
      CountTotalRemove(b, k, lo, hi);
    } else {
      assert |b| == 0;
    }
  }

  /** On timestamp-ordered points the skip/take scan of a query reads a
      contiguous run; its count and total are those of the whole list. */
  lemma {:induction false} OutsidePrefix(s: seq<DataPoint>, i: nat, lo: int, hi: int)
    requires i <= |s|
    requires forall j :: i <= j < |s| ==> !InRange(s[j], lo, hi)
    ensures Count(s, lo, hi) == Count(s[..i], lo, hi) && Total(s, lo, hi) == Total(s[..i], lo, hi)
    decreases |s|
  {
    if i < |s| {
      OutsidePrefix(s[..|s| - 1], i, lo, hi);
      assert s[..|s| - 1][..i] == s[..i];
    } else {
      assert s[..i] == s;
    }
  }

  // ---------------------------------------------------------------------
  // The cache.

  class Cache {
    var data: seq<DataPoint>
    var sorted: bool

    /** `sorted` is only ever set right after sorting. */
    ghost predicate Valid()
      reads this
    {
      sorted ==> SortedByTime(data)
    }

    constructor ()
      ensures data == [] && !sorted && Valid()
    {
      data := [];
      sorted := false;
    }

    /** `Cache::process`. An insert appends one point and answers nothing;
        a query with an empty range answers 0 and changes nothing; any
        other query sorts the points (once) and answers the truncated mean
        price of those in range, 0 when there are none. */
    method Process(op: Operation) returns (answer: Option<i32>)
      requires Valid()
      modifies this
      ensures Valid()
      ensures op.Insert? ==>
        data == old(data) + [DataPoint(op.timestamp, op.price)] && !sorted && answer == None
      ensures op.Query? && op.minTime > op.maxTime ==>
        data == old(data) && sorted == old(sorted) && answer == Some(0)
      ensures op.Query? && op.minTime <= op.maxTime ==>
        && sorted && SortedByTime(data) && multiset(data) == multiset(old(data))
        && data == (if old(sorted) then old(data) else SortByTime(old(data)))
        && answer == Some(Mean(Total(old(data), op.minTime, op.maxTime), Count(old(data), op.minTime, op.maxTime)))
    {
      match op {
        case Insert(timestamp, price) =>
          data := data + [DataPoint(timestamp, price)];
          sorted := false;
          return None;
        case Query(minTime, maxTime) =>
          if minTime > maxTime {
            return Some(0);
          }
          if !sorted {
            SortByTimeSorted(data);
            SortByTimePermutation(data);
            data := SortByTime(data);
            sorted := true;
          }
          var count, total := Scan(data, minTime, maxTime);
          CountTotalPermutation(data, old(data), minTime, maxTime);
          MeanFitsI32(data, minTime, maxTime);
          return Some(Mean(total, count));
      }
    }
  }

  /** The skip-while / take-while loop of a query over ordered points:
      skip the points before `lo`, then add up those up to `hi`. */
  method Scan(s: seq<DataPoint>, lo: i32, hi: i32) returns (count: nat, total: int)
    requires SortedByTime(s)
    ensures count == Count(s, lo, hi) && total == Total(s, lo, hi)
  {
    var i := 0;
    while i < |s| && s[i].timestamp < lo
      invariant 0 <= i <= |s|
      invariant forall j :: 0 <= j < i ==> s[j].timestamp < lo
      invariant Count(s[..i], lo, hi) == 0 && Total(s[..i], lo, hi) == 0
    {
      assert s[..i + 1][..i] == s[..i];
      i := i + 1;
    }
    count, total := 0, 0;
    while i < |s| && s[i].timestamp <= hi
      invariant 0 <= i <= |s|
      invariant i < |s| ==> lo <= s[i].timestamp
      invariant count == Count(s[..i], lo, hi) && total == Total(s[..i], lo, hi)
    {
      assert s[..i + 1][..i] == s[..i];
      count := count + 1;
      total := total + s[i].price;
      i := i + 1;
    }
    OutsidePrefix(s, i, lo, hi);
  }
}
