/** The combination generator of index.js (createCombinations): for every group size k from 2
    up to a maximum it walks the k-element index tuples over the input in lexicographic order
    and applies a transform to the records at those indexes. */
module Combinations {

  /** t is strictly increasing: an index tuple that keeps the input's relative order. */
  predicate Increasing(t: seq<int>) {
    forall i, j :: 0 <= i < j < |t| ==> t[i] < t[j]
  }

  /** Every entry t[j] lies between its smallest possible value lo + j and its largest possible
      value n - |t| + j for a strictly increasing tuple over [lo, n). */
  predicate InWindow(t: seq<int>, lo: int, n: int) {
    forall j :: 0 <= j < |t| ==> lo + j <= t[j] <= n - |t| + j
  }

  /** The len consecutive integers x, x + 1, ..., x + len - 1. */
  function Run(x: int, len: nat): (r: seq<int>)
    ensures |r| == len
    ensures forall j :: 0 <= j < len ==> r[j] == x + j
  {
    seq(len, j requires 0 <= j < len => x + j)
  }

  /** The largest k-tuple over [0, n): n - k, n - k + 1, ..., n - 1. */
  function Last(n: int, k: nat): (r: seq<int>)
    ensures |r| == k
    ensures forall j :: 0 <= j < k ==> r[j] == n - k + j
  {
    Run(n - k, k)
  }

  /** The largest k-tuple is n - k followed by the largest (k-1)-tuple. */
  lemma LastCons(n: int, k: nat)
    requires k > 0
    ensures [n - k] + Last(n, k - 1) == Last(n, k)
  {
    var r := [n - k] + Last(n, k - 1);
    assert forall j :: 0 <= j < k ==> r[j] == n - k + j;
  }

  /** A run is its first value followed by the run after it. */
  lemma RunCons(x: int, len: nat)
    requires len > 0
    ensures [x] + Run(x + 1, len - 1) == Run(x, len)
  {
    var r := [x] + Run(x + 1, len - 1);
    assert forall j :: 0 <= j < len ==> r[j] == x + j;
  }

  /** s read back to front. */
  function Reversed<X>(s: seq<X>): (r: seq<X>)
    ensures |r| == |s|
    ensures forall j :: 0 <= j < |s| ==> r[j] == s[|s| - 1 - j]
  {
    seq(|s|, j requires 0 <= j < |s| => s[|s| - 1 - j])
  }

  /** The records of values at the indexes of t, in the order of t. */
  function Select<T>(values: seq<T>, t: seq<int>): seq<T>
    requires forall j :: 0 <= j < |t| ==> 0 <= t[j] < |values|
  {
    seq(|t|, j requires 0 <= j < |t| => values[t[j]])
  }

  /** Strict lexicographic order on index tuples. */
  predicate LexLess(a: seq<int>, b: seq<int>) {
    |a| > 0 && |b| > 0 && (a[0] < b[0] || (a[0] == b[0] && LexLess(a[1..], b[1..])))
  }

  /** Binomial coefficient C(n, k), by Pascal's rule. */
  function Binomial(n: nat, k: nat): nat {
    if k == 0 then 1
    else if n == 0 then 0
    else Binomial(n - 1, k - 1) + Binomial(n - 1, k)
  }

  /** C(n, 2) + C(n, 3) + ... + C(n, maxSize). */
  function SumBinomials(n: nat, maxSize: int): nat
    decreases maxSize
  {
    if maxSize < 2 then 0 else SumBinomials(n, maxSize - 1) + Binomial(n, maxSize)
  }

  /** Each tuple of ts with x put in front. */
  function Cons(x: int, ts: seq<seq<int>>): (r: seq<seq<int>>)
    ensures |r| == |ts|
    ensures forall i :: 0 <= i < |ts| ==> r[i] == [x] + ts[i]
  {
    seq(|ts|, i requires 0 <= i < |ts| => [x] + ts[i])
  }

  /** All strictly increasing k-tuples over [lo, n), in lexicographic order: first those that
      start with lo, then those that start above it. */
  function Tuples(lo: int, n: int, k: nat): seq<seq<int>>
    decreases n - lo
  {
    if k == 0 then [[]]
    else if lo >= n then []
    else
      Cons(lo, Tuples(lo + 1, n, k - 1)) + Tuples(lo + 1, n, k)
  }

  /** Putting lo in front of a tuple over [lo + 1, n) gives a tuple over [lo, n). */
  lemma ConsWindow(lo: int, t: seq<int>, n: int)
    requires lo < n && InWindow(t, lo + 1, n)
    ensures InWindow([lo] + t, lo, n)
  {
    var u := [lo] + t;
    assert |t| > 0 ==> lo + 1 <= t[0] <= n - |t|;
    assert forall j :: 0 < j < |u| ==> u[j] == t[j - 1];
  }

  /** Putting lo in front of an increasing tuple whose entries exceed lo keeps it increasing. */
  lemma ConsIncreasing(lo: int, t: seq<int>)
    requires Increasing(t) && (|t| > 0 ==> lo < t[0])
    ensures Increasing([lo] + t)
  {
    var u := [lo] + t;
    assert forall j :: 0 < j < |u| ==> u[j] == t[j - 1];
  }

  /** Tuple i of the block has length k and lies in the window of [lo, n). */
  lemma {:induction false} TupleShapeAt(lo: int, n: int, k: nat, i: int)
    requires 0 <= i < |Tuples(lo, n, k)|
    ensures |Tuples(lo, n, k)[i]| == k && InWindow(Tuples(lo, n, k)[i], lo, n)
    decreases n - lo
  {
    if k > 0 {
      assert lo < n;
      var s := |Tuples(lo + 1, n, k - 1)|;
      TuplesSplitCount(lo, n, k);
      if i < s {
        TupleShapeAt(lo + 1, n, k - 1, i);
        FrontShape(lo, n, k, i);
      } else {
        TupleShapeAt(lo + 1, n, k, i - s);
        BackShape(lo, n, k, i);
      }
    }
  }

  /** Below the seam, the shape of tuple i carries over from (k-1)-tuple i after lo. */
  lemma FrontShape(lo: int, n: int, k: nat, i: int)
    requires k > 0 && lo < n && 0 <= i < |Tuples(lo + 1, n, k - 1)|
    requires |Tuples(lo + 1, n, k - 1)[i]| == k - 1
    requires InWindow(Tuples(lo + 1, n, k - 1)[i], lo + 1, n)
    ensures i < |Tuples(lo, n, k)|
    ensures |Tuples(lo, n, k)[i]| == k && InWindow(Tuples(lo, n, k)[i], lo, n)
  {
    TuplesFrontAt(lo, n, k, i);
    ConsWindow(lo, Tuples(lo + 1, n, k - 1)[i], n);
  }

  /** Past the seam, the shape of tuple i carries over from k-tuple i - |rest| over [lo + 1, n),
      where rest are the (k-1)-tuples after lo. */
  lemma BackShape(lo: int, n: int, k: nat, i: int)
    requires k > 0 && lo < n
    requires |Tuples(lo + 1, n, k - 1)| <= i < |Tuples(lo, n, k)|
    requires var t := Tuples(lo + 1, n, k)[i - |Tuples(lo + 1, n, k - 1)|];
             |t| == k && InWindow(t, lo + 1, n)
    ensures |Tuples(lo, n, k)[i]| == k && InWindow(Tuples(lo, n, k)[i], lo, n)
  {
    TuplesSplitCount(lo, n, k);
    TuplesBackAt(lo, n, k, i);
  }

  /** Every tuple of the block has length k and lies in the window of [lo, n). */
  lemma TuplesShape(lo: int, n: int, k: nat)
    ensures forall i :: 0 <= i < |Tuples(lo, n, k)| ==>
              |Tuples(lo, n, k)[i]| == k && InWindow(Tuples(lo, n, k)[i], lo, n)
  {
    forall i | 0 <= i < |Tuples(lo, n, k)| {
      TupleShapeAt(lo, n, k, i);
    }
  }

  /** Tuple i of the block is strictly increasing. */
  lemma {:induction false} TupleIncreasingAt(lo: int, n: int, k: nat, i: int)
    requires 0 <= i < |Tuples(lo, n, k)|
    ensures Increasing(Tuples(lo, n, k)[i])
    decreases n - lo
  {
    if k > 0 {
      assert lo < n;
      var s := |Tuples(lo + 1, n, k - 1)|;
      TuplesSplitCount(lo, n, k);
      if i < s {
        TupleIncreasingAt(lo + 1, n, k - 1, i);
        FrontIncreasing(lo, n, k, i);
      } else {
        TupleIncreasingAt(lo + 1, n, k, i - s);
        TuplesBackAt(lo, n, k, i);
      }
    }
  }

  /** Below the seam, tuple i is lo followed by an increasing tuple whose entries exceed lo. */
  lemma FrontIncreasing(lo: int, n: int, k: nat, i: int)
    requires k > 0 && lo < n && 0 <= i < |Tuples(lo + 1, n, k - 1)|
    requires Increasing(Tuples(lo + 1, n, k - 1)[i])
    ensures i < |Tuples(lo, n, k)|
    ensures Increasing(Tuples(lo, n, k)[i])
  {
    var t := Tuples(lo + 1, n, k - 1)[i];
    TupleShapeAt(lo + 1, n, k - 1, i);
    assert |t| > 0 ==> lo < t[0];
    TuplesFrontAt(lo, n, k, i);
    ConsIncreasing(lo, t);
  }

  /** Every tuple of the block is strictly increasing. */
  lemma TuplesIncreasing(lo: int, n: int, k: nat)
    ensures forall i :: 0 <= i < |Tuples(lo, n, k)| ==> Increasing(Tuples(lo, n, k)[i])
  {
    forall i | 0 <= i < |Tuples(lo, n, k)| {
      TupleIncreasingAt(lo, n, k, i);
    }
  }

  /** The index tuples of every group size from 2 to maxSize, grouped by ascending size. */
  function IndexTuples(n: int, maxSize: int): (r: seq<seq<int>>)
    ensures forall i :: 0 <= i < |r| ==>
              2 <= |r[i]| <= maxSize && Increasing(r[i]) && InWindow(r[i], 0, n)
    decreases maxSize
  {
    if maxSize < 2 then []
    else
      TuplesShape(0, n, maxSize);
      TuplesIncreasing(0, n, maxSize);
      IndexTuples(n, maxSize - 1) + Tuples(0, n, maxSize)
  }

  /** The groups of k records of values, one per k-tuple, in lexicographic order of the tuple. */
  function Block<T>(values: seq<T>, k: nat): seq<seq<T>>
  {
    var ts := Tuples(0, |values|, k);
    TuplesShape(0, |values|, k);
    seq(|ts|, i requires 0 <= i < |ts| => Select(values, ts[i]))
  }

  /** The declarative result of createCombinations before the transform: the groups of 2
      records, then those of 3, and so on up to maxSize. */
  function AllCombinations<T>(values: seq<T>, maxSize: int): seq<seq<T>>
    decreases maxSize
  {
    if maxSize < 2 then [] else AllCombinations(values, maxSize - 1) + Block(values, maxSize)
  }

  /** The rightmost position of t whose entry is below its largest possible value n - |t| + j,
      or -1 when every entry is at its largest value (t is the last tuple). */
  function Pivot(t: seq<int>, n: int): (p: int)
    ensures -1 <= p < |t|
    ensures p >= 0 ==> t[p] < n - |t| + p
    ensures forall j :: p < j < |t| ==> t[j] >= n - |t| + j
  {
    if |t| == 0 then -1
    else if t[|t| - 1] < n - 1 then |t| - 1
    else Pivot(t[..|t| - 1], n - 1)
  }

  /** The lexicographic successor of a tuple that is not the last one: the entry at the pivot
      goes up by one and every entry after it is reset to the next consecutive value. */
  function NextTuple(t: seq<int>, n: int): (u: seq<int>)
    requires Pivot(t, n) >= 0
    ensures |u| == |t|
    ensures InWindow(t, 0, n) && Increasing(t) ==> InWindow(u, 0, n) && Increasing(u)
  {
    var p := Pivot(t, n);
    seq(|t|, j requires 0 <= j < |t| => if j < p then t[j] else t[p] + 1 + (j - p))
  }

  // ---------------------------------------------------------------------------------------
  // Properties of the enumeration

  /** The block of k-tuples over [lo, n) holds exactly C(n - lo, k) tuples. */
  lemma {:induction false} TuplesCount(lo: int, n: int, k: nat)
    requires lo <= n
    ensures |Tuples(lo, n, k)| == Binomial(n - lo, k)
    decreases n - lo
  {
    if k > 0 && lo < n {
      TuplesCount(lo + 1, n, k - 1);
      TuplesCount(lo + 1, n, k);
    }
  }

  /** A block is non-empty exactly when there is room for k indexes. */
  lemma {:induction false} TuplesNonEmpty(lo: int, n: int, k: nat)
    ensures |Tuples(lo, n, k)| > 0 <==> k == 0 || lo + k <= n
    decreases n - lo
  {
    if k > 0 && lo < n {
      TuplesSplitCount(lo, n, k);
      TuplesNonEmpty(lo + 1, n, k - 1);
      TuplesNonEmpty(lo + 1, n, k);
    }
  }

  /** A non-empty block starts with the smallest tuple lo, lo + 1, ..., lo + k - 1. */
  lemma {:induction false} TuplesFirst(lo: int, n: int, k: nat)
    ensures |Tuples(lo, n, k)| > 0 <==> k == 0 || lo + k <= n
    ensures |Tuples(lo, n, k)| > 0 ==> Tuples(lo, n, k)[0] == Run(lo, k)
    decreases n - lo
  {
    TuplesNonEmpty(lo, n, k);
    if k > 0 && lo + k <= n {
      TuplesFirst(lo + 1, n, k - 1);
      var rest := Tuples(lo + 1, n, k - 1);
      TuplesFrontAt(lo, n, k, 0);
      RunCons(lo, k);
    }
  }

  /** A block with lo + k <= n is non-empty and ends with the largest tuple n - k, ..., n - 1. */
  lemma TuplesLast(lo: int, n: int, k: nat)
    requires lo + k <= n
    ensures |Tuples(lo, n, k)| > 0
    ensures Tuples(lo, n, k)[|Tuples(lo, n, k)| - 1] == Last(n, k)
  {
    TuplesFirst(lo, n, k);
    TuplesLastAt(lo, n, k, |Tuples(lo, n, k)| - 1);
  }

  /** TuplesLast at the last index i, given by the caller. */
  lemma {:induction false} TuplesLastAt(lo: int, n: int, k: nat, i: int)
    requires lo + k <= n && i + 1 == |Tuples(lo, n, k)|
    ensures 0 <= i && Tuples(lo, n, k)[i] == Last(n, k)
    decreases n - lo
  {
    if k == 0 {
      assert Tuples(lo, n, k) == [[]];
    } else {
      TuplesSplitCount(lo, n, k);
      var s := |Tuples(lo + 1, n, k - 1)|;
      if lo + 1 + k <= n {
        TuplesFirst(lo + 1, n, k);
        var j := i - s;
        TuplesLastAt(lo + 1, n, k, j);
        TuplesBackAt(lo, n, k, i);
        assert i - s == j;
      } else {
        TuplesFirst(lo + 1, n, k);
        assert lo == n - k;
        TuplesLastAt(lo + 1, n, k - 1, i);
        TuplesFrontAt(lo, n, k, i);
        LastCons(n, k);
      }
    }
  }

  /** Entries of a strictly increasing integer tuple are at least one apart. */
  lemma {:induction false} IncreasingGap(t: seq<int>, i: int, j: int)
    requires Increasing(t) && 0 <= i <= j < |t|
    ensures t[i] + (j - i) <= t[j]
    decreases j - i
  {
    if i < j {
      IncreasingGap(t, i + 1, j);
    }
  }

  /** Putting one index in front of a tuple moves its pivot one place to the right. */
  lemma PivotCons(x: int, t: seq<int>, n: int)
    requires Pivot(t, n) >= 0
    ensures Pivot([x] + t, n) == Pivot(t, n) + 1
  {
    var s := [x] + t;
    var p, q := Pivot(t, n), Pivot(s, n);
    assert forall j :: 0 <= j < |t| ==> s[j + 1] == t[j];
  }

  /** The number of k-tuples over [lo, n) with k > 0 and lo < n: those starting with lo
      (lo followed by a (k-1)-tuple over [lo + 1, n)) plus the k-tuples over [lo + 1, n). */
  lemma TuplesSplitCount(lo: int, n: int, k: nat)
    requires k > 0 && lo < n
    ensures |Tuples(lo, n, k)| == |Tuples(lo + 1, n, k - 1)| + |Tuples(lo + 1, n, k)|
  {
    var rest, more := Tuples(lo + 1, n, k - 1), Tuples(lo + 1, n, k);
    assert Tuples(lo, n, k) == Cons(lo, rest) + more;
  }

  /** Tuple i of the block, for i below the seam, is lo followed by (k-1)-tuple i after lo. */
  lemma TuplesFrontAt(lo: int, n: int, k: nat, i: int)
    requires k > 0 && lo < n && 0 <= i < |Tuples(lo + 1, n, k - 1)|
    ensures i < |Tuples(lo, n, k)|
    ensures Tuples(lo, n, k)[i] == [lo] + Tuples(lo + 1, n, k - 1)[i]
  {
    var rest, more := Tuples(lo + 1, n, k - 1), Tuples(lo + 1, n, k);
    var front := Cons(lo, rest);
    assert Tuples(lo, n, k) == front + more;
    assert (front + more)[i] == front[i];
  }

  /** Tuple i of the block, for i at or past the seam, is k-tuple i - |rest| over [lo + 1, n),
      where rest are the (k-1)-tuples after lo. */
  lemma TuplesBackAt(lo: int, n: int, k: nat, i: int)
    requires k > 0 && lo < n
    requires |Tuples(lo + 1, n, k - 1)| <= i < |Tuples(lo + 1, n, k - 1)| + |Tuples(lo + 1, n, k)|
    ensures i < |Tuples(lo, n, k)|
    ensures Tuples(lo, n, k)[i] == Tuples(lo + 1, n, k)[i - |Tuples(lo + 1, n, k - 1)|]
  {
    var rest, more := Tuples(lo + 1, n, k - 1), Tuples(lo + 1, n, k);
    var front := Cons(lo, rest);
    assert Tuples(lo, n, k) == front + more;
    assert (front + more)[i] == more[i - |front|];
  }

  /** The successor of lo followed by a tuple that is not the last is lo followed by its
      successor. */
  lemma NextTupleCons(lo: int, t: seq<int>, n: int)
    requires Pivot(t, n) >= 0
    ensures Pivot([lo] + t, n) >= 0
    ensures NextTuple([lo] + t, n) == [lo] + NextTuple(t, n)
  {
    PivotCons(lo, t, n);
    var u, v := NextTuple([lo] + t, n), [lo] + NextTuple(t, n);
    assert forall j :: 0 <= j < |u| ==> u[j] == v[j];
  }

  /** The successor of lo, n - k + 1, ..., n - 1 is lo + 1, ..., lo + k when lo < n - k. */
  lemma NextTupleCarry(lo: int, n: int, k: nat)
    requires 0 < k && lo < n - k
    ensures Pivot([lo] + Last(n, k - 1), n) == 0
    ensures NextTuple([lo] + Last(n, k - 1), n) == Run(lo + 1, k)
  {
    var t := [lo] + Last(n, k - 1);
    assert forall j :: 0 < j < k ==> t[j] == n - k + j;
    assert t[0] == lo;
    var u := NextTuple(t, n);
    assert forall j :: 0 <= j < k ==> u[j] == lo + 1 + j;
  }

  /** Inside the tuples that start with lo, the successor relation carries over from the
      (k-1)-tuples after lo. */
  lemma SuccessorFront(lo: int, n: int, k: nat, i: int)
    requires k > 0 && lo < n && 0 <= i && i + 1 < |Tuples(lo + 1, n, k - 1)|
    requires Pivot(Tuples(lo + 1, n, k - 1)[i], n) >= 0
    requires Tuples(lo + 1, n, k - 1)[i + 1] == NextTuple(Tuples(lo + 1, n, k - 1)[i], n)
    ensures i + 1 < |Tuples(lo, n, k)|
    ensures Pivot(Tuples(lo, n, k)[i], n) >= 0
    ensures Tuples(lo, n, k)[i + 1] == NextTuple(Tuples(lo, n, k)[i], n)
  {
    var rest := Tuples(lo + 1, n, k - 1);
    TuplesFrontAt(lo, n, k, i);
    TuplesFrontAt(lo, n, k, i + 1);
    NextTupleCons(lo, rest[i], n);
  }

  /** When some k-tuple over [lo, n) does not start with lo, there is room for a k-tuple over
      [lo + 1, n) and therefore also for a (k-1)-tuple over it. */
  lemma SeamBounds(lo: int, n: int, k: nat)
    requires k > 0 && lo < n && |Tuples(lo + 1, n, k - 1)| < |Tuples(lo, n, k)|
    ensures lo + 1 + k <= n && 0 < |Tuples(lo + 1, n, k - 1)|
  {
    TuplesSplitCount(lo, n, k);
    TuplesFirst(lo + 1, n, k);
    TuplesFirst(lo + 1, n, k - 1);
  }

  /** The last tuple that starts with lo, tuple i = |rest| - 1 of the block where rest are the
      (k-1)-tuples after lo, is lo, n - k + 1, ..., n - 1. */
  lemma SeamLeft(lo: int, n: int, k: nat, i: int)
    requires k > 0 && lo + 1 + k <= n && i + 1 == |Tuples(lo + 1, n, k - 1)|
    ensures 0 <= i < |Tuples(lo, n, k)|
    ensures Tuples(lo, n, k)[i] == [lo] + Last(n, k - 1)
  {
    TuplesLastAt(lo + 1, n, k - 1, i);
    TuplesFrontAt(lo, n, k, i);
  }

  /** The first tuple that starts above lo, tuple |rest| of the block, is lo + 1, ..., lo + k. */
  lemma SeamRight(lo: int, n: int, k: nat)
    requires k > 0 && lo + 1 + k <= n
    ensures |Tuples(lo + 1, n, k - 1)| < |Tuples(lo, n, k)|
    ensures Tuples(lo, n, k)[|Tuples(lo + 1, n, k - 1)|] == Run(lo + 1, k)
  {
    TuplesFirst(lo + 1, n, k);
    TuplesBackAt(lo, n, k, |Tuples(lo + 1, n, k - 1)|);
  }

  /** At the seam, the last tuple starting with lo is followed by the first tuple starting with
      lo + 1, which is its successor. */
  lemma SuccessorSeam(lo: int, n: int, k: nat, i: int)
    requires k > 0 && lo < n && |Tuples(lo + 1, n, k - 1)| < |Tuples(lo, n, k)|
    requires i + 1 == |Tuples(lo + 1, n, k - 1)|
    ensures 0 <= i
    ensures Pivot(Tuples(lo, n, k)[i], n) >= 0
    ensures Tuples(lo, n, k)[i + 1] == NextTuple(Tuples(lo, n, k)[i], n)
  {
    SeamBounds(lo, n, k);
    SeamLeft(lo, n, k, i);
    SeamRight(lo, n, k);
    NextTupleCarry(lo, n, k);
  }

  /** After the seam, the successor relation carries over from the k-tuples over [lo + 1, n):
      tuple i of the block is k-tuple j = i - |rest| there, where rest are the (k-1)-tuples
      after lo. */
  lemma SuccessorBack(lo: int, n: int, k: nat, i: int, j: int)
    requires k > 0 && lo < n && j == i - |Tuples(lo + 1, n, k - 1)| && 0 <= j
    requires j + 1 < |Tuples(lo + 1, n, k)|
    requires Pivot(Tuples(lo + 1, n, k)[j], n) >= 0
    requires Tuples(lo + 1, n, k)[j + 1] == NextTuple(Tuples(lo + 1, n, k)[j], n)
    ensures i + 1 < |Tuples(lo, n, k)|
    ensures Pivot(Tuples(lo, n, k)[i], n) >= 0
    ensures Tuples(lo, n, k)[i + 1] == NextTuple(Tuples(lo, n, k)[i], n)
  {
    var s := |Tuples(lo + 1, n, k - 1)|;
    TuplesSplitCount(lo, n, k);
    TuplesBackAt(lo, n, k, i);
    TuplesBackAt(lo, n, k, i + 1);
    assert i + 1 - s == j + 1;
  }

  /** Consecutive tuples of a block are a tuple and its lexicographic successor. */
  lemma {:induction false} TuplesSuccessor(lo: int, n: int, k: nat, i: int)
    requires 0 <= i && i + 1 < |Tuples(lo, n, k)|
    ensures Pivot(Tuples(lo, n, k)[i], n) >= 0
    ensures Tuples(lo, n, k)[i + 1] == NextTuple(Tuples(lo, n, k)[i], n)
    decreases n - lo
  {
    assert k > 0 && lo < n;
    var s := |Tuples(lo + 1, n, k - 1)|;
    TuplesSplitCount(lo, n, k);
    if i + 1 < s {
      TuplesSuccessor(lo + 1, n, k - 1, i);
      SuccessorFront(lo, n, k, i);
    } else if i + 1 == s {
      SuccessorSeam(lo, n, k, i);
    } else {
      var j := i - s;
      TuplesSuccessor(lo + 1, n, k, j);
      SuccessorBack(lo, n, k, i, j);
    }
  }

  /** The generator's stop test: a tuple of a block starts at n - k exactly when it is the
      block's last tuple. */
  lemma TupleIsLastIff(lo: int, n: int, k: nat, i: int)
    requires k > 0 && 0 <= i < |Tuples(lo, n, k)|
    ensures |Tuples(lo, n, k)[i]| == k
    ensures Tuples(lo, n, k)[i][0] == n - k <==> i == |Tuples(lo, n, k)| - 1
  {
    var r := Tuples(lo, n, k);
    TuplesShape(lo, n, k);
    if i < |r| - 1 {
      TuplesIncreasing(lo, n, k);
      TuplesSuccessor(lo, n, k, i);
      IncreasingGap(r[i], 0, Pivot(r[i], n));
    } else {
      assert lo + k <= n by {
        assert lo <= r[0][0] <= n - k;
      }
      TuplesLast(lo, n, k);
    }
  }

  /** Within a block the tuples are in strictly ascending lexicographic order. */
  lemma {:induction false} TuplesSorted(lo: int, n: int, k: nat)
    ensures forall i, j :: 0 <= i < j < |Tuples(lo, n, k)| ==>
              LexLess(Tuples(lo, n, k)[i], Tuples(lo, n, k)[j])
    decreases n - lo
  {
    if k > 0 && lo < n {
      var r := Tuples(lo, n, k);
      var rest := Tuples(lo + 1, n, k - 1);
      var more := Tuples(lo + 1, n, k);
      TuplesSorted(lo + 1, n, k - 1);
      TuplesSorted(lo + 1, n, k);
      TuplesShape(lo + 1, n, k);
      forall i, j | 0 <= i < j < |r| ensures LexLess(r[i], r[j]) {
        if j < |rest| {
          assert r[i] == [lo] + rest[i] && r[j] == [lo] + rest[j];
          assert r[i][1..] == rest[i] && r[j][1..] == rest[j];
        } else if i < |rest| {
          assert r[i] == [lo] + rest[i] && r[j] == more[j - |rest|];
          assert r[i][0] == lo < r[j][0];
        } else {
          assert r[i] == more[i - |rest|] && r[j] == more[j - |rest|];
        }
      }
    }
  }

  /** Lexicographic order is irreflexive, so a sorted block has no duplicates. */
  lemma {:induction false} LexLessIrreflexive(a: seq<int>)
    ensures !LexLess(a, a)
    decreases |a|
  {
    if |a| > 0 {
      LexLessIrreflexive(a[1..]);
    }
  }

  /** The whole enumeration is grouped by ascending size, lexicographically ascending within a
      size, and so holds no index tuple twice. */
  lemma {:induction false} IndexTuplesOrdered(n: int, maxSize: int)
    ensures forall i, j :: 0 <= i < j < |IndexTuples(n, maxSize)| ==>
              var a, b := IndexTuples(n, maxSize)[i], IndexTuples(n, maxSize)[j];
              |a| < |b| || (|a| == |b| && LexLess(a, b))
    ensures forall i, j :: 0 <= i < j < |IndexTuples(n, maxSize)| ==>
              IndexTuples(n, maxSize)[i] != IndexTuples(n, maxSize)[j]
    decreases maxSize
  {
    var r := IndexTuples(n, maxSize);
    if maxSize >= 2 {
      var done := IndexTuples(n, maxSize - 1);
      var block := Tuples(0, n, maxSize);
      IndexTuplesOrdered(n, maxSize - 1);
      TuplesSorted(0, n, maxSize);
      TuplesShape(0, n, maxSize);
      forall i, j | 0 <= i < j < |r| ensures |r[i]| < |r[j]| || (|r[i]| == |r[j]| && LexLess(r[i], r[j])) {
        if j < |done| {
          assert r[i] == done[i] && r[j] == done[j];
        } else if i >= |done| {
          assert r[i] == block[i - |done|] && r[j] == block[j - |done|];
        }
      }
    }
    forall i, j | 0 <= i < j < |r| ensures r[i] != r[j] {
      LexLessIrreflexive(r[i]);
    }
  }

  /** The enumeration holds sum over k = 2..maxSize of C(n, k) tuples. */
  lemma {:induction false} IndexTuplesCount(n: nat, maxSize: int)
    ensures |IndexTuples(n, maxSize)| == SumBinomials(n, maxSize)
    decreases maxSize
  {
    if maxSize >= 2 {
      IndexTuplesCount(n, maxSize - 1);
      TuplesCount(0, n, maxSize);
    }
  }

  /** The enumeration for a smaller maximum is a prefix of the one for a larger maximum:
      position p holds the same tuple in both. */
  lemma {:induction false} IndexTuplesPrefix(n: int, small: int, large: int, p: int)
    requires small <= large && 0 <= p < |IndexTuples(n, small)|
    ensures p < |IndexTuples(n, large)|
    ensures IndexTuples(n, large)[p] == IndexTuples(n, small)[p]
    decreases large - small
  {
    if small < large {
      IndexTuplesPrefix(n, small, large - 1, p);
      var before, block := IndexTuples(n, large - 1), Tuples(0, n, large);
      assert IndexTuples(n, large) == before + block;
      assert (before + block)[p] == before[p];
    }
  }

  /** The block of size k follows the blocks of the smaller sizes in the enumeration and is
      exactly the list of k-tuples: tuple i of the block sits at position p, the number of
      tuples of size below k plus i. */
  lemma IndexTuplesBlock(n: int, maxSize: int, k: int, i: int, p: int)
    requires 2 <= k <= maxSize && 0 <= i < |Tuples(0, n, k)|
    requires p == |IndexTuples(n, k - 1)| + i
    ensures p < |IndexTuples(n, maxSize)|
    ensures IndexTuples(n, maxSize)[p] == Tuples(0, n, k)[i]
  {
    var before, block := IndexTuples(n, k - 1), Tuples(0, n, k);
    assert IndexTuples(n, k) == before + block;
    assert (before + block)[p] == block[i];
    IndexTuplesPrefix(n, k, maxSize, p);
  }

  /** Hence the block of size k occupies positions SumBinomials(n, k - 1) up to
      SumBinomials(n, k), that is C(n, k) positions. */
  lemma IndexTuplesBlockPosition(n: nat, k: int)
    requires 2 <= k
    ensures |IndexTuples(n, k - 1)| == SumBinomials(n, k - 1)
    ensures |IndexTuples(n, k - 1)| + |Tuples(0, n, k)| == SumBinomials(n, k)
    ensures |Tuples(0, n, k)| == Binomial(n, k)
  {
    IndexTuplesCount(n, k - 1);
    IndexTuplesCount(n, k);
    TuplesCount(0, n, k);
  }

  /** Group sizes above the number of records contribute nothing to the enumeration. */
  lemma {:induction false} IndexTuplesSaturate(n: nat, maxSize: int)
    requires maxSize >= n
    ensures IndexTuples(n, maxSize) == IndexTuples(n, n)
    decreases maxSize
  {
    if maxSize > n {
      IndexTuplesSaturate(n, maxSize - 1);
      TuplesFirst(0, n, maxSize);
      if maxSize < 2 {
        assert IndexTuples(n, n) == [];
      }
    }
  }

  /** Combination j is values taken at index tuple j of the enumeration: a strictly
      increasing tuple of 2 to maxSize indexes, so an order-preserving subsequence of values. */
  lemma {:induction false} CombinationsAreSelections<T>(values: seq<T>, maxSize: int)
    ensures |AllCombinations(values, maxSize)| == |IndexTuples(|values|, maxSize)|
    ensures forall j :: 0 <= j < |AllCombinations(values, maxSize)| ==>
              AllCombinations(values, maxSize)[j] == Select(values, IndexTuples(|values|, maxSize)[j])
  {
    CombinationsCount(values, maxSize);
    forall j | 0 <= j < |AllCombinations(values, maxSize)|
      ensures AllCombinations(values, maxSize)[j] == Select(values, IndexTuples(|values|, maxSize)[j])
    {
      CombinationAt(values, maxSize, j);
    }
  }

  /** Every strictly increasing k-tuple over [lo, n) is in the block: the enumeration misses
      none. */
  lemma {:induction false} TuplesComplete(lo: int, n: int, k: nat, t: seq<int>)
    requires |t| == k && Increasing(t) && forall j :: 0 <= j < k ==> lo <= t[j] < n
    ensures t in Tuples(lo, n, k)
    decreases n - lo
  {
    if k > 0 {
      assert lo <= t[0] < n;
      var front, back := Tuples(lo + 1, n, k - 1), Tuples(lo + 1, n, k);
      assert Tuples(lo, n, k) == Cons(lo, front) + back;
      if t[0] == lo {
        var rest := t[1..];
        assert forall j :: 0 <= j < k - 1 ==> rest[j] == t[j + 1] && t[0] < t[j + 1];
        TuplesComplete(lo + 1, n, k - 1, rest);
        assert t == [lo] + rest;
        ConsMember(lo, front, rest);
        InFront(Cons(lo, front), back, t);
      } else {
        assert forall j :: 0 <= j < k ==> t[0] <= t[j];
        TuplesComplete(lo + 1, n, k, t);
        InBack(Cons(lo, front), back, t);
      }
    }
  }

  /** A tuple of ts with x put in front is in Cons(x, ts). */
  lemma ConsMember(x: int, ts: seq<seq<int>>, t: seq<int>)
    requires t in ts
    ensures [x] + t in Cons(x, ts)
  {
    var i :| 0 <= i < |ts| && ts[i] == t;
    assert Cons(x, ts)[i] == [x] + t;
  }

  /** A member of the front part of a concatenation is a member of it. */
  lemma InFront<X>(front: seq<X>, back: seq<X>, t: X)
    requires t in front
    ensures t in front + back
  {
    var i :| 0 <= i < |front| && front[i] == t;
    assert (front + back)[i] == t;
  }

  /** A member of the back part of a concatenation is a member of it. */
  lemma InBack<X>(front: seq<X>, back: seq<X>, t: X)
    requires t in back
    ensures t in front + back
  {
    var i :| 0 <= i < |back| && back[i] == t;
    assert (front + back)[|front| + i] == t;
  }

  /** Every strictly increasing tuple of 2 to maxSize indexes below n is in the enumeration. */
  lemma {:induction false} IndexTuplesComplete(n: int, maxSize: int, t: seq<int>)
    requires 2 <= |t| <= maxSize && Increasing(t) && forall j :: 0 <= j < |t| ==> 0 <= t[j] < n
    ensures t in IndexTuples(n, maxSize)
    decreases maxSize
  {
    var before, block := IndexTuples(n, maxSize - 1), Tuples(0, n, maxSize);
    assert IndexTuples(n, maxSize) == before + block;
    if |t| == maxSize {
      TuplesComplete(0, n, maxSize, t);
      InBack(before, block, t);
    } else {
      IndexTuplesComplete(n, maxSize - 1, t);
      InFront(before, block, t);
    }
  }

  /** The records of values at any strictly increasing tuple of 2 to maxSize indexes form one
      of the combinations: every order-preserving group of that size is produced. */
  lemma CombinationsComplete<T>(values: seq<T>, maxSize: int, t: seq<int>)
    requires 2 <= |t| <= maxSize && Increasing(t)
    requires forall j :: 0 <= j < |t| ==> 0 <= t[j] < |values|
    ensures Select(values, t) in AllCombinations(values, maxSize)
  {
    IndexTuplesComplete(|values|, maxSize, t);
    var p :| 0 <= p < |IndexTuples(|values|, maxSize)| && IndexTuples(|values|, maxSize)[p] == t;
    CombinationsCount(values, maxSize);
    CombinationAt(values, maxSize, p);
  }

  /** There are as many combinations as index tuples. */
  lemma {:induction false} CombinationsCount<T>(values: seq<T>, maxSize: int)
    ensures |AllCombinations(values, maxSize)| == |IndexTuples(|values|, maxSize)|
    decreases maxSize
  {
    if maxSize >= 2 {
      CombinationsCount(values, maxSize - 1);
    }
  }

  /** Combination j is values taken at index tuple j. */
  lemma {:induction false} CombinationAt<T>(values: seq<T>, maxSize: int, j: int)
    requires 0 <= j < |AllCombinations(values, maxSize)|
    ensures j < |IndexTuples(|values|, maxSize)|
    ensures AllCombinations(values, maxSize)[j] == Select(values, IndexTuples(|values|, maxSize)[j])
    decreases maxSize
  {
    var n := |values|;
    var c0, e0 := AllCombinations(values, maxSize - 1), IndexTuples(n, maxSize - 1);
    var b, t := Block(values, maxSize), Tuples(0, n, maxSize);
    CombinationsCount(values, maxSize - 1);
    assert AllCombinations(values, maxSize) == c0 + b;
    assert IndexTuples(n, maxSize) == e0 + t;
    if j < |c0| {
      CombinationAt(values, maxSize - 1, j);
      assert (c0 + b)[j] == c0[j];
      assert (e0 + t)[j] == e0[j];
    } else {
      var i := j - |c0|;
      assert (c0 + b)[j] == b[i];
      assert (e0 + t)[j] == t[i];
    }
  }

  // ---------------------------------------------------------------------------------------
  // The generator

  /** Selecting along a reversed tuple gives the selection reversed. */
  lemma SelectReversed<T>(values: seq<T>, a: seq<int>)
    requires forall j :: 0 <= j < |a| ==> 0 <= Reversed(a)[j] < |values|
    ensures forall j :: 0 <= j < |a| ==> 0 <= a[j] < |values|
    ensures Reversed(Select(values, a)) == Select(values, Reversed(a))
  {
    var t := Reversed(a);
    assert forall j :: 0 <= j < |a| ==> a[j] == t[|a| - 1 - j];
    assert forall j :: 0 <= j < |a| ==> Reversed(Select(values, a))[j] == values[t[j]];
  }

  /** The facts about a sequence of k-tuples over [0, n) that the walk of createCombinations
      relies on: it starts at 0, 1, ..., k - 1, every tuple lies in the window, a tuple starts
      at n - k exactly when it is the last one, and every other tuple has a pivot and is
      followed by its successor. */
  ghost predicate IsWalk(tuples: seq<seq<int>>, n: int, k: nat)
  {
    && 0 < k <= n
    && |tuples| > 0
    && tuples[0] == Run(0, k)
    && (forall p :: 0 <= p < |tuples| ==> |tuples[p]| == k && InWindow(tuples[p], 0, n))
    && (forall p :: 0 <= p < |tuples| ==> (tuples[p][0] == n - k <==> p == |tuples| - 1))
    && (forall p :: 0 <= p < |tuples| - 1 ==>
          Pivot(tuples[p], n) >= 0 && tuples[p + 1] == NextTuple(tuples[p], n))
  }

  /** The block of k-tuples over [0, n) is such a walk. */
  lemma TuplesWalk(n: int, k: nat)
    requires 0 < k <= n
    ensures IsWalk(Tuples(0, n, k), n, k)
  {
    var r := Tuples(0, n, k);
    TuplesFirst(0, n, k);
    TuplesShape(0, n, k);
    forall p | 0 <= p < |r| ensures |r[p]| == k && (r[p][0] == n - k <==> p == |r| - 1) {
      TupleIsLastIff(0, n, k, p);
    }
    forall p | 0 <= p < |r| - 1 ensures Pivot(r[p], n) >= 0 && r[p + 1] == NextTuple(r[p], n) {
      TuplesSuccessor(0, n, k, p);
    }
  }

  /** What the pivot of the tuple says about its reversed copy a, largest index first: below
      position m (the pivot counted from the other end) every entry is at its largest value
      n - 1 - i, and the entry at m is below its largest value. */
  lemma ReversedPivot(a: seq<int>, n: int)
    requires InWindow(Reversed(a), 0, n) && Pivot(Reversed(a), n) >= 0
    ensures var m := |a| - 1 - Pivot(Reversed(a), n);
            && 0 <= m < |a|
            && (forall i :: 0 <= i < |a| ==> a[i] <= n - 1 - i)
            && (forall i :: 0 <= i < m ==> a[i] == n - 1 - i)
            && a[m] < n - 1 - m
  {
    var t := Reversed(a);
    assert forall i :: 0 <= i < |a| ==> a[i] == t[|a| - 1 - i];
  }

  /** The array state Advance leaves behind, read back to front, is the successor tuple. */
  lemma AdvancedIsNext(a: seq<int>, b: seq<int>, n: int)
    requires Pivot(Reversed(a), n) >= 0 && |b| == |a|
    requires var m := |a| - 1 - Pivot(Reversed(a), n);
             forall j :: 0 <= j < |b| ==> b[j] == if j <= m then a[m] + 1 + (m - j) else a[j]
    ensures Reversed(b) == NextTuple(Reversed(a), n)
  {
    var t := Reversed(a);
    assert forall j :: 0 <= j < |a| ==> Reversed(b)[j] == NextTuple(t, n)[j];
  }

  /** One step of the walk (index.js:116-126) on indexes, which holds the current tuple largest
      index first: increment position 0, carry into the next position whenever position i has
      reached n - i, then reset every carried position from the high side. */
  method Advance(indexes: array<int>, n: int)
    requires InWindow(Reversed(indexes[..]), 0, n) && Pivot(Reversed(indexes[..]), n) >= 0
    modifies indexes
    ensures Reversed(indexes[..]) == NextTuple(Reversed(old(indexes[..])), n)
  {
    ghost var a := indexes[..];
    // m is the pivot counted in the array's order
    ghost var m := indexes.Length - 1 - Pivot(Reversed(a), n);
    ReversedPivot(a, n);
    Carry(indexes, n, a, m);
    Reset(indexes, n, a, m);
    AdvancedIsNext(a, indexes[..], n);
  }

  /** The increment and carry pass of Advance (index.js:116-121): positions 0 through m go up
      by one, where m is the first position that does not overflow. */
  method Carry(indexes: array<int>, n: int, ghost a: seq<int>, ghost m: int)
    requires a == indexes[..] && 0 <= m < |a|
    requires forall i :: 0 <= i < m ==> a[i] == n - 1 - i
    requires forall i :: 0 <= i < |a| ==> a[i] <= n - 1 - i
    requires a[m] < n - 1 - m
    modifies indexes
    ensures forall j :: 0 <= j < |a| ==> indexes[j] == if j <= m then a[j] + 1 else a[j]
  {
    indexes[0] := indexes[0] + 1;
    for i := 0 to indexes.Length
      invariant forall j :: 0 <= j < |a| ==>
                  indexes[j] == if j <= i && j <= m then a[j] + 1 else a[j]
    {
      if indexes[i] == n - i {
        indexes[i + 1] := indexes[i + 1] + 1;
      }
    }
  }

  /** The reset pass of Advance (index.js:122-126), from the high side: each overflowed
      position below m becomes one more than the position after it. */
  method Reset(indexes: array<int>, n: int, ghost a: seq<int>, ghost m: int)
    requires |a| == indexes.Length && 0 <= m < |a|
    requires forall i :: 0 <= i < m ==> a[i] == n - 1 - i
    requires forall i :: 0 <= i < |a| ==> a[i] <= n - 1 - i
    requires a[m] < n - 1 - m
    requires forall j :: 0 <= j < |a| ==> indexes[j] == if j <= m then a[j] + 1 else a[j]
    modifies indexes
    ensures forall j :: 0 <= j < |a| ==> indexes[j] == if j <= m then a[m] + 1 + (m - j) else a[j]
  {
    for i := indexes.Length downto 0
      invariant forall j :: 0 <= j < i ==>
                  indexes[j] == if j <= m then a[j] + 1 else a[j]
      invariant forall j :: i <= j < |a| ==>
                  indexes[j] == if j <= m then a[m] + 1 + (m - j) else a[j]
    {
      if indexes[i] == n - i {
        indexes[i] := indexes[i + 1] + 1;
      }
    }
  }

  /** combinator applied to the records of values at each of the first p tuples, in order. */
  ghost function Outputs<T, U>(values: seq<T>, combinator: seq<T> -> U, tuples: seq<seq<int>>,
                               p: nat): seq<U>
    requires p <= |tuples|
    requires forall q, j :: 0 <= q < |tuples| && 0 <= j < |tuples[q]| ==>
               0 <= tuples[q][j] < |values|
  {
    if p == 0 then []
    else Outputs(values, combinator, tuples, p - 1) + [combinator(Select(values, tuples[p - 1]))]
  }

  lemma {:induction false} OutputsAt<T, U>(values: seq<T>, combinator: seq<T> -> U,
                                           tuples: seq<seq<int>>, p: nat)
    requires p <= |tuples|
    requires forall q, j :: 0 <= q < |tuples| && 0 <= j < |tuples[q]| ==>
               0 <= tuples[q][j] < |values|
    ensures |Outputs(values, combinator, tuples, p)| == p
    ensures forall j :: 0 <= j < p ==>
              Outputs(values, combinator, tuples, p)[j] == combinator(Select(values, tuples[j]))
  {
    if p > 0 {
      OutputsAt(values, combinator, tuples, p - 1);
    }
  }

  /** The indexes of a walk over the records of values are in range. */
  lemma WalkInRange<T>(values: seq<T>, k: nat, tuples: seq<seq<int>>)
    requires IsWalk(tuples, |values|, k)
    ensures forall q, j :: 0 <= q < |tuples| && 0 <= j < |tuples[q]| ==>
              0 <= tuples[q][j] < |values|
  {
  }

  /** The body of the loop over k in createCombinations (index.js:106-127): start indexes at
      k - 1, ..., 1, 0, then repeatedly emit combinator applied to the selected records and
      advance, until the smallest index reaches n - k. Along any walk (the ghost tuples, which
      the array holds largest index first) the outputs are combinator applied to the records at
      each tuple, in order. */
  method EmitBlock<T, U>(values: seq<T>, k: int, combinator: seq<T> -> U,
                         ghost tuples: seq<seq<int>>) returns (block: seq<U>)
    requires 0 < k && IsWalk(tuples, |values|, k)
    ensures |block| == |tuples|
    ensures forall j :: 0 <= j < |block| ==> block[j] == combinator(Select(values, tuples[j]))
  {
    var n := |values|;
    WalkInRange(values, k, tuples);
    block := [];
    var indexes := new int[k](i => k - 1 - i);
    ghost var pos := 0;
    assert Reversed(indexes[..]) == tuples[0];
    while true
      invariant 0 <= pos < |tuples|
      invariant Reversed(indexes[..]) == tuples[pos]
      invariant block == Outputs(values, combinator, tuples, pos)
      decreases |tuples| - pos
    {
      SelectReversed(values, indexes[..]);
      var combination := Reversed(Select(values, indexes[..]));
      block := block + [combinator(combination)];
      if indexes[k - 1] == n - k {
        break;
      }
      Advance(indexes, n);
      pos := pos + 1;
    }
    OutputsAt(values, combinator, tuples, |tuples|);
  }

  /** createCombinations (index.js:103-131): for k = 2..maxCombinations, emit combinator applied
      to each k-combination of values, walking the index tuples in lexicographic order. The
      source misbehaves when maxCombinations exceeds |values| (it reads past values and never
      stops), so that case is excluded. */
  method CreateCombinations<T, U>(values: seq<T>, maxCombinations: int, combinator: seq<T> -> U)
    returns (combinations: seq<U>)
    requires maxCombinations <= |values|
    ensures |combinations| == |AllCombinations(values, maxCombinations)|
    ensures forall j :: 0 <= j < |combinations| ==>
              combinations[j] == combinator(AllCombinations(values, maxCombinations)[j])
  {
    combinations := [];
    var k := 2;
    while k <= maxCombinations
      invariant k == 2 || 2 < k <= maxCombinations + 1
      invariant |combinations| == |AllCombinations(values, k - 1)|
      invariant forall j :: 0 <= j < |combinations| ==>
                  combinations[j] == combinator(AllCombinations(values, k - 1)[j])
    {
      TuplesWalk(|values|, k);
      var block := EmitBlock(values, k, combinator, Tuples(0, |values|, k));
      combinations := combinations + block;
      k := k + 1;
    }
    assert AllCombinations(values, k - 1) == AllCombinations(values, maxCombinations);
  }

  // ---------------------------------------------------------------------------------------
  // Three records x, y, z

  /** x put in front of the one tuple t. */
  lemma ConsOne(x: int, t: seq<int>)
    ensures Cons(x, [t]) == [[x] + t]
  {
    assert Cons(x, [t])[0] == [x] + t;
  }

  /** x put in front of the two tuples a and b. */
  lemma ConsTwo(x: int, a: seq<int>, b: seq<int>)
    ensures Cons(x, [a, b]) == [[x] + a, [x] + b]
  {
    assert Cons(x, [a, b])[0] == [x] + a && Cons(x, [a, b])[1] == [x] + b;
  }

  /** The 1-tuples over [1, 3) and over [2, 3), and the 2-tuples over [2, 3). */
  lemma SmallTuples()
    ensures Tuples(2, 3, 1) == [[2]] && Tuples(1, 3, 1) == [[1], [2]] && Tuples(2, 3, 2) == []
  {
    assert Tuples(3, 3, 0) == [[]] && Tuples(3, 3, 1) == [];
    assert [2] + [] == [2] && [1] + [] == [1];
    assert Tuples(2, 3, 1) == Cons(2, [[]]) + [];
    ConsOne(2, []);
    assert Tuples(1, 3, 1) == Cons(1, [[]]) + [[2]];
    ConsOne(1, []);
    assert Tuples(3, 3, 2) == [];
    assert Tuples(2, 3, 2) == Cons(2, []) + [];
  }

  /** The pairs over [0, 3): (0,1), (0,2), (1,2). */
  lemma PairsOfThree()
    ensures Tuples(0, 3, 2) == [[0, 1], [0, 2], [1, 2]]
  {
    SmallTuples();
    assert Tuples(1, 3, 2) == Cons(1, [[2]]) + [];
    ConsOne(1, [2]);
    assert [0] + [1] == [0, 1] && [0] + [2] == [0, 2] && [1] + [2] == [1, 2];
    assert Tuples(0, 3, 2) == Cons(0, [[1], [2]]) + [[1, 2]];
    ConsTwo(0, [1], [2]);
  }

  /** The only triple over [0, 3) is (0,1,2). */
  lemma TriplesOfThree()
    ensures Tuples(0, 3, 3) == [[0, 1, 2]]
  {
    SmallTuples();
    assert Tuples(3, 3, 3) == [] && Tuples(3, 3, 2) == [];
    assert Tuples(2, 3, 3) == Cons(2, []) + [];
    assert Tuples(1, 3, 3) == Cons(1, []) + [];
    assert Tuples(1, 3, 2) == Cons(1, [[2]]) + [];
    ConsOne(1, [2]);
    assert [1] + [2] == [1, 2] && [0] + [1, 2] == [0, 1, 2];
    assert Tuples(0, 3, 3) == Cons(0, [[1, 2]]) + [];
    ConsOne(0, [1, 2]);
  }

  /** Three records x, y, z: up to size 2 the combinations are [x,y], [x,z], [y,z] in that
      order; up to size 3 [x,y,z] follows them. */
  lemma ThreeRecords<T>(x: T, y: T, z: T)
    ensures AllCombinations([x, y, z], 2) == [[x, y], [x, z], [y, z]]
    ensures AllCombinations([x, y, z], 3) == [[x, y], [x, z], [y, z], [x, y, z]]
  {
    var values := [x, y, z];
    PairsOfThree();
    TriplesOfThree();
    assert AllCombinations(values, 1) == [];
    assert Select(values, [0, 1]) == [x, y] && Select(values, [0, 2]) == [x, z];
    assert Select(values, [1, 2]) == [y, z] && Select(values, [0, 1, 2]) == [x, y, z];
    assert Block(values, 2) == [[x, y], [x, z], [y, z]];
    assert Block(values, 3) == [[x, y, z]];
  }
}
