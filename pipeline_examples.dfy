/** The stages of tests/test_pipeline.py, over the `{"value": i}` items that GenerateNumbersPipe
    yields, and the printed outputs the tests expect. */
module PipelineExamples {
  import opened Wrappers
  import opened Pipeline
  import opened Arith

  /** `sum(buff) / len(buff)`, kept as the exact quotient. */
  datatype Mean = Mean(sum: int, count: nat)

  /** A test item: "value" is always there; "avg" and "batch_no" are added by stages. */
  datatype Data = Data(value: int, avg: Option<Mean>, batchNo: Option<int>)

  /** `GenerateNumbersPipe(n)`: the items 0, 1, …, n-1. */
  function Numbers(n: nat): (xs: seq<Data>)
    ensures |xs| == n
  {
    seq(n, i requires 0 <= i < n => Data(i, None, None))
  }

  lemma NumbersPrefix(n: nat, k: nat)
    requires k <= n
    ensures Numbers(n)[..k] == Numbers(k)
  {
  }

  /** `PrintPipe(key)` passes every item on unchanged; what it prints is a function of the items
      reaching it, given by the three functions below. */
  function PrintFn(): (seq<Data>, Data) -> Data
  {
    (h: seq<Data>, d: Data) => d
  }

  /** What `PrintPipe("value")` prints. */
  function PrintedValues(xs: seq<Data>): (out: seq<int>)
    ensures |out| == |xs| && forall i :: 0 <= i < |xs| ==> out[i] == xs[i].value
  {
    seq(|xs|, i requires 0 <= i < |xs| => xs[i].value)
  }

  /** What `PrintPipe("avg")` prints: one line per item that has an average. */
  function PrintedAvgs(xs: seq<Data>): seq<Mean>
    decreases |xs|
  {
    if |xs| == 0 then []
    else PrintedAvgs(xs[..|xs| - 1]) + (if xs[|xs| - 1].avg.Some? then [xs[|xs| - 1].avg.value] else [])
  }

  /** What `PrintPipe("batch_no")` prints: one line per item that has a batch number. */
  function PrintedBatchNos(xs: seq<Data>): seq<int>
    decreases |xs|
  {
    if |xs| == 0 then []
    else PrintedBatchNos(xs[..|xs| - 1]) + (if xs[|xs| - 1].batchNo.Some? then [xs[|xs| - 1].batchNo.value] else [])
  }

  // ---------------------------------------------------------------- Pipeline(numbers).map(print)

  /** The print stage passes the stream through unchanged. */
  lemma PrintIdentity(xs: seq<Data>)
    ensures Mapped(PrintFn(), xs) == xs
  {
  }

  // ---------------------------------------------------------------- .filter(IsMultipleOfPipe(2))

  function IsEven(): Data -> bool
  {
    (d: Data) => d.value % 2 == 0
  }

  /** Keeping the multiples of 2 of 0..n-1 gives 0, 2, 4, … */
  lemma {:induction false} EvenNumbers(n: nat)
    ensures PrintedValues(Filtered(IsEven(), Numbers(n))) == seq((n + 1) / 2, i requires i >= 0 => 2 * i)
    decreases n
  {
    if n > 0 {
      EvenNumbers(n - 1);
      NumbersPrefix(n, n - 1);
      var prev := Filtered(IsEven(), Numbers(n - 1));
      assert Filtered(IsEven(), Numbers(n)) == prev + (if (n - 1) % 2 == 0 then [Data(n - 1, None, None)] else []);
      var want := seq((n + 1) / 2, i requires i >= 0 => 2 * i);
      var had := seq(n / 2, i requires i >= 0 => 2 * i);
      if (n - 1) % 2 == 0 {
        assert want == had + [n - 1];
      } else {
        assert want == had;
      }
    }
  }

  // ---------------------------------------------------------------- .map(MovingAveragePipe(5))

  function Sum(s: seq<int>): int
    decreases |s|
  {
    if |s| == 0 then 0 else Sum(s[..|s| - 1]) + s[|s| - 1]
  }

  /** A `deque(maxlen=k)` after appending: the last k elements. */
  function Last(k: nat, s: seq<int>): (r: seq<int>)
    ensures |r| == if |s| <= k then |s| else k
  {
    if |s| <= k then s else s[|s| - k..]
  }

  /** One call of `MovingAveragePipe(period)`: append the value to the buffer, and once the buffer
      is full attach the mean of its contents. */
  function AverageStep(period: nat): (seq<int>, Data) -> (seq<int>, Data)
  {
    (buff: seq<int>, d: Data) =>
      var b := Last(period, buff + [d.value]);
      (b, if |b| >= period then d.(avg := Some(Mean(Sum(b), |b|))) else d)
  }

  function Range(a: int, b: int): (r: seq<int>)
    requires a <= b
    ensures |r| == b - a && forall j :: 0 <= j < b - a ==> r[j] == a + j
  {
    seq(b - a, j requires 0 <= j < b - a => a + j)
  }

  function Max(a: int, b: int): int { if a >= b then a else b }

  /** After the items 0..m-1 the buffer holds the last five of them. */
  lemma {:induction false} AverageBuffer(m: nat)
    ensures StatefulRun(AverageStep(5), [], Numbers(m)).0 == Range(Max(0, m - 5), m)
    decreases m
  {
    if m > 0 {
      AverageBuffer(m - 1);
      NumbersPrefix(m, m - 1);
      var xs := Numbers(m);
      assert xs[m - 1] == Data(m - 1, None, None);
      WindowStep(m);
    }
  }

  /** Appending m-1 to the buffer of the five before it keeps the five ending at m-1. */
  lemma WindowStep(m: nat)
    requires m > 0
    ensures Last(5, Range(Max(0, m - 6), m - 1) + [m - 1]) == Range(Max(0, m - 5), m)
  {
    assert Range(Max(0, m - 6), m - 1) + [m - 1] == Range(Max(0, m - 6), m);
  }

  lemma SumFive(a: int)
    ensures Sum(Range(a, a + 5)) == 5 * a + 10
  {
    assert Range(a, a + 1)[..0] == [];
    assert Sum(Range(a, a + 1)) == a;
    assert Range(a, a + 2)[..1] == Range(a, a + 1);
    assert Sum(Range(a, a + 2)) == 2 * a + 1;
    assert Range(a, a + 3)[..2] == Range(a, a + 2);
    assert Sum(Range(a, a + 3)) == 3 * a + 3;
    assert Range(a, a + 4)[..3] == Range(a, a + 3);
    assert Sum(Range(a, a + 4)) == 4 * a + 6;
    assert Range(a, a + 5)[..4] == Range(a, a + 4);
  }

  /** `Pipeline(GenerateNumbersPipe(n)).map(MovingAveragePipe(period=5))`. */
  function Averaged(n: nat): seq<Data>
  {
    Mapped(StateMachineStage(AverageStep(5), []), Numbers(n))
  }

  /** The moving-average stage run over 0..n-1: item i gets the mean of i-4..i once i >= 4. */
  lemma MovingAverageItem(n: nat, i: nat)
    requires i < n
    ensures |Averaged(n)| == n
    ensures Averaged(n)[i] == if i >= 4 then Data(i, Some(Mean(5 * i - 10, 5)), None) else Data(i, None, None)
  {
    NumbersPrefix(n, i);
    AverageBuffer(i);
    AverageStepAt(i);
  }

  /** Item i meets the buffer of i-5..i-1 and leaves with the mean of i-4..i once that is full. */
  lemma AverageStepAt(i: nat)
    ensures AverageStep(5)(Range(Max(0, i - 5), i), Data(i, None, None)).1
         == if i >= 4 then Data(i, Some(Mean(5 * i - 10, 5)), None) else Data(i, None, None)
  {
    var b := Range(Max(0, i - 5), i);
    assert b + [i] == Range(Max(0, i - 5), i + 1);
    assert Last(5, b + [i]) == Range(Max(0, i - 4), i + 1);
    if i >= 4 {
      SumFive(i - 4);
    }
  }

  lemma AveragedPrefix(n: nat)
    requires n > 0
    ensures Averaged(n)[..n - 1] == Averaged(n - 1)
  {
    MappedOnceInOrder(StateMachineStage(AverageStep(5), []), Numbers(n));
    NumbersPrefix(n, n - 1);
  }

  function HasAvg(): Data -> bool
  {
    (d: Data) => d.avg.Some?
  }

  /** Averages printed after keeping the items that have one: the k-th is the mean of k..k+4. */
  lemma {:induction false} MovingAverages(n: nat)
    ensures PrintedAvgs(Filtered(HasAvg(), Averaged(n))) == seq(Max(0, n - 4), k requires k >= 0 => Mean(5 * k + 10, 5))
    decreases n
  {
    if n > 0 {
      MovingAverages(n - 1);
      PrintedAvgsStep(n);
      MeansStep(n);
    }
  }

  /** Item n-1 adds its mean to the printed averages once it has one. */
  lemma PrintedAvgsStep(n: nat)
    requires n > 0
    ensures PrintedAvgs(Filtered(HasAvg(), Averaged(n)))
         == PrintedAvgs(Filtered(HasAvg(), Averaged(n - 1))) + (if n - 1 >= 4 then [Mean(5 * (n - 1) - 10, 5)] else [])
  {
    var xs := Averaged(n);
    MovingAverageItem(n, n - 1);
    AveragedPrefix(n);
    var last: seq<Data> := if n - 1 >= 4 then [xs[n - 1]] else [];
    assert Filtered(HasAvg(), xs) == Filtered(HasAvg(), Averaged(n - 1)) + last;
    PrintedAvgsConcat(Filtered(HasAvg(), Averaged(n - 1)), last);
    if n - 1 >= 4 {
      assert last[..0] == [];
    }
  }

  lemma MeansStep(n: nat)
    requires n > 0
    ensures seq(Max(0, n - 4), k requires k >= 0 => Mean(5 * k + 10, 5))
         == seq(Max(0, n - 5), k requires k >= 0 => Mean(5 * k + 10, 5))
            + (if n - 1 >= 4 then [Mean(5 * (n - 1) - 10, 5)] else [])
  {
  }

  lemma PrintedAvgsConcat(a: seq<Data>, b: seq<Data>)
    requires |b| <= 1
    ensures PrintedAvgs(a + b) == PrintedAvgs(a) + PrintedAvgs(b)
  {
    if |b| == 1 {
      assert (a + b)[..|a + b| - 1] == a;
      assert b[..0] == [];
    } else {
      assert a + b == a;
    }
  }

  // ---------------------------------------------------------------- .iter(BatchPipe(size))

  /** The items of one full batch, each tagged with the batch number. */
  function Tagged(batch: seq<Data>, no: int): (r: seq<Data>)
    ensures |r| == |batch| && forall i :: 0 <= i < |batch| ==> r[i] == batch[i].(batchNo := Some(no))
  {
    seq(|batch|, i requires 0 <= i < |batch| => batch[i].(batchNo := Some(no)))
  }

  /** `BatchPipe(size)`: items are collected into batches of `size`; each full batch is yielded with
      its number, counting from `no`; a last, incomplete batch is never yielded, and with a size
      below 1 no batch ever fills. */
  function Batched(size: int, xs: seq<Data>, no: int): seq<Data>
    decreases |xs|
  {
    if size <= 0 || |xs| < size then []
    else Tagged(xs[..size], no) + Batched(size, xs[size..], no + 1)
  }

  /** Only whole batches come out. */
  lemma {:induction false} BatchedLength(size: nat, xs: seq<Data>, no: int)
    requires size > 0
    ensures |Batched(size, xs, no)| == |xs| / size * size
    decreases |xs|
  {
    if |xs| >= size {
      BatchedLength(size, xs[size..], no + 1);
      DivStep(|xs|, size);
    } else {
      DivSmall(|xs|, size);
    }
  }

  /** Item i of the batched stream is input item i tagged with batch number no + i / size. */
  lemma {:induction false} BatchedAt(size: nat, xs: seq<Data>, no: int, i: nat)
    requires size > 0 && i < |Batched(size, xs, no)|
    ensures i < |xs| && Batched(size, xs, no)[i] == xs[i].(batchNo := Some(no + i / size))
    decreases |xs|
  {
    var rest := xs[size..];
    if i < size {
      DivSmall(i, size);
    } else {
      DivStep(i, size);
      BatchedAt(size, rest, no + 1, i - size);
    }
  }

  lemma DivSmall(i: nat, size: nat)
    requires i < size
    ensures i / size == 0
  {
  }

  lemma DivStep(i: nat, size: nat)
    requires 0 < size <= i
    ensures (i - size) / size == i / size - 1
  {
    var q, r := (i - size) / size, (i - size) % size;
    assert i == (q + 1) * size + r;
    DivModUnique(i, size, q + 1, r);
  }

  /** `BatchPipe(size)` as handed to `iter`: batch numbers start at 1. */
  function BatchFn(size: int): seq<Data> -> seq<Data>
  {
    (xs: seq<Data>) => Batched(size, xs, 1)
  }

  lemma {:induction false} PrintedBatchNosAll(xs: seq<Data>)
    requires forall i :: 0 <= i < |xs| ==> xs[i].batchNo.Some?
    ensures PrintedBatchNos(xs) == seq(|xs|, i requires 0 <= i < |xs| => xs[i].batchNo.value)
    decreases |xs|
  {
    if |xs| > 0 {
      var init := xs[..|xs| - 1];
      PrintedBatchNosAll(init);
    }
  }

  /** Batching 0..n-1 in pairs numbers the items 1, 1, 2, 2, …; an odd last item is dropped. */
  lemma BatchNumbers(n: nat)
    ensures PrintedBatchNos(Batched(2, Numbers(n), 1)) == seq(n / 2 * 2, i requires i >= 0 => i / 2 + 1)
  {
    var b := Batched(2, Numbers(n), 1);
    BatchedLength(2, Numbers(n), 1);
    forall i | 0 <= i < |b| ensures b[i] == Data(i, None, Some(i / 2 + 1)) {
      BatchedAt(2, Numbers(n), 1, i);
    }
    PrintedBatchNosAll(b);
  }

  // ---------------------------------------------------------------- the four tests

  /** `test_print_pipeline`: prints 0 to 9. */
  method PrintPipelineTest() returns (printed: seq<int>)
    ensures printed == seq(10, i requires i >= 0 => i)
  {
    var p := new Pipeline(Callable(Numbers(10), false));
    var q := p.Map(Some(Callable(PrintFn(), false)));
    var out := p.Run();
    PrintIdentity(Numbers(10));
    printed := PrintedValues(out);
  }

  /** `test_is_multiple_of_pipeline`: prints 0, 2, 4, 6, 8. */
  method IsMultipleOfPipelineTest() returns (printed: seq<int>)
    ensures printed == [0, 2, 4, 6, 8]
  {
    var p := new Pipeline(Callable(Numbers(10), false));
    var q := p.Filter(Some(Callable(IsEven(), false)));
    q := p.Map(Some(Callable(PrintFn(), false)));
    var out := p.Run();
    PrintIdentity(Filtered(IsEven(), Numbers(10)));
    EvenNumbers(10);
    printed := PrintedValues(out);
    assert printed == seq(5, i requires i >= 0 => 2 * i);
  }

  /** `test_moving_average_pipeline`: prints the means 2, 3, 4, 5, 6, 7. */
  method MovingAveragePipelineTest() returns (printed: seq<Mean>)
    ensures |printed| == 6
    ensures forall k :: 0 <= k < 6 ==> printed[k].count == 5 && printed[k].sum == 5 * (k + 2)
  {
    var p := new Pipeline(Callable(Numbers(10), false));
    var q := p.Map(Some(Callable(StateMachineStage(AverageStep(5), []), false)));
    q := p.Filter(Some(Callable(HasAvg(), false)));
    q := p.Map(Some(Callable(PrintFn(), false)));
    var out := p.Run();
    PrintIdentity(Filtered(HasAvg(), Averaged(10)));
    MovingAverages(10);
    printed := PrintedAvgs(out);
  }

  /** `test_batch_pipeline`: prints the batch numbers 1, 1, 2, 2, 3, 3, 4, 4, 5, 5. */
  method BatchPipelineTest() returns (printed: seq<int>)
    ensures printed == [1, 1, 2, 2, 3, 3, 4, 4, 5, 5]
  {
    var p := new Pipeline(Callable(Numbers(10), false));
    var q := p.Iter(Some(Callable(BatchFn(2), false)));
    q := p.Map(Some(Callable(PrintFn(), false)));
    var out := p.Run();
    PrintIdentity(Batched(2, Numbers(10), 1));
    BatchNumbersTen();
    printed := PrintedBatchNos(out);
  }

  lemma BatchNumbersTen()
    ensures PrintedBatchNos(Batched(2, Numbers(10), 1)) == [1, 1, 2, 2, 3, 3, 4, 4, 5, 5]
  {
    BatchNumbers(10);
    assert seq(10, i requires i >= 0 => i / 2 + 1) == [1, 1, 2, 2, 3, 3, 4, 4, 5, 5];
  }
}
