/**
  The bounded sampler of backend/utils/random_numbers.py. After validating
  the bounds it keeps drawing `secrets.randbelow(max - min + 1) + min` until
  it holds `count` numbers: into a set when `unique` (so repeats are dropped
  and the loop goes on), into a list otherwise.

  The random source is an input: `draws` lists, in order, the answers the
  successive `randbelow` calls give, each in `[0, max - min + 1)`. The unique
  loop ends only with probability 1; here the caller supplies a stream long
  enough for the loop to end (`Suffices`), and the results say exactly which
  prefix of the stream was used.
*/
module RandomNumbers {
  import opened Results

  /** The two `ValueError`s the validation raises. */
  datatype SampleError = MinNotBelowMax | RangeTooSmall

  function Message(e: SampleError): string {
    match e
    case MinNotBelowMax => "min_value must be less than max_value"
    case RangeTooSmall => "Range is too small to generate unique numbers"
  }

  /** `max_value - min_value + 1`, the number of integers in the inclusive range. */
  function Span(minValue: int, maxValue: int): int {
    maxValue - minValue + 1
  }

  /** The request passes both checks of the validation. */
  predicate Admissible(minValue: int, maxValue: int, count: int, unique: bool) {
    minValue < maxValue && !(unique && Span(minValue, maxValue) < count)
  }

  /** `randbelow(n)`'s contract on every answer of the stream. */
  predicate DrawsBelow(draws: seq<int>, n: int) {
    forall i | 0 <= i < |draws| :: 0 <= draws[i] < n
  }

  /** The `random_number`s the loop computes from the stream. */
  function Drawn(draws: seq<int>, minValue: int): (r: seq<int>)
    ensures |r| == |draws|
  {
    seq(|draws|, i requires 0 <= i < |draws| => draws[i] + minValue)
  }

  function Elements(s: seq<int>): set<int> {
    set x | x in s
  }

  predicate NoDuplicates(s: seq<int>) {
    forall i, j | 0 <= i < j < |s| :: s[i] != s[j]
  }

  /** The stream lets the loop reach `count` numbers: enough draws, or enough distinct ones when `unique`. */
  predicate Suffices(draws: seq<int>, minValue: int, count: int, unique: bool) {
    if unique then count <= |Elements(Drawn(draws, minValue))| else count <= |draws|
  }

  /** `list(numbers)`: the elements of a set, each once, in an order the model leaves open. */
  method ListOf(s: set<int>) returns (r: seq<int>)
    ensures Elements(r) == s
    ensures |r| == |s|
    ensures NoDuplicates(r)
  {
    r := [];
    var rest := s;
    while |rest| > 0
      invariant Elements(r) + rest == s
      invariant Elements(r) !! rest
      invariant |r| + |rest| == |s|
      invariant NoDuplicates(r)
      decreases |rest|
    {
      HasElement(rest);
      var x :| x in rest;
      AppendFresh(r, x);
      r := r + [x];
      rest := rest - {x};
    }
  }

  lemma HasElement(s: set<int>)
    requires |s| > 0
    ensures exists x :: x in s
  {
    if forall x :: x !in s {
      assert false;
    }
  }

  lemma AppendFresh(r: seq<int>, x: int)
    requires NoDuplicates(r) && x !in Elements(r)
    ensures Elements(r + [x]) == Elements(r) + {x}
    ensures NoDuplicates(r + [x])
  {
    assert forall i | 0 <= i < |r| :: r[i] in Elements(r);
  }

  /** The `unique` branch of the loop: add drawn numbers to a set until it holds `count` of them. */
  method DrawUnique(minValue: int, count: int, draws: seq<int>) returns (numbers: set<int>, used: nat)
    requires Suffices(draws, minValue, count, true)
    ensures used <= |draws|
    ensures numbers == Elements(Drawn(draws[..used], minValue))
    ensures |numbers| == (if count > 0 then count else 0)
    ensures used > 0 ==> |Elements(Drawn(draws[..used - 1], minValue))| < count
  {
    numbers, used := {}, 0;
    while |numbers| < count
      invariant used <= |draws|
      invariant numbers == Elements(Drawn(draws[..used], minValue))
      invariant |numbers| <= (if count > 0 then count else 0)
      invariant used > 0 ==> |Elements(Drawn(draws[..used - 1], minValue))| < count
      decreases |draws| - used
    {
      MoreToDraw(draws, used, minValue, count);
      var randomNumber := draws[used] + minValue;
      DrawnStep(draws, used, minValue);
      numbers := numbers + {randomNumber};
      used := used + 1;
    }
  }

  /** The other branch: append every drawn number to a list until it holds `count` of them. */
  method DrawAll(minValue: int, count: int, draws: seq<int>) returns (numbers: seq<int>)
    requires Suffices(draws, minValue, count, false)
    ensures |numbers| == (if count > 0 then count else 0)
    ensures numbers == Drawn(draws[..|numbers|], minValue)
  {
    numbers := [];
    while |numbers| < count
      invariant |numbers| <= |draws|
      invariant numbers == Drawn(draws[..|numbers|], minValue)
      invariant |numbers| <= (if count > 0 then count else 0)
    {
      var randomNumber := draws[|numbers|] + minValue;
      DrawnStep(draws, |numbers|, minValue);
      numbers := numbers + [randomNumber];
    }
  }

  /** While the set is short of `count`, a sufficient stream still has draws left. */
  lemma MoreToDraw(draws: seq<int>, used: nat, minValue: int, count: int)
    requires used <= |draws|
    requires Suffices(draws, minValue, count, true)
    requires |Elements(Drawn(draws[..used], minValue))| < count
    ensures used < |draws|
  {
    assert draws[..|draws|] == draws;
  }

  /** One more draw appends one more number. */
  lemma DrawnStep(draws: seq<int>, n: nat, minValue: int)
    requires n < |draws|
    ensures Drawn(draws[..n + 1], minValue) == Drawn(draws[..n], minValue) + [draws[n] + minValue]
    ensures Elements(Drawn(draws[..n + 1], minValue)) == Elements(Drawn(draws[..n], minValue)) + {draws[n] + minValue}
  {
    ElementsAppend(Drawn(draws[..n], minValue), draws[n] + minValue);
  }

  lemma ElementsAppend(s: seq<int>, x: int)
    ensures Elements(s + [x]) == Elements(s) + {x}
  {
  }

  /** Draws that satisfy `randbelow`'s contract give numbers inside `[minValue, maxValue]`. */
  lemma DrawnBetween(draws: seq<int>, minValue: int, maxValue: int)
    requires DrawsBelow(draws, Span(minValue, maxValue))
    ensures forall x | x in Elements(Drawn(draws, minValue)) :: minValue <= x <= maxValue
  {
    forall x | x in Elements(Drawn(draws, minValue))
      ensures minValue <= x <= maxValue
    {
      var i :| 0 <= i < |draws| && Drawn(draws, minValue)[i] == x;
    }
  }

  /**
    `generate_random_numbers(min_value, max_value, count=1, unique=True)`,
    with the stream of `randbelow` answers before the defaulted parameters.
    The ghost `used` is the number of `randbelow` calls the loop made.
  */
  method GenerateRandomNumbers(minValue: int, maxValue: int, draws: seq<int>, count: int := 1, unique: bool := true)
    returns (r: Result<seq<int>, SampleError>, ghost used: nat)
    requires minValue < maxValue ==> DrawsBelow(draws, Span(minValue, maxValue))
    requires Admissible(minValue, maxValue, count, unique) ==> Suffices(draws, minValue, count, unique)
    ensures r == Err(MinNotBelowMax) <==> minValue >= maxValue
    ensures r == Err(RangeTooSmall) <==> minValue < maxValue && unique && Span(minValue, maxValue) < count
    ensures r.Ok? <==> Admissible(minValue, maxValue, count, unique)
    ensures r.Ok? ==> |r.value| == (if count > 0 then count else 0)
    ensures r.Ok? ==> forall i | 0 <= i < |r.value| :: minValue <= r.value[i] <= maxValue
    ensures r.Ok? && unique ==> NoDuplicates(r.value) && |Elements(r.value)| == |r.value|
    ensures r.Ok? ==> used <= |draws|
    ensures r.Ok? && !unique ==> used == |r.value| && r.value == Drawn(draws[..used], minValue)
    ensures r.Ok? && unique ==> Elements(r.value) == Elements(Drawn(draws[..used], minValue))
    ensures r.Ok? && unique && used > 0 ==> |Elements(Drawn(draws[..used - 1], minValue))| < count
  {
    used := 0;
    if minValue >= maxValue {
      return Err(MinNotBelowMax), used;
    }
    if unique && maxValue - minValue + 1 < count {
      return Err(RangeTooSmall), used;
    }
    if unique {
      var numbers, n := DrawUnique(minValue, count, draws);
      var list := ListOf(numbers);
      DrawnBetween(draws[..n], minValue, maxValue);
      assert forall k | 0 <= k < |list| :: list[k] in numbers;
      r, used := Ok(list), n;
    } else {
      var numbers := DrawAll(minValue, count, draws);
      r, used := Ok(numbers), |numbers|;
    }
  }

  // Why the range check comes first: an in-range stream can hold `count`
  // distinct numbers exactly when the range has room for them, so the unique
  // loop can end only for requests the validation lets through.

  /** A set of integers inside `[lo, lo + n)` has at most `n` elements. */
  lemma {:induction false} BoundedCard(s: set<int>, lo: int, n: nat)
    requires forall x | x in s :: lo <= x < lo + n
    ensures |s| <= n
  {
    if n == 0 {
      if |s| > 0 {
        HasElement(s);
      }
    } else {
      var top := lo + n - 1;
      BoundedCard(s - {top}, lo, n - 1);
      assert s <= (s - {top}) + {top};
    }
  }

  /** If an in-range stream lets the unique loop finish, the range holds at least `count` integers. */
  lemma UniqueNeedsRange(draws: seq<int>, minValue: int, maxValue: int, count: int)
    requires minValue < maxValue
    requires DrawsBelow(draws, Span(minValue, maxValue))
    requires Suffices(draws, minValue, count, true)
    ensures count <= Span(minValue, maxValue)
  {
    DrawnBetween(draws, minValue, maxValue);
    BoundedCard(Elements(Drawn(draws, minValue)), minValue, Span(minValue, maxValue));
  }

  /** The draws 0, 1, ..., n - 1. */
  function Upto(n: nat): (r: seq<int>)
    ensures |r| == n
    ensures forall i | 0 <= i < n :: r[i] == i
  {
    seq(n, i requires 0 <= i < n => i)
  }

  lemma {:induction false} UptoDistinct(n: nat, minValue: int)
    ensures |Elements(Drawn(Upto(n), minValue))| == n
  {
    if n > 0 {
      UptoDistinct(n - 1, minValue);
      var prev := Drawn(Upto(n - 1), minValue);
      assert Drawn(Upto(n), minValue) == prev + [n - 1 + minValue];
      ElementsAppend(prev, n - 1 + minValue);
      assert n - 1 + minValue !in Elements(prev);
    }
  }

  /** Conversely, when the range is large enough, some in-range stream lets the unique loop finish. */
  lemma RangeSufficesForUnique(minValue: int, maxValue: int, count: int)
    requires minValue < maxValue
    requires count <= Span(minValue, maxValue)
    ensures var draws := Upto(if count > 0 then count else 0);
      DrawsBelow(draws, Span(minValue, maxValue)) && Suffices(draws, minValue, count, true)
  {
    UptoDistinct(if count > 0 then count else 0, minValue);
  }

  // The repository's unit tests, each checked against every stream its call
  // could draw.

  /** `generate_random_numbers(1, 10)`: the defaults ask for one number. */
  method DefaultRequest(draws: seq<int>) returns (r: Result<seq<int>, SampleError>)
    requires 0 < |draws| && DrawsBelow(draws, 10)
    ensures r.Ok? && |r.value| == 1 && 1 <= r.value[0] <= 10
  {
    assert Drawn(draws, 1)[0] == draws[0] + 1;
    assert draws[0] + 1 in Elements(Drawn(draws, 1));
    ghost var used;
    r, used := GenerateRandomNumbers(1, 10, draws);
  }

  /** `generate_random_numbers(1, 10, count=5, unique=...)`: five numbers in range, distinct when unique. */
  method FiveRequest(unique: bool, draws: seq<int>) returns (r: Result<seq<int>, SampleError>)
    requires DrawsBelow(draws, 10) && Suffices(draws, 1, 5, unique)
    ensures r.Ok? && |r.value| == 5
    ensures forall i | 0 <= i < |r.value| :: 1 <= r.value[i] <= 10
    ensures unique ==> |Elements(r.value)| == 5
  {
    ghost var used;
    r, used := GenerateRandomNumbers(1, 10, draws, 5, unique);
  }

  /** The three requests the validation rejects, with the messages of their `ValueError`s. */
  method RejectedRequests() returns (equal: Result<seq<int>, SampleError>, reversed: Result<seq<int>, SampleError>, tooSmall: Result<seq<int>, SampleError>)
    ensures equal.Err? && Message(equal.error) == "min_value must be less than max_value"
    ensures reversed.Err? && Message(reversed.error) == "min_value must be less than max_value"
    ensures tooSmall.Err? && Message(tooSmall.error) == "Range is too small to generate unique numbers"
  {
    ghost var used;
    equal, used := GenerateRandomNumbers(5, 5, [], 3);
    reversed, used := GenerateRandomNumbers(10, 1, []);
    tooSmall, used := GenerateRandomNumbers(1, 5, [], 10, true);
  }

  /** `generate_random_numbers(1, 10, count=0)`: no draws, an empty list. */
  method ZeroCount(draws: seq<int>) returns (r: Result<seq<int>, SampleError>)
    requires DrawsBelow(draws, 10)
    ensures r == Ok([])
  {
    ghost var used;
    r, used := GenerateRandomNumbers(1, 10, draws, 0);
  }

  /** `generate_random_numbers(-10, -1, count=5)`: negative bounds work like any others. */
  method NegativeRange(draws: seq<int>) returns (r: Result<seq<int>, SampleError>)
    requires DrawsBelow(draws, 10) && Suffices(draws, -10, 5, true)
    ensures r.Ok? && |r.value| == 5
    ensures forall i | 0 <= i < |r.value| :: -10 <= r.value[i] <= -1
  {
    ghost var used;
    r, used := GenerateRandomNumbers(-10, -1, draws, 5);
  }

  /** `generate_random_numbers(1, 100, count=1000, unique=False)`: repeats allowed, so count may exceed the range. */
  method LargeCount(draws: seq<int>) returns (r: Result<seq<int>, SampleError>)
    requires |draws| >= 1000 && DrawsBelow(draws, 100)
    ensures r.Ok? && |r.value| == 1000
    ensures forall i | 0 <= i < |r.value| :: 1 <= r.value[i] <= 100
  {
    ghost var used;
    r, used := GenerateRandomNumbers(1, 100, draws, 1000, false);
  }

  /** A repeated draw is dropped and the unique loop draws again: the stream 3, 3, 7 gives {4, 8}. */
  method RepeatIsRedrawn() returns (r: Result<seq<int>, SampleError>)
    ensures r.Ok? && Elements(r.value) == {4, 8}
  {
    var stream := [3, 3, 7];
    assert Drawn(stream, 1) == [4, 4, 8];
    assert Elements([4, 4, 8]) == {4, 8};
    ghost var used;
    r, used := GenerateRandomNumbers(1, 10, stream, 2);
    assert Drawn(stream[..2], 1) == [4, 4] && Elements([4, 4]) == {4};
    assert Drawn(stream[..1], 1) == [4] && Elements([4]) == {4};
    assert Drawn(stream[..0], 1) == [] && Elements([]) == {};
    assert stream[..3] == stream;
    assert |{4}| == 1;
    assert used == 0 || used == 1 || used == 2 || used == 3;
    assert used == 3;
  }
}
