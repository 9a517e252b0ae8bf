/** Option and Result, and the flattening of a sequence of fallible
    sequence-producers (LINQ's SelectMany over code that may throw).
    An exception thrown part-way through an enumeration is modelled as a
    Failure of the whole result: the first failure in order wins. */
module Results {

  datatype Option<+T> = None | Some(value: T)

  datatype Result<+T, +E> = Success(value: T) | Failure(error: E)

  /** Runs `first`, then `second`, and concatenates their items; the first
      failure met is the outcome. */
  function Chain<T, E>(first: Result<seq<T>, E>, second: Result<seq<T>, E>): Result<seq<T>, E>
  {
    match first
    case Failure(e) => Failure(e)
    case Success(a) =>
      match second
      case Failure(e) => Failure(e)
      case Success(b) => Success(a + b)
  }

  /** Maps every element to its items and concatenates them in order. */
  function FlatMap<A, T, E>(xs: seq<A>, f: A -> Result<seq<T>, E>): Result<seq<T>, E>
    decreases |xs|
  {
    if xs == [] then Success([]) else Chain(f(xs[0]), FlatMap(xs[1..], f))
  }

  lemma ChainAssociative<T, E>(a: Result<seq<T>, E>, b: Result<seq<T>, E>, c: Result<seq<T>, E>)
    ensures Chain(Chain(a, b), c) == Chain(a, Chain(b, c))
  {
    if a.Success? && b.Success? && c.Success? {
      assert (a.value + b.value) + c.value == a.value + (b.value + c.value);
    }
  }

  /** Flattening distributes over concatenation of the inputs: the items of
      `xs + ys` are those of `xs` followed by those of `ys`. */
  lemma {:induction false} FlatMapAppend<A, T, E>(xs: seq<A>, ys: seq<A>, f: A -> Result<seq<T>, E>)
    ensures FlatMap(xs + ys, f) == Chain(FlatMap(xs, f), FlatMap(ys, f))
    decreases |xs|
  {
    if xs == [] {
      assert xs + ys == ys;
      match FlatMap(ys, f)
      case Failure(_) =>
      case Success(b) => assert [] + b == b;
    } else {
      assert (xs + ys)[0] == xs[0];
      assert (xs + ys)[1..] == xs[1..] + ys;
      FlatMapAppend(xs[1..], ys, f);
      ChainAssociative(f(xs[0]), FlatMap(xs[1..], f), FlatMap(ys, f));
    }
  }

  /** Flattening succeeds exactly when every element's producer succeeds. */
  lemma {:induction false} FlatMapSucceeds<A, T, E>(xs: seq<A>, f: A -> Result<seq<T>, E>)
    ensures FlatMap(xs, f).Success? <==> forall i :: 0 <= i < |xs| ==> f(xs[i]).Success?
    decreases |xs|
  {
    if xs != [] {
      FlatMapSucceeds(xs[1..], f);
      assert forall i :: 1 <= i < |xs| ==> xs[i] == xs[1..][i - 1];
    }
  }

  /** When the producer of element `k` fails and all earlier ones succeed,
      the whole flattening fails with element `k`'s error. */
  lemma {:induction false} FlatMapFirstFailure<A, T, E>(xs: seq<A>, f: A -> Result<seq<T>, E>, k: nat)
    requires k < |xs| && f(xs[k]).Failure?
    requires forall j :: 0 <= j < k ==> f(xs[j]).Success?
    ensures FlatMap(xs, f) == Failure(f(xs[k]).error)
    decreases k
  {
    if k > 0 {
      assert forall j :: 0 <= j < k - 1 ==> xs[1..][j] == xs[j + 1];
      FlatMapFirstFailure(xs[1..], f, k - 1);
      assert f(xs[0]).Success?;
    }
  }

  /** A property of item sequences that holds of the empty sequence, of every
      block produced and that survives concatenation holds of the flattening. */
  lemma {:induction false} FlatMapPreserves<A, T, E>(xs: seq<A>, f: A -> Result<seq<T>, E>, P: seq<T> -> bool)
    requires P([])
    requires forall a: seq<T>, b: seq<T> :: P(a) && P(b) ==> P(a + b)
    requires forall i :: 0 <= i < |xs| && f(xs[i]).Success? ==> P(f(xs[i]).value)
    ensures FlatMap(xs, f).Success? ==> P(FlatMap(xs, f).value)
    decreases |xs|
  {
    if xs != [] {
      assert forall i :: 0 <= i < |xs[1..]| ==> xs[1..][i] == xs[i + 1];
      FlatMapPreserves(xs[1..], f, P);
      if f(xs[0]).Success? && FlatMap(xs[1..], f).Success? {
        var head: seq<T>, rest: seq<T> := f(xs[0]).value, FlatMap(xs[1..], f).value;
        ClosedUnderConcat(P, head, rest);
      }
    }
  }

  lemma ClosedUnderConcat<T>(P: seq<T> -> bool, a: seq<T>, b: seq<T>)
    requires forall a: seq<T>, b: seq<T> :: P(a) && P(b) ==> P(a + b)
    requires P(a) && P(b)
    ensures P(a + b)
  {
  }
}
