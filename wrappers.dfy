/** Option and Result types, the converter's error conditions, and two
    order-preserving list combinators that stop at the first error. */
module Wrappers {

  datatype Option<+T> = None | Some(value: T)

  /** The exceptions the converter raises, one constructor each. */
  datatype Error =
    | MissingClosingDelimiter   // "Invalid markdown: missing closing delimiter"
    | EmptySeparator            // str.split("") raises ValueError
    | TokenNotFound             // `before, remaining = remaining.split(token, 1)` cannot unpack
    | NotImplemented            // HTMLNode.to_html on the base class
    | NoValue                   // ValueError("No value")
    | NoTag                     // ValueError("No tag found")
    | MissingChildren           // ValueError("Children is missing a value")
    | NoHeader                  // "No header in MD."

  datatype Result<+T> = Ok(value: T) | Err(error: Error) {
    predicate IsFailure() { Err? }

    function PropagateFailure<U>(): Result<U>
      requires Err?
    {
      Err(error)
    }

    function Extract(): T
      requires Ok?
    {
      value
    }
  }

  /** `acc` followed by the list carried by `r`, or the error of `r`. */
  function Prepend<T>(acc: seq<T>, r: Result<seq<T>>): Result<seq<T>>
  {
    match r
    case Ok(xs) => Ok(acc + xs)
    case Err(e) => Err(e)
  }

  /** Applies `f` to every element in order, collecting the results; the
      first element whose result is an error decides the error. */
  function MapResult<A, B>(xs: seq<A>, f: A -> Result<B>): Result<seq<B>>
    decreases |xs|
  {
    if xs == [] then Ok([])
    else
      var front :- MapResult(xs[..|xs| - 1], f);
      var last :- f(xs[|xs| - 1]);
      Ok(front + [last])
  }

  /** Like MapResult, but every element yields a list and the lists are
      concatenated in order. */
  function FlatMapResult<A, B>(xs: seq<A>, f: A -> Result<seq<B>>): Result<seq<B>>
    decreases |xs|
  {
    if xs == [] then Ok([])
    else
      var front :- FlatMapResult(xs[..|xs| - 1], f);
      var last :- f(xs[|xs| - 1]);
      Ok(front + last)
  }

  /** MapResult succeeds exactly when every element succeeds, and then the
      i-th output is the i-th element's result. */
  lemma {:induction false} MapResultOk<A, B>(xs: seq<A>, f: A -> Result<B>)
    ensures MapResult(xs, f).Ok? <==> forall i :: 0 <= i < |xs| ==> f(xs[i]).Ok?
    ensures MapResult(xs, f).Ok? ==>
              |MapResult(xs, f).value| == |xs| &&
              forall i :: 0 <= i < |xs| ==> f(xs[i]) == Ok(MapResult(xs, f).value[i])
    decreases |xs|
  {
    if xs != [] {
      var init := xs[..|xs| - 1];
      MapResultOk(init, f);
      assert forall i :: 0 <= i < |init| ==> init[i] == xs[i];
    }
  }

  /** An error in MapResult is the error of the first failing element. */
  lemma {:induction false} MapResultErr<A, B>(xs: seq<A>, f: A -> Result<B>, k: nat)
    requires k < |xs| && f(xs[k]).Err?
    requires forall i :: 0 <= i < k ==> f(xs[i]).Ok?
    ensures MapResult(xs, f) == Err(f(xs[k]).error)
    decreases |xs|
  {
    var init := xs[..|xs| - 1];
    if k < |xs| - 1 {
      assert forall i :: 0 <= i < k ==> init[i] == xs[i];
      MapResultErr(init, f, k);
    } else {
      MapResultOk(init, f);
      assert forall i :: 0 <= i < |init| ==> init[i] == xs[i];
    }
  }

  /** FlatMapResult distributes over concatenation of its input. */
  lemma {:induction false} FlatMapAppend<A, B>(xs: seq<A>, ys: seq<A>, f: A -> Result<seq<B>>)
    ensures FlatMapResult(xs + ys, f) ==
            match FlatMapResult(xs, f)
            case Err(e) => Err(e)
            case Ok(a) => Prepend(a, FlatMapResult(ys, f))
    decreases |ys|
  {
    if ys == [] {
      assert xs + ys == xs;
      if FlatMapResult(xs, f).Ok? {
        assert FlatMapResult(xs, f).value + [] == FlatMapResult(xs, f).value;
      }
    } else {
      var init := ys[..|ys| - 1];
      assert (xs + ys)[..|xs + ys| - 1] == xs + init;
      assert (xs + ys)[|xs + ys| - 1] == ys[|ys| - 1];
      FlatMapAppend(xs, init, f);
      match FlatMapResult(xs, f)
      case Err(_) =>
      case Ok(a) =>
        match FlatMapResult(init, f)
        case Err(_) =>
        case Ok(b) =>
          match f(ys[|ys| - 1])
          case Err(_) =>
          case Ok(c) => assert a + (b + c) == (a + b) + c;
    }
  }

  /** FlatMapResult of one element is that element's result. */
  lemma FlatMapSingle<A, B>(x: A, f: A -> Result<seq<B>>)
    ensures FlatMapResult([x], f) == f(x)
  {
    assert [x][..0] == [];
    if f(x).Ok? {
      assert [] + f(x).value == f(x).value;
    }
  }

  /** Prepending nothing changes nothing. */
  lemma PrependEmpty<T>(r: Result<seq<T>>)
    ensures Prepend([], r) == r
  {
    if r.Ok? {
      assert [] + r.value == r.value;
    }
  }

  /** Prepending twice is prepending the concatenation. */
  lemma PrependTwice<T>(a: seq<T>, b: seq<T>, r: Result<seq<T>>)
    ensures Prepend(a, Prepend(b, r)) == Prepend(a + b, r)
  {
    if r.Ok? {
      assert a + (b + r.value) == (a + b) + r.value;
    }
  }

  /** FlatMapResult succeeds exactly when every element succeeds. */
  lemma {:induction false} FlatMapOk<A, B>(xs: seq<A>, f: A -> Result<seq<B>>)
    ensures FlatMapResult(xs, f).Ok? <==> forall i :: 0 <= i < |xs| ==> f(xs[i]).Ok?
    decreases |xs|
  {
    if xs != [] {
      var init := xs[..|xs| - 1];
      FlatMapOk(init, f);
      assert forall i :: 0 <= i < |init| ==> init[i] == xs[i];
    }
  }

  /** An error at a prefix is the error of the whole list. */
  lemma FlatMapPrefixErr<A, B>(xs: seq<A>, k: nat, f: A -> Result<seq<B>>)
    requires k <= |xs| && FlatMapResult(xs[..k], f).Err?
    ensures FlatMapResult(xs, f) == FlatMapResult(xs[..k], f)
  {
    FlatMapAppend(xs[..k], xs[k..], f);
    assert xs[..k] + xs[k..] == xs;
  }

  /** Extending the processed prefix by one element. */
  lemma FlatMapStep<A, B>(xs: seq<A>, k: nat, f: A -> Result<seq<B>>)
    requires k < |xs|
    ensures FlatMapResult(xs[..k + 1], f) ==
            match FlatMapResult(xs[..k], f)
            case Err(e) => Err(e)
            case Ok(a) => Prepend(a, f(xs[k]))
  {
    assert xs[..k + 1][..k] == xs[..k];
  }

  /** An error of FlatMapResult is the error of some element. */
  lemma {:induction false} FlatMapErrFrom<A, B>(xs: seq<A>, f: A -> Result<seq<B>>)
    requires FlatMapResult(xs, f).Err?
    ensures exists i :: 0 <= i < |xs| && f(xs[i]) == Err(FlatMapResult(xs, f).error)
    decreases |xs|
  {
    assert xs != [];
    var init := xs[..|xs| - 1];
    if FlatMapResult(init, f).Err? {
      FlatMapErrFrom(init, f);
      var i :| 0 <= i < |init| && f(init[i]) == Err(FlatMapResult(init, f).error);
      assert init[i] == xs[i];
    } else {
      assert f(xs[|xs| - 1]) == Err(FlatMapResult(xs, f).error);
    }
  }

  /** Every element of `ys` satisfies `P`. */
  ghost predicate AllOf<T>(ys: seq<T>, P: T -> bool)
  {
    forall j :: 0 <= j < |ys| ==> P(ys[j])
  }

  lemma AllOfAppend<T>(a: seq<T>, b: seq<T>, P: T -> bool)
    requires AllOf(a, P) && AllOf(b, P)
    ensures AllOf(a + b, P)
  {
    forall j | 0 <= j < |a + b| ensures P((a + b)[j]) {
      if j < |a| {
        assert (a + b)[j] == a[j];
      } else {
        assert (a + b)[j] == b[j - |a|];
      }
    }
  }

  /** A property every element's output has, the whole output has. */
  lemma {:induction false} FlatMapKeeps<A, B>(xs: seq<A>, f: A -> Result<seq<B>>, P: B -> bool)
    requires forall i :: 0 <= i < |xs| && f(xs[i]).Ok? ==> AllOf(f(xs[i]).value, P)
    requires FlatMapResult(xs, f).Ok?
    ensures AllOf(FlatMapResult(xs, f).value, P)
    decreases |xs|
  {
    if xs != [] {
      var init := xs[..|xs| - 1];
      assert forall i :: 0 <= i < |init| ==> init[i] == xs[i];
      FlatMapKeeps(init, f, P);
      AllOfAppend(FlatMapResult(init, f).value, f(xs[|xs| - 1]).value, P);
    }
  }

  /** Extending the processed prefix of MapResult by one element. */
  lemma MapStep<A, B>(xs: seq<A>, k: nat, f: A -> Result<B>)
    requires k < |xs|
    ensures MapResult(xs[..k + 1], f) ==
            match MapResult(xs[..k], f)
            case Err(e) => Err(e)
            case Ok(a) => (match f(xs[k]) case Err(e) => Err(e) case Ok(y) => Ok(a + [y]))
  {
    assert xs[..k + 1][..k] == xs[..k];
  }

  /** For MapResult too, an error at a prefix is the error of the whole list. */
  lemma {:induction false} MapPrefixErr<A, B>(xs: seq<A>, k: nat, f: A -> Result<B>)
    requires k <= |xs| && MapResult(xs[..k], f).Err?
    ensures MapResult(xs, f) == MapResult(xs[..k], f)
    decreases |xs| - k
  {
    if k == |xs| {
      assert xs[..k] == xs;
    } else {
      MapStep(xs, k, f);
      MapPrefixErr(xs, k + 1, f);
    }
  }

  /** An error of MapResult is the error of some element. */
  lemma {:induction false} MapResultErrFrom<A, B>(xs: seq<A>, f: A -> Result<B>)
    requires MapResult(xs, f).Err?
    ensures exists i :: 0 <= i < |xs| && f(xs[i]) == Err(MapResult(xs, f).error)
    decreases |xs|
  {
    assert xs != [];
    var init := xs[..|xs| - 1];
    if MapResult(init, f).Err? {
      MapResultErrFrom(init, f);
      var i :| 0 <= i < |init| && f(init[i]) == Err(MapResult(init, f).error);
      assert init[i] == xs[i];
    } else {
      assert f(xs[|xs| - 1]) == Err(MapResult(xs, f).error);
    }
  }
}
