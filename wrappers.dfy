/** Option and Result values, and the "apply to every element, stop at the first
    error" traversal that a `forEach` whose callback may throw performs. */
module Wrappers {

  datatype Option<+T> = None | Some(value: T)

  datatype Result<+T, +E> = Ok(value: T) | Err(error: E)

  /** Puts `done` in front of a successful result; an error passes through. */
  function Prepend<T, E>(done: seq<T>, r: Result<seq<T>, E>): Result<seq<T>, E>
  {
    match r
    case Ok(rest) => Ok(done + rest)
    case Err(e) => Err(e)
  }

  /** Applies `f` to the elements of `xs` in order and collects the results;
      the first element on which `f` fails aborts the traversal with its error. */
  function MapAll<A, B, E>(xs: seq<A>, f: A -> Result<B, E>): (r: Result<seq<B>, E>)
    ensures r.Ok? ==> |r.value| == |xs|
  {
    if xs == [] then Ok([])
    else match f(xs[0])
      case Err(e) => Err(e)
      case Ok(y) => Prepend([y], MapAll(xs[1..], f))
  }

  /** A successful traversal holds, position by position, the result of `f`. */
  lemma {:induction false} MapAllOk<A, B, E>(xs: seq<A>, f: A -> Result<B, E>)
    requires MapAll(xs, f).Ok?
    ensures |MapAll(xs, f).value| == |xs|
    ensures forall i :: 0 <= i < |xs| ==> f(xs[i]) == Ok(MapAll(xs, f).value[i])
  {
    if xs != [] {
      MapAllOk(xs[1..], f);
      forall i | 0 <= i < |xs| ensures f(xs[i]) == Ok(MapAll(xs, f).value[i]) {
        if i > 0 {
          assert xs[1..][i - 1] == xs[i];
        }
      }
    }
  }

  /** The traversal fails exactly when `f` fails on some element, and then it
      reports the error of the first such element. */
  lemma {:induction false} MapAllErr<A, B, E>(xs: seq<A>, f: A -> Result<B, E>)
    ensures MapAll(xs, f).Err? <==> exists i :: 0 <= i < |xs| && f(xs[i]).Err?
    ensures MapAll(xs, f).Err? ==>
      exists i :: 0 <= i < |xs| && f(xs[i]) == Err(MapAll(xs, f).error) &&
        forall j :: 0 <= j < i ==> f(xs[j]).Ok?
  {
    if xs != [] {
      MapAllErr(xs[1..], f);
      if f(xs[0]).Ok? {
        if MapAll(xs, f).Err? {
          var i :| 0 <= i < |xs[1..]| && f(xs[1..][i]) == Err(MapAll(xs, f).error) &&
            forall j :: 0 <= j < i ==> f(xs[1..][j]).Ok?;
          assert f(xs[i + 1]) == Err(MapAll(xs, f).error);
          forall j | 0 <= j < i + 1 ensures f(xs[j]).Ok? {
            if j > 0 { assert xs[1..][j - 1] == xs[j]; }
          }
        } else {
          forall i | 0 <= i < |xs| ensures f(xs[i]).Ok? {
            if i > 0 { assert xs[1..][i - 1] == xs[i]; }
          }
        }
      } else {
        assert f(xs[0]) == Err(MapAll(xs, f).error);
      }
    }
  }

  /** When `f` maps every element to itself, the traversal returns its input. */
  lemma {:induction false} MapAllFixed<A, E>(xs: seq<A>, f: A -> Result<A, E>)
    requires forall i :: 0 <= i < |xs| ==> f(xs[i]) == Ok(xs[i])
    ensures MapAll(xs, f) == Ok(xs)
  {
    if xs != [] {
      assert f(xs[0]) == Ok(xs[0]);
      forall i | 0 <= i < |xs[1..]| ensures f(xs[1..][i]) == Ok(xs[1..][i]) {
        assert xs[1..][i] == xs[i + 1];
      }
      MapAllFixed(xs[1..], f);
      assert [xs[0]] + xs[1..] == xs;
    }
  }

  /** Where a left-to-right loop over `xs` starts and where it ends. */
  lemma MapAllBounds<A, B, E>(xs: seq<A>, f: A -> Result<B, E>, done: seq<B>)
    ensures MapAll(xs, f) == Prepend([], MapAll(xs[0..], f))
    ensures Prepend(done, MapAll(xs[|xs|..], f)) == Ok(done)
  {
    assert xs[0..] == xs;
    assert xs[|xs|..] == [];
    assert done + [] == done;
    match MapAll(xs, f)
    case Ok(ys) => assert [] + ys == ys;
    case Err(_) =>
  }

  /** One step of a left-to-right loop over `xs`: what is still to be done
      starting at position `i`, put after what has been done before it. */
  lemma MapAllStep<A, B, E>(xs: seq<A>, f: A -> Result<B, E>, done: seq<B>, i: nat)
    requires i < |xs|
    ensures f(xs[i]).Err? ==> Prepend(done, MapAll(xs[i..], f)) == Err(f(xs[i]).error)
    ensures f(xs[i]).Ok? ==>
      Prepend(done, MapAll(xs[i..], f)) == Prepend(done + [f(xs[i]).value], MapAll(xs[i + 1..], f))
  {
    assert xs[i..][0] == xs[i];
    assert xs[i..][1..] == xs[i + 1..];
    if f(xs[i]).Ok? {
      var rest := MapAll(xs[i + 1..], f);
      if rest.Ok? {
        assert done + ([f(xs[i]).value] + rest.value) == (done + [f(xs[i]).value]) + rest.value;
      }
    }
  }
}
