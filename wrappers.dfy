/** Optional values and error-or-value results, used for Python's `None` and raised exceptions. */
module Wrappers {

  datatype Option<T> = None | Some(value: T)
  {
    function GetOr(default: T): T
    {
      match this
      case None => default
      case Some(v) => v
    }
  }

  /** The exceptions the modelled code raises, by Python class. */
  datatype Error =
    | ValueError(msg: string)
    | IndexError
    | KeyError(key: string)
    | UnboundLocalError(variable: string)
    | CommandError(msg: string)
    | AuthenticationFailed(msg: string)
    | ConnectionError                 // Python's built-in ConnectionError
    | RequestsConnectionError         // requests.exceptions.ConnectionError, not a subclass of the built-in one
    | HttpError(status: int)
    | QueryError(msg: string)

  datatype Result<T> = Ok(value: T) | Err(error: Error)

  lemma PrependNothing<T>(r: Result<seq<T>>)
    ensures Prepend([], r) == r
  {
    if r.Ok? {
      assert [] + r.value == r.value;
    }
  }

  /** The items read so far put before the rest of a result; an error stays as it is. */
  function Prepend<T>(read: seq<T>, r: Result<seq<T>>): Result<seq<T>>
  {
    match r
    case Err(e) => Err(e)
    case Ok(rest) => Ok(read + rest)
  }

  /** Putting `a` before what putting `b` before `r` gives is putting `a + b` before `r`. */
  lemma PrependAppend<T>(a: seq<T>, b: seq<T>, r: Result<seq<T>>)
    ensures Prepend(a, Prepend(b, r)) == Prepend(a + b, r)
  {
    if r.Ok? {
      assert a + (b + r.value) == (a + b) + r.value;
    }
  }

  /** The first `i + 1` items are the first `i` and then the `i`-th. */
  lemma TakeSnoc<T>(s: seq<T>, i: nat)
    requires i < |s|
    ensures s[..i + 1] == s[..i] + [s[i]]
  {
  }

  /** A non-empty sequence is all but its last item, then that item. */
  lemma LastSnoc<T>(s: seq<T>)
    requires |s| > 0
    ensures s == s[..|s| - 1] + [s[|s| - 1]]
  {
  }

  /** `f` applied to every item in order, as a list comprehension does it: the first error is the result. */
  function MapAll<A, B>(f: A -> Result<B>, xs: seq<A>): (r: Result<seq<B>>)
    ensures r.Ok? <==> forall i :: 0 <= i < |xs| ==> f(xs[i]).Ok?
    ensures r.Ok? ==> |r.value| == |xs| && forall i :: 0 <= i < |xs| ==> r.value[i] == f(xs[i]).value
  {
    if xs == [] then Ok([])
    else
      var init := xs[..|xs| - 1];
      assert forall i :: 0 <= i < |init| ==> init[i] == xs[i];
      match MapAll(f, init)
      case Err(e) => Err(e)
      case Ok(front) =>
        match f(xs[|xs| - 1])
        case Err(e) => Err(e)
        case Ok(y) => Ok(front + [y])
  }

  /** One more item: an earlier failure stays, else the item's own failure or its value appended. */
  lemma MapAllSnoc<A, B>(f: A -> Result<B>, xs: seq<A>, i: nat)
    requires i < |xs|
    ensures MapAll(f, xs[..i + 1]) ==
      if MapAll(f, xs[..i]).Err? then MapAll(f, xs[..i])
      else if f(xs[i]).Err? then Err(f(xs[i]).error)
      else Ok(MapAll(f, xs[..i]).value + [f(xs[i]).value])
  {
    assert xs[..i + 1][..i] == xs[..i];
  }

  /** Once a prefix of the items fails, the whole comprehension fails the same way. */
  lemma {:induction false} MapAllErrStays<A, B>(f: A -> Result<B>, xs: seq<A>, n: nat)
    requires n <= |xs| && MapAll(f, xs[..n]).Err?
    ensures MapAll(f, xs) == MapAll(f, xs[..n])
    decreases |xs| - n
  {
    if n < |xs| {
      assert xs[..n + 1][..n] == xs[..n];
      MapAllErrStays(f, xs, n + 1);
    } else {
      assert xs[..n] == xs;
    }
  }

  /** `f` gives nothing for the first `i` items. */
  predicate NoneBefore<X, Y>(xs: seq<X>, f: X -> Option<Y>, i: nat)
  {
    forall j :: 0 <= j < i && j < |xs| ==> f(xs[j]).None?
  }

  /** What `f` gives for the first item it gives something for: a loop that stops at the first hit. */
  function FirstSome<X, Y(==)>(xs: seq<X>, f: X -> Option<Y>): (r: Option<Y>)
    ensures r.None? <==> forall i :: 0 <= i < |xs| ==> f(xs[i]).None?
    ensures r.Some? ==> exists i :: 0 <= i < |xs| && f(xs[i]) == r && NoneBefore(xs, f, i)
  {
    if xs == [] then None
    else if f(xs[0]).Some? then
      assert NoneBefore(xs, f, 0);
      f(xs[0])
    else
      var r := FirstSome(xs[1..], f);
      assert forall i :: 1 <= i < |xs| ==> xs[i] == xs[1..][i - 1];
      if r.Some? then
        var i :| 0 <= i < |xs[1..]| && f(xs[1..][i]) == r && NoneBefore(xs[1..], f, i);
        assert f(xs[i + 1]) == r && NoneBefore(xs, f, i + 1);
        r
      else r
  }
}
