/** Failure-carrying values used throughout the model: `Option` stands for a
    JavaScript value that may be `undefined`/`null`, `Result` for a call that
    either returns or throws. */
module Results {

  datatype Option<+T> = None | Some(value: T) {
    /** The value, or `default` when absent (JavaScript's `v ?? default`). */
    function GetOr(default: T): T {
      match this
      case Some(v) => v
      case None => default
    }
  }

  datatype Result<+T, +E> = Ok(value: T) | Err(error: E)

  /** `obj[key]` on an object of strings: `undefined` when it has no such property. */
  function Property(obj: map<string, string>, key: string): (r: Option<string>)
    ensures r.Some? <==> key in obj
    ensures r.Some? ==> r.value == obj[key]
  {
    if key in obj then Some(obj[key]) else None
  }

  /** All the values of a sequence of results, or the first failure with its index. */
  function Collect<T, E>(rs: seq<Result<T, E>>): (r: Result<seq<T>, (nat, E)>)
    ensures r.Ok? <==> forall i :: 0 <= i < |rs| ==> rs[i].Ok?
    ensures r.Ok? ==> (|r.value| == |rs| && forall i :: 0 <= i < |rs| ==> rs[i] == Ok(r.value[i]))
    ensures r.Err? ==> (r.error.0 < |rs| && rs[r.error.0] == Err(r.error.1)
                        && forall i :: 0 <= i < r.error.0 ==> rs[i].Ok?)
  {
    if |rs| == 0 then Ok([])
    else
      assert forall i :: 1 <= i < |rs| ==> rs[i] == rs[1..][i - 1];
      match rs[0]
      case Err(e) => Err((0, e))
      case Ok(v) =>
        match Collect(rs[1..])
        case Ok(vs) => Ok([v] + vs)
        case Err((k, e)) => Err((k + 1, e))
  }

  /** Results that are all successes collect to exactly their values. */
  lemma CollectOfOks<T, E>(rs: seq<Result<T, E>>, values: seq<T>)
    requires |rs| == |values|
    requires forall i :: 0 <= i < |rs| ==> rs[i] == Ok(values[i])
    ensures Collect(rs) == Ok(values)
  {
    var r := Collect(rs);
    assert r.Ok?;
    forall i | 0 <= i < |rs|
      ensures r.value[i] == values[i]
    {
      assert rs[i] == Ok(r.value[i]);
    }
    assert r.value == values;
  }

  /** The present values of a sequence of options, in order (a `filter` that drops `null`s). */
  function Somes<T>(xs: seq<Option<T>>): (r: seq<T>)
    ensures |r| <= |xs|
    ensures |r| == |xs| <==> forall i :: 0 <= i < |xs| ==> xs[i].Some?
    ensures |r| == |xs| ==> forall i :: 0 <= i < |xs| ==> xs[i] == Some(r[i])
    ensures forall k :: 0 <= k < |r| ==> Some(r[k]) in xs
  {
    if |xs| == 0 then []
    else
      var rest := Somes(xs[1..]);
      assert forall i :: 1 <= i < |xs| ==> xs[i] == xs[1..][i - 1];
      match xs[0]
      case Some(v) => [v] + rest
      case None => rest
  }

  /** Dropping the absent values works piece by piece: every present value is
      kept, in order, whatever is absent around it. */
  lemma {:induction false} SomesAppend<T>(xs: seq<Option<T>>, ys: seq<Option<T>>)
    ensures Somes(xs + ys) == Somes(xs) + Somes(ys)
  {
    if |xs| > 0 {
      assert (xs + ys)[0] == xs[0];
      assert (xs + ys)[1..] == xs[1..] + ys;
      SomesAppend(xs[1..], ys);
    } else {
      assert xs + ys == ys;
    }
  }

  /** An absent value at position `k` splits the result into what comes before it and what comes after. */
  lemma SomesSkip<T>(xs: seq<Option<T>>, k: nat)
    requires k < |xs| && xs[k].None?
    ensures Somes(xs) == Somes(xs[..k]) + Somes(xs[k + 1..])
  {
    assert xs == xs[..k] + ([xs[k]] + xs[k + 1..]);
    SomesAppend(xs[..k], [xs[k]] + xs[k + 1..]);
    SomesAppend([xs[k]], xs[k + 1..]);
    assert ([xs[k]] + xs[k + 1..])[1..] == xs[k + 1..];
  }
}
