/**
 * `try_collect` of the `jsonargs` tool: collect the results of mapping a
 * fallible function over an iterator, stopping at the first error.
 *
 * The iterator is the sequence of its items and the mapping closure a
 * function, so `Map<I, F>` is the pair of them. Only finite iterators are
 * modelled.
 */
module JsonArgs {
  import opened Wrappers

  /** The results the mapping closure yields, one per item. */
  function Mapped<S, T, E>(items: seq<S>, f: S -> Result<T, E>): (rs: seq<Result<T, E>>)
    ensures |rs| == |items| && forall k :: 0 <= k < |items| ==> rs[k] == f(items[k])
  {
    seq(|items|, k requires 0 <= k < |items| => f(items[k]))
  }

  /** Reference meaning of collecting results: every value in order, or the
      first error. */
  function Collect<T, E>(rs: seq<Result<T, E>>): Result<seq<T>, E>
  {
    if rs == [] then Ok([])
    else
      match rs[0]
      case Err(e) => Err(e)
      case Ok(v) =>
        match Collect(rs[1..])
        case Err(e) => Err(e)
        case Ok(vs) => Ok([v] + vs)
  }

  /** With no error, the values come out unwrapped, in order, all of them. */
  lemma {:induction false} CollectAllOk<T, E>(rs: seq<Result<T, E>>)
    requires forall k :: 0 <= k < |rs| ==> rs[k].Ok?
    ensures Collect(rs).Ok?
    ensures |Collect(rs).value| == |rs|
    ensures forall k :: 0 <= k < |rs| ==> Collect(rs).value[k] == rs[k].value
  {
    if rs != [] {
      CollectAllOk(rs[1..]);
      var vs := Collect(rs[1..]).value;
      forall k | 0 <= k < |rs|
        ensures ([rs[0].value] + vs)[k] == rs[k].value
      {
        if k > 0 {
          assert rs[1..][k - 1] == rs[k];
        }
      }
    }
  }

  /** With an error, the outcome is the first error, never a partial vector. */
  lemma {:induction false} CollectFirstErr<T, E>(rs: seq<Result<T, E>>, i: nat)
    requires i < |rs| && rs[i].Err?
    requires forall k :: 0 <= k < i ==> rs[k].Ok?
    ensures Collect(rs) == Err(rs[i].error)
  {
    if i > 0 {
      CollectFirstErr(rs[1..], i - 1);
    }
  }

  /** `try_collect`. `pulled` counts the items taken from the iterator, that
      is, the calls of the mapping closure. */
  method TryCollect<S, T, E>(items: seq<S>, f: S -> Result<T, E>) returns (r: Result<seq<T>, E>, pulled: nat)
    ensures r == Collect(Mapped(items, f))
    ensures r.Ok? ==>
      && pulled == |items|
      && |r.value| == |items|
      && forall k :: 0 <= k < |items| ==> f(items[k]) == Ok(r.value[k])
    ensures r.Err? ==>
      && 0 < pulled <= |items|
      && f(items[pulled - 1]) == Err(r.error)
      && forall k :: 0 <= k < pulled - 1 ==> f(items[k]).Ok?
  {
    var buf: seq<T> := [];
    pulled := 0;
    for i := 0 to |items|
      invariant pulled == i
      invariant |buf| == i && forall k :: 0 <= k < i ==> f(items[k]) == Ok(buf[k])
    {
      var elem := f(items[i]);
      pulled := pulled + 1;
      match elem {
        case Err(e) =>
          CollectFirstErr(Mapped(items, f), i);
          return Err(e), pulled;
        case Ok(v) =>
          buf := buf + [v];
      }
    }
    CollectAllOk(Mapped(items, f));
    assert Collect(Mapped(items, f)).value == buf;
    r := Ok(buf);
  }
}
