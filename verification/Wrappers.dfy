/** Optional values and results, and doing a list of things that may fail. */
module Wrappers {
  datatype Option<+T> = None | Some(value: T)

  datatype Result<+T, +E> = Ok(value: T) | Err(error: E)

  /** Treat the items from left to right; the first that fails decides. */
  function All<S, T, E>(items: seq<S>, treat: S -> Result<T, E>): Result<seq<T>, E> {
    if items == [] then Ok([])
    else match All(items[..|items| - 1], treat)
      case Err(e) => Err(e)
      case Ok(ts) =>
        match treat(items[|items| - 1])
        case Err(e) => Err(e)
        case Ok(t) => Ok(ts + [t])
  }

  lemma {:induction false} AllMeaning<S, T, E>(items: seq<S>, treat: S -> Result<T, E>)
    ensures All(items, treat).Ok? <==> forall k :: 0 <= k < |items| ==> treat(items[k]).Ok?
    ensures All(items, treat).Ok? ==>
              var ts := All(items, treat).value;
              |ts| == |items| && forall k :: 0 <= k < |items| ==> treat(items[k]) == Ok(ts[k])
  {
    if items != [] {
      var before := items[..|items| - 1];
      AllMeaning(before, treat);
      assert forall k :: 0 <= k < |before| ==> before[k] == items[k];
    }
  }

  /** Which item decided. */
  lemma {:induction false} AllFirst<S, T, E>(items: seq<S>, treat: S -> Result<T, E>) returns (k: nat)
    requires All(items, treat).Err?
    ensures k < |items| && treat(items[k]) == Err(All(items, treat).error)
    ensures forall j :: 0 <= j < k ==> treat(items[j]).Ok?
  {
    k := |items| - 1;
    var before := items[..k];
    AllMeaning(before, treat);
    if All(before, treat).Err? {
      k := AllFirst(before, treat);
    }
  }

  lemma {:induction false} ErrorStays<S, T, E>(items: seq<S>, k: nat, treat: S -> Result<T, E>)
    requires k <= |items| && All(items[..k], treat).Err?
    ensures All(items, treat) == All(items[..k], treat)
  {
    if k < |items| {
      assert items[..|items| - 1][..k] == items[..k];
      ErrorStays(items[..|items| - 1], k, treat);
    } else {
      assert items[..k] == items;
    }
  }

  lemma AllNone<S, T, E>(treat: S -> Result<T, E>)
    ensures All([], treat) == Ok([])
  {}

  lemma AllNext<S, T, E>(items: seq<S>, k: nat, treat: S -> Result<T, E>)
    requires k < |items| && All(items[..k], treat).Ok?
    ensures treat(items[k]).Ok? ==>
              All(items[..k + 1], treat) == Ok(All(items[..k], treat).value + [treat(items[k]).value])
    ensures treat(items[k]).Err? ==> All(items, treat) == Err(treat(items[k]).error)
  {
    assert items[..k + 1][..k] == items[..k];
    if treat(items[k]).Err? {
      ErrorStays(items, k + 1, treat);
    }
  }
}
