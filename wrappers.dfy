/** Failure-carrying results shared by every solver.
    The solvers report errors through `anyhow::Result`; the message text is
    not modelled, only the fact that an error was returned. */
module Wrappers {

  datatype Option<+T> = None | Some(value: T)

  /** `Ok(v)` or an error whose message is dropped. */
  datatype Result<+T> = Ok(value: T) | Err {
    predicate IsFailure() { Err? }

    function PropagateFailure<U>(): Result<U>
      requires Err?
    {
      Err
    }

    function Extract(): T
      requires Ok?
    {
      value
    }
  }

  /** Turns an `Option` into a `Result`, as `ok_or` does. */
  function OkOr<T>(o: Option<T>): (r: Result<T>)
    ensures r.Ok? <==> o.Some?
    ensures r.Ok? ==> r.value == o.value
  {
    match o
    case Some(v) => Ok(v)
    case None => Err
  }

  /** What reading one piece of input gives: a value, an error returned
      through `?`, or a panic from an `unwrap` or a `panic!`. */
  datatype Reading<+T> = Read(value: T) | Invalid | Panics

  /** `collect` over readings taken in order, as `collect::<Result<_>>()`
      does when a reading can also panic: the first
      one that is not a value decides the outcome. */
  function Collect<T>(rs: seq<Reading<T>>): (r: Reading<seq<T>>)
    ensures r.Read? ==> |r.value| == |rs|
  {
    if rs == [] then Read([])
    else
      match Collect(rs[..|rs| - 1])
      case Invalid => Invalid
      case Panics => Panics
      case Read(front) =>
        match rs[|rs| - 1]
        case Invalid => Invalid
        case Panics => Panics
        case Read(v) => Read(front + [v])
  }

  /** The readings collect into values exactly when each is a value, and
      then the values are those of the readings, in order. */
  lemma {:induction false} CollectReadsEach<T>(rs: seq<Reading<T>>)
    ensures Collect(rs).Read? <==> forall i :: 0 <= i < |rs| ==> rs[i].Read?
    ensures Collect(rs).Read? ==> forall i :: 0 <= i < |rs| ==> rs[i] == Read(Collect(rs).value[i])
  {
    if rs != [] {
      var front := rs[..|rs| - 1];
      CollectReadsEach(front);
      assert forall i :: 0 <= i < |front| ==> front[i] == rs[i];
    }
  }

  /** An error or a panic comes from some reading. */
  lemma {:induction false} CollectFaults<T>(rs: seq<Reading<T>>)
    ensures Collect(rs).Invalid? ==> exists i :: 0 <= i < |rs| && rs[i].Invalid?
    ensures Collect(rs).Panics? ==> exists i :: 0 <= i < |rs| && rs[i].Panics?
  {
    if rs != [] {
      var front := rs[..|rs| - 1];
      CollectFaults(front);
      assert forall i :: 0 <= i < |front| ==> front[i] == rs[i];
    }
  }

  /** The first reading that is not a value decides the outcome. */
  lemma {:induction false} CollectStops<T>(rs: seq<Reading<T>>, i: nat)
    requires i < |rs| && Collect(rs[..i]).Read? && !rs[i].Read?
    ensures Collect(rs).Invalid? <==> rs[i].Invalid?
    ensures Collect(rs).Panics? <==> rs[i].Panics?
    decreases |rs|
  {
    if i < |rs| - 1 {
      var front := rs[..|rs| - 1];
      assert front[..i] == rs[..i];
      CollectStops(front, i);
    }
  }

  /** One more value read extends the values collected so far. */
  lemma CollectNext<T>(rs: seq<Reading<T>>, i: nat)
    requires i < |rs| && Collect(rs[..i]).Read? && rs[i].Read?
    ensures Collect(rs[..i + 1]) == Read(Collect(rs[..i]).value + [rs[i].value])
  {
    assert rs[..i + 1][..i] == rs[..i];
  }
}
