/** Small wrapper types shared by every module of the model.

- Option<T>: a value or JavaScript `undefined`
- Js<T>: the result of a JavaScript expression that either produces a value
  or throws (a TypeError in every case this model meets)
- Run<M>: the findings a rule reports while handling one visited node, and
  whether the handler stopped on an exception part-way through
 */
module Base {

  datatype Option<+T> = None | Some(value: T) {
    predicate IsFailure() { None? }

    function PropagateFailure<U>(): Option<U>
      requires None?
    {
      None
    }

    function Extract(): T
      requires Some?
    {
      value
    }
  }

  /** Either the value of a JavaScript evaluation, or the fact that it threw. */
  datatype Js<+T> = Ok(value: T) | Thrown {
    predicate IsFailure() { Thrown? }

    function PropagateFailure<U>(): Js<U>
      requires Thrown?
    {
      Thrown
    }

    function Extract(): T
      requires Ok?
    {
      value
    }
  }

  /** What a rule reports for one visited node: the findings in report order,
      and whether an exception cut the handler short after them. */
  datatype Run<+M> = Run(findings: seq<M>, threw: bool)

  /** The run of a handler that reports nothing and completes. */
  function NoFindings<M>(): (r: Run<M>)
    ensures r.findings == [] && !r.threw
  {
    Run([], false)
  }

  /** Runs `first` and, unless it threw, continues with `second`: the
      sequential composition of two steps of one handler. */
  function Then<M>(first: Run<M>, second: Run<M>): (r: Run<M>)
    ensures first.threw ==> r == first
    ensures !first.threw ==> r.findings == first.findings + second.findings && r.threw == second.threw
  {
    if first.threw then first else Run(first.findings + second.findings, second.threw)
  }

  /** The run of a step that reports at most one finding, or throws. */
  function Single<M>(out: Js<Option<M>>): (r: Run<M>)
    ensures out.Thrown? ==> r.findings == [] && r.threw
    ensures out == Ok(None) ==> r.findings == [] && !r.threw
    ensures out.Ok? && out.value.Some? ==> r.findings == [out.value.value] && !r.threw
  {
    match out
    case Thrown => Run([], true)
    case Ok(None) => Run([], false)
    case Ok(Some(m)) => Run([m], false)
  }

  /** `xs.forEach(step)` where each step reports at most one finding: the
      steps in order, stopping at the first that throws. */
  function Each<T, M>(xs: seq<T>, step: T -> Js<Option<M>>): (r: Run<M>)
    ensures |r.findings| <= |xs|
    decreases |xs|
  {
    if |xs| == 0 then NoFindings() else Then(Single(step(xs[0])), Each(xs[1..], step))
  }

  /** The loop stops exactly when some step throws, and every finding is
      one step's own. */
  lemma {:induction false} EachFindings<T, M>(xs: seq<T>, step: T -> Js<Option<M>>)
    ensures Each(xs, step).threw <==> exists i :: 0 <= i < |xs| && step(xs[i]).Thrown?
    ensures forall f :: f in Each(xs, step).findings ==> exists i :: 0 <= i < |xs| && step(xs[i]) == Ok(Some(f))
    decreases |xs|
  {
    if |xs| > 0 {
      var rest := xs[1..];
      EachFindings(rest, step);
      assert forall i :: 0 <= i < |rest| ==> rest[i] == xs[i + 1];
      if exists i :: 0 <= i < |xs| && step(xs[i]).Thrown? {
        var i :| 0 <= i < |xs| && step(xs[i]).Thrown?;
        if i > 0 {
          assert rest[i - 1] == xs[i];
        }
      }
    }
  }

  /** The loop over one element is that element's step. */
  lemma EachOne<T, M>(x: T, step: T -> Js<Option<M>>)
    ensures Each([x], step) == Single(step(x))
  {
    assert [x][1..] == [];
    assert Single(step(x)).findings + [] == Single(step(x)).findings;
  }

  /** The loop over a concatenation is the loop over the first part and
      then, unless it threw, over the second. */
  lemma {:induction false} EachConcat<T, M>(a: seq<T>, b: seq<T>, step: T -> Js<Option<M>>)
    ensures Each(a + b, step) == Then(Each(a, step), Each(b, step))
    decreases |a|
  {
    if |a| == 0 {
      assert a + b == b;
    } else {
      assert (a + b)[1..] == a[1..] + b;
      EachConcat(a[1..], b, step);
      ThenAssociative(Single(step(a[0])), Each(a[1..], step), Each(b, step));
    }
  }

  lemma ThenAssociative<M>(a: Run<M>, b: Run<M>, c: Run<M>)
    ensures Then(Then(a, b), c) == Then(a, Then(b, c))
  {
  }
}
