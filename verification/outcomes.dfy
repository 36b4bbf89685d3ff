/** Failure-carrying results for the SQS bookkeeping.

    Every exception the Python code raises on a path this model covers becomes
    one constructor of `SqsError`, so that an operation returns `Err(e)` where
    the source raises and `Ok(v)` where it returns `v`.
 */
module Outcomes {

  /** The exceptions of the modelled code, by cause. */
  datatype SqsError =
    /** pyparsing could not match the lattice text (`ParseException`). */
    | ParseFailure
    /** An atom line carries more than one label (`NotImplementedError`). */
    | MultipleLabels
    /** `rename=False` was requested (`NotImplementedError`). */
    | RenameUnsupported
    /** A label without `_`, so `split('_')[1]` fails (`IndexError`). */
    | MissingDelimiter
    /** A sublattice-model token absent from the composition (`KeyError`). */
    | MissingSpecies
    /** A concrete or solution model whose shape disagrees with the abstract one (`ValueError`). */
    | SizeMismatch
    /** A solution model of lower order than the abstract one (`ValueError`). */
    | LowerOrder
    /** Re-indexing indices that are not a permutation of the sublattice indices (`ValueError`). */
    | InvalidIndices
    /** A list indexed past its end while re-indexing (`IndexError`). */
    | IndexOutOfRange

  datatype Result<+T> = Ok(value: T) | Err(error: SqsError) {

    predicate IsFailure() {
      Err?
    }

    function PropagateFailure<U>(): Result<U>
      requires Err?
    {
      Err(error)
    }

    function Extract(): T
      requires Ok?
    {
      value
    }
  }

  datatype Option<+T> = None | Some(value: T)

  /** `f` applied to every entry of `xs` in turn, as a loop that lets the
      first exception escape: all results when every call succeeds,
      otherwise the error of the first call that fails. */
  function AllOk<A, B>(f: A --> Result<B>, xs: seq<A>): (r: Result<seq<B>>)
    requires forall k :: 0 <= k < |xs| ==> f.requires(xs[k])
    ensures r.Ok? <==> forall k :: 0 <= k < |xs| ==> f(xs[k]).Ok?
    ensures r.Ok? ==> |r.value| == |xs| && forall k :: 0 <= k < |xs| ==> r.value[k] == f(xs[k]).value
    ensures r.Err? ==> exists k :: 0 <= k < |xs| && f(xs[k]) == Err(r.error) &&
                                   forall j :: 0 <= j < k ==> f(xs[j]).Ok?
  {
    if |xs| == 0 then Ok([])
    else
      var head :- f(xs[0]);
      var tail :- AllOk(f, xs[1..]);
      assert forall k :: 1 <= k < |xs| ==> xs[k] == xs[1..][k - 1];
      Ok([head] + tail)
  }
}
