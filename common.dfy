/**
 * Shared vocabulary of the attendance back end: optional values, results,
 * identifiers, time stamps, coordinates and the schema validation errors
 * that the document layer reports.
 */
module Common {

  datatype Option<T> = None | Some(value: T)

  datatype Result<T, E> = Ok(value: T) | Err(error: E)

  /** Document identifiers. A session's id is its position in the session collection. */
  type UserId = nat
  type CourseId = nat
  type SessionId = nat

  /** A point in time, as the clock of the server reports it. */
  type Time = int

  /** A latitude/longitude pair. */
  datatype Location = Location(lat: real, lng: real)

  /** Why a document was refused when it was created or saved. */
  datatype ValidationError =
    | MissingField(path: string)
    | NotInEnum(path: string, value: string)

  /** Whether `r` lists the elements of `xs` at the positions `idx`, in that order. */
  ghost predicate AtPositions<T>(xs: seq<T>, r: seq<T>, idx: seq<nat>)
  {
    |r| == |idx| && forall k :: 0 <= k < |r| ==> idx[k] < |xs| && r[k] == xs[idx[k]]
  }

  /**
   * The step of a query that scans its collection from the back: a listing of
   * the first `|xs| - 1` elements, extended by the last one when it is kept,
   * lists the elements of `xs` at the extended positions.
   */
  lemma {:induction false} AtPositionsSnoc<T>(xs: seq<T>, r0: seq<T>, idx0: seq<nat>, keep: bool)
    requires |xs| > 0 && AtPositions(xs[..|xs| - 1], r0, idx0)
    ensures AtPositions(xs, r0 + (if keep then [xs[|xs| - 1]] else []), idx0 + (if keep then [|xs| - 1] else []))
  {
    var n := |xs| - 1;
    var r, idx := r0 + (if keep then [xs[n]] else []), idx0 + (if keep then [n] else []);
    forall k | 0 <= k < |r|
      ensures idx[k] < |xs| && r[k] == xs[idx[k]]
    {
      if k < |r0| {
        assert r[k] == r0[k] && idx[k] == idx0[k];
        assert xs[..n][idx0[k]] == xs[idx0[k]];
      }
    }
  }
}
