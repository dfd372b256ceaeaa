/**
 The values the subset tools work on: the DataSet entries of a collection
 manifest (a PVD file), the Piece records of a per-timestep sub-manifest, the
 parsed documents, and the errors the tools raise.
 */
module Types {

  /** One `<DataSet>` element: its `timestep` attribute (already parsed to a
      number) and its `file` attribute (path of the per-timestep sub-manifest). */
  datatype Entry = Entry(timestep: real, file: string)

  /** One `<Piece>` element of a sub-manifest: its `Source` attribute. */
  datatype Piece = Piece(source: string)

  /** What the tools extract from a parsed XML document: every `DataSet`
      element and every `Piece` element, in document order. */
  datatype Doc = Doc(dataSets: seq<Entry>, pieces: seq<Piece>)

  datatype Error =
    | NoCriterion          // ValueError: neither a time step nor a usable count
    | EmptyCollection      // IndexError: elems[0] on a manifest without DataSet
    | NotFound(path: string)  // a document that cannot be read or parsed

  datatype Result<T> = Ok(value: T) | Err(error: Error)

  /** Index sequences that name positions of a sequence of length n. */
  ghost predicate InRange(idx: seq<nat>, n: nat)
  {
    forall k :: 0 <= k < |idx| ==> idx[k] < n
  }

  /** Strictly increasing index sequences: a subsequence keeps input order. */
  ghost predicate Increasing(idx: seq<nat>)
  {
    forall a, b :: 0 <= a < b < |idx| ==> idx[a] < idx[b]
  }

  /** The entries of `elems` at the positions `idx`, in that order. */
  function Pick(elems: seq<Entry>, idx: seq<nat>): (r: seq<Entry>)
    requires InRange(idx, |elems|)
    ensures |r| == |idx|
    ensures forall k :: 0 <= k < |idx| ==> r[k] == elems[idx[k]]
  {
    seq(|idx|, k requires 0 <= k < |idx| => elems[idx[k]])
  }
}
