/** Values that cross the boundaries of the normaliser: the optional result of
    a parse or a normalisation, and the raw value of one cell of the input column. */
module Values {

  /** Python's `X | None`. */
  datatype Option<+T> = None | Some(value: T)

  /** One cell of the first input column after missing values were filled with
      the empty string. pandas yields a string for a chunk whose column it reads
      as text, but a number for a chunk whose column it infers as numeric; such
      a value is kept by its printed form, which is all the report would show
      of it. Each cell's kind is fixed here, before the column is chunked. */
  datatype Cell = Str(s: string) | NonStr(repr: string)

  /** The empty-string cell, the only value the fix-up step compares against. */
  const EmptyCell: Cell := Str("")

  /** The sentinel written in place of a value that did not normalise. */
  const InvalidText: string := "Invalid"
}

/** Order-preserving sequence plumbing: Python's `zip` and the concatenation
    of chunks. */
module Seqs {

  /** `list(zip(a, b))`: pairs up to the shorter of the two. */
  function Zip<A, B>(a: seq<A>, b: seq<B>): (r: seq<(A, B)>)
    ensures |r| == if |a| <= |b| then |a| else |b|
    ensures forall i :: 0 <= i < |r| ==> r[i] == (a[i], b[i])
  {
    if |a| <= |b| then seq(|a|, i requires 0 <= i < |a| => (a[i], b[i]))
    else seq(|b|, i requires 0 <= i < |b| => (a[i], b[i]))
  }

  lemma ZipAppend<A, B>(a: seq<A>, b: seq<B>, c: seq<A>, d: seq<B>)
    requires |a| == |b| && |c| == |d|
    ensures Zip(a + c, b + d) == Zip(a, b) + Zip(c, d)
  {
  }

  /** The rows of all chunks, in chunk order. */
  function Flatten<T>(chunks: seq<seq<T>>): (r: seq<T>)
  {
    if chunks == [] then [] else chunks[0] + Flatten(chunks[1..])
  }

  lemma {:induction false} FlattenAppend<T>(a: seq<seq<T>>, b: seq<seq<T>>)
    ensures Flatten(a + b) == Flatten(a) + Flatten(b)
  {
    if a == [] {
      assert a + b == b;
    } else {
      assert (a + b)[1..] == a[1..] + b;
      FlattenAppend(a[1..], b);
    }
  }
}
