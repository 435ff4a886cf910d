/** Failure reporting shared by the parser, the type canonicaliser and the
    hex converter.  Each constructor of `Error` stands for one Python
    exception raised by the source, with the data its message carries. */
module Results {

  datatype Error =
    /** SyntaxError: a `{` has no matching `}` (the text and the `{` index). */
    | UnmatchedBrace(code: string, start: nat)
    /** SyntaxError: no `;` after a structure (the text since the previous `;`). */
    | MissingSemicolon(fragment: string)
    /** TypeError: a type spelling absent from the type table, with the variable. */
    | UnknownType(varType: string, varName: string)
    /** ValueError: the first hex word has odd length. */
    | InvalidWordSize(size: nat)
    /** ValueError: the hex words do not all have the same length. */
    | InconsistentWordSize
    /** ValueError from the strict little-endian hex decoder. */
    | NonHexData

  /** The Python exception class each error corresponds to. */
  function ExceptionClass(e: Error): string
  {
    match e
    case UnmatchedBrace(_, _) => "SyntaxError"
    case MissingSemicolon(_) => "SyntaxError"
    case UnknownType(_, _) => "TypeError"
    case _ => "ValueError"
  }

  datatype Result<+T> = Ok(value: T) | Err(error: Error) {

    predicate IsFailure() {
      Err?
    }

    function PropagateFailure<U>(): Result<U>
      requires Err?
    {
      Err(error)
    }

    function Extract(): T
      requires Ok?
    {
      value
    }
  }

  /** A list comprehension `[f(x) for x in xs]` over a function that may
      raise: all the results in order, or the failure of the first element
      that fails (the later elements are not evaluated). */
  function MapAll<A, B>(f: A -> Result<B>, xs: seq<A>): (r: Result<seq<B>>)
    ensures r.Ok? ==> |r.value| == |xs|
  {
    if xs == [] then Ok([])
    else
      var y :- f(xs[0]);
      var ys :- MapAll(f, xs[1..]);
      Ok([y] + ys)
  }

  predicate AllOk<A, B>(f: A -> Result<B>, xs: seq<A>)
  {
    forall i :: 0 <= i < |xs| ==> f(xs[i]).Ok?
  }

  /** `MapAll` succeeds exactly when every element succeeds, and then holds
      their results in order; otherwise its failure is that of the first
      element that fails. */
  lemma {:induction false} MapAllSpec<A, B>(f: A -> Result<B>, xs: seq<A>)
    ensures MapAll(f, xs).Ok? <==> AllOk(f, xs)
    ensures MapAll(f, xs).Ok? ==> forall i :: 0 <= i < |xs| ==> f(xs[i]) == Ok(MapAll(f, xs).value[i])
    ensures MapAll(f, xs).Err? ==>
      exists i :: 0 <= i < |xs| && AllOk(f, xs[..i]) && f(xs[i]) == Err(MapAll(f, xs).error)
  {
    if xs != [] {
      var tail := xs[1..];
      MapAllSpec(f, tail);
      var first := f(xs[0]);
      var rest := MapAll(f, tail);
      if first.Ok? && rest.Ok? {
        assert MapAll(f, xs).value == [first.value] + rest.value;
        assert forall i :: 1 <= i < |xs| ==> xs[i] == tail[i - 1];
      } else if first.Ok? {
        var i :| 0 <= i < |tail| && AllOk(f, tail[..i]) && f(tail[i]) == Err(rest.error);
        assert xs[..i + 1] == [xs[0]] + tail[..i];
        assert AllOk(f, xs[..i + 1]);
        assert f(xs[i + 1]) == Err(MapAll(f, xs).error);
      } else {
        assert AllOk(f, xs[..0]);
      }
    }
  }
}
