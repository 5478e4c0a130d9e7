/** Script-level values and results exchanged between the update-script
    evaluator and the built-in operations of the updater. */
module Values {

  datatype Option<+T> = None | Some(value: T)

  /** The index of the first element of `xs` satisfying `p`. */
  function FirstIndex<T>(xs: seq<T>, p: T -> bool): (r: Option<nat>)
    ensures r.Some? ==>
      r.value < |xs| && p(xs[r.value]) &&
      forall j | 0 <= j < r.value :: !p(xs[j])
    ensures r.None? ==> forall j | 0 <= j < |xs| :: !p(xs[j])
    decreases |xs|
  {
    if xs == [] then None
    else if p(xs[0]) then Some(0)
    else match FirstIndex(xs[1..], p)
      case None => None
      case Some(i) => Some(i + 1)
  }

  /** A script value: the evaluator's tagged union of "invalid", a string and
      a binary blob.  Both strings and blobs carry their bytes in `data`. */
  datatype Value = Invalid | Str(data: string) | Blob(data: string)

  /** The cause codes an operation may attach to an abort. */
  datatype ErrorCode =
    | ArgsParsingFailure
    | FileRenameFailure
    | SymlinkFailure
    | SetMetadataFailure
    | FileGetPropFailure
    | FileOpenFailure
    | FreadFailure
    | RebootFailure

  /** What a built-in returns to the evaluator: a value, a null pointer
      without an abort of its own, or an abort with a cause code. */
  datatype Ret = Val(v: Value) | Null | Abort(code: ErrorCode)

  /** `StringValue(s)` */
  function StrRet(s: string): Ret { Val(Str(s)) }

  /** The truthy result "t" and the falsy result "". */
  const TRUE: string := "t"
  const FALSE: string := ""

  predicate AllStrings(vs: seq<Value>)
  {
    forall i | 0 <= i < |vs| :: vs[i].Str?
  }

  /** `ReadArgs`: every argument must evaluate to a string; the strings are
      returned in order.  Fails as soon as one is not a string. */
  function ReadArgs(vs: seq<Value>): (r: Option<seq<string>>)
    ensures r.Some? <==> AllStrings(vs)
    ensures r.Some? ==> |r.value| == |vs| && forall i | 0 <= i < |vs| :: vs[i] == Str(r.value[i])
  {
    if vs == [] then Some([])
    else if !vs[0].Str? then None
    else match ReadArgs(vs[1..])
      case None => None
      case Some(rest) => Some([vs[0].data] + rest)
  }
}
