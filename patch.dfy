/** The argument checks of the patching built-ins and the small decision
    rules around them: `apply_patch` (updater/install.cpp:252-302),
    `apply_patch_check` (310-330), `sha1_check` (340-375) and
    `apply_patch_space` (1132-1155).  Patching itself, the cache check and
    SHA-1 are outside the model: applying a patch and checking a file are
    decided by oracles, and the digest, its parser and its printer are
    parameters. */
module Patch {
  import opened Values
  import opened Text

  // ---------------------------------------------------------------------
  // apply_patch

  /** What `apply_patch` hands to `applypatch`. */
  datatype PatchRequest = PatchRequest(
    source: string, target: string, targetSha1: string, targetSize: nat,
    sha1s: seq<string>, patches: seq<Value>)

  /** The `i`-th (sha1, patch) pair after the four fixed arguments is a
      string followed by a blob. */
  predicate PairOk(vs: seq<Value>, i: nat)
    requires 2 * i + 1 < |vs|
  {
    vs[2 * i].Str? && vs[2 * i + 1].Blob?
  }

  /** The pairs of `vs`, split into the hashes and the patch blobs, or None
      when some pair is not a string and a blob.  An odd last value is not
      part of any pair. */
  function Pairs(vs: seq<Value>): (r: Option<(seq<string>, seq<Value>)>)
    ensures r.Some? <==> forall i | 0 <= i && 2 * i + 1 < |vs| :: PairOk(vs, i)
    ensures r.Some? ==>
      var (shas, patches) := r.value;
      |shas| == |patches| && 2 * |shas| <= |vs| < 2 * |shas| + 2 &&
      forall i | 0 <= i < |shas| :: vs[2 * i] == Str(shas[i]) && vs[2 * i + 1] == patches[i]
    decreases |vs|
  {
    if |vs| < 2 then Some(([], []))
    else if !PairOk(vs, 0) then None
    else
      var rest := Pairs(vs[2..]);
      PairsShift(vs);
      match rest
      case None => None
      case Some((shas, patches)) =>
        var r := Some(([vs[0].data] + shas, [vs[1]] + patches));
        PairsPrepend(vs, shas, patches);
        r
  }

  lemma PairsShift(vs: seq<Value>)
    requires |vs| >= 2 && PairOk(vs, 0)
    ensures (forall i | 0 <= i && 2 * i + 1 < |vs| :: PairOk(vs, i)) <==>
            (forall i | 0 <= i && 2 * i + 1 < |vs[2..]| :: PairOk(vs[2..], i))
  {
    forall i | 0 <= i && 2 * i + 1 < |vs[2..]|
      ensures PairOk(vs[2..], i) == PairOk(vs, i + 1)
    {
      assert vs[2..][2 * i] == vs[2 * (i + 1)];
      assert vs[2..][2 * i + 1] == vs[2 * (i + 1) + 1];
    }
    if forall i | 0 <= i && 2 * i + 1 < |vs[2..]| :: PairOk(vs[2..], i) {
      forall i | 0 <= i && 2 * i + 1 < |vs| ensures PairOk(vs, i) {
        if i > 0 {
          assert PairOk(vs[2..], i - 1);
        }
      }
    }
  }

  lemma PairsPrepend(vs: seq<Value>, shas: seq<string>, patches: seq<Value>)
    requires |vs| >= 2 && PairOk(vs, 0) && |shas| == |patches|
    requires 2 * |shas| <= |vs[2..]|
    requires forall i | 0 <= i < |shas| :: vs[2..][2 * i] == Str(shas[i]) && vs[2..][2 * i + 1] == patches[i]
    ensures var s, p := [vs[0].data] + shas, [vs[1]] + patches;
      forall i | 0 <= i < |s| :: vs[2 * i] == Str(s[i]) && vs[2 * i + 1] == p[i]
  {
    var s, p := [vs[0].data] + shas, [vs[1]] + patches;
    forall i | 0 <= i < |s| ensures vs[2 * i] == Str(s[i]) && vs[2 * i + 1] == p[i] {
      if i > 0 {
        assert vs[2..][2 * (i - 1)] == vs[2 * i];
        assert vs[2..][2 * (i - 1) + 1] == vs[2 * i + 1];
      }
    }
  }

  /** The arity `apply_patch` accepts: the four fixed arguments and at
      least one (sha1, patch) pair, so an even count of at least six. */
  predicate PatchArity(n: nat)
  {
    n >= 6 && n % 2 == 0
  }

  /** The request for well-shaped arguments, or None when `apply_patch`
      aborts with an argument-parsing failure. */
  function PatchRequestOf(argv: seq<Value>): (r: Option<PatchRequest>)
    ensures r.Some? <==>
      PatchArity(|argv|) && AllStrings(argv[..4]) && ParseUint(CPrefix(argv[3].data)).Some? &&
      forall i | 0 <= i && 2 * i + 1 < |argv[4..]| :: PairOk(argv[4..], i)
    ensures r.Some? ==>
      var q := r.value;
      q.source == CPrefix(argv[0].data) && q.target == CPrefix(argv[1].data) &&
      q.targetSha1 == CPrefix(argv[2].data) &&
      Some(q.targetSize) == ParseUint(CPrefix(argv[3].data)) &&
      |q.sha1s| == |q.patches| >= 1 && 4 + 2 * |q.sha1s| == |argv| &&
      forall i | 0 <= i < |q.sha1s| :: argv[4 + 2 * i] == Str(q.sha1s[i]) && argv[5 + 2 * i] == q.patches[i] && q.patches[i].Blob?
  {
    if !PatchArity(|argv|) then None
    else if !AllStrings(argv[..4]) then None
    else
      assert argv[..4][3] == argv[3];
      var size := ParseUint(CPrefix(argv[3].data));
      if size.None? then None
      else match Pairs(argv[4..])
        case None => None
        case Some((shas, patches)) =>
          PairsOfTail(argv, shas, patches);
          Some(PatchRequest(CPrefix(argv[0].data), CPrefix(argv[1].data), CPrefix(argv[2].data),
                            size.value, shas, patches))
  }

  lemma PairsOfTail(argv: seq<Value>, shas: seq<string>, patches: seq<Value>)
    requires PatchArity(|argv|) && |shas| == |patches|
    requires 2 * |shas| <= |argv[4..]| < 2 * |shas| + 2
    requires forall i | 0 <= i < |shas| :: argv[4..][2 * i] == Str(shas[i]) && argv[4..][2 * i + 1] == patches[i]
    requires forall i | 0 <= i && 2 * i + 1 < |argv[4..]| :: PairOk(argv[4..], i)
    ensures |shas| >= 1 && 4 + 2 * |shas| == |argv|
    ensures forall i | 0 <= i < |shas| ::
      argv[4 + 2 * i] == Str(shas[i]) && argv[5 + 2 * i] == patches[i] && patches[i].Blob?
  {
    var m := |argv| - 4;
    assert m % 2 == 0;
    assert m == 2 * |shas|;
    forall i | 0 <= i < |shas|
      ensures argv[4 + 2 * i] == Str(shas[i]) && argv[5 + 2 * i] == patches[i] && patches[i].Blob?
    {
      assert argv[4..][2 * i] == argv[4 + 2 * i];
      assert argv[4..][2 * i + 1] == argv[5 + 2 * i];
      assert PairOk(argv[4..], i);
    }
  }

  /** `ApplyPatchFn`: "t" when `applypatch` succeeds on the request, ""
      when it fails (the requests in `fails`). */
  function ApplyPatch(argv: seq<Value>, fails: set<PatchRequest>): (r: Ret)
    ensures r == Abort(ArgsParsingFailure) <==> PatchRequestOf(argv).None?
    ensures r != Abort(ArgsParsingFailure) ==>
      r == StrRet(if PatchRequestOf(argv).value in fails then FALSE else TRUE)
  {
    match PatchRequestOf(argv)
    case None => Abort(ArgsParsingFailure)
    case Some(q) => StrRet(if q in fails then FALSE else TRUE)
  }

  /** A blob in a hash position is refused, whatever else follows. */
  lemma BlobAsHashRefused(argv: seq<Value>, i: nat, fails: set<PatchRequest>)
    requires 4 + 2 * i < |argv| && argv[4 + 2 * i].Blob?
    ensures ApplyPatch(argv, fails) == Abort(ArgsParsingFailure)
  {
    assert argv[4..][2 * i] == argv[4 + 2 * i];
  }

  // ---------------------------------------------------------------------
  // apply_patch_check

  /** `ApplyPatchCheckFn`: the file name and any hashes must be strings;
      "t" when `applypatch_check` finds a match (the (file, hashes) pairs
      in `matches`), else "". */
  function ApplyPatchCheck(argv: seq<Value>, matches: set<(string, seq<string>)>): (r: Ret)
    ensures r == Abort(ArgsParsingFailure) <==> !(|argv| >= 1 && AllStrings(argv))
    ensures |argv| >= 1 && AllStrings(argv) ==>
      var args := ReadArgs(argv).value;
      r == StrRet(if (CPrefix(args[0]), args[1..]) in matches then TRUE else FALSE)
  {
    if |argv| < 1 then Abort(ArgsParsingFailure)
    else match ReadArgs(argv)
      case None => Abort(ArgsParsingFailure)
      case Some(args) => StrRet(if (CPrefix(args[0]), args[1..]) in matches then TRUE else FALSE)
  }

  // ---------------------------------------------------------------------
  // sha1_check

  type Digest = seq<bv8>

  /** An argument that names `digest`: a string `parse` reads as it. */
  predicate Names(v: Value, digest: Digest, parse: string -> Option<Digest>)
  {
    v.Str? && parse(CPrefix(v.data)) == Some(digest)
  }

  /** The index of the first argument naming `digest`. */
  function FirstMatch(vs: seq<Value>, digest: Digest, parse: string -> Option<Digest>): Option<nat>
  {
    FirstIndex(vs, v => Names(v, digest, parse))
  }

  /** `sha1_check(data, [sha1, ...])`: the printed digest when no hash is
      given; otherwise the first hash argument that names the digest of
      `data`, or "" when none does.  Arguments that are not strings or do
      not parse are skipped. */
  function Sha1Check(argv: seq<Value>, sha1: string -> Digest, parse: string -> Option<Digest>,
                     show: Digest -> string): (r: Ret)
    ensures |argv| == 0 <==> r == Abort(ArgsParsingFailure)
    ensures |argv| >= 1 && argv[0].Invalid? ==> r == StrRet("")
    ensures |argv| == 1 && !argv[0].Invalid? ==> r == StrRet(show(sha1(argv[0].data)))
    ensures |argv| >= 2 && !argv[0].Invalid? ==>
      match FirstMatch(argv[1..], sha1(argv[0].data), parse)
      case None => r == StrRet("")
      case Some(i) => r == Val(argv[i + 1]) && Names(argv[i + 1], sha1(argv[0].data), parse)
  {
    if |argv| == 0 then Abort(ArgsParsingFailure)
    else if argv[0].Invalid? then StrRet("")
    else
      var digest := sha1(argv[0].data);
      if |argv| == 1 then StrRet(show(digest))
      else match FirstMatch(argv[1..], digest, parse)
        case None => StrRet("")
        case Some(i) => Val(argv[i + 1])
  }

  /** `Sha1CheckFn`: the loop over the hash arguments. */
  method Sha1CheckFn(argv: seq<Value>, sha1: string -> Digest, parse: string -> Option<Digest>,
                     show: Digest -> string) returns (r: Ret)
    ensures r == Sha1Check(argv, sha1, parse, show)
  {
    if |argv| < 1 {
      return Abort(ArgsParsingFailure);
    }
    if argv[0].Invalid? {
      return StrRet("");
    }
    var digest := sha1(argv[0].data);
    if |argv| == 1 {
      return StrRet(show(digest));
    }
    var i := 1;
    while i < |argv|
      invariant 1 <= i <= |argv|
      invariant forall j | 1 <= j < i :: !Names(argv[j], digest, parse)
      decreases |argv| - i
    {
      if !argv[i].Str? {
        // not a string: skipped
      } else if parse(CPrefix(argv[i].data)) != Some(digest) {
        // not a hash of this digest: skipped
      } else {
        FirstMatchAt(argv[1..], digest, parse, i - 1);
        return Val(argv[i]);
      }
      i := i + 1;
    }
    FirstMatchNone(argv[1..], digest, parse);
    return StrRet("");
  }

  lemma FirstMatchAt(vs: seq<Value>, digest: Digest, parse: string -> Option<Digest>, i: nat)
    requires i < |vs| && Names(vs[i], digest, parse)
    requires forall j | 0 <= j < i :: !Names(vs[j], digest, parse)
    ensures FirstMatch(vs, digest, parse) == Some(i)
  {
  }

  lemma FirstMatchNone(vs: seq<Value>, digest: Digest, parse: string -> Option<Digest>)
    requires forall j | 0 <= j < |vs| :: !Names(vs[j], digest, parse)
    ensures FirstMatch(vs, digest, parse) == None
  {
  }

  /** Checking data against its own printed digest, when the parser reads
      back what the printer writes, returns that printed digest. */
  lemma Sha1CheckOwnDigest(data: string, others: seq<Value>, sha1: string -> Digest,
                           parse: string -> Option<Digest>, show: Digest -> string)
    requires '\0' !in show(sha1(data)) && parse(show(sha1(data))) == Some(sha1(data))
    ensures Sha1Check([Str(data), Str(show(sha1(data)))] + others, sha1, parse, show) ==
            StrRet(show(sha1(data)))
  {
    var h := show(sha1(data));
    var argv := [Str(data), Str(h)] + others;
    assert forall k | 0 <= k < |h| :: h[k] in h;
    assert CPrefix(h) == h;
    assert argv[1..][0] == Str(h);
    FirstMatchAt(argv[1..], sha1(data), parse, 0);
  }

  // ---------------------------------------------------------------------
  // apply_patch_space

  /** `ApplyPatchSpaceFn`: one string the byte count parses from; "t" when
      the update is a retry or the cache has room (`CacheSizeCheck` returns
      0 for the counts in `fits`), else "". */
  function ApplyPatchSpace(argv: seq<Value>, isRetry: bool, fits: set<nat>): (r: Ret)
    ensures r == Abort(ArgsParsingFailure) <==>
      !(|argv| == 1 && argv[0].Str? && ParseUint(CPrefix(argv[0].data)).Some?)
    ensures r != Abort(ArgsParsingFailure) ==>
      (r == StrRet(TRUE) <==> isRetry || ParseUint(CPrefix(argv[0].data)).value in fits) &&
      (r == StrRet(TRUE) || r == StrRet(FALSE))
  {
    if |argv| != 1 then Abort(ArgsParsingFailure)
    else match ReadArgs(argv)
      case None => Abort(ArgsParsingFailure)
      case Some(args) =>
        match ParseUint(CPrefix(args[0]))
        case None => Abort(ArgsParsingFailure)
        case Some(bytes) => StrRet(if isRetry || bytes in fits then TRUE else FALSE)
  }

  /** On a retry the space check is skipped: every well-formed request
      succeeds. */
  lemma RetrySkipsSpaceCheck(bytes: string, fits: set<nat>)
    requires ParseUint(CPrefix(bytes)).Some?
    ensures ApplyPatchSpace([Str(bytes)], true, fits) == StrRet(TRUE)
  {
  }
}
