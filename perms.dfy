/** `set_metadata` and `set_metadata_recursive`
    (updater/install.cpp:801-1044): parsing key/value pairs into a sparse
    permission record (`ParsePermArgs`), applying that record to one file
    in a fixed order gated on the file's type with one failure counter
    (`ApplyParsedPerms`), and the argument and aggregate checks around
    them (`SetMetadataFn`). */
module Perms {
  import opened Values
  import opened Text
  import opened FileSys

  /** `uid_t`, `gid_t` and `mode_t` are 32-bit unsigned integers. */
  const WORD: int := 0x1_0000_0000
  const DWORD: int := 0x1_0000_0000_0000_0000

  /** The unsigned 32-bit value a C integer converts to. */
  function ToWord(n: int): (w: int)
    ensures 0 <= w < WORD && (w - n) % WORD == 0
  {
    n % WORD
  }

  /** The `uint64_t` a C integer converts to, as a bit pattern. */
  function ToMask(n: int): bv64
  {
    (n % DWORD) as bv64
  }

  // ---------------------------------------------------------------------
  // The parsed record

  /** `struct perm_parsed_args`: each attribute with its `has_` flag. */
  datatype PermArgs = PermArgs(
    uid: Option<int>, gid: Option<int>, mode: Option<int>,
    fmode: Option<int>, dmode: Option<int>,
    selabel: Option<string>, capabilities: Option<bv64>)

  /** The record after `memset(&parsed, 0, sizeof(parsed))`. */
  const NO_PERMS: PermArgs := PermArgs(None, None, None, None, None, None, None)

  datatype Key = Uid | Gid | Mode | FMode | DMode | SeLabel | Capabilities

  /** The recognised key names. */
  function KeyOf(name: string): Option<Key>
  {
    if name == "uid" then Some(Uid)
    else if name == "gid" then Some(Gid)
    else if name == "mode" then Some(Mode)
    else if name == "dmode" then Some(DMode)
    else if name == "fmode" then Some(FMode)
    else if name == "capabilities" then Some(Capabilities)
    else if name == "selabel" then Some(SeLabel)
    else None
  }

  /** A parsed attribute value. */
  datatype Attr = Id(n: int) | Mask(c: bv64) | Context(s: string)

  predicate Fits(k: Key, a: Attr)
  {
    match k
    case SeLabel => a.Context?
    case Capabilities => a.Mask?
    case _ => a.Id?
  }

  /** The value a key's text parses to, if it parses: ids are read by
      `%SCNd64`, modes and capabilities by `%SCNi32` / `%SCNi64` (all from
      the C string, then converted to the field's width), and a label must
      be non-empty. */
  function ParseValue(k: Key, v: string): (r: Option<Attr>)
    ensures r.Some? ==> Fits(k, r.value)
    ensures k == SeLabel ==> (r.Some? <==> v != "") && (r.Some? ==> r.value == Context(v))
  {
    match k
    case Uid | Gid =>
      (match ScanDecimal(CPrefix(v)) case None => None case Some(n) => Some(Id(ToWord(n))))
    case Mode | DMode | FMode =>
      (match ScanInteger(CPrefix(v)) case None => None case Some(n) => Some(Id(ToWord(n))))
    case Capabilities =>
      (match ScanInteger(CPrefix(v)) case None => None case Some(n) => Some(Mask(ToMask(n))))
    case SeLabel =>
      if v != "" then Some(Context(v)) else None
  }

  /** A mode written as "0" and octal digits is read in base 8 and kept
      to 32 bits. */
  lemma ParseModeOctal(k: Key, d: string)
    requires k == Mode || k == DMode || k == FMode
    requires AllDigits(d, 8)
    ensures ParseValue(k, "0" + d) == Some(Id(ToWord(DigitsValue(d, 8))))
  {
    LeadingZeroValue(d, 8);
    DigitsNoNul("0" + d, 8);
    CPrefixNoNul("0" + d);
    ScanIntegerOctal(d);
  }

  /** A capability mask written as "0x" and hex digits is read in base 16
      and kept to 64 bits. */
  lemma ParseCapabilitiesHex(h: string)
    requires h != [] && AllDigits(h, 16)
    ensures ParseValue(Capabilities, "0x" + h) == Some(Mask(ToMask(DigitsValue(h, 16))))
  {
    var s := "0x" + h;
    DigitsNoNul(h, 16);
    assert '\0' !in s by {
      assert forall c | c in s :: c == '0' || c == 'x' || c in h;
    }
    CPrefixNoNul(s);
    ScanIntegerHex(h);
  }

  /** An owner or group id written by `std::to_string` reads back as that
      number, kept to 32 bits. */
  lemma ParseIdDecimal(k: Key, n: int)
    requires k == Uid || k == Gid
    ensures ParseValue(k, IntToString(n)) == Some(Id(ToWord(n)))
  {
    var m := if n < 0 then -n else n;
    DigitsNoNul(NatToString(m), 10);
    assert '\0' !in IntToString(n) by {
      assert forall c | c in IntToString(n) :: c == '-' || c in NatToString(m);
    }
    CPrefixNoNul(IntToString(n));
    ScanDecimalToString(n);
  }

  /** The attribute a record holds for `k`. */
  function Get(p: PermArgs, k: Key): (r: Option<Attr>)
    ensures r.Some? ==> Fits(k, r.value)
  {
    match k
    case Uid => (match p.uid case None => None case Some(n) => Some(Id(n)))
    case Gid => (match p.gid case None => None case Some(n) => Some(Id(n)))
    case Mode => (match p.mode case None => None case Some(n) => Some(Id(n)))
    case FMode => (match p.fmode case None => None case Some(n) => Some(Id(n)))
    case DMode => (match p.dmode case None => None case Some(n) => Some(Id(n)))
    case SeLabel => (match p.selabel case None => None case Some(s) => Some(Context(s)))
    case Capabilities => (match p.capabilities case None => None case Some(c) => Some(Mask(c)))
  }

  /** Record `a` for `k`: sets exactly that attribute and its flag. */
  function Set(p: PermArgs, k: Key, a: Attr): (r: PermArgs)
    requires Fits(k, a)
    ensures Get(r, k) == Some(a)
    ensures forall k' | k' != k :: Get(r, k') == Get(p, k')
  {
    match k
    case Uid => p.(uid := Some(a.n))
    case Gid => p.(gid := Some(a.n))
    case Mode => p.(mode := Some(a.n))
    case FMode => p.(fmode := Some(a.n))
    case DMode => p.(dmode := Some(a.n))
    case SeLabel => p.(selabel := Some(a.s))
    case Capabilities => p.(capabilities := Some(a.c))
  }

  /** One key/value pair: a recognised key whose value parses overwrites
      that attribute; a bad value or an unknown key changes nothing. */
  function Step(p: PermArgs, key: string, value: string): PermArgs
  {
    match KeyOf(key)
    case None => p
    case Some(k) =>
      match ParseValue(k, value)
      case None => p
      case Some(a) => Set(p, k, a)
  }

  /** Fold the pairs `kvs[0], kvs[1]`, `kvs[2], kvs[3]`, ... into `p`. */
  function ParseFrom(p: PermArgs, kvs: seq<string>): PermArgs
    decreases |kvs|
  {
    if |kvs| < 2 then p else ParseFrom(Step(p, kvs[0], kvs[1]), kvs[2..])
  }

  /** What `ParsePermArgs(args)` returns: `args[0]` is the path, then the
      pairs. */
  function ParsePerms(args: seq<string>): PermArgs
    requires |args| % 2 == 1
  {
    ParseFrom(NO_PERMS, args[1..])
  }

  /** The value of the last pair that sets `k`, if any. */
  function LastValue(kvs: seq<string>, k: Key): Option<Attr>
    requires |kvs| % 2 == 0
    decreases |kvs|
  {
    if kvs == [] then None
    else
      var n := |kvs|;
      if KeyOf(kvs[n - 2]) == Some(k) && ParseValue(k, kvs[n - 1]).Some? then
        ParseValue(k, kvs[n - 1])
      else LastValue(kvs[..n - 2], k)
  }

  lemma {:induction false} ParseFromAppend(p: PermArgs, kvs: seq<string>, key: string, value: string)
    requires |kvs| % 2 == 0
    ensures ParseFrom(p, kvs + [key, value]) == Step(ParseFrom(p, kvs), key, value)
    decreases |kvs|
  {
    if kvs == [] {
      assert ([] + [key, value])[2..] == [];
    } else {
      assert (kvs + [key, value])[2..] == kvs[2..] + [key, value];
      ParseFromAppend(Step(p, kvs[0], kvs[1]), kvs[2..], key, value);
    }
  }

  /** Every attribute ends up with the value of the last pair that sets it,
      so a later duplicate key overwrites an earlier one; an attribute no
      pair sets keeps its earlier value. */
  lemma {:induction false} ParseFromLast(p: PermArgs, kvs: seq<string>, k: Key)
    requires |kvs| % 2 == 0
    ensures Get(ParseFrom(p, kvs), k) ==
      if LastValue(kvs, k).Some? then LastValue(kvs, k) else Get(p, k)
    decreases |kvs|
  {
    if kvs != [] {
      var n := |kvs|;
      var front := kvs[..n - 2];
      assert kvs == front + [kvs[n - 2], kvs[n - 1]];
      ParseFromAppend(p, front, kvs[n - 2], kvs[n - 1]);
      ParseFromLast(p, front, k);
    }
  }

  /** The record built from `args` holds, for each attribute, the value of
      the last well-formed pair for it, and nothing for an attribute that no
      well-formed pair names. */
  lemma ParsePermsLast(args: seq<string>, k: Key)
    requires |args| % 2 == 1
    ensures Get(ParsePerms(args), k) == LastValue(args[1..], k)
  {
    ParseFromLast(NO_PERMS, args[1..], k);
  }

  // ---------------------------------------------------------------------
  // Warnings

  /** What the parser prints: a bad value (always), an unknown key (while
      the warning budget lasts), and the one note that further unknown-key
      warnings are suppressed. */
  datatype Message = InvalidValue(key: Key, text: string) | UnknownKey(name: string) | Suppressing

  /** The maximum number of unknown-key warnings per process. */
  const MAX_WARNINGS: nat := 20

  /** 1 for a key name that is not recognised. */
  function Unknown(key: string): nat
  {
    if KeyOf(key).None? then 1 else 0
  }

  function UnknownCount(kvs: seq<string>): nat
    decreases |kvs|
  {
    if |kvs| < 2 then 0 else Unknown(kvs[0]) + UnknownCount(kvs[2..])
  }

  /** The messages printed for one pair with `budget` warnings left. */
  function PairLog(budget: nat, key: string, value: string): seq<Message>
  {
    match KeyOf(key)
    case Some(k) => if ParseValue(k, value).None? then [InvalidValue(k, CPrefix(value))] else []
    case None =>
      if budget != 0 then [UnknownKey(CPrefix(key))] + (if budget == 1 then [Suppressing] else [])
      else []
  }

  /** The budget left after one pair. */
  function NextBudget(budget: nat, key: string): nat
  {
    if KeyOf(key).None? && budget != 0 then budget - 1 else budget
  }

  /** The messages printed for `kvs` with `budget` unknown-key warnings left. */
  function ParseLog(budget: nat, kvs: seq<string>): seq<Message>
    decreases |kvs|
  {
    if |kvs| < 2 then []
    else PairLog(budget, kvs[0], kvs[1]) + ParseLog(NextBudget(budget, kvs[0]), kvs[2..])
  }

  function Warnings(log: seq<Message>): nat
  {
    if log == [] then 0 else (if log[0].UnknownKey? then 1 else 0) + Warnings(log[1..])
  }

  lemma {:induction false} WarningsAppend(a: seq<Message>, b: seq<Message>)
    ensures Warnings(a + b) == Warnings(a) + Warnings(b)
    decreases |a|
  {
    if a != [] {
      assert (a + b)[0] == a[0];
      assert (a + b)[1..] == a[1..] + b;
      WarningsAppend(a[1..], b);
    } else {
      assert a + b == b;
    }
  }

  /** A pair costs a warning exactly when it prints one. */
  lemma PairLogWarnings(budget: nat, key: string, value: string)
    ensures Warnings(PairLog(budget, key, value)) == budget - NextBudget(budget, key)
  {
    var h := PairLog(budget, key, value);
    if h != [] {
      if h[0].UnknownKey? {
        assert h[1..] == (if budget == 1 then [Suppressing] else []);
        if budget == 1 {
          assert h[1..][1..] == [];
          assert Warnings(h[1..]) == 0;
        }
      } else {
        assert h[1..] == [];
      }
    }
  }

  lemma UnfoldPair(p: PermArgs, budget: nat, kvs: seq<string>)
    requires |kvs| >= 2
    ensures ParseFrom(p, kvs) == ParseFrom(Step(p, kvs[0], kvs[1]), kvs[2..])
    ensures ParseLog(budget, kvs) == PairLog(budget, kvs[0], kvs[1]) + ParseLog(NextBudget(budget, kvs[0]), kvs[2..])
    ensures UnknownCount(kvs) == Unknown(kvs[0]) + UnknownCount(kvs[2..])
  {
  }

  lemma ConcatAssoc<T>(a: seq<T>, b: seq<T>, c: seq<T>)
    ensures (a + b) + c == a + (b + c)
  {
  }

  /** The budget left after all pairs. */
  function BudgetAfter(budget: nat, kvs: seq<string>): nat
    decreases |kvs|
  {
    if |kvs| < 2 then budget else BudgetAfter(NextBudget(budget, kvs[0]), kvs[2..])
  }

  function Min(a: int, b: int): int { if a <= b then a else b }
  function Max(a: int, b: int): int { if a >= b then a else b }

  /** One parse prints as many unknown-key warnings as there are unknown
      keys, but never more than the budget it started with. */
  lemma {:induction false} ParseLogWarnings(budget: nat, kvs: seq<string>)
    ensures Warnings(ParseLog(budget, kvs)) == Min(budget, UnknownCount(kvs))
    decreases |kvs|
  {
    if |kvs| >= 2 {
      var nb := NextBudget(budget, kvs[0]);
      WarningsAppend(PairLog(budget, kvs[0], kvs[1]), ParseLog(nb, kvs[2..]));
      PairLogWarnings(budget, kvs[0], kvs[1]);
      ParseLogWarnings(nb, kvs[2..]);
    }
  }

  /** Each unknown key uses up one warning until none are left. */
  lemma {:induction false} BudgetAfterCount(budget: nat, kvs: seq<string>)
    ensures BudgetAfter(budget, kvs) == Max(0, budget - UnknownCount(kvs))
    decreases |kvs|
  {
    if |kvs| >= 2 {
      BudgetAfterCount(NextBudget(budget, kvs[0]), kvs[2..]);
    }
  }

  /** One pair of the parse loop: what is left to parse after it, from
      the updated record, log and budget, comes to the same totals. */
  lemma ParseStep(parsed: PermArgs, log: seq<Message>, budget: nat, kvs: seq<string>)
    requires |kvs| >= 2
    ensures var p, b := Step(parsed, kvs[0], kvs[1]), NextBudget(budget, kvs[0]);
      var next := log + PairLog(budget, kvs[0], kvs[1]);
      ParseFrom(p, kvs[2..]) == ParseFrom(parsed, kvs) &&
      next + ParseLog(b, kvs[2..]) == log + ParseLog(budget, kvs) &&
      BudgetAfter(b, kvs[2..]) == BudgetAfter(budget, kvs)
  {
    UnfoldPair(parsed, budget, kvs);
    ConcatAssoc(log, PairLog(budget, kvs[0], kvs[1]), ParseLog(NextBudget(budget, kvs[0]), kvs[2..]));
  }

  /** The process-wide parser state: the `static int max_warnings` of
      `ParsePermArgs`.  `warned` counts the unknown-key warnings printed so
      far, so the budget is the warnings not yet printed. */
  class PermParser {
    var maxWarnings: nat
    ghost var warned: nat

    ghost predicate Valid()
      reads this
    {
      maxWarnings <= MAX_WARNINGS && warned + maxWarnings == MAX_WARNINGS
    }

    constructor ()
      ensures Valid() && maxWarnings == MAX_WARNINGS && warned == 0
    {
      maxWarnings := MAX_WARNINGS;
      warned := 0;
    }

    /** `ParsePermArgs(state, args)` (updater/install.cpp:819-913).  The
        function's own count of bad values is never returned, so malformed
        input cannot make the call fail. */
    method ParsePermArgs(args: seq<string>) returns (parsed: PermArgs, log: seq<Message>)
      requires Valid() && |args| % 2 == 1
      modifies this
      ensures Valid()
      ensures parsed == ParsePerms(args)
      ensures log == ParseLog(old(maxWarnings), args[1..])
      ensures maxWarnings == Max(0, old(maxWarnings) - UnknownCount(args[1..]))
      ensures warned == old(warned) + Warnings(log)
    {
      parsed, log := ParsePairs(args[1..]);
      BudgetAfterCount(old(maxWarnings), args[1..]);
      ParseLogWarnings(old(maxWarnings), args[1..]);
    }

    /** The loop of `ParsePermArgs` over the key/value pairs. */
    method ParsePairs(kvs: seq<string>) returns (parsed: PermArgs, log: seq<Message>)
      requires Valid()
      modifies this
      ensures Valid()
      ensures parsed == ParseFrom(NO_PERMS, kvs)
      ensures log == ParseLog(old(maxWarnings), kvs)
      ensures maxWarnings == BudgetAfter(old(maxWarnings), kvs)
    {
      parsed := NO_PERMS;
      log := [];
      var i := 0;
      ghost var goalParsed, goalLog, goalBudget :=
        ParseFrom(NO_PERMS, kvs), ParseLog(maxWarnings, kvs), BudgetAfter(maxWarnings, kvs);
      while i + 1 < |kvs|
        invariant 0 <= i <= |kvs|
        invariant Valid()
        invariant ParseFrom(parsed, kvs[i..]) == goalParsed
        invariant log + ParseLog(maxWarnings, kvs[i..]) == goalLog
        invariant BudgetAfter(maxWarnings, kvs[i..]) == goalBudget
        decreases |kvs| - i
      {
        var key, value := kvs[i], kvs[i + 1];
        ParseStep(parsed, log, maxWarnings, kvs[i..]);
        assert kvs[i..][2..] == kvs[i + 2..];
        var msgs;
        parsed, msgs := ParsePair(parsed, key, value);
        log := log + msgs;
        i := i + 2;
      }
      assert log + [] == log;
    }

    /** One key/value pair of the loop in `ParsePermArgs`: the record with
        the pair applied and the messages it prints. */
    method ParsePair(parsed0: PermArgs, key: string, value: string) returns (parsed: PermArgs, msgs: seq<Message>)
      requires Valid()
      modifies this
      ensures Valid()
      ensures parsed == Step(parsed0, key, value)
      ensures msgs == PairLog(old(maxWarnings), key, value)
      ensures maxWarnings == NextBudget(old(maxWarnings), key)
      ensures warned == old(warned) + Warnings(msgs)
    {
      parsed, msgs := parsed0, [];
      var k := KeyOf(key);
      if k.Some? {
        var a := ParseValue(k.value, value);
        if a.Some? {
          parsed := Set(parsed, k.value, a.value);
        } else {
          msgs := [InvalidValue(k.value, CPrefix(value))];
        }
      } else if maxWarnings != 0 {
        msgs := [UnknownKey(CPrefix(key))];
        maxWarnings := maxWarnings - 1;
        warned := warned + 1;
        if maxWarnings == 0 {
          msgs := msgs + [Suppressing];
        }
      }
      PairLogWarnings(old(maxWarnings), key, value);
    }
  }

  // ---------------------------------------------------------------------
  // Applying a record to one file

  /** One attribute change `ApplyParsedPerms` may attempt. */
  datatype Op =
    | SetContext(ctx: string)
    | ChownUser(uid: int)
    | ChownGroup(gid: int)
    | SetMode(mode: int)
    | SetDirMode(dmode: int)
    | SetFileMode(fmode: int)
    | RemoveCaps
    | SetCaps(data: CapData)

  function CallOf(op: Op): Call
  {
    match op
    case SetContext(_) => SetFileCon
    case ChownUser(_) => Chown
    case ChownGroup(_) => Chown
    case SetMode(_) => Chmod
    case SetDirMode(_) => Chmod
    case SetFileMode(_) => Chmod
    case RemoveCaps => RemoveXattr
    case SetCaps(_) => SetXattr
  }

  /** `VFS_CAP_REVISION_2 | VFS_CAP_FLAGS_EFFECTIVE`. */
  const VFS_CAP_REVISION: bv32 := 0x0200_0000
  const VFS_CAP_FLAGS_EFFECTIVE: bv32 := 0x0000_0001

  /** The capability attribute for a non-zero mask: the low word and the
      high word of the mask as the two permitted words, nothing
      inheritable.  Recombining the two permitted words gives the mask. */
  function EncodeCaps(c: bv64): (d: CapData)
    ensures d.magicEtc == 0x0200_0001
    ensures d.inheritable0 == 0 && d.inheritable1 == 0
    ensures ((d.permitted1 as bv64) << 32) | (d.permitted0 as bv64) == c
  {
    CapData(
      VFS_CAP_REVISION | VFS_CAP_FLAGS_EFFECTIVE,
      (c & 0xffff_ffff) as bv32, 0,
      (c >> 32) as bv32, 0)
  }

  /** The label change, tried on every kind of file. */
  function LabelOps(p: PermArgs): seq<Op>
  {
    if p.selabel.Some? then [SetContext(CPrefix(p.selabel.value))] else []
  }

  function UidOps(p: PermArgs): seq<Op>
  {
    if p.uid.Some? then [ChownUser(p.uid.value)] else []
  }

  function GidOps(p: PermArgs): seq<Op>
  {
    if p.gid.Some? then [ChownGroup(p.gid.value)] else []
  }

  function ModeOps(p: PermArgs): seq<Op>
  {
    if p.mode.Some? then [SetMode(p.mode.value)] else []
  }

  /** Owner, group and mode, tried on everything but a symbolic link. */
  function OwnerOps(p: PermArgs): seq<Op>
  {
    UidOps(p) + GidOps(p) + ModeOps(p)
  }

  function DirModeOps(kind: Kind, p: PermArgs): seq<Op>
  {
    if p.dmode.Some? && kind == Directory then [SetDirMode(p.dmode.value)] else []
  }

  function FileModeOps(kind: Kind, p: PermArgs): seq<Op>
  {
    if p.fmode.Some? && kind == Regular then [SetFileMode(p.fmode.value)] else []
  }

  function CapOps(kind: Kind, p: PermArgs): seq<Op>
  {
    if p.capabilities.Some? && kind == Regular then
      (if p.capabilities.value == 0 then [RemoveCaps] else [SetCaps(EncodeCaps(p.capabilities.value))])
    else []
  }

  /** The changes gated on the file's type. */
  function GatedOps(kind: Kind, p: PermArgs): seq<Op>
  {
    DirModeOps(kind, p) + FileModeOps(kind, p) + CapOps(kind, p)
  }

  /** The changes attempted on a file of kind `kind`, in order: the label
      (even on a symbolic link, after which nothing else is tried), owner,
      group, mode, the directory mode on a directory only, the file mode
      and the capabilities on a regular file only; a zero capability mask
      removes the attribute. */
  function Attempts(kind: Kind, p: PermArgs): (ops: seq<Op>)
    ensures kind.Symlink? ==> |ops| <= 1
    ensures p.selabel.Some? <==> |ops| > 0 && ops[0].SetContext?
    ensures p.selabel.Some? ==> ops[0] == SetContext(CPrefix(p.selabel.value))
  {
    LabelOps(p) + (if kind.Symlink? then [] else OwnerOps(p) + GatedOps(kind, p))
  }

  predicate Gated(op: Op)
  {
    op.SetDirMode? || op.SetFileMode? || op.RemoveCaps? || op.SetCaps?
  }

  /** The mode of a directory is only set from `dmode`, the mode of a
      regular file only from `fmode`, and the capabilities only on a
      regular file, removed for a zero mask and set from its encoding
      otherwise. */
  lemma AttemptsGating(kind: Kind, p: PermArgs)
    ensures forall m :: SetDirMode(m) in Attempts(kind, p) <==> kind == Directory && p.dmode == Some(m)
    ensures forall m :: SetFileMode(m) in Attempts(kind, p) <==> kind == Regular && p.fmode == Some(m)
    ensures RemoveCaps in Attempts(kind, p) <==> kind == Regular && p.capabilities == Some(0)
    ensures forall d :: SetCaps(d) in Attempts(kind, p) <==>
      kind == Regular && p.capabilities.Some? && p.capabilities.value != 0 &&
      d == EncodeCaps(p.capabilities.value)
  {
    forall m ensures SetDirMode(m) in Attempts(kind, p) <==> SetDirMode(m) in DirModeOps(kind, p) {
      GatedMember(kind, p, SetDirMode(m));
    }
    forall m ensures SetFileMode(m) in Attempts(kind, p) <==> SetFileMode(m) in FileModeOps(kind, p) {
      GatedMember(kind, p, SetFileMode(m));
    }
    GatedMember(kind, p, RemoveCaps);
    forall d ensures SetCaps(d) in Attempts(kind, p) <==> SetCaps(d) in CapOps(kind, p) {
      GatedMember(kind, p, SetCaps(d));
    }
  }

  /** A type-gated change is attempted exactly when one of the gated
      pieces holds it. */
  lemma GatedMember(kind: Kind, p: PermArgs, op: Op)
    requires Gated(op)
    ensures op in Attempts(kind, p) <==>
      op in DirModeOps(kind, p) || op in FileModeOps(kind, p) || op in CapOps(kind, p)
  {
    assert op !in LabelOps(p) && op !in UidOps(p) && op !in GidOps(p) && op !in ModeOps(p);
    if kind.Symlink? {
      assert DirModeOps(kind, p) == [] && FileModeOps(kind, p) == [] && CapOps(kind, p) == [];
    }
  }

  /** An attempt is counted as failed when the file is gone or the oracle
      fails the call.  `removexattr` of an attribute that is not there
      (ENODATA) is not a failure. */
  predicate OpFails(nodes: map<Path, Node>, failing: set<(Path, Call)>, path: Path, op: Op)
  {
    path !in nodes || (path, CallOf(op)) in failing
  }

  /** `chown(path, -1, ...)` leaves the owner alone, so an id of
      `(uid_t)-1` changes nothing. */
  const UNCHANGED_ID: int := 0xffff_ffff

  /** What a successful attempt does to the node. */
  function Effect(n: Node, op: Op): Node
  {
    match op
    case SetContext(c) => n.(context := c)
    case ChownUser(u) => if u == UNCHANGED_ID then n else n.(uid := u)
    case ChownGroup(g) => if g == UNCHANGED_ID then n else n.(gid := g)
    case SetMode(m) => n.(mode := m)
    case SetDirMode(m) => n.(mode := m)
    case SetFileMode(m) => n.(mode := m)
    case RemoveCaps => n.(caps := None)
    case SetCaps(d) => n.(caps := Some(d))
  }

  /** Attempt `ops` on `path` in order, counting the failures; each attempt
      is independent of whether the earlier ones failed. */
  function RunOps(nodes: map<Path, Node>, failing: set<(Path, Call)>, path: Path, ops: seq<Op>)
    : (r: (nat, map<Path, Node>))
    ensures r.0 <= |ops|
    ensures r.1.Keys == nodes.Keys
    ensures forall q | q in nodes && q != path :: r.1[q] == nodes[q]
    decreases |ops|
  {
    if ops == [] then (0, nodes)
    else
      var last := ops[|ops| - 1];
      var (bad, mid) := RunOps(nodes, failing, path, ops[..|ops| - 1]);
      if OpFails(mid, failing, path, last) then (bad + 1, mid)
      else (bad, mid[path := Effect(mid[path], last)])
  }

  /** The attempts that fail, counted without running them. */
  function FailCount(present: bool, failing: set<(Path, Call)>, path: Path, ops: seq<Op>): nat
  {
    if ops == [] then 0
    else (if !present || (path, CallOf(ops[0])) in failing then 1 else 0)
         + FailCount(present, failing, path, ops[1..])
  }

  lemma {:induction false} FailCountAppend(present: bool, failing: set<(Path, Call)>, path: Path, a: seq<Op>, op: Op)
    ensures FailCount(present, failing, path, a + [op])
         == FailCount(present, failing, path, a) + FailCount(present, failing, path, [op])
    decreases |a|
  {
    if a != [] {
      assert (a + [op])[1..] == a[1..] + [op];
      FailCountAppend(present, failing, path, a[1..], op);
    }
  }

  /** The count `ApplyParsedPerms` returns is the number of attempted
      changes that failed. */
  lemma {:induction false} RunOpsCount(nodes: map<Path, Node>, failing: set<(Path, Call)>, path: Path, ops: seq<Op>)
    ensures RunOps(nodes, failing, path, ops).0 == FailCount(path in nodes, failing, path, ops)
    decreases |ops|
  {
    if ops != [] {
      var front := ops[..|ops| - 1];
      RunOpsCount(nodes, failing, path, front);
      assert ops == front + [ops[|ops| - 1]];
      FailCountAppend(path in nodes, failing, path, front, ops[|ops| - 1]);
    }
  }

  /** One attempt of `ApplyParsedPerms`: the call, and `bad++` on failure. */
  method Attempt(fs: FileSystem, path: Path, op: Op, bad: nat,
                 ghost start: map<Path, Node>, ghost done: seq<Op>) returns (bad': nat)
    requires (bad, fs.nodes) == RunOps(start, fs.failing, path, done)
    modifies fs
    ensures (bad', fs.nodes) == RunOps(start, fs.failing, path, done + [op])
  {
    assert (done + [op])[..|done + [op]| - 1] == done;
    if OpFails(fs.nodes, fs.failing, path, op) {
      bad' := bad + 1;
    } else {
      fs.nodes := fs.nodes[path := Effect(fs.nodes[path], op)];
      bad' := bad;
    }
  }

  /** `ApplyParsedPerms(state, filename, statptr, parsed)`
      (updater/install.cpp:915-997); `kind` is the file type `statptr`
      reports. */
  method ApplyParsedPerms(fs: FileSystem, path: Path, kind: Kind, parsed: PermArgs) returns (bad: nat)
    modifies fs
    ensures (bad, fs.nodes) == RunOps(old(fs.nodes), fs.failing, path, Attempts(kind, parsed))
  {
    ghost var start := fs.nodes;
    ghost var done: seq<Op> := [];
    bad := 0;

    if parsed.selabel.Some? {
      var op := SetContext(CPrefix(parsed.selabel.value));
      bad := Attempt(fs, path, op, bad, start, done);
      done := done + [op];
    }
    assert done == LabelOps(parsed);

    // ignore symlinks
    if kind.Symlink? {
      return;
    }

    bad := ApplyOwnership(fs, path, parsed, bad, start, done);
    done := done + OwnerOps(parsed);
    bad := ApplyTypeGated(fs, path, kind, parsed, bad, start, done);
    ConcatAssoc(LabelOps(parsed), OwnerOps(parsed), GatedOps(kind, parsed));
  }

  /** The owner, group and mode changes of `ApplyParsedPerms`
      (updater/install.cpp:932-954). */
  method ApplyOwnership(fs: FileSystem, path: Path, parsed: PermArgs, bad: nat,
                        ghost start: map<Path, Node>, ghost done: seq<Op>) returns (bad': nat)
    requires (bad, fs.nodes) == RunOps(start, fs.failing, path, done)
    modifies fs
    ensures (bad', fs.nodes) == RunOps(start, fs.failing, path, done + OwnerOps(parsed))
  {
    ghost var now := done;
    bad' := bad;
    if parsed.uid.Some? {
      var op := ChownUser(parsed.uid.value);
      bad' := Attempt(fs, path, op, bad', start, now);
      now := now + [op];
    } else {
      assert now + [] == now;
    }
    ghost var uidDone := now;
    assert uidDone == done + UidOps(parsed);
    if parsed.gid.Some? {
      var op := ChownGroup(parsed.gid.value);
      bad' := Attempt(fs, path, op, bad', start, now);
      now := now + [op];
    } else {
      assert now + [] == now;
    }
    ghost var gidDone := now;
    assert gidDone == uidDone + GidOps(parsed);
    if parsed.mode.Some? {
      var op := SetMode(parsed.mode.value);
      bad' := Attempt(fs, path, op, bad', start, now);
      now := now + [op];
    } else {
      assert now + [] == now;
    }
    assert now == gidDone + ModeOps(parsed);
    ConcatAssoc(done, UidOps(parsed), GidOps(parsed));
    ConcatAssoc(done, UidOps(parsed) + GidOps(parsed), ModeOps(parsed));
  }

  /** The changes of `ApplyParsedPerms` gated on the file's type
      (updater/install.cpp:956-994). */
  method ApplyTypeGated(fs: FileSystem, path: Path, kind: Kind, parsed: PermArgs, bad: nat,
                        ghost start: map<Path, Node>, ghost done: seq<Op>) returns (bad': nat)
    requires (bad, fs.nodes) == RunOps(start, fs.failing, path, done)
    modifies fs
    ensures (bad', fs.nodes) == RunOps(start, fs.failing, path, done + GatedOps(kind, parsed))
  {
    ghost var now := done;
    bad' := bad;
    if parsed.dmode.Some? && kind == Directory {
      var op := SetDirMode(parsed.dmode.value);
      bad' := Attempt(fs, path, op, bad', start, now);
      now := now + [op];
    } else {
      assert now + [] == now;
    }
    ghost var dirDone := now;
    assert dirDone == done + DirModeOps(kind, parsed);
    if parsed.fmode.Some? && kind == Regular {
      var op := SetFileMode(parsed.fmode.value);
      bad' := Attempt(fs, path, op, bad', start, now);
      now := now + [op];
    } else {
      assert now + [] == now;
    }
    ghost var fileDone := now;
    assert fileDone == dirDone + FileModeOps(kind, parsed);
    if parsed.capabilities.Some? && kind == Regular {
      if parsed.capabilities.value == 0 {
        var op := RemoveCaps;
        bad' := Attempt(fs, path, op, bad', start, now);
        now := now + [op];
      } else {
        var op := SetCaps(EncodeCaps(parsed.capabilities.value));
        bad' := Attempt(fs, path, op, bad', start, now);
        now := now + [op];
      }
    } else {
      assert now + [] == now;
    }
    assert now == fileDone + CapOps(kind, parsed);
    ConcatAssoc(done, DirModeOps(kind, parsed), FileModeOps(kind, parsed));
    ConcatAssoc(done, DirModeOps(kind, parsed) + FileModeOps(kind, parsed), CapOps(kind, parsed));
  }

  // ---------------------------------------------------------------------
  // The recursive walk and SetMetadataFn

  /** What `nftw` visits: `entries` stands for the paths of the tree
      under the walk's root (`args[0]`), in the walk's order, each with
      the type `lstat` reports for it; `error` says whether the walk itself
      hits an error after them.  The tree is not derived from the
      filesystem map: the walk is given. */
  datatype Walk = Walk(entries: seq<(Path, Kind)>, error: bool)

  /** The callback applied to each entry in turn; POSIX `nftw` stops at the
      first callback that returns non-zero and returns that value. */
  function WalkEntries(nodes: map<Path, Node>, failing: set<(Path, Call)>,
                       entries: seq<(Path, Kind)>, p: PermArgs): (r: (nat, map<Path, Node>))
    ensures r.1.Keys == nodes.Keys
    decreases |entries|
  {
    if entries == [] then (0, nodes)
    else
      var (bad, next) := RunOps(nodes, failing, entries[0].0, Attempts(entries[0].1, p));
      if bad != 0 then (bad, next) else WalkEntries(next, failing, entries[1..], p)
  }

  /** The failure count of one entry, independent of the walk's state. */
  function EntryFailures(keys: set<Path>, failing: set<(Path, Call)>, e: (Path, Kind), p: PermArgs): nat
  {
    FailCount(e.0 in keys, failing, e.0, Attempts(e.1, p))
  }

  /** The recursive walk reports zero exactly when no attempted change on
      any visited entry failed; otherwise it reports the failure count of
      the first entry that had a failure. */
  lemma {:induction false} WalkEntriesFirstFailure(nodes: map<Path, Node>, failing: set<(Path, Call)>,
                                                   entries: seq<(Path, Kind)>, p: PermArgs)
    ensures var bad := WalkEntries(nodes, failing, entries, p).0;
      (bad == 0 <==> forall i | 0 <= i < |entries| :: EntryFailures(nodes.Keys, failing, entries[i], p) == 0) &&
      (bad != 0 ==> exists i | 0 <= i < |entries| ::
         bad == EntryFailures(nodes.Keys, failing, entries[i], p) &&
         forall j | 0 <= j < i :: EntryFailures(nodes.Keys, failing, entries[j], p) == 0)
    decreases |entries|
  {
    if entries != [] {
      var e := entries[0];
      RunOpsCount(nodes, failing, e.0, Attempts(e.1, p));
      var (bad, next) := RunOps(nodes, failing, e.0, Attempts(e.1, p));
      if bad == 0 {
        WalkEntriesFirstFailure(next, failing, entries[1..], p);
        assert next.Keys == nodes.Keys;
        var r := WalkEntries(next, failing, entries[1..], p).0;
        if r != 0 {
          var i :| 0 <= i < |entries[1..]| &&
            r == EntryFailures(nodes.Keys, failing, entries[1..][i], p) &&
            forall j | 0 <= j < i :: EntryFailures(nodes.Keys, failing, entries[1..][j], p) == 0;
          assert r == EntryFailures(nodes.Keys, failing, entries[i + 1], p);
          forall j | 0 <= j < i + 1 ensures EntryFailures(nodes.Keys, failing, entries[j], p) == 0 {
            if j > 0 { assert entries[j] == entries[1..][j - 1]; }
          }
        } else {
          forall j | 0 <= j < |entries| ensures EntryFailures(nodes.Keys, failing, entries[j], p) == 0 {
            if j > 0 { assert entries[j] == entries[1..][j - 1]; }
          }
        }
      }
    }
  }

  /** The total `nftw` returns to `bad += nftw(...)`: the first non-zero
      callback result, else -1 when the walk itself failed, else 0. */
  function WalkResult(nodes: map<Path, Node>, failing: set<(Path, Call)>, walk: Walk, p: PermArgs)
    : (int, map<Path, Node>)
  {
    var walked := WalkEntries(nodes, failing, walk.entries, p);
    var bad: int := walked.0;
    if bad == 0 && walk.error then (-1, walked.1) else (bad, walked.1)
  }

  /** `bad > 0` is the only failure test, so a recursive walk that ends in
      an error of its own while every attempted change succeeded is
      reported as a success. */
  lemma WalkErrorReportsSuccess(nodes: map<Path, Node>, failing: set<(Path, Call)>, walk: Walk, p: PermArgs)
    requires walk.error
    requires forall i | 0 <= i < |walk.entries| :: EntryFailures(nodes.Keys, failing, walk.entries[i], p) == 0
    ensures !(WalkResult(nodes, failing, walk, p).0 > 0)
  {
    WalkEntriesFirstFailure(nodes, failing, walk.entries, p);
  }

  /** `SetMetadataFn` (updater/install.cpp:1004-1044) for `set_metadata`
      (`recursive` false) and `set_metadata_recursive` (`recursive` true). */
  method SetMetadataFn(fs: FileSystem, parser: PermParser, argv: seq<Value>, recursive: bool, walk: Walk)
    returns (r: Ret)
    requires parser.Valid()
    modifies fs, parser
    ensures parser.Valid()
    ensures |argv| % 2 != 1 || !AllStrings(argv) ==>
      r == Abort(ArgsParsingFailure) && fs.nodes == old(fs.nodes) && parser.maxWarnings == old(parser.maxWarnings)
    ensures |argv| % 2 == 1 && AllStrings(argv) && argv[0].data !in old(fs.nodes) ==>
      r == Abort(SetMetadataFailure) && fs.nodes == old(fs.nodes) && parser.maxWarnings == old(parser.maxWarnings)
    ensures |argv| % 2 == 1 && AllStrings(argv) && argv[0].data in old(fs.nodes) ==>
      var args := ReadArgs(argv).value;
      var p := ParsePerms(args);
      var (bad, res) :=
        if recursive then WalkResult(old(fs.nodes), fs.failing, walk, p)
        else RunOps(old(fs.nodes), fs.failing, args[0], Attempts(old(fs.nodes)[args[0]].kind, p));
      fs.nodes == res && r == (if bad > 0 then Abort(SetMetadataFailure) else StrRet("")) &&
      parser.maxWarnings == Max(0, old(parser.maxWarnings) - UnknownCount(args[1..]))
  {
    if |argv| % 2 != 1 {
      return Abort(ArgsParsingFailure);
    }
    var read := ReadArgs(argv);
    if read.None? {
      return Abort(ArgsParsingFailure);
    }
    var args := read.value;
    if args[0] !in fs.nodes {
      // lstat fails
      return Abort(SetMetadataFailure);
    }
    r := ApplyMetadata(fs, parser, args, recursive, walk);
  }

  /** `SetMetadataFn` once the path has been `lstat`ed
      (updater/install.cpp:1026-1043): parse the pairs and apply them. */
  method ApplyMetadata(fs: FileSystem, parser: PermParser, args: seq<string>, recursive: bool, walk: Walk)
    returns (r: Ret)
    requires parser.Valid() && |args| % 2 == 1 && args[0] in fs.nodes
    modifies fs, parser
    ensures parser.Valid()
    ensures var p := ParsePerms(args);
      var (bad, res) :=
        if recursive then WalkResult(old(fs.nodes), fs.failing, walk, p)
        else RunOps(old(fs.nodes), fs.failing, args[0], Attempts(old(fs.nodes)[args[0]].kind, p));
      fs.nodes == res && r == (if bad > 0 then Abort(SetMetadataFailure) else StrRet("")) &&
      parser.maxWarnings == Max(0, old(parser.maxWarnings) - UnknownCount(args[1..]))
  {
    var kind := fs.nodes[args[0]].kind;
    var parsed, log := parser.ParsePermArgs(args);
    var bad: int := 0;
    if recursive {
      bad := WalkTree(fs, walk, parsed);
    } else {
      var b := ApplyParsedPerms(fs, args[0], kind, parsed);
      bad := b;
    }
    if bad > 0 {
      return Abort(SetMetadataFailure);
    }
    return StrRet("");
  }

  /** `nftw(path, do_SetMetadataRecursive, 30, FTW_CHDIR | FTW_DEPTH | FTW_PHYS)`
      over the entries `walk` lists. */
  method WalkTree(fs: FileSystem, walk: Walk, parsed: PermArgs) returns (result: int)
    modifies fs
    ensures (result, fs.nodes) == WalkResult(old(fs.nodes), fs.failing, walk, parsed)
  {
    var i := 0;
    var bad: nat := 0;
    while i < |walk.entries| && bad == 0
      invariant 0 <= i <= |walk.entries|
      invariant bad != 0 ==> (bad, fs.nodes) == WalkEntries(old(fs.nodes), fs.failing, walk.entries, parsed)
      invariant bad == 0 ==>
        WalkEntries(fs.nodes, fs.failing, walk.entries[i..], parsed)
        == WalkEntries(old(fs.nodes), fs.failing, walk.entries, parsed)
      decreases |walk.entries| - i
    {
      var e := walk.entries[i];
      assert walk.entries[i..][1..] == walk.entries[i + 1..];
      bad := ApplyParsedPerms(fs, e.0, e.1, parsed);
      i := i + 1;
    }
    if bad == 0 {
      assert walk.entries[i..] == [];
      result := if walk.error then -1 else 0;
    } else {
      result := bad;
    }
  }
}
