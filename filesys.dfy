/** The live filesystem as the updater's operations see it: a map from path
    to node, and a fixed oracle saying which system calls fail on which
    paths.  Paths are compared as strings; nothing is normalised, and
    symbolic links are not followed.  Also `make_parents`
    (updater/install.cpp:106-126), which creates the missing parent
    directories of a path one prefix at a time. */
module FileSys {
  import opened Values
  import opened Text

  type Path = string

  datatype Kind = Regular | Directory | Symlink(target: string) | Other

  /** The POSIX file capability attribute: a revision/flags word and two
      permitted/inheritable word pairs. */
  datatype CapData = CapData(
    magicEtc: bv32,
    permitted0: bv32, inheritable0: bv32,
    permitted1: bv32, inheritable1: bv32)

  datatype Node = Node(
    kind: Kind, uid: int, gid: int, mode: int,
    context: string, caps: Option<CapData>)

  /** The system calls whose success the failure oracle decides. */
  datatype Call =
    | Mkdir | Rename | Unlink | RemoveTree | MakeSymlink
    | SetFileCon | Chown | Chmod | RemoveXattr | SetXattr

  /** `mkdir(path, 0700)` by the root-owned updater. */
  const NEW_DIR_MODE: int := 0x1C0

  function NewDir(): Node { Node(Directory, 0, 0, NEW_DIR_MODE, "", None) }

  /** `is_dir`: the path names a directory. */
  predicate IsDir(nodes: map<Path, Node>, p: Path)
  {
    p in nodes && nodes[p].kind == Directory
  }

  /** `mkdir` fails when the path exists or the oracle says so. */
  predicate MkdirFails(nodes: map<Path, Node>, failing: set<(Path, Call)>, p: Path)
  {
    p in nodes || (p, Mkdir) in failing
  }

  /** A prefix `make_parents` can get past neither by finding a directory
      nor by creating one. */
  predicate Blocked(nodes: map<Path, Node>, failing: set<(Path, Call)>, p: Path)
  {
    !IsDir(nodes, p) && MkdirFails(nodes, failing, p)
  }

  predicate Distinct(ps: seq<Path>)
  {
    forall i, j | 0 <= i < j < |ps| :: ps[i] != ps[j]
  }

  // ---------------------------------------------------------------------
  // The prefixes make_parents visits

  /** `name[..k]` for every `k >= from` at which `name` holds '/'. */
  function ParentsFrom(name: Path, from: nat): seq<Path>
    decreases |name| - from
  {
    if from >= |name| then []
    else if name[from] == '/' then [name[..from]] + ParentsFrom(name, from + 1)
    else ParentsFrom(name, from + 1)
  }

  /** The directories `make_parents(name)` must make sure of, in order:
      `name[..k]` for every `k >= 1` with `name[k] == '/'`. */
  function ParentPrefixes(name: Path): seq<Path>
  {
    ParentsFrom(name, 1)
  }

  /** The search for the next '/' starting at `from` lands where the next
      prefix of ParentsFrom ends, or finds nothing when there is none. */
  lemma {:induction false} ParentsFromFind(name: Path, from: nat)
    ensures FindFrom(name, '/', from).None? ==> ParentsFrom(name, from) == []
    ensures FindFrom(name, '/', from).Some? ==>
      var k := FindFrom(name, '/', from).value;
      ParentsFrom(name, from) == [name[..k]] + ParentsFrom(name, k + 1)
    decreases |name| - from
  {
    if from < |name| && name[from] != '/' {
      ParentsFromFind(name, from + 1);
    }
  }

  lemma {:induction false} ParentsFromSpec(name: Path, from: nat)
    ensures forall p :: p in ParentsFrom(name, from) <==>
      exists k | from <= k < |name| :: name[k] == '/' && p == name[..k]
    ensures forall i | 0 <= i < |ParentsFrom(name, from)| ::
      from <= |ParentsFrom(name, from)[i]| < |name|
    ensures forall i, j | 0 <= i < j < |ParentsFrom(name, from)| ::
      |ParentsFrom(name, from)[i]| < |ParentsFrom(name, from)[j]|
    decreases |name| - from
  {
    if from < |name| {
      ParentsFromSpec(name, from + 1);
      var rest := ParentsFrom(name, from + 1);
      if name[from] == '/' {
        assert ParentsFrom(name, from) == [name[..from]] + rest;
        forall p | p in ParentsFrom(name, from)
          ensures exists k | from <= k < |name| :: name[k] == '/' && p == name[..k]
        {
          if p == name[..from] { assert name[from] == '/'; }
        }
      }
    }
  }

  /** The prefixes are exactly the proper prefixes `name[..k]`, `k >= 1`,
      that are followed by a '/'; they come in increasing length and all
      are shorter than `name`, so `name` itself is never among them. */
  lemma ParentPrefixesSpec(name: Path)
    ensures forall p :: p in ParentPrefixes(name) <==>
      exists k | 1 <= k < |name| :: name[k] == '/' && p == name[..k]
    ensures forall i, j | 0 <= i < j < |ParentPrefixes(name)| ::
      |ParentPrefixes(name)[i]| < |ParentPrefixes(name)[j]|
    ensures forall i | 0 <= i < |ParentPrefixes(name)| ::
      ParentPrefixes(name)[i] < name && ParentPrefixes(name)[i] != []
    ensures Distinct(ParentPrefixes(name)) && name !in ParentPrefixes(name)
  {
    ParentsFromSpec(name, 1);
    var ps := ParentPrefixes(name);
    forall i | 0 <= i < |ps| ensures ps[i] < name {
      assert ps[i] in ps;
    }
  }

  // ---------------------------------------------------------------------
  // What make_parents does to the filesystem

  /** Walk `dirs` in order: skip a directory that exists, create one that
      does not, and stop with failure at the first mkdir that fails. */
  function CreateParents(nodes: map<Path, Node>, failing: set<(Path, Call)>, dirs: seq<Path>)
    : (bool, map<Path, Node>)
    decreases |dirs|
  {
    if dirs == [] then (true, nodes)
    else if IsDir(nodes, dirs[0]) then CreateParents(nodes, failing, dirs[1..])
    else if MkdirFails(nodes, failing, dirs[0]) then (false, nodes)
    else CreateParents(nodes[dirs[0] := NewDir()], failing, dirs[1..])
  }

  /** Existing nodes are never altered or removed; every node added is a
      new directory at one of `dirs`. */
  lemma {:induction false} CreateParentsFrame(
    nodes: map<Path, Node>, failing: set<(Path, Call)>, dirs: seq<Path>)
    ensures var res := CreateParents(nodes, failing, dirs).1;
      (forall p | p in nodes :: p in res && res[p] == nodes[p]) &&
      (forall p | p in res && p !in nodes :: p in dirs && res[p] == NewDir())
    decreases |dirs|
  {
    if dirs != [] {
      if IsDir(nodes, dirs[0]) {
        CreateParentsFrame(nodes, failing, dirs[1..]);
      } else if !MkdirFails(nodes, failing, dirs[0]) {
        CreateParentsFrame(nodes[dirs[0] := NewDir()], failing, dirs[1..]);
      }
    }
  }

  /** For distinct prefixes, make_parents succeeds exactly when none is
      blocked, and on success every prefix is a directory. */
  lemma {:induction false} CreateParentsOk(
    nodes: map<Path, Node>, failing: set<(Path, Call)>, dirs: seq<Path>)
    requires Distinct(dirs)
    ensures CreateParents(nodes, failing, dirs).0 <==>
      forall i | 0 <= i < |dirs| :: !Blocked(nodes, failing, dirs[i])
    ensures CreateParents(nodes, failing, dirs).0 ==>
      forall i | 0 <= i < |dirs| :: IsDir(CreateParents(nodes, failing, dirs).1, dirs[i])
    decreases |dirs|
  {
    if dirs != [] {
      var d := dirs[0];
      var next := if IsDir(nodes, d) then nodes else nodes[d := NewDir()];
      if IsDir(nodes, d) || !MkdirFails(nodes, failing, d) {
        assert Distinct(dirs[1..]);
        CreateParentsOk(next, failing, dirs[1..]);
        forall i | 1 <= i < |dirs|
          ensures Blocked(next, failing, dirs[i]) == Blocked(nodes, failing, dirs[i])
        {
          assert dirs[i] != d;
        }
        var res := CreateParents(next, failing, dirs[1..]).1;
        CreateParentsFrame(next, failing, dirs[1..]);
        assert CreateParents(nodes, failing, dirs) == CreateParents(next, failing, dirs[1..]);
        if CreateParents(nodes, failing, dirs).0 {
          assert IsDir(next, d);
          assert IsDir(res, d);
          forall i | 0 <= i < |dirs| ensures IsDir(res, dirs[i]) {
            if i > 0 { assert dirs[i] == dirs[1..][i - 1]; }
          }
        } else {
          var i :| 0 <= i < |dirs[1..]| && Blocked(next, failing, dirs[1..][i]);
          assert Blocked(nodes, failing, dirs[i + 1]);
        }
      }
    }
  }

  /** make_parents stops at the first blocked prefix: nothing from there on
      is created. */
  lemma {:induction false} CreateParentsStops(
    nodes: map<Path, Node>, failing: set<(Path, Call)>, dirs: seq<Path>, i: nat)
    requires Distinct(dirs)
    requires i < |dirs| && Blocked(nodes, failing, dirs[i])
    requires forall j | 0 <= j < i :: !Blocked(nodes, failing, dirs[j])
    ensures !CreateParents(nodes, failing, dirs).0
    ensures forall j | i <= j < |dirs| ::
      dirs[j] in CreateParents(nodes, failing, dirs).1 <==> dirs[j] in nodes
    decreases |dirs|
  {
    var d := dirs[0];
    if i > 0 {
      var next := if IsDir(nodes, d) then nodes else nodes[d := NewDir()];
      assert CreateParents(nodes, failing, dirs) == CreateParents(next, failing, dirs[1..]);
      forall j | 1 <= j < |dirs|
        ensures Blocked(next, failing, dirs[j]) == Blocked(nodes, failing, dirs[j])
        ensures dirs[j] in next <==> dirs[j] in nodes
      {
        assert dirs[j] != d;
      }
      assert Distinct(dirs[1..]);
      assert dirs[1..][i - 1] == dirs[i] && Blocked(next, failing, dirs[i]);
      forall j | 0 <= j < i - 1 ensures !Blocked(next, failing, dirs[1..][j]) {
        assert dirs[1..][j] == dirs[j + 1];
      }
      CreateParentsStops(next, failing, dirs[1..], i - 1);
      forall j | i <= j < |dirs|
        ensures dirs[j] in CreateParents(nodes, failing, dirs).1 <==> dirs[j] in nodes
      {
        assert dirs[j] == dirs[1..][j - 1];
      }
    }
  }

  /** When every prefix is already a directory, make_parents changes
      nothing and succeeds. */
  lemma {:induction false} CreateParentsAllPresent(
    nodes: map<Path, Node>, failing: set<(Path, Call)>, dirs: seq<Path>)
    requires forall i | 0 <= i < |dirs| :: IsDir(nodes, dirs[i])
    ensures CreateParents(nodes, failing, dirs) == (true, nodes)
    decreases |dirs|
  {
    if dirs != [] {
      CreateParentsAllPresent(nodes, failing, dirs[1..]);
    }
  }

  /** make_parents never touches the path it was given. */
  lemma MakeParentsLeavesName(nodes: map<Path, Node>, failing: set<(Path, Call)>, name: Path)
    ensures var res := CreateParents(nodes, failing, ParentPrefixes(name)).1;
      (name in res <==> name in nodes) && (name in nodes ==> res[name] == nodes[name])
  {
    ParentPrefixesSpec(name);
    CreateParentsFrame(nodes, failing, ParentPrefixes(name));
  }

  // ---------------------------------------------------------------------
  // The filesystem object

  /** Outcome of `unlink`. */
  datatype UnlinkResult = Removed | NoEntry | UnlinkError

  function SymlinkNode(target: string): Node { Node(Symlink(target), 0, 0, 0x1FF, "", None) }

  /** Every path under `p`, `p` included. */
  predicate Under(p: Path, q: Path)
  {
    q == p || p + "/" <= q
  }

  /** A path under `p` is `p` followed by the rest of it. */
  lemma UnderSplit(p: Path, q: Path)
    requires Under(p, q)
    ensures |p| <= |q| && q[..|p|] == p && q == p + q[|p|..]
  {
    if q != p {
      assert q[..|p|] == (p + "/")[..|p|];
    }
  }

  /** Trees nest: what is under a path under `p` is under `p`. */
  lemma UnderTrans(p: Path, q: Path, t: Path)
    requires Under(p, q) && Under(q, t)
    ensures Under(p, t)
  {
    if q != p && t != q {
      UnderSplit(q, t);
      assert t[..|p| + 1] == (p + "/")[..|p| + 1];
      assert t[..|p| + 1] == p + "/";
    }
  }

  /** Each parent directory make_parents considers holds the name. */
  lemma ParentPrefixesUnder(name: Path)
    ensures forall p | p in ParentPrefixes(name) :: Under(p, name) && p != name
  {
    ParentPrefixesSpec(name);
    forall p | p in ParentPrefixes(name) ensures Under(p, name) && p != name {
      var k :| 1 <= k < |name| && name[k] == '/' && p == name[..k];
      assert name[..k + 1] == p + "/";
    }
  }

  // ---------------------------------------------------------------------
  // rename(2)

  /** Where `rename(src, dst)` puts the path `q` of the tree at `src`. */
  function Moved(src: Path, dst: Path, q: Path): Path
    requires Under(src, q)
  {
    dst + q[|src|..]
  }

  lemma MovedUnder(src: Path, dst: Path, q: Path)
    requires Under(src, q)
    ensures Under(dst, Moved(src, dst, q))
    ensures src + Moved(src, dst, q)[|dst|..] == q
  {
    UnderSplit(src, q);
    var m := Moved(src, dst, q);
    assert m[|dst|..] == q[|src|..];
    if q != src {
      assert q[|src|..][..1] == (src + "/")[|src|..][..1];
      assert m[..|dst| + 1] == dst + q[|src|..][..1];
    }
  }

  /** The filesystem after `rename(src, dst)` succeeds: the whole tree at
      `src` now sits at `dst`, and the tree that was at `dst` is gone. */
  function MoveTree(nodes: map<Path, Node>, src: Path, dst: Path): map<Path, Node>
  {
    var kept := map q | q in nodes && !Under(src, q) && !Under(dst, q) :: nodes[q];
    var moved := map t | t in nodes.Keys + (set q | q in nodes && Under(src, q) :: Moved(src, dst, q))
      && Under(dst, t) && src + t[|dst|..] in nodes && Under(src, src + t[|dst|..])
      :: nodes[src + t[|dst|..]];
    kept + moved
  }

  /** The tree at `src` reappears at `dst`; what is under neither keeps
      its node; and every node under `dst` afterwards came from `src`. */
  lemma MoveTreeSpec(nodes: map<Path, Node>, src: Path, dst: Path)
    ensures var r := MoveTree(nodes, src, dst);
      (forall q | q in nodes && Under(src, q) :: Moved(src, dst, q) in r && r[Moved(src, dst, q)] == nodes[q]) &&
      (forall q | q in nodes && !Under(src, q) && !Under(dst, q) :: q in r && r[q] == nodes[q]) &&
      (forall t | t in r && !Under(dst, t) :: t in nodes && !Under(src, t) && r[t] == nodes[t]) &&
      (forall t | t in r && Under(dst, t) ::
        src + t[|dst|..] in nodes && Under(src, src + t[|dst|..]) && r[t] == nodes[src + t[|dst|..]])
  {
    var r := MoveTree(nodes, src, dst);
    forall q | q in nodes && Under(src, q)
      ensures Moved(src, dst, q) in r && r[Moved(src, dst, q)] == nodes[q]
    {
      MovedUnder(src, dst, q);
    }
  }

  /** Renaming a path to itself changes nothing. */
  lemma MoveTreeSame(nodes: map<Path, Node>, p: Path)
    ensures MoveTree(nodes, p, p) == nodes
  {
    var r := MoveTree(nodes, p, p);
    MoveTreeSpec(nodes, p, p);
    forall t | t in nodes ensures t in r && r[t] == nodes[t] {
      if Under(p, t) {
        UnderSplit(p, t);
        assert Moved(p, p, t) == t;
      }
    }
    forall t | t in r ensures t in nodes {
      if Under(p, t) {
        UnderSplit(p, t);
      }
    }
  }

  /** Whether something other than `p` itself lies under `p`. */
  predicate HasEntries(nodes: map<Path, Node>, p: Path)
  {
    exists q | q in nodes :: q != p && Under(p, q)
  }

  /** When `rename(src, dst)` fails (rename(2)): the source is missing
      (ENOENT); `dst` lies in the tree at `src` (EINVAL) or `src` in the
      tree at `dst` (ENOTEMPTY); `dst` exists and exactly one of the two is
      a directory (EISDIR, ENOTDIR), or it is a directory with entries
      (ENOTEMPTY); or the oracle makes the call fail.  Renaming a path to
      itself succeeds and does nothing. */
  predicate RenameFails(nodes: map<Path, Node>, failing: set<(Path, Call)>, src: Path, dst: Path)
  {
    src !in nodes || (src, Call.Rename) in failing ||
    (src != dst &&
      (Under(src, dst) || Under(dst, src) ||
       (dst in nodes &&
        (nodes[src].kind.Directory? != nodes[dst].kind.Directory? || HasEntries(nodes, dst)))))
  }

  class FileSystem {
    var nodes: map<Path, Node>
    /** The failure oracle: `(p, c)` in `failing` makes call `c` on `p` fail. */
    const failing: set<(Path, Call)>
    /** The oracle for a recursive removal that fails part way:
        `partial(p)` holds the paths a failing removal of `p` got to
        remove before it stopped. */
    const partial: Path -> set<Path>

    constructor (nodes0: map<Path, Node>, failing0: set<(Path, Call)>, partial0: Path -> set<Path>)
      ensures nodes == nodes0 && failing == failing0 && partial == partial0
    {
      nodes := nodes0;
      failing := failing0;
      partial := partial0;
    }

    /** `mkdir(p, 0700)`. */
    method Mkdir(p: Path) returns (ok: bool)
      modifies this
      ensures ok == !MkdirFails(old(nodes), failing, p)
      ensures nodes == if ok then old(nodes)[p := NewDir()] else old(nodes)
    {
      ok := !MkdirFails(nodes, failing, p);
      if ok {
        nodes := nodes[p := NewDir()];
      }
    }

    /** `make_parents(name)` (updater/install.cpp:106-126). */
    method MakeParents(name: Path) returns (ok: bool)
      modifies this
      ensures (ok, nodes) == CreateParents(old(nodes), failing, ParentPrefixes(name))
    {
      var prevEnd: nat := 0;
      while prevEnd < |name|
        invariant CreateParents(nodes, failing, ParentsFrom(name, prevEnd + 1))
               == CreateParents(old(nodes), failing, ParentPrefixes(name))
        decreases |name| - prevEnd
      {
        ParentsFromFind(name, prevEnd + 1);
        var nextEnd := FindFrom(name, '/', prevEnd + 1);
        if nextEnd.None? {
          break;
        }
        var dirPath := name[..nextEnd.value];
        if !IsDir(nodes, dirPath) {
          var made := Mkdir(dirPath);
          if !made {
            return false;
          }
        }
        prevEnd := nextEnd.value;
      }
      return true;
    }

    /** `rename(src, dst)`: moves the tree at `src` to `dst`, or fails
        and changes nothing. */
    method Rename(src: Path, dst: Path) returns (ok: bool)
      modifies this
      ensures ok == !RenameFails(old(nodes), failing, src, dst)
      ensures nodes == if ok then MoveTree(old(nodes), src, dst) else old(nodes)
    {
      ok := !RenameFails(nodes, failing, src, dst);
      if ok {
        nodes := MoveTree(nodes, src, dst);
      }
    }

    /** `unlink(p)`: ENOENT for a missing path; a directory cannot be
      unlinked; otherwise the oracle decides. */
    method Unlink(p: Path) returns (r: UnlinkResult)
      modifies this
      ensures r == UnlinkOutcome(old(nodes), failing, p)
      ensures nodes == if r == Removed then old(nodes) - {p} else old(nodes)
    {
      r := UnlinkOutcome(nodes, failing, p);
      if r == Removed {
        nodes := nodes - {p};
      }
    }

    /** `dirUnlinkHierarchy(p)`: removes `p` and everything under it.  A
        missing `p` fails at once; a removal that fails part way leaves
        `p` with whatever under it it did not get to. */
    method RemoveTree(p: Path) returns (ok: bool)
      modifies this
      ensures ok == (p in old(nodes) && (p, Call.RemoveTree) !in failing)
      ensures nodes == RemoveOutcome(old(nodes), failing, partial, p)
    {
      ok := p in nodes && (p, Call.RemoveTree) !in failing;
      nodes := RemoveOutcome(nodes, failing, partial, p);
    }

    /** `symlink(target, p)`: fails when `p` exists or by the oracle. */
    method MakeSymlink(target: string, p: Path) returns (ok: bool)
      modifies this
      ensures ok == !SymlinkFails(old(nodes), failing, p)
      ensures nodes == if ok then old(nodes)[p := SymlinkNode(target)] else old(nodes)
    {
      ok := !SymlinkFails(nodes, failing, p);
      if ok {
        nodes := nodes[p := SymlinkNode(target)];
      }
    }
  }

  function UnlinkOutcome(nodes: map<Path, Node>, failing: set<(Path, Call)>, p: Path): UnlinkResult
  {
    if p !in nodes then NoEntry
    else if nodes[p].kind == Directory || (p, Unlink) in failing then UnlinkError
    else Removed
  }

  function PruneTree(nodes: map<Path, Node>, p: Path): (r: map<Path, Node>)
    ensures forall q :: q in r <==> q in nodes && !Under(p, q)
    ensures forall q | q in r :: r[q] == nodes[q]
  {
    map q | q in nodes && !Under(p, q) :: nodes[q]
  }

  /** What is left after a removal of `p` that stops part way, having
      removed the paths of `gone` under `p`; `p` itself stays. */
  function PruneSome(nodes: map<Path, Node>, p: Path, gone: set<Path>): map<Path, Node>
  {
    map q | q in nodes && !(q != p && Under(p, q) && q in gone) :: nodes[q]
  }

  /** The filesystem after `dirUnlinkHierarchy(p)`. */
  function RemoveOutcome(nodes: map<Path, Node>, failing: set<(Path, Call)>,
                         partial: Path -> set<Path>, p: Path): map<Path, Node>
  {
    if p !in nodes then nodes
    else if (p, Call.RemoveTree) in failing then PruneSome(nodes, p, partial(p))
    else PruneTree(nodes, p)
  }

  /** Whatever the outcome, a recursive removal of `p` only removes paths
      under `p` and changes no node it keeps; when it fails, `p` stays. */
  lemma RemoveOutcomeFrame(nodes: map<Path, Node>, failing: set<(Path, Call)>,
                           partial: Path -> set<Path>, p: Path)
    ensures var r := RemoveOutcome(nodes, failing, partial, p);
      (forall q | q in r :: q in nodes && r[q] == nodes[q]) &&
      (forall q | q in nodes && !Under(p, q) :: q in r) &&
      (p in nodes && (p, Call.RemoveTree) in failing ==> p in r) &&
      (p in nodes && (p, Call.RemoveTree) !in failing ==> forall q | Under(p, q) :: q !in r)
  {
  }

  predicate SymlinkFails(nodes: map<Path, Node>, failing: set<(Path, Call)>, p: Path)
  {
    p in nodes || (p, MakeSymlink) in failing
  }
}
