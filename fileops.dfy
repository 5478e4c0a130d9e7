/** The script operations that move, delete and link files:
    `rename` (updater/install.cpp:622-653), `delete` and `delete_recursive`
    (updater/install.cpp:661-676) and `symlink`
    (updater/install.cpp:768-800).  Each handler is a method over the
    filesystem object, proved equal to a function of the old filesystem
    and the arguments; the lemmas state what those functions guarantee. */
module FileOps {
  import opened Values
  import opened Text
  import opened FileSys

  // ---------------------------------------------------------------------
  // rename(src, dst)

  /** The result and the new filesystem of `rename(src, dst)`. */
  function RenameSpec(nodes: map<Path, Node>, failing: set<(Path, Call)>, argv: seq<Value>)
    : (Ret, map<Path, Node>)
  {
    if |argv| != 2 || !AllStrings(argv) then (Abort(ArgsParsingFailure), nodes)
    else
      var src, dst := argv[0].data, argv[1].data;
      if src == "" || dst == "" then (Abort(ArgsParsingFailure), nodes)
      else
        var (made, ready) := CreateParents(nodes, failing, ParentPrefixes(dst));
        if !made then (Abort(FileRenameFailure), ready)
        else if dst in ready && src !in ready then (StrRet(dst), ready)
        else if RenameFails(ready, failing, src, dst) then (Abort(FileRenameFailure), ready)
        else (StrRet(dst), MoveTree(ready, src, dst))
  }

  /** `RenameFn` (updater/install.cpp:622-653). */
  method RenameFn(fs: FileSystem, argv: seq<Value>) returns (r: Ret)
    modifies fs
    ensures (r, fs.nodes) == RenameSpec(old(fs.nodes), fs.failing, argv)
  {
    if |argv| != 2 {
      return Abort(ArgsParsingFailure);
    }
    var read := ReadArgs(argv);
    if read.None? {
      return Abort(ArgsParsingFailure);
    }
    var src, dst := read.value[0], read.value[1];
    if src == "" {
      return Abort(ArgsParsingFailure);
    }
    if dst == "" {
      return Abort(ArgsParsingFailure);
    }
    var made := fs.MakeParents(dst);
    if !made {
      return Abort(FileRenameFailure);
    } else if dst in fs.nodes && src !in fs.nodes {
      // already moved
      return StrRet(dst);
    } else {
      var moved := fs.Rename(src, dst);
      if !moved {
        return Abort(FileRenameFailure);
      }
    }
    return StrRet(dst);
  }

  /** A rename that can go ahead moves the whole tree at the source to the
      destination and the source name is gone; every node under neither
      name is untouched; every node under the destination afterwards came
      from the source's tree, and the only other new nodes are the parent
      directories made for the destination. */
  lemma RenameMoves(nodes: map<Path, Node>, failing: set<(Path, Call)>, src: Path, dst: Path)
    requires src != "" && dst != "" && src != dst
    requires CreateParents(nodes, failing, ParentPrefixes(dst)).0
    requires !RenameFails(CreateParents(nodes, failing, ParentPrefixes(dst)).1, failing, src, dst)
    ensures var (r, res) := RenameSpec(nodes, failing, [Str(src), Str(dst)]);
      r == StrRet(dst) && src !in res &&
      (forall q | q in nodes && Under(src, q) :: Moved(src, dst, q) in res && res[Moved(src, dst, q)] == nodes[q]) &&
      (forall q | q in nodes && !Under(src, q) && !Under(dst, q) :: q in res && res[q] == nodes[q]) &&
      (forall t | t in res && Under(dst, t) ::
        src + t[|dst|..] in nodes && Under(src, src + t[|dst|..]) && res[t] == nodes[src + t[|dst|..]]) &&
      (forall t | t in res && !Under(dst, t) && t !in nodes :: t in ParentPrefixes(dst) && res[t] == NewDir())
  {
    var dirs := ParentPrefixes(dst);
    var ready := CreateParents(nodes, failing, dirs).1;
    ParentPrefixesSpec(dst);
    ParentPrefixesUnder(dst);
    CreateParentsFrame(nodes, failing, dirs);
    MoveTreeSpec(ready, src, dst);
    forall t | t in ready && t !in nodes ensures !Under(src, t) {
      if Under(src, t) {
        assert t in dirs;
        UnderTrans(src, t, dst);
      }
    }
  }

  /** Renaming again after a successful rename is harmless: the second call
      finds every parent in place and the source gone, reports success and
      changes nothing.  This is what makes an interrupted update safe to
      resume. */
  lemma {:induction false} RenameRetry(nodes: map<Path, Node>, failing: set<(Path, Call)>, src: Path, dst: Path)
    requires RenameSpec(nodes, failing, [Str(src), Str(dst)]).0 == StrRet(dst)
    ensures var after := RenameSpec(nodes, failing, [Str(src), Str(dst)]).1;
      RenameSpec(after, failing, [Str(src), Str(dst)]) == (StrRet(dst), after)
  {
    var argv := [Str(src), Str(dst)];
    assert AllStrings(argv);
    var dirs := ParentPrefixes(dst);
    ParentPrefixesSpec(dst);
    ParentPrefixesUnder(dst);
    CreateParentsOk(nodes, failing, dirs);
    var ready := CreateParents(nodes, failing, dirs).1;
    var after := RenameSpec(nodes, failing, argv).1;
    if src == dst {
      MoveTreeSame(ready, src);
    } else if !(dst in ready && src !in ready) {
      MoveTreeSpec(ready, src, dst);
      forall i | 0 <= i < |dirs| ensures IsDir(after, dirs[i]) {
        assert IsDir(ready, dirs[i]);
        if Under(src, dirs[i]) {
          UnderTrans(src, dirs[i], dst);
        }
      }
      MovedUnder(src, dst, src);
      assert dst + src[|src|..] == dst;
    }
    CreateParentsAllPresent(after, failing, dirs);
  }

  // ---------------------------------------------------------------------
  // delete(path, ...) and delete_recursive(dir, ...)

  /** Whether removing `p` succeeds: `unlink` for `delete`,
      `dirUnlinkHierarchy` for `delete_recursive`. */
  predicate Deletes(nodes: map<Path, Node>, failing: set<(Path, Call)>, p: Path, recursive: bool)
  {
    if recursive then p in nodes && (p, Call.RemoveTree) !in failing
    else UnlinkOutcome(nodes, failing, p) == Removed
  }

  /** The filesystem after removing `p`; `partial` is the oracle for a
      recursive removal that fails part way. */
  function DeleteOne(nodes: map<Path, Node>, failing: set<(Path, Call)>, partial: Path -> set<Path>,
                     p: Path, recursive: bool): map<Path, Node>
  {
    if recursive then RemoveOutcome(nodes, failing, partial, p)
    else if Deletes(nodes, failing, p, false) then nodes - {p}
    else nodes
  }

  /** Remove each path in turn, counting the removals that succeed. */
  function DeleteAll(nodes: map<Path, Node>, failing: set<(Path, Call)>, partial: Path -> set<Path>,
                     paths: seq<Path>, recursive: bool)
    : (r: (nat, map<Path, Node>))
    ensures r.0 <= |paths|
    ensures r.1.Keys <= nodes.Keys
    decreases |paths|
  {
    if paths == [] then (0, nodes)
    else
      var next := DeleteOne(nodes, failing, partial, paths[0], recursive);
      var (n, res) := DeleteAll(next, failing, partial, paths[1..], recursive);
      (n + (if Deletes(nodes, failing, paths[0], recursive) then 1 else 0), res)
  }

  lemma DeleteAllStep(nodes: map<Path, Node>, failing: set<(Path, Call)>, partial: Path -> set<Path>,
                      paths: seq<Path>, i: nat, recursive: bool)
    requires i < |paths|
    ensures DeleteAll(nodes, failing, partial, paths[i..], recursive) ==
      var rest := DeleteAll(DeleteOne(nodes, failing, partial, paths[i], recursive), failing, partial, paths[i + 1..], recursive);
      (rest.0 + (if Deletes(nodes, failing, paths[i], recursive) then 1 else 0), rest.1)
  {
    assert paths[i..][0] == paths[i];
    assert paths[i..][1..] == paths[i + 1..];
  }

  /** `delete_recursive` only removes what lies under the paths it is
      given, whatever fails: every node left is unchanged, and every node
      under none of the paths is left. */
  lemma {:induction false} DeleteRecursiveFrame(
    nodes: map<Path, Node>, failing: set<(Path, Call)>, partial: Path -> set<Path>, paths: seq<Path>)
    ensures var res := DeleteAll(nodes, failing, partial, paths, true).1;
      (forall q | q in res :: q in nodes && res[q] == nodes[q]) &&
      (forall q | q in nodes && (forall i | 0 <= i < |paths| :: !Under(paths[i], q)) :: q in res)
    decreases |paths|
  {
    if paths != [] {
      var next := DeleteOne(nodes, failing, partial, paths[0], true);
      RemoveOutcomeFrame(nodes, failing, partial, paths[0]);
      DeleteRecursiveFrame(next, failing, partial, paths[1..]);
      forall q | q in nodes && (forall i | 0 <= i < |paths| :: !Under(paths[i], q))
        ensures q in next && forall i | 0 <= i < |paths[1..]| :: !Under(paths[1..][i], q)
      {
        assert !Under(paths[0], q);
        forall i | 0 <= i < |paths[1..]| ensures !Under(paths[1..][i], q) {
          assert paths[1..][i] == paths[i + 1];
        }
      }
    }
  }

  /** The loop of `DeleteFn`: remove each path in turn and count the
      removals that succeed. */
  method DeletePaths(fs: FileSystem, paths: seq<Path>, recursive: bool) returns (success: nat)
    modifies fs
    ensures (success, fs.nodes) == DeleteAll(old(fs.nodes), fs.failing, fs.partial, paths, recursive)
  {
    ghost var goal := DeleteAll(fs.nodes, fs.failing, fs.partial, paths, recursive);
    success := 0;
    var i := 0;
    while i < |paths|
      invariant 0 <= i <= |paths|
      invariant success + DeleteAll(fs.nodes, fs.failing, fs.partial, paths[i..], recursive).0 == goal.0
      invariant DeleteAll(fs.nodes, fs.failing, fs.partial, paths[i..], recursive).1 == goal.1
      decreases |paths| - i
    {
      DeleteAllStep(fs.nodes, fs.failing, fs.partial, paths, i, recursive);
      var removed := DeletePath(fs, paths[i], recursive);
      if removed {
        success := success + 1;
      }
      i := i + 1;
    }
    assert paths[i..] == [];
  }

  /** One removal of the loop in `DeleteFn`. */
  method DeletePath(fs: FileSystem, p: Path, recursive: bool) returns (removed: bool)
    modifies fs
    ensures removed == Deletes(old(fs.nodes), fs.failing, p, recursive)
    ensures fs.nodes == DeleteOne(old(fs.nodes), fs.failing, fs.partial, p, recursive)
  {
    if recursive {
      removed := fs.RemoveTree(p);
    } else {
      var u := fs.Unlink(p);
      removed := u == Removed;
    }
  }

  /** `DeleteFn` (updater/install.cpp:661-676).  An argument that does not
      evaluate to a string makes the handler return nothing. */
  method DeleteFn(fs: FileSystem, argv: seq<Value>, recursive: bool) returns (r: Ret)
    modifies fs
    ensures !AllStrings(argv) ==> r == Null && fs.nodes == old(fs.nodes)
    ensures AllStrings(argv) ==>
      var d := DeleteAll(old(fs.nodes), fs.failing, fs.partial, ReadArgs(argv).value, recursive);
      r == StrRet(IntToString(d.0)) && fs.nodes == d.1
  {
    var read := ReadArgs(argv);
    if read.None? {
      return Null;
    }
    var success := DeletePaths(fs, read.value, recursive);
    return StrRet(IntToString(success));
  }

  /** The number of paths in `paths` that `delete` can remove from `nodes`. */
  function CountDeletable(nodes: map<Path, Node>, failing: set<(Path, Call)>, paths: seq<Path>): nat
  {
    if paths == [] then 0
    else (if UnlinkOutcome(nodes, failing, paths[0]) == Removed then 1 else 0)
         + CountDeletable(nodes, failing, paths[1..])
  }

  lemma {:induction false} CountDeletableFrame(
    nodes: map<Path, Node>, failing: set<(Path, Call)>, paths: seq<Path>, p: Path)
    requires p !in paths
    ensures CountDeletable(nodes - {p}, failing, paths) == CountDeletable(nodes, failing, paths)
    decreases |paths|
  {
    if paths != [] {
      CountDeletableFrame(nodes, failing, paths[1..], p);
    }
  }

  /** For `delete` of distinct paths, the count returned is the number of
      paths that were plain files (or links) whose unlink succeeds; those
      are gone afterwards and every other node is left as it was. */
  lemma {:induction false} DeleteCount(nodes: map<Path, Node>, failing: set<(Path, Call)>,
                                      partial: Path -> set<Path>, paths: seq<Path>)
    requires Distinct(paths)
    ensures var (n, res) := DeleteAll(nodes, failing, partial, paths, false);
      n == CountDeletable(nodes, failing, paths) &&
      (forall i | 0 <= i < |paths| && UnlinkOutcome(nodes, failing, paths[i]) == Removed :: paths[i] !in res) &&
      (forall q | q in nodes && q !in paths :: q in res && res[q] == nodes[q]) &&
      (forall q | q in nodes && UnlinkOutcome(nodes, failing, q) != Removed :: q in res && res[q] == nodes[q])
    decreases |paths|
  {
    if paths != [] {
      var p := paths[0];
      var rest := paths[1..];
      var next := DeleteOne(nodes, failing, partial, p, false);
      assert Distinct(rest);
      assert p !in rest;
      DeleteCount(next, failing, partial, rest);
      if UnlinkOutcome(nodes, failing, p) == Removed {
        CountDeletableFrame(nodes, failing, rest, p);
        forall q | q in next ensures UnlinkOutcome(next, failing, q) == UnlinkOutcome(nodes, failing, q) {
        }
      }
      var res := DeleteAll(nodes, failing, partial, paths, false).1;
      forall i | 0 <= i < |paths| && UnlinkOutcome(nodes, failing, paths[i]) == Removed
        ensures paths[i] !in res
      {
        if i > 0 {
          assert paths[i] == rest[i - 1];
          assert paths[i] != p;
          assert UnlinkOutcome(next, failing, rest[i - 1]) == Removed;
        }
      }
    }
  }

  /** The count `delete` returns reads back as the same number. */
  lemma DeleteCountReadsBack(nodes: map<Path, Node>, failing: set<(Path, Call)>, partial: Path -> set<Path>,
                              paths: seq<Path>, recursive: bool)
    requires |paths| <= INT64_MAX
    ensures ParseInt(IntToString(DeleteAll(nodes, failing, partial, paths, recursive).0))
         == Some(DeleteAll(nodes, failing, partial, paths, recursive).0)
  {
    ParseIntToString(DeleteAll(nodes, failing, partial, paths, recursive).0);
  }

  // ---------------------------------------------------------------------
  // symlink(target, src, ...)

  /** One link: remove what is at `src` (a missing name is fine), create
      its parents, then `symlink(target, src)`; false at the first step
      that fails. */
  function LinkOne(nodes: map<Path, Node>, failing: set<(Path, Call)>, target: string, src: Path)
    : (bool, map<Path, Node>)
  {
    var u := UnlinkOutcome(nodes, failing, src);
    if u == UnlinkError then (false, nodes)
    else
      var cleared := if u == Removed then nodes - {src} else nodes;
      var (made, ready) := CreateParents(cleared, failing, ParentPrefixes(src));
      if !made then (false, ready)
      else if SymlinkFails(ready, failing, src) then (false, ready)
      else (true, ready[src := SymlinkNode(target)])
  }

  /** Link every name in turn, counting the ones that failed. */
  function LinkAll(nodes: map<Path, Node>, failing: set<(Path, Call)>, target: string, srcs: seq<Path>)
    : (r: (nat, map<Path, Node>))
    ensures r.0 <= |srcs|
    decreases |srcs|
  {
    if srcs == [] then (0, nodes)
    else
      var (ok, next) := LinkOne(nodes, failing, target, srcs[0]);
      var (bad, res) := LinkAll(next, failing, target, srcs[1..]);
      (bad + (if ok then 0 else 1), res)
  }

  /** `SymlinkFn` (updater/install.cpp:768-800).  A target that does not
      evaluate to a string makes the handler return nothing. */
  method SymlinkFn(fs: FileSystem, argv: seq<Value>) returns (r: Ret)
    modifies fs
    ensures |argv| == 0 ==> r == Abort(ArgsParsingFailure) && fs.nodes == old(fs.nodes)
    ensures |argv| > 0 && !argv[0].Str? ==> r == Null && fs.nodes == old(fs.nodes)
    ensures |argv| > 0 && argv[0].Str? && !AllStrings(argv[1..]) ==>
      r == Abort(ArgsParsingFailure) && fs.nodes == old(fs.nodes)
    ensures |argv| > 0 && argv[0].Str? && AllStrings(argv[1..]) ==>
      var (bad, res) := LinkAll(old(fs.nodes), fs.failing, argv[0].data, ReadArgs(argv[1..]).value);
      fs.nodes == res && r == (if bad != 0 then Abort(SymlinkFailure) else StrRet(TRUE))
  {
    if |argv| == 0 {
      return Abort(ArgsParsingFailure);
    }
    if !argv[0].Str? {
      return Null;
    }
    var target := argv[0].data;
    var read := ReadArgs(argv[1..]);
    if read.None? {
      return Abort(ArgsParsingFailure);
    }
    var srcs := read.value;
    var bad: nat := 0;
    var i := 0;
    while i < |srcs|
      invariant 0 <= i <= |srcs|
      invariant var (n, res) := LinkAll(fs.nodes, fs.failing, target, srcs[i..]);
        (bad + n, res) == LinkAll(old(fs.nodes), fs.failing, target, srcs)
      decreases |srcs| - i
    {
      var src := srcs[i];
      assert srcs[i..][1..] == srcs[i + 1..];
      var u := fs.Unlink(src);
      if u == UnlinkError {
        bad := bad + 1;
      } else {
        var made := fs.MakeParents(src);
        if !made {
          bad := bad + 1;
        } else {
          var linked := fs.MakeSymlink(target, src);
          if !linked {
            bad := bad + 1;
          }
        }
      }
      i := i + 1;
    }
    if bad != 0 {
      return Abort(SymlinkFailure);
    }
    return StrRet(TRUE);
  }

  /** A link never disturbs a node at another name. */
  lemma LinkOneFrame(nodes: map<Path, Node>, failing: set<(Path, Call)>, target: string, src: Path, q: Path)
    requires q in nodes && q != src
    ensures var res := LinkOne(nodes, failing, target, src).1;
      q in res && res[q] == nodes[q]
  {
    var u := UnlinkOutcome(nodes, failing, src);
    if u != UnlinkError {
      var cleared := if u == Removed then nodes - {src} else nodes;
      CreateParentsFrame(cleared, failing, ParentPrefixes(src));
    }
  }

  /** When `symlink` reports success, every name it was given is a symbolic
      link to the target afterwards, and each node at any other name is
      as it was or a newly made parent directory. */
  lemma {:induction false} LinkAllSucceeded(
    nodes: map<Path, Node>, failing: set<(Path, Call)>, target: string, srcs: seq<Path>)
    requires LinkAll(nodes, failing, target, srcs).0 == 0
    ensures var res := LinkAll(nodes, failing, target, srcs).1;
      (forall i | 0 <= i < |srcs| :: srcs[i] in res && res[srcs[i]] == SymlinkNode(target)) &&
      (forall q | q in nodes && q !in srcs :: q in res && res[q] == nodes[q])
    decreases |srcs|
  {
    if srcs != [] {
      var src := srcs[0];
      var rest := srcs[1..];
      var next := LinkOne(nodes, failing, target, src).1;
      LinkAllSucceeded(next, failing, target, rest);
      var res := LinkAll(nodes, failing, target, srcs).1;
      assert res == LinkAll(next, failing, target, rest).1;
      assert src in next && next[src] == SymlinkNode(target);
      if src !in rest {
        assert src in res && res[src] == SymlinkNode(target);
      }
      forall i | 0 <= i < |srcs| ensures srcs[i] in res && res[srcs[i]] == SymlinkNode(target) {
        if i > 0 { assert srcs[i] == rest[i - 1]; }
      }
      forall q | q in nodes && q !in srcs ensures q in res && res[q] == nodes[q] {
        LinkOneFrame(nodes, failing, target, src, q);
        assert q !in rest;
      }
    }
  }
}
