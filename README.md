# Recovery updater built-ins, modelled in Dafny

The Android recovery updater runs an update script (edify). Each built-in
function of that script language is a handler in `updater/install.cpp`.
The handler receives its argument expressions, evaluates them to strings or
blobs, checks them, and then does one of three things:
- changes the device: the filesystem, file metadata, the misc partition or
  the reboot property;
- returns a string;
- aborts the update with a cause code.

This project models the decision logic of those handlers and proves what
they guarantee:

- `uiPrint` and `ui_print`: the `ui_print` commands written to the recovery
  command pipe, and what the recovery side shows for them (module `UiPipe`).
- `make_parents`, `rename`, `delete`/`delete_recursive` and `symlink`, over
  a filesystem object (modules `FileSys` and `FileOps`).
  - The filesystem is a map from path to node.
  - A fixed failure oracle names the system calls that fail on which paths.
  - `rename` moves a whole tree, and a recursive removal that fails part
    way leaves part of the tree, as a second oracle decides.
- `set_metadata` and `set_metadata_recursive` (module `Perms`):
  - the key/value parser, whose unknown-key warning budget lives for the
    whole process;
  - the type-gated sequence of attribute changes, with its failure
    counter;
  - the recursive walk and the final aggregate check.
- `file_getprop`: the property-file line parser (module `GetProp`).
- `format`: the argument checks and the exact `mke2fs`/`e2fsdroid` and
  `mkfs.f2fs`/`sload.f2fs` command lines (module `Format`).
- `apply_patch` argument validation, `apply_patch_check`, the `sha1_check`
  matching loop and `apply_patch_space`'s retry rule (module `Patch`).
- `set_stage`, `get_stage` and `reboot_now` (module `BootControl`):
  - they read the 2048-byte bootloader message, change one field and
    write it back;
  - a device object holds the misc partitions and the reboot property.

Shared pieces live in `Values` and `Text`:
- script values and handler results;
- `Split`, `Join`, `Trim`, `c_str()`;
- `android::base::ParseInt`/`ParseUint`, the `sscanf` integer conversions
  and `std::to_string`.

Handlers that change state are methods on the object they change. Their
postconditions tie the result and the new state to a function of the
arguments and the old state. Lemmas about those functions then state the
promises:
- `make_parents` succeeds exactly when no prefix is blocked;
- `rename` moves the source's whole tree and a repeated `rename` is harmless;
- `delete_recursive` removes nothing outside the trees it is given;
- `delete` counts exactly the removable paths;
- a successful `symlink` links every name;
- the last well-formed metadata pair wins;
- the warning budget is spent one unknown key at a time;
- a written property file reads back;
- a NUL-free message is shown line for line;
- a stored stage reads back, truncated to 31 characters, and survives a
  reboot request;
- and so on.

Two behaviours of `set_metadata_recursive` that a caller may not expect,
both modelled as the code has them:
- It does not add up failures over the whole tree. `nftw` stops at the
  first entry whose callback returns a non-zero count and returns that
  count (updater/install.cpp:1033).
- An error of the walk itself makes `nftw` return -1, and the handler only
  tests `bad > 0` (updater/install.cpp:1040), so that call is reported as
  a success (`Perms.WalkErrorReportsSuccess`).

## Model

| member | source | states |
|---|---|---|
| Text.ParseIntToString | updater/install.cpp:559-561 | `ParseInt` reads back, exactly, any 64-bit integer that `std::to_string` wrote |
| Text.ScanDecimalToString | updater/install.cpp:830 | the `%SCNd64` conversion reads back any integer `std::to_string` wrote |
| Text.ScanIntegerOctal | updater/install.cpp:852 | the `%SCNi32` conversion reads "0" followed by octal digits as that number in base 8 |
| Text.ScanIntegerHex | updater/install.cpp:885 | the `%SCNi` conversions read "0x" followed by hex digits as that number in base 16 |
| Text.ScanIntegerToString | updater/install.cpp:852 | the `%SCNi` conversions read back any integer `std::to_string` wrote, 0 included (read in base 8) |
| Perms.ParseModeOctal | updater/install.cpp:850-881 | a `mode`, `dmode` or `fmode` value written as "0" and octal digits is the octal number, reduced to 32 bits |
| Perms.ParseCapabilitiesHex | updater/install.cpp:883-892 | a `capabilities` value written as "0x" and hex digits is the hex number, reduced to 64 bits |
| Perms.ParseIdDecimal | updater/install.cpp:828-848 | a `uid` or `gid` value written in decimal is that number, reduced to 32 bits |
| Text.CPrefix | updater/install.cpp:90 | `c_str()` is the NUL-free prefix of the string, ending just before the first NUL |
| Text.SplitJoin | updater/install.cpp:87 | splitting the join of pieces that hold no separator gives back the pieces |
| Text.JoinSplit | updater/install.cpp:87 | joining the pieces of a split gives back the original text |
| Text.Trim | updater/install.cpp:1108 | the trimmed text neither starts nor ends with white space |
| Text.TrimSlice | updater/install.cpp:1108 | `Trim` returns a slice of its input outside which there is only white space |
| FileSys.ParentPrefixesSpec | updater/install.cpp:106-126 | the prefixes `make_parents` visits are exactly the `name[..k]` with `k >= 1` and a '/' at `k`; they come in increasing length, are distinct and non-empty, and never include `name` |
| FileSys.ParentsFromFind | updater/install.cpp:108-113 | each `find('/', prev_end + 1)` yields the next prefix, and npos means none is left |
| FileSys.CreateParentsFrame | updater/install.cpp:106-126 | `make_parents` never alters or removes an existing node; every node it adds is a fresh directory at one of the prefixes |
| FileSys.CreateParentsOk | updater/install.cpp:106-126 | for distinct prefixes, `make_parents` succeeds iff no prefix is blocked (neither a directory nor creatable); on success every prefix is a directory |
| FileSys.CreateParentsStops | updater/install.cpp:114-119 | at the first blocked prefix `make_parents` fails, and creates nothing at that prefix or any later one |
| FileSys.CreateParentsAllPresent | updater/install.cpp:114-122 | when every prefix is already a directory, `make_parents` succeeds and changes nothing |
| FileSys.MakeParentsLeavesName | updater/install.cpp:106-126 | `make_parents(name)` never creates, alters or removes `name` itself |
| FileSys.FileSystem.MakeParents | updater/install.cpp:106-126 | the loop's result and new filesystem equal the prefix walk `CreateParents` over `ParentPrefixes(name)` |
| FileSys.FileSystem.Mkdir | updater/install.cpp:115 | `mkdir` adds a fresh directory unless the path exists or the call fails |
| FileSys.FileSystem.Rename | updater/install.cpp:647 | `rename` moves the whole tree at the source to the destination (`MoveTree`); it fails and changes nothing when the source is missing, one name lies in the other's tree, the destination exists with the other kind or is a directory with entries, or the call fails |
| FileSys.MoveTreeSpec | updater/install.cpp:647 | after the move every node of the source's tree sits at the same place under the destination; nodes under neither name are kept as they were; nothing else is under the destination, and nothing new appears outside it |
| FileSys.MoveTreeSame | updater/install.cpp:647 | renaming a path to itself changes nothing |
| FileSys.FileSystem.Unlink | updater/install.cpp:669 | `unlink` removes a non-directory; a missing path is ENOENT and a directory is an error, and neither changes anything |
| FileSys.FileSystem.RemoveTree | updater/install.cpp:671 | `dirUnlinkHierarchy` succeeds iff the path exists and the call does not fail; on success the path and everything under it are gone; a missing path changes nothing; a removal that fails part way keeps the path and removes only some of what is under it (`RemoveOutcome`) |
| FileSys.RemoveOutcomeFrame | updater/install.cpp:671 | whatever the outcome, the recursive removal only removes paths in the tree it was given and changes no node it keeps; on failure the path itself stays, on success nothing of the tree remains |
| FileSys.FileSystem.MakeSymlink | updater/install.cpp:791 | `symlink` creates a link at a free name, or fails and changes nothing |
| FileSys.PruneTree | updater/install.cpp:669 | the tree removal keeps exactly the nodes not under the path, unchanged |
| FileOps.RenameFn | updater/install.cpp:622-653 | the handler's result and new filesystem equal `RenameSpec`, which checks arity, string arguments and emptiness, creates the destination's parents, then handles an already-moved file and otherwise renames |
| FileOps.RenameMoves | updater/install.cpp:639-652 | a rename that can proceed returns the destination; the source's whole tree is now under the destination and the source name is gone; nodes under neither name are untouched; everything under the destination came from the source's tree, and the only other new nodes are the parent directories made for the destination |
| FileOps.RenameRetry | updater/install.cpp:639-652 | a second `rename` after one that returned the destination returns the destination again and changes nothing, so an interrupted update can be resumed |
| FileOps.DeleteFn | updater/install.cpp:661-676 | non-string arguments give a null result and change nothing; otherwise the paths are removed in order, and the decimal count returned is the number of successful removals (`DeleteAll`) |
| FileOps.DeletePaths | updater/install.cpp:667-672 | the removal loop's count and new filesystem equal `DeleteAll` |
| FileOps.DeletePath | updater/install.cpp:671 | a single removal reports success iff `unlink`/`dirUnlinkHierarchy` succeeds; `unlink` changes the filesystem only then, and a recursive removal leaves what `RemoveOutcome` states |
| FileOps.DeleteRecursiveFrame | updater/install.cpp:661-676 | `delete_recursive` only removes nodes under the paths it is given, whatever fails: every node left is unchanged, and every node under none of the paths is left |
| FileOps.DeleteCount | updater/install.cpp:661-676 | for distinct paths, `delete` returns the number of paths whose unlink succeeds; those are gone afterwards, and every other node is unchanged |
| FileOps.DeleteCountReadsBack | updater/install.cpp:676 | the count `delete` returns parses back to the count (a corollary of `Text.ParseIntToString`) |
| FileOps.SymlinkFn | updater/install.cpp:768-800 | no arguments abort; a non-string target gives a null result; a non-string source aborts; otherwise the names are linked in turn (`LinkAll`), and the handler aborts with a symlink failure iff any step failed, else returns "t" |
| FileOps.LinkOneFrame | updater/install.cpp:780-791 | linking one name never disturbs a node at another name |
| FileOps.LinkAllSucceeded | updater/install.cpp:780-799 | when `symlink` reports success, every given name is a link to the target, and every node at another name is unchanged |
| Perms.ToWord | updater/install.cpp:831 | the value stored in a 32-bit `uid_t`/`gid_t`/`mode_t` field is in range and congruent to the scanned value modulo 2^32 |
| Perms.ParseValue | updater/install.cpp:828-902 | a parsed value has the key's type; a label is accepted iff it is non-empty, and is kept as given |
| Perms.Set | updater/install.cpp:831-832 | recording one attribute sets that attribute and its flag, and no other |
| Perms.ParseFromLast | updater/install.cpp:827-911 | after the pairs, every attribute holds the value of the last well-formed pair for it; an attribute no pair sets keeps its earlier value |
| Perms.ParsePermsLast | updater/install.cpp:819-913 | `ParsePermArgs` starts from the zeroed record, so each attribute holds the value of its last well-formed pair, and nothing when no such pair exists |
| Perms.ParseLogWarnings | updater/install.cpp:904-910 | one parse prints the minimum of the budget and the number of unknown keys as unknown-key warnings |
| Perms.BudgetAfterCount | updater/install.cpp:904-906 | each unknown key uses up one warning of the process-wide budget until none are left |
| Perms.PairLogWarnings | updater/install.cpp:904-910 | one pair costs a warning exactly when it prints one |
| Perms.PermParser.ParsePermArgs | updater/install.cpp:819-913 | returns the record `ParsePerms(args)` and the messages `ParseLog`; the budget left equals `max(0, old budget - unknown keys)`; the warnings printed ever plus the budget stay 20 |
| Perms.PermParser.ParsePairs | updater/install.cpp:827-911 | the loop over the pairs yields the fold `ParseFrom`, the log `ParseLog` and the budget `BudgetAfter` |
| Perms.PermParser.ParsePair | updater/install.cpp:828-910 | one pair updates the record as `Step`, prints `PairLog` and spends the budget as `NextBudget` |
| Perms.EncodeCaps | updater/install.cpp:981-987 | the capability attribute has revision 2 with the effective flag and no inheritable bits, and its two permitted words recombine to the 64-bit mask |
| Perms.Attempts | updater/install.cpp:915-997 | a symbolic link gets at most one change; the label change comes first, with the label's C string, exactly when a label was parsed |
| Perms.AttemptsGating | updater/install.cpp:956-994 | `dmode` applies only to a directory and `fmode` only to a regular file; capabilities apply only to a regular file, where a zero mask removes them and any other mask sets its encoding |
| Perms.RunOps | updater/install.cpp:915-997 | at most one failure per attempt; no path is created or removed, and no other path's node changes |
| Perms.RunOpsCount | updater/install.cpp:915-997 | the count returned is the number of attempted changes that fail; each attempt is independent of the earlier ones |
| Perms.ApplyParsedPerms | updater/install.cpp:915-997 | its count and new filesystem equal running `Attempts(kind, parsed)` in order |
| Perms.ApplyOwnership | updater/install.cpp:932-954 | the owner, group and mode changes extend the attempts run so far by `OwnerOps` |
| Perms.ApplyTypeGated | updater/install.cpp:956-994 | the type-gated changes extend the attempts run so far by `GatedOps` |
| Perms.Attempt | updater/install.cpp:919-925 | one change either counts a failure or applies its effect |
| Perms.WalkEntriesFirstFailure | updater/install.cpp:1004-1007 | the walk reports 0 iff no attempted change on any visited entry fails; otherwise it reports the failure count of the first entry with a failure |
| Perms.WalkErrorReportsSuccess | updater/install.cpp:1033-1041 | a walk that fails on its own after all changes succeeded is not reported as a failure |
| Perms.WalkTree | updater/install.cpp:1031-1034 | the walk's result and new filesystem equal `WalkResult` |
| Perms.SetMetadataFn | updater/install.cpp:1009-1044 | an even count or a non-string argument aborts with nothing changed; a path that cannot be `lstat`ed aborts with nothing changed; otherwise the parsed record is applied once or over the walk, and the call aborts iff the total is positive, else returns ""; the warning budget drops by the number of unknown keys, to no less than zero, and is untouched when the call aborts before parsing |
| Perms.ApplyMetadata | updater/install.cpp:1026-1043 | once the path exists, the parsed record is applied to it or over the walk; the result aborts iff the failure count is positive, and the warning budget drops by the number of unknown keys, to no less than zero |
| GetProp.Entry | updater/install.cpp:1107-1121 | a line that declares an entry yields a trimmed key holding no '=' and a trimmed value |
| GetProp.LookupFirst | updater/install.cpp:1105-1128 | the lookup returns the value of the first line that declares the key, and "" when no line does |
| GetProp.LookupProp | updater/install.cpp:1105-1128 | the loop returns `Lookup` of the file's lines |
| GetProp.FileGetPropFn | updater/install.cpp:1065-1129 | wrong arity or non-string arguments abort with an argument failure; a failed `stat` and a file larger than 65536 bytes abort with a getprop failure; a failed open or read aborts with its own code; otherwise the result is the lookup |
| GetProp.EntryOfLine | updater/install.cpp:1107-1121 | a written `key=value` line declares exactly that key and that value |
| GetProp.GetPropRoundTrip | updater/install.cpp:1105-1128 | a property file written one `key=value` per line reads back, for every key, the value of its first line, and "" for a key not written |
| UiPipe.CommandPipe.UiPrint | updater/install.cpp:82-98 | the pipe gains one `ui_print <line>` command per non-empty line of the text, in order |
| UiPipe.CommandPipe.UIPrintFn | updater/install.cpp:141-150 | a non-string argument aborts, with nothing sent; otherwise the arguments are concatenated, printed, and returned |
| UiPipe.UiPrintShown | updater/install.cpp:82-98 | for a NUL-free text, what the recovery shows from the pipe is exactly the text's non-empty lines, in order |
| UiPipe.CommandsJoin | updater/install.cpp:87-92 | the commands for NUL-free lines are the prefixed non-empty lines, each ended by a newline |
| UiPipe.OneLine | updater/install.cpp:82-98 | a non-empty one-line message becomes the single command `ui_print <message>` |
| UiPipe.NonEmpty | updater/install.cpp:85-91 | the lines kept are non-empty lines of the input |
| BootControl.Stored | updater/install.cpp:1333 | the stored stage is a prefix of the token's C string, shorter than 32; it is the whole C string when that fits, and exactly 31 characters when it does not |
| BootControl.StageRoundTrip | updater/install.cpp:1333-1362 | reading the stage back after `set_stage` gives the stored token, whatever the record held before |
| BootControl.WithStageFrame | updater/install.cpp:1333 | setting the stage changes no byte outside the stage field |
| BootControl.WithoutCommandKeepsStage | updater/install.cpp:1284 | clearing the command zeroes its 32 bytes and keeps every other field, including the stage |
| BootControl.RebootCommand | updater/install.cpp:1290-1293 | the reboot property is "reboot," then the target, plus ",quiescent" when the device booted quiescent |
| BootControl.Device.SetStageFn | updater/install.cpp:1310-1340 | bad arguments abort with nothing changed; a failed read or write returns "" with nothing changed; otherwise only the stage field of that partition's message is rewritten, and the partition name is returned |
| BootControl.Device.GetStageFn | updater/install.cpp:1344-1362 | bad arguments abort; a failed read returns ""; otherwise the stage is the C string at the stage field |
| BootControl.Device.RebootNowFn | updater/install.cpp:1264-1297 | bad arguments abort with nothing changed; a failed read or write returns "" with nothing changed; otherwise the command field is zeroed, the reboot property is set, and the call ends in a reboot-failure abort |
| BootControl.Device.ReadMessage | updater/install.cpp:1280 | the read succeeds iff the partition exists, is long enough and does not fail, and yields its first 2048 bytes |
| BootControl.Device.WriteMessage | updater/install.cpp:1285 | the write replaces the first 2048 bytes of the partition, or fails and changes nothing |
| BootControl.SetRebootGetStage | updater/install.cpp:1264-1362 | a stage set and then read back is the stored token, also after a `reboot_now` in between |
| BootControl.SetStageFrame | updater/install.cpp:1310-1340 | a successful `set_stage` leaves every other partition, the rest of the partition and every byte outside the stage field unchanged |
| Format.TruncDiv | updater/install.cpp:560 | C++ division rounds toward zero: for a non-negative dividend the quotient is the floor, for a negative one the ceiling |
| Format.Mke2fs | updater/install.cpp:555-562 | the fixed mke2fs arguments with the location's C string; the block count is appended iff the size is non-zero, and it reads back as the size divided by 4096 rounded toward zero |
| Format.MkfsF2fs | updater/install.cpp:583-596 | the fixed mkfs.f2fs arguments end with the location's C string; the sector count is appended iff the size is at least 512, and it reads back as the whole number of 512-byte sectors |
| Format.E2fsdroid | updater/install.cpp:570-571 | the e2fsdroid command line: `-e -a`, then the mount point's C string, then the location's |
| Format.SloadF2fs | updater/install.cpp:602-603 | the sload.f2fs command line: `-t`, then the mount point's C string, then the location's |
| Format.RunBoth | updater/install.cpp:564-575 | the second command runs only when the first succeeds, and the location is returned iff both succeed |
| Format.Format | updater/install.cpp:518-617 | the arguments are rejected iff they are not five strings, all names non-empty, with a 64-bit size; ext4 runs mke2fs first; f2fs refuses a negative size without running anything and otherwise runs mkfs.f2fs first; each runs exactly `RunBoth` of its two commands, the second being e2fsdroid or sload.f2fs over the mount point, and returns the location iff no command fails and "" otherwise; an unknown type returns null; every command names the location |
| Patch.Pairs | updater/install.cpp:281-296 | the pairs parse iff every (sha1, patch) pair is a string and a blob, and the hashes and blobs come back in order |
| Patch.PatchRequestOf | updater/install.cpp:254-296 | a request is formed iff there are at least six arguments and an even count, the first four are strings, the size parses, and every pair is a string and a blob; its fields are the C strings, the size, and the pairs in order |
| Patch.ApplyPatch | updater/install.cpp:252-302 | bad arguments abort; otherwise the result is "t" when patching succeeds and "" when it fails |
| Patch.BlobAsHashRefused | updater/install.cpp:282-284 | a blob in a hash position makes `apply_patch` abort, whatever else follows |
| Patch.ApplyPatchCheck | updater/install.cpp:310-330 | the call aborts iff there is no argument or some argument is not a string; otherwise it returns "t" iff the file matches one of the hashes |
| Patch.Sha1Check | updater/install.cpp:340-375 | no argument aborts; invalid data gives ""; a single argument returns the printed digest; otherwise the result is the first argument that parses to the data's digest, and "" when none does |
| Patch.Sha1CheckFn | updater/install.cpp:340-375 | the matching loop returns `Sha1Check` |
| Patch.Sha1CheckOwnDigest | updater/install.cpp:356-371 | checking data against its own printed digest returns that digest, when the parser reads back what the printer writes |
| Patch.ApplyPatchSpace | updater/install.cpp:1132-1155 | the call aborts iff there is not exactly one string holding a byte count; otherwise it returns "t" iff the update is a retry or the cache has room, and "" otherwise |
| Patch.RetrySkipsSpaceCheck | updater/install.cpp:1150-1152 | on a retry every well-formed request succeeds, whatever the cache holds (a corollary of `Patch.ApplyPatchSpace`) |

## Left out

- Mounting, unmounting and `is_mounted`, `package_extract_file`/`package_extract_dir`, the progress functions, `getprop`, `wipe_cache`, `run_program`, `read_file`, `write_value`, `wipe_block_device`, `enable_reboot` and `tune2fs` are not modelled. These handlers only pass their arguments through to the system.
- The edify evaluator, `Evaluate`, `ReadArgs` and `ReadValueArgs` (edify/expr.cpp) are not part of this model. Arguments arrive already evaluated.
  - `ReadArgs` succeeds iff every argument in the range is a string.
  - `ReadValueArgs` never fails.
  - A failed evaluation shows up as a null result; any abort message it records is not modelled.
- FileOps.SymlinkFn: the sources are read as the arguments from index 1 to the end. The source asks `ReadArgs` for `argv.size()` arguments starting at index 1, one more than there are. Read as written, with the range check edify's `ReadArgs` usually has, `symlink` would always abort with an argument-parsing failure. `ReadArgs` is defined in edify/expr.cpp, which is not part of this model, so the model follows the evident intent.
- Running programs (`exec_cmd`) is an oracle. `format` is modelled by the argv it builds and by which commands fail.
- Patch application (`applypatch`), `applypatch_check` and `CacheSizeCheck` are oracles: a set of failing requests, of matching (file, hashes) pairs, and of byte counts that fit. Patch.ApplyPatch therefore states no property of the patched file.
- The SHA-1 function, `ParseSha1` and `print_sha1` are parameters. Patch.Sha1Check relies on no property of them beyond what its lemma assumes.
- Logging, `LOG`, `PLOG`, `printf` and the copy of `uiPrint`'s text sent to the log are not modelled. The `set_metadata` parser's messages are a returned log.
- The text of the warnings `ApplyParsedPerms` prints is not modelled; only the count of failures is.
- The 5-second sleep in `reboot_now` and the reboot itself are not modelled. The model carries on past the wait and returns the reboot-failure abort, as the source does when the device does not reboot.
- Filesystem paths are compared as whole strings: no normalisation, and symbolic links are not followed.
  - A path containing NUL is not cut at the NUL the way the system calls receive it.
  - `delete`, `rename`, `symlink` and `set_metadata` use paths as given.
- `nftw`'s traversal order, its depth-first and physical-walk flags and `FTW_CHDIR` are not modelled. The walk is given as the list of (path, type) entries it visits, plus whether the walk itself fails.
- Perms.ParseValue: the `sscanf` conversions are undefined in C on overflow; the model reduces the value modulo the width of the destination instead.
- Perms.ApplyParsedPerms: the file type comes from the `lstat` the caller did. A file that changes type between the `lstat` and the changes is not modelled.
- FileOps.DeleteCount: stated for `delete` only. For `delete_recursive` the count and the new filesystem are stated through `DeleteAll` and `RemoveOutcome`, with the frame lemma `DeleteRecursiveFrame` but no separate counting lemma.
- FileSys.FileSystem.RemoveTree: which entries a failing `dirUnlinkHierarchy` got to remove is an oracle (`partial`). It may be any set of paths under the given one. The model does not require that a directory goes only after everything in it, as a depth-first removal would.
- FileSys.FileSystem.Rename: the failure cases are those of rename(2) that the path map can express, plus the oracle. Crossing filesystems (EXDEV), permissions and busy directories are left to the oracle.
- Concurrency and the process-wide `recursive_state`/`recursive_parsed_args` globals are not modelled. The walk receives the parsed record directly.
- `file_getprop` takes the file's contents as a parameter, with `stat`, open and read failures as flags. The case where the file holds fewer bytes than `stat` reported is folded into the read failure.
- BootControl: the misc partition is a character sequence, and only the command and stage fields of the bootloader message are interpreted.
