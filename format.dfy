/** `format(fs_type, partition_type, location, fs_size, mount_point)`
    (updater/install.cpp:518-617): the argument checks and the command
    lines it runs to make an ext4 or f2fs file system.  Running a command
    is left to an oracle: the commands in `fails` exit with a non-zero
    status. */
module Format {
  import opened Values
  import opened Text

  /** A program run with `exec_cmd`: the path executed and its argv. */
  datatype Exec = Exec(program: string, argv: seq<string>)

  const EXT4_BLOCK_SIZE: int := 4096
  const F2FS_SECTOR_SIZE: int := 512

  /** C++ integer division, which truncates toward zero. */
  function TruncDiv(a: int, b: int): (q: int)
    requires b > 0
    ensures a >= 0 ==> 0 <= q <= a && q * b <= a < q * b + b
    ensures a < 0 ==> a <= q <= 0 && q * b - b < a <= q * b
  {
    if a >= 0 then FloorDivBounds(a, b); a / b
    else FloorDivBounds(-a, b); -((-a) / b)
  }

  lemma FloorDivBounds(a: nat, b: int)
    requires b > 0
    ensures 0 <= a / b <= a && (a / b) * b <= a < (a / b) * b + b
  {
    var q, m := a / b, a % b;
    assert a == q * b + m && 0 <= m < b;
    assert 0 <= q;
    NonNegProduct(q, b - 1);
    assert q * b == q * (b - 1) + q;
  }

  lemma NonNegProduct(x: nat, y: nat)
    ensures x * y >= 0
  {
  }

  /** The mke2fs command line; the block count is passed only for a
      non-zero size, and reads back as the size divided by 4096 rounded
      toward zero. */
  function Mke2fs(location: string, size: int): (e: Exec)
    requires INT64_MIN <= size <= INT64_MAX
    ensures |e.argv| == if size != 0 then 7 else 6
    ensures e.program == e.argv[0] == "/sbin/mke2fs_static"
    ensures e.argv[..6] == ["/sbin/mke2fs_static", "-t", "ext4", "-b", "4096", CPrefix(location)]
    ensures size != 0 ==> ParseInt(e.argv[6]) == Some(TruncDiv(size, EXT4_BLOCK_SIZE))
  {
    var fixed := ["/sbin/mke2fs_static", "-t", "ext4", "-b", "4096", CPrefix(location)];
    if size != 0 then
      var blocks := TruncDiv(size, EXT4_BLOCK_SIZE);
      ParseIntToString(blocks);
      Exec(fixed[0], fixed + [IntToString(blocks)])
    else
      Exec(fixed[0], fixed)
  }

  /** The e2fsdroid command line: the mount point's C string, then the
      location's. */
  function E2fsdroid(location: string, mountPoint: string): (e: Exec)
    ensures |e.argv| == 5 && e.program == e.argv[0] == "/sbin/e2fsdroid_static"
    ensures e.argv[1..3] == ["-e", "-a"]
    ensures e.argv[3] == CPrefix(mountPoint) && e.argv[4] == CPrefix(location)
  {
    Exec("/sbin/e2fsdroid_static", ["/sbin/e2fsdroid_static", "-e", "-a", CPrefix(mountPoint), CPrefix(location)])
  }

  /** The mkfs.f2fs command line for a non-negative size; the sector count
      is passed only when there is at least one whole sector. */
  function MkfsF2fs(location: string, size: int): (e: Exec)
    requires 0 <= size <= INT64_MAX
    ensures |e.argv| == if size >= F2FS_SECTOR_SIZE then 13 else 12
    ensures e.program == "/sbin/mkfs.f2fs" && e.argv[0] == "mkfs.f2fs"
    ensures e.argv[11] == CPrefix(location)
    ensures size >= F2FS_SECTOR_SIZE ==>
      exists n :: ParseInt(e.argv[12]) == Some(n) && 1 <= n && n * F2FS_SECTOR_SIZE <= size < n * F2FS_SECTOR_SIZE + F2FS_SECTOR_SIZE
  {
    var fixed := ["mkfs.f2fs", "-d1", "-f", "-O", "encrypt", "-O", "quota", "-O", "verity",
                  "-w", "512", CPrefix(location)];
    if size >= F2FS_SECTOR_SIZE then
      var sectors := size / F2FS_SECTOR_SIZE;
      ParseIntToString(sectors);
      Exec("/sbin/mkfs.f2fs", fixed + [IntToString(sectors)])
    else
      Exec("/sbin/mkfs.f2fs", fixed)
  }

  /** The sload.f2fs command line: the mount point's C string, then the
      location's. */
  function SloadF2fs(location: string, mountPoint: string): (e: Exec)
    ensures |e.argv| == 4 && e.program == e.argv[0] == "/sbin/sload.f2fs"
    ensures e.argv[1] == "-t"
    ensures e.argv[2] == CPrefix(mountPoint) && e.argv[3] == CPrefix(location)
  {
    Exec("/sbin/sload.f2fs", ["/sbin/sload.f2fs", "-t", CPrefix(mountPoint), CPrefix(location)])
  }

  /** The arguments `format` accepts: five strings, none of the four names
      empty, and a size whose C string `ParseInt` reads as a 64-bit
      integer. */
  predicate WellFormed(argv: seq<Value>)
  {
    |argv| == 5 && AllStrings(argv) &&
    argv[0].data != "" && argv[1].data != "" && argv[2].data != "" && argv[4].data != "" &&
    ParseInt(CPrefix(argv[3].data)).Some?
  }

  /** Running `first` and, when it succeeds, `second`: the location when
      both succeed, "" at the first failure. */
  function RunBoth(first: Exec, second: Exec, location: string, fails: set<Exec>): (r: (Ret, seq<Exec>))
    ensures r.1 == if first in fails then [first] else [first, second]
    ensures r.0 == if first !in fails && second !in fails then StrRet(location) else StrRet("")
  {
    if first in fails then (StrRet(""), [first])
    else if second in fails then (StrRet(""), [first, second])
    else (StrRet(location), [first, second])
  }

  /** `FormatFn`: the result and the commands run, in order. */
  function Format(argv: seq<Value>, fails: set<Exec>): (r: (Ret, seq<Exec>))
    ensures !WellFormed(argv) <==> r.0 == Abort(ArgsParsingFailure)
    ensures !WellFormed(argv) ==> r.1 == []
    ensures WellFormed(argv) && argv[0].data == "ext4" ==>
      var size := ParseInt(CPrefix(argv[3].data)).value;
      r.1 != [] && r.1[0] == Mke2fs(argv[2].data, size) &&
      (r.0 == StrRet(argv[2].data) <==> forall e | e in r.1 :: e !in fails) &&
      (r.0 == StrRet(argv[2].data) || r.0 == StrRet("")) &&
      r == RunBoth(Mke2fs(argv[2].data, size), E2fsdroid(argv[2].data, argv[4].data), argv[2].data, fails)
    ensures WellFormed(argv) && argv[0].data == "f2fs" ==>
      var size := ParseInt(CPrefix(argv[3].data)).value;
      if size < 0 then r == (StrRet(""), [])
      else
        r.1 != [] && r.1[0] == MkfsF2fs(argv[2].data, size) &&
        (r.0 == StrRet(argv[2].data) <==> forall e | e in r.1 :: e !in fails) &&
        (r.0 == StrRet(argv[2].data) || r.0 == StrRet("")) &&
        r == RunBoth(MkfsF2fs(argv[2].data, size), SloadF2fs(argv[2].data, argv[4].data), argv[2].data, fails)
    ensures WellFormed(argv) && argv[0].data != "ext4" && argv[0].data != "f2fs" ==> r == (Null, [])
    ensures forall e | e in r.1 :: e.argv != [] && CPrefix(argv[2].data) in e.argv
  {
    if !WellFormed(argv) then (Abort(ArgsParsingFailure), [])
    else
      var fsType, location, mountPoint := argv[0].data, argv[2].data, argv[4].data;
      var size := ParseInt(CPrefix(argv[3].data)).value;
      if fsType == "ext4" then
        var m := Mke2fs(location, size);
        assert m.argv[5] == CPrefix(location);
        RunBoth(m, E2fsdroid(location, mountPoint), location, fails)
      else if fsType == "f2fs" then
        if size < 0 then (StrRet(""), [])
        else
          var m := MkfsF2fs(location, size);
          RunBoth(m, SloadF2fs(location, mountPoint), location, fails)
      else (Null, [])
  }
}
