/** The staged-reboot operations `reboot_now`, `set_stage` and `get_stage`
    (updater/install.cpp:1264-1362).  They read the bootloader message at
    the start of the misc partition, change one field in memory and write
    the whole message back. */
module BootControl {
  import opened Values
  import opened Text

  /** `struct bootloader_message`: command[32], status[32], recovery[768],
      stage[32], reserved[1184], stored at offset 0 of the misc
      partition. */
  const RECORD_SIZE: nat := 2048
  const COMMAND_SIZE: nat := 32
  const STAGE_OFFSET: nat := 832
  const STAGE_SIZE: nat := 32

  predicate IsRecord(rec: seq<char>) { |rec| == RECORD_SIZE }

  /** `strlcpy(field, src, |field|)`: copies as much of `src`'s C string as
      fits in front of a terminating NUL (here 31 characters) and writes
      that NUL; the bytes after it are left as they were. */
  function Strlcpy(field: seq<char>, src: string): (r: seq<char>)
    requires |field| > 0
    ensures |r| == |field|
  {
    var text := CPrefix(src);
    var n := if |text| < |field| then |text| else |field| - 1;
    text[..n] + ['\0'] + field[n + 1..]
  }

  /** The C string starting at `i`: up to the first NUL, or the end of the
      record. */
  function CStringAt(rec: seq<char>, i: nat): string
    requires i <= |rec|
  {
    CPrefix(rec[i..])
  }

  /** The record with its stage field set to `stage`. */
  function WithStage(rec: seq<char>, stage: string): (r: seq<char>)
    requires IsRecord(rec)
    ensures IsRecord(r)
  {
    rec[..STAGE_OFFSET] + Strlcpy(rec[STAGE_OFFSET..STAGE_OFFSET + STAGE_SIZE], stage)
      + rec[STAGE_OFFSET + STAGE_SIZE..]
  }

  /** The record with its command field zeroed. */
  function WithoutCommand(rec: seq<char>): (r: seq<char>)
    requires IsRecord(rec)
    ensures IsRecord(r)
  {
    seq(COMMAND_SIZE, _ => '\0') + rec[COMMAND_SIZE..]
  }

  /** The stage an update script reads back: `StringValue(boot.stage)`
      takes the C string at the stage field. */
  function StageOf(rec: seq<char>): string
    requires IsRecord(rec)
  {
    CStringAt(rec, STAGE_OFFSET)
  }

  /** A stage token as stored: its C string cut to 31 characters. */
  function Stored(stage: string): (s: string)
    ensures |s| < STAGE_SIZE && s <= CPrefix(stage)
    ensures |CPrefix(stage)| < STAGE_SIZE ==> s == CPrefix(stage)
    ensures |CPrefix(stage)| >= STAGE_SIZE ==> |s| == STAGE_SIZE - 1
  {
    var text := CPrefix(stage);
    if |text| < STAGE_SIZE then text else text[..STAGE_SIZE - 1]
  }

  /** Reading back a stage gives the token as stored, whatever the record
      held before: a token of at most 31 characters without NUL comes back
      exactly, a longer one cut to 31 characters. */
  lemma StageRoundTrip(rec: seq<char>, stage: string)
    requires IsRecord(rec)
    ensures StageOf(WithStage(rec, stage)) == Stored(stage)
  {
    var r := WithStage(rec, stage);
    var s := Stored(stage);
    var field := rec[STAGE_OFFSET..STAGE_OFFSET + STAGE_SIZE];
    assert Strlcpy(field, stage)[..|s|] == s;
    assert r[STAGE_OFFSET..] == s + ['\0'] + field[|s| + 1..] + rec[STAGE_OFFSET + STAGE_SIZE..];
    CPrefixAtNul(s, r[STAGE_OFFSET..]);
  }

  /** The C string of a text that begins with a NUL-free `s` and a NUL. */
  lemma CPrefixAtNul(s: string, t: string)
    requires '\0' !in s && |s| < |t| && t[..|s|] == s && t[|s|] == '\0'
    ensures CPrefix(t) == s
  {
    assert forall k | 0 <= k < |s| :: s[k] in s;
  }

  /** Setting the stage changes nothing outside the stage field. */
  lemma WithStageFrame(rec: seq<char>, stage: string)
    requires IsRecord(rec)
    ensures WithStage(rec, stage)[..STAGE_OFFSET] == rec[..STAGE_OFFSET]
    ensures WithStage(rec, stage)[STAGE_OFFSET + STAGE_SIZE..] == rec[STAGE_OFFSET + STAGE_SIZE..]
  {
  }

  /** Clearing the command keeps every other field, so the stage survives
      a `reboot_now`. */
  lemma WithoutCommandKeepsStage(rec: seq<char>)
    requires IsRecord(rec)
    ensures WithoutCommand(rec)[COMMAND_SIZE..] == rec[COMMAND_SIZE..]
    ensures StageOf(WithoutCommand(rec)) == StageOf(rec)
    ensures forall i | 0 <= i < COMMAND_SIZE :: WithoutCommand(rec)[i] == '\0'
  {
    assert WithoutCommand(rec)[STAGE_OFFSET..] == rec[STAGE_OFFSET..];
  }

  /** The reboot request: "reboot," and the target, with ",quiescent"
      when the device booted quiescent. */
  function RebootCommand(target: string, quiescent: bool): (c: string)
    ensures "reboot," <= c
    ensures c[|"reboot,"|..] == target + (if quiescent then ",quiescent" else "")
  {
    "reboot," + target + (if quiescent then ",quiescent" else "")
  }

  /** Reading the message from a misc partition fails when it is missing,
      too short, or by the oracle. */
  predicate Readable(misc: map<string, seq<char>>, readFails: set<string>, path: string)
  {
    path in misc && |misc[path]| >= RECORD_SIZE && path !in readFails
  }

  /** Writing a message over the start of a partition. */
  function Overwrite(part: seq<char>, rec: seq<char>): seq<char>
    requires IsRecord(rec) && |part| >= RECORD_SIZE
  {
    rec + part[RECORD_SIZE..]
  }

  /** The device's misc partitions, the reboot property, and the boot
      property `ro.boot.quiescent`. */
  class Device {
    var misc: map<string, seq<char>>
    var rebootProperty: Option<string>
    const quiescent: bool
    const readFails: set<string>
    const writeFails: set<string>

    constructor (misc0: map<string, seq<char>>, quiescent0: bool, readFails0: set<string>, writeFails0: set<string>)
      ensures misc == misc0 && rebootProperty == None && quiescent == quiescent0
      ensures readFails == readFails0 && writeFails == writeFails0
    {
      misc := misc0;
      rebootProperty := None;
      quiescent := quiescent0;
      readFails := readFails0;
      writeFails := writeFails0;
    }

    /** `read_bootloader_message_from`. */
    method ReadMessage(path: string) returns (ok: bool, rec: seq<char>)
      ensures ok == Readable(misc, readFails, path)
      ensures ok ==> rec == misc[path][..RECORD_SIZE]
    {
      if !Readable(misc, readFails, path) {
        return false, [];
      }
      return true, misc[path][..RECORD_SIZE];
    }

    /** `write_bootloader_message_to`. */
    method WriteMessage(path: string, rec: seq<char>) returns (ok: bool)
      requires IsRecord(rec)
      modifies this
      ensures ok == (path in old(misc) && |old(misc)[path]| >= RECORD_SIZE && path !in writeFails)
      ensures misc == if ok then old(misc)[path := Overwrite(old(misc)[path], rec)] else old(misc)
      ensures rebootProperty == old(rebootProperty)
    {
      ok := path in misc && |misc[path]| >= RECORD_SIZE && path !in writeFails;
      if ok {
        misc := misc[path := Overwrite(misc[path], rec)];
      }
    }

    /** `SetStageFn` (updater/install.cpp:1310-1340). */
    method SetStageFn(argv: seq<Value>) returns (r: Ret)
      modifies this
      ensures rebootProperty == old(rebootProperty)
      ensures |argv| != 2 || !AllStrings(argv) ==> r == Abort(ArgsParsingFailure) && misc == old(misc)
      ensures |argv| == 2 && AllStrings(argv) ==>
        var path, stage := argv[0].data, argv[1].data;
        if !Readable(old(misc), readFails, path) || path in writeFails then
          r == StrRet("") && misc == old(misc)
        else
          r == StrRet(path) &&
          misc == old(misc)[path := Overwrite(old(misc)[path], WithStage(old(misc)[path][..RECORD_SIZE], stage))]
    {
      if |argv| != 2 {
        return Abort(ArgsParsingFailure);
      }
      var read := ReadArgs(argv);
      if read.None? {
        return Abort(ArgsParsingFailure);
      }
      var filename, stagestr := read.value[0], read.value[1];
      var ok, boot := ReadMessage(filename);
      if !ok {
        return StrRet("");
      }
      boot := WithStage(boot, stagestr);
      ok := WriteMessage(filename, boot);
      if !ok {
        return StrRet("");
      }
      return StrRet(filename);
    }

    /** `GetStageFn` (updater/install.cpp:1344-1362). */
    method GetStageFn(argv: seq<Value>) returns (r: Ret)
      ensures |argv| != 1 || !AllStrings(argv) ==> r == Abort(ArgsParsingFailure)
      ensures |argv| == 1 && AllStrings(argv) ==>
        r == if Readable(misc, readFails, argv[0].data)
             then StrRet(StageOf(misc[argv[0].data][..RECORD_SIZE]))
             else StrRet("")
    {
      if |argv| != 1 {
        return Abort(ArgsParsingFailure);
      }
      var read := ReadArgs(argv);
      if read.None? {
        return Abort(ArgsParsingFailure);
      }
      var filename := read.value[0];
      var ok, boot := ReadMessage(filename);
      if !ok {
        return StrRet("");
      }
      return StrRet(StageOf(boot));
    }

    /** `RebootNowFn` (updater/install.cpp:1264-1297).  The device reboots
        once the property is set; the model continues past the wait, where
        the source reports that the reboot failed. */
    method RebootNowFn(argv: seq<Value>) returns (r: Ret)
      modifies this
      ensures |argv| != 2 || !AllStrings(argv) ==>
        r == Abort(ArgsParsingFailure) && misc == old(misc) && rebootProperty == old(rebootProperty)
      ensures |argv| == 2 && AllStrings(argv) ==>
        var path, target := argv[0].data, argv[1].data;
        if !Readable(old(misc), readFails, path) || path in writeFails then
          r == StrRet("") && misc == old(misc) && rebootProperty == old(rebootProperty)
        else
          r == Abort(RebootFailure) &&
          misc == old(misc)[path := Overwrite(old(misc)[path], WithoutCommand(old(misc)[path][..RECORD_SIZE]))] &&
          rebootProperty == Some(RebootCommand(target, quiescent))
    {
      if |argv| != 2 {
        return Abort(ArgsParsingFailure);
      }
      var read := ReadArgs(argv);
      if read.None? {
        return Abort(ArgsParsingFailure);
      }
      var filename, property := read.value[0], read.value[1];
      var ok, boot := ReadMessage(filename);
      if !ok {
        return StrRet("");
      }
      boot := WithoutCommand(boot);
      ok := WriteMessage(filename, boot);
      if !ok {
        return StrRet("");
      }
      rebootProperty := Some(RebootCommand(property, quiescent));
      return Abort(RebootFailure);
    }
  }

  // ---------------------------------------------------------------------
  // The protocol across calls

  /** The misc partitions after a successful `set_stage(path, stage)`. */
  function AfterSetStage(misc: map<string, seq<char>>, path: string, stage: string): map<string, seq<char>>
    requires path in misc && |misc[path]| >= RECORD_SIZE
  {
    misc[path := Overwrite(misc[path], WithStage(misc[path][..RECORD_SIZE], stage))]
  }

  /** The misc partitions after `reboot_now(path, ...)` wrote its message. */
  function AfterReboot(misc: map<string, seq<char>>, path: string): map<string, seq<char>>
    requires path in misc && |misc[path]| >= RECORD_SIZE
  {
    misc[path := Overwrite(misc[path], WithoutCommand(misc[path][..RECORD_SIZE]))]
  }

  /** A stage set and then read back from the same partition is the token
      as stored, and rebooting in between does not lose it. */
  lemma SetRebootGetStage(misc: map<string, seq<char>>, path: string, stage: string)
    requires path in misc && |misc[path]| >= RECORD_SIZE
    ensures var after := AfterSetStage(misc, path, stage);
      StageOf(after[path][..RECORD_SIZE]) == Stored(stage) &&
      StageOf(AfterReboot(after, path)[path][..RECORD_SIZE]) == Stored(stage)
  {
    var rec := WithStage(misc[path][..RECORD_SIZE], stage);
    var after := AfterSetStage(misc, path, stage);
    assert after[path][..RECORD_SIZE] == rec;
    StageRoundTrip(misc[path][..RECORD_SIZE], stage);
    var cleared := WithoutCommand(rec);
    assert AfterReboot(after, path)[path][..RECORD_SIZE] == cleared;
    WithoutCommandKeepsStage(rec);
  }

  /** Setting the stage of one partition leaves every byte of the message
      outside the stage field, the rest of that partition and every other
      partition as they were. */
  lemma SetStageFrame(misc: map<string, seq<char>>, path: string, stage: string)
    requires path in misc && |misc[path]| >= RECORD_SIZE
    ensures var after := AfterSetStage(misc, path, stage);
      after.Keys == misc.Keys &&
      (forall p | p in misc && p != path :: after[p] == misc[p]) &&
      |after[path]| == |misc[path]| &&
      (forall i | 0 <= i < |misc[path]| && !(STAGE_OFFSET <= i < STAGE_OFFSET + STAGE_SIZE) ::
         after[path][i] == misc[path][i])
  {
    var old_ := misc[path];
    var rec := WithStage(old_[..RECORD_SIZE], stage);
    WithStageFrame(old_[..RECORD_SIZE], stage);
    forall i | 0 <= i < |old_| && !(STAGE_OFFSET <= i < STAGE_OFFSET + STAGE_SIZE)
      ensures Overwrite(old_, rec)[i] == old_[i]
    {
      if i < STAGE_OFFSET {
        assert rec[..STAGE_OFFSET][i] == old_[..RECORD_SIZE][..STAGE_OFFSET][i];
      } else if i < RECORD_SIZE {
        assert rec[STAGE_OFFSET + STAGE_SIZE..][i - STAGE_OFFSET - STAGE_SIZE]
            == old_[..RECORD_SIZE][STAGE_OFFSET + STAGE_SIZE..][i - STAGE_OFFSET - STAGE_SIZE];
      }
    }
  }
}
