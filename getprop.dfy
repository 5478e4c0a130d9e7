/** `file_getprop(file, key)` (updater/install.cpp:1065-1129): read a small
    property file and return the value of the first `key=value` line for
    `key`, white space around the key and the value ignored, blank lines
    and `#` comments skipped. */
module GetProp {
  import opened Values
  import opened Text

  /** `MAX_FILE_GETPROP_SIZE`: larger files are refused. */
  const MAX_FILE_GETPROP_SIZE: nat := 65536

  /** The key and the value a line declares, if it declares one: the
      trimmed line must be non-empty, not a comment, and hold a '='; the
      key is the trimmed text before the first '=', the value the trimmed
      text after it. */
  function Entry(line: string): (r: Option<(string, string)>)
    ensures r.Some? ==> Trimmed(r.value.0) && Trimmed(r.value.1) && '=' !in r.value.0
  {
    var t := Trim(line);
    if t == [] || t[0] == '#' then None
    else
      match FindFrom(t, '=', 0)
      case None => None
      case Some(e) =>
        var k := Trim(t[..e]);
        assert '=' !in k by {
          if '=' in k {
            TrimWithin(t[..e], '=');
          }
        }
        Some((k, Trim(t[e + 1..])))
  }

  predicate Matches(line: string, key: string)
  {
    Entry(line).Some? && Entry(line).value.0 == key
  }

  /** The value of the first line that declares `key`, or "" when none
      does. */
  function Lookup(lines: seq<string>, key: string): string
  {
    if lines == [] then ""
    else if Matches(lines[0], key) then Entry(lines[0]).value.1
    else Lookup(lines[1..], key)
  }

  /** The lookup returns the value of the first line that declares the key,
      and "" when no line does. */
  lemma {:induction false} LookupFirst(lines: seq<string>, key: string)
    ensures Lookup(lines, key) == match FirstIndex(lines, l => Matches(l, key))
                                  case Some(i) => Entry(lines[i]).value.1
                                  case None => ""
    decreases |lines|
  {
    if lines != [] && !Matches(lines[0], key) {
      LookupFirst(lines[1..], key);
      assert forall i | 0 <= i < |lines| - 1 :: lines[1..][i] == lines[i + 1];
    }
  }

  lemma LookupStep(lines: seq<string>, i: nat, key: string)
    requires i < |lines|
    ensures Lookup(lines[i..], key) ==
      if Matches(lines[i], key) then Entry(lines[i]).value.1 else Lookup(lines[i + 1..], key)
  {
    assert lines[i..][0] == lines[i];
    assert lines[i..][1..] == lines[i + 1..];
  }

  /** The loop over the file's lines. */
  method LookupProp(buffer: string, key: string) returns (value: string)
    ensures value == Lookup(Split(buffer, '\n'), key)
  {
    var lines := Split(buffer, '\n');
    var i := 0;
    while i < |lines|
      invariant 0 <= i <= |lines|
      invariant Lookup(lines[i..], key) == Lookup(lines, key)
      decreases |lines| - i
    {
      LookupStep(lines, i, key);
      var line := Trim(lines[i]);
      // comment or blank line: skip to next line
      if line == [] || line[0] == '#' {
        i := i + 1;
        continue;
      }
      var equalPos := FindFrom(line, '=', 0);
      if equalPos.None? {
        i := i + 1;
        continue;
      }
      var str := Trim(line[..equalPos.value]);
      if key != str {
        i := i + 1;
        continue;
      }
      return Trim(line[equalPos.value + 1..]);
    }
    assert lines[i..] == [];
    return "";
  }

  /** `FileGetPropFn`.  `file` is the file's contents, or None when `stat`
      fails; `openFails` and `readFails` say whether opening or reading it
      fails. */
  method FileGetPropFn(argv: seq<Value>, file: Option<string>, openFails: bool, readFails: bool)
    returns (r: Ret)
    ensures |argv| != 2 || !AllStrings(argv) ==> r == Abort(ArgsParsingFailure)
    ensures |argv| == 2 && AllStrings(argv) ==>
      r == if file.None? then Abort(FileGetPropFailure)
           else if |file.value| > MAX_FILE_GETPROP_SIZE then Abort(FileGetPropFailure)
           else if openFails then Abort(FileOpenFailure)
           else if readFails then Abort(FreadFailure)
           else StrRet(Lookup(Split(file.value, '\n'), argv[1].data))
  {
    if |argv| != 2 {
      return Abort(ArgsParsingFailure);
    }
    var read := ReadArgs(argv);
    if read.None? {
      return Abort(ArgsParsingFailure);
    }
    var filename, key := read.value[0], read.value[1];
    if file.None? {
      return Abort(FileGetPropFailure);
    }
    if |file.value| > MAX_FILE_GETPROP_SIZE {
      return Abort(FileGetPropFailure);
    }
    if openFails {
      return Abort(FileOpenFailure);
    }
    if readFails {
      return Abort(FreadFailure);
    }
    var value := LookupProp(file.value, key);
    return StrRet(value);
  }

  // ---------------------------------------------------------------------
  // Writing a property file and reading it back

  /** A key and value that survive being written as `key=value`. */
  predicate Writable(k: string, v: string)
  {
    k != [] && Trimmed(k) && Trimmed(v) && k[0] != '#' && '=' !in k && '\n' !in k && '\n' !in v
  }

  function RenderLines(props: seq<(string, string)>): (lines: seq<string>)
    ensures |lines| == |props|
  {
    if props == [] then [] else [props[0].0 + "=" + props[0].1] + RenderLines(props[1..])
  }

  /** The value the first pair for `key` holds, or "". */
  function FirstValue(props: seq<(string, string)>, key: string): string
  {
    if props == [] then ""
    else if props[0].0 == key then props[0].1
    else FirstValue(props[1..], key)
  }

  /** A written line declares exactly its own key and value. */
  lemma EntryOfLine(k: string, v: string)
    requires Writable(k, v)
    ensures Entry(k + "=" + v) == Some((k, v))
  {
    var line := k + "=" + v;
    LineTrimmed(k, v);
    LineSplitsAtEquals(k, v);
    TrimTrimmed(k);
    TrimTrimmed(v);
  }

  lemma LineTrimmed(k: string, v: string)
    requires Writable(k, v)
    ensures Trim(k + "=" + v) == k + "=" + v && (k + "=" + v)[0] != '#'
  {
    var line := k + "=" + v;
    assert line[0] == k[0];
    assert line[|line| - 1] == if v == [] then '=' else v[|v| - 1];
    TrimTrimmed(line);
  }

  lemma LineSplitsAtEquals(k: string, v: string)
    requires '=' !in k
    ensures var line := k + "=" + v;
      FindFrom(line, '=', 0) == Some(|k|) && line[..|k|] == k && line[|k| + 1..] == v
  {
    var line := k + "=" + v;
    assert forall i | 0 <= i < |k| :: line[i] == k[i];
    assert line[|k|] == '=';
    assert line[..|k|] == k;
    assert line[|k| + 1..] == v;
  }

  lemma {:induction false} LookupRendered(props: seq<(string, string)>, key: string)
    requires forall i | 0 <= i < |props| :: Writable(props[i].0, props[i].1)
    ensures Lookup(RenderLines(props), key) == FirstValue(props, key)
    decreases |props|
  {
    if props != [] {
      EntryOfLine(props[0].0, props[0].1);
      var lines := RenderLines(props);
      assert lines[0] == props[0].0 + "=" + props[0].1;
      assert lines[1..] == RenderLines(props[1..]);
      LookupRendered(props[1..], key);
    }
  }

  /** Reading back a property file written one `key=value` per line gives,
      for every key, the value of its first line, and "" for a key that
      was not written. */
  lemma GetPropRoundTrip(props: seq<(string, string)>, key: string)
    requires forall i | 0 <= i < |props| :: Writable(props[i].0, props[i].1)
    ensures Lookup(Split(Join(RenderLines(props), '\n'), '\n'), key) == FirstValue(props, key)
  {
    if props == [] {
      // an empty file reads as one empty line, which declares nothing
      assert Split("", '\n') == [""];
      return;
    }
    var lines := RenderLines(props);
    forall i | 0 <= i < |lines| ensures '\n' !in lines[i] {
      RenderedLine(props, i);
    }
    SplitJoin(lines, '\n');
    LookupRendered(props, key);
  }

  lemma {:induction false} RenderedLine(props: seq<(string, string)>, i: nat)
    requires i < |props|
    ensures RenderLines(props)[i] == props[i].0 + "=" + props[i].1
    decreases i
  {
    if i > 0 {
      RenderedLine(props[1..], i - 1);
    }
  }
}
