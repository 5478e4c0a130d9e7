/** Messages to the recovery UI (updater/install.cpp:81-98 and 141-150):
    the updater writes one `ui_print <line>` command per non-empty line of
    the text to the command pipe, and the recovery side shows each such
    command's text. */
module UiPipe {
  import opened Values
  import opened Text

  const UI_PRINT: string := "ui_print "

  /** The command for one line; `%s` prints the line's C string. */
  function Command(line: string): string
  {
    UI_PRINT + CPrefix(line) + "\n"
  }

  /** The commands for `lines`, empty lines skipped. */
  function Commands(lines: seq<string>): string
  {
    if lines == [] then ""
    else (if lines[0] != "" then Command(lines[0]) else "") + Commands(lines[1..])
  }

  /** Everything `uiPrint(buffer)` writes to the pipe. */
  function UiCommands(buffer: string): string
  {
    Commands(Split(buffer, '\n'))
  }

  /** `android::base::Join(args, "")`. */
  function Concat(parts: seq<string>): (s: string)
    ensures |parts| == 1 ==> s == parts[0]
  {
    if parts == [] then "" else parts[0] + Concat(parts[1..])
  }

  lemma Assoc(a: string, b: string, c: string)
    ensures (a + b) + c == a + (b + c)
  {
  }

  lemma CommandsStep(lines: seq<string>, i: nat)
    requires i < |lines|
    ensures Commands(lines[i..]) ==
      if lines[i] != "" then Command(lines[i]) + Commands(lines[i + 1..]) else Commands(lines[i + 1..])
  {
    assert lines[i..][1..] == lines[i + 1..];
  }

  /** The updater's end of the command pipe: everything written so far. */
  class CommandPipe {
    var sent: string

    constructor ()
      ensures sent == ""
    {
      sent := "";
    }

    /** `uiPrint(state, buffer)`.  Mirroring the text to the log is left
        out. */
    method UiPrint(buffer: string)
      modifies this
      ensures sent == old(sent) + UiCommands(buffer)
    {
      var lines := Split(buffer, '\n');
      var i := 0;
      while i < |lines|
        invariant 0 <= i <= |lines|
        invariant sent + Commands(lines[i..]) == old(sent) + Commands(lines)
        decreases |lines| - i
      {
        CommandsStep(lines, i);
        if lines[i] != "" {
          Assoc(sent, Command(lines[i]), Commands(lines[i + 1..]));
          sent := sent + Command(lines[i]);
        }
        i := i + 1;
      }
      assert lines[i..] == [];
    }

    /** `UIPrintFn` (updater/install.cpp:141-150): the arguments joined
        without a separator are printed and returned. */
    method UIPrintFn(argv: seq<Value>) returns (r: Ret)
      modifies this
      ensures !AllStrings(argv) ==> r == Abort(ArgsParsingFailure) && sent == old(sent)
      ensures AllStrings(argv) ==>
        var buffer := Concat(ReadArgs(argv).value);
        r == StrRet(buffer) && sent == old(sent) + UiCommands(buffer)
    {
      var read := ReadArgs(argv);
      if read.None? {
        return Abort(ArgsParsingFailure);
      }
      var buffer := Concat(read.value);
      UiPrint(buffer);
      return StrRet(buffer);
    }
  }

  // ---------------------------------------------------------------------
  // The recovery side

  /** What the recovery shows for the lines it reads from the pipe: the
      text of every `ui_print` command. */
  function Shown(lines: seq<string>): seq<string>
  {
    if lines == [] then []
    else (if UI_PRINT <= lines[0] then [lines[0][|UI_PRINT|..]] else []) + Shown(lines[1..])
  }

  /** The non-empty lines of a text. */
  function NonEmpty(lines: seq<string>): (r: seq<string>)
    ensures forall i | 0 <= i < |r| :: r[i] != "" && r[i] in lines
  {
    if lines == [] then []
    else (if lines[0] != "" then [lines[0]] else []) + NonEmpty(lines[1..])
  }

  function Prefixed(lines: seq<string>): (r: seq<string>)
    ensures |r| == |lines|
    ensures forall i | 0 <= i < |r| :: r[i] == UI_PRINT + lines[i]
  {
    if lines == [] then [] else [UI_PRINT + lines[0]] + Prefixed(lines[1..])
  }

  /** The commands for NUL-free lines are the prefixed non-empty lines,
      one per line of the pipe. */
  lemma {:induction false} CommandsJoin(lines: seq<string>)
    requires forall i | 0 <= i < |lines| :: '\0' !in lines[i]
    ensures Commands(lines) == Join(Prefixed(NonEmpty(lines)) + [""], '\n')
    decreases |lines|
  {
    if lines != [] {
      CommandsJoin(lines[1..]);
      var rest := Prefixed(NonEmpty(lines[1..])) + [""];
      if lines[0] != "" {
        var head := UI_PRINT + lines[0];
        CPrefixNoNul(lines[0]);
        assert Commands(lines) == Command(lines[0]) + Commands(lines[1..]);
        assert Command(lines[0]) == head + ['\n'];
        assert NonEmpty(lines) == [lines[0]] + NonEmpty(lines[1..]);
        assert Prefixed(NonEmpty(lines)) + [""] == [head] + rest;
        assert ([head] + rest)[1..] == rest;
        assert Join([head] + rest, '\n') == head + ['\n'] + Join(rest, '\n');
      } else {
        assert NonEmpty(lines) == NonEmpty(lines[1..]);
      }
    } else {
      assert Prefixed(NonEmpty(lines)) + [""] == [""];
    }
  }

  lemma {:induction false} ShownPrefixed(lines: seq<string>)
    ensures Shown(Prefixed(lines) + [""]) == lines
    decreases |lines|
  {
    if lines == [] {
      assert !(UI_PRINT <= "");
      assert ([] + [""])[1..] == [];
    } else {
      var p := Prefixed(lines) + [""];
      assert p[0] == UI_PRINT + lines[0];
      assert p[0][|UI_PRINT|..] == lines[0];
      assert p[1..] == Prefixed(lines[1..]) + [""];
      ShownPrefixed(lines[1..]);
    }
  }

  /** What the recovery shows for a NUL-free text is exactly its non-empty
      lines, in order. */
  lemma UiPrintShown(buffer: string)
    requires '\0' !in buffer
    ensures Shown(Split(UiCommands(buffer), '\n')) == NonEmpty(Split(buffer, '\n'))
  {
    var lines := Split(buffer, '\n');
    JoinSplit(buffer, '\n');
    forall i | 0 <= i < |lines| ensures '\0' !in lines[i] {
      SplitPieceIn(buffer, '\n', i);
    }
    CommandsJoin(lines);
    var cmds := Prefixed(NonEmpty(lines)) + [""];
    forall i | 0 <= i < |cmds| ensures '\n' !in cmds[i] {
      if i < |cmds| - 1 {
        var l := NonEmpty(lines)[i];
        assert l in lines;
        assert cmds[i] == UI_PRINT + l;
      }
    }
    SplitJoin(cmds, '\n');
    ShownPrefixed(NonEmpty(lines));
  }

  /** Every character of a piece of `Split(s, d)` is a character of `s`. */
  lemma {:induction false} SplitPieceIn(s: string, d: char, i: nat)
    requires i < |Split(s, d)|
    ensures forall c | c in Split(s, d)[i] :: c in s
    decreases |s|
  {
    match FindFrom(s, d, 0)
    case None =>
    case Some(k) =>
      if i == 0 {
        assert forall c | c in s[..k] :: c in s;
      } else {
        SplitPieceIn(s[k + 1..], d, i - 1);
        assert forall c | c in s[k + 1..] :: c in s;
      }
  }

  /** A one-line message becomes exactly one command. */
  lemma OneLine(buffer: string)
    requires buffer != "" && '\n' !in buffer && '\0' !in buffer
    ensures UiCommands(buffer) == "ui_print " + buffer + "\n"
  {
    assert FindFrom(buffer, '\n', 0).None?;
    CPrefixNoNul(buffer);
    assert Split(buffer, '\n') == [buffer];
    assert [buffer][1..] == [];
    assert Commands([buffer]) == Command(buffer) + Commands([]);
  }
}
