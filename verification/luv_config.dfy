/** The script that rewrites the luv.cfg window inside an EFI binary. */
module LuvConfig {
  import opened Options
  import opened Text

  const START: string := "## Start of luv.cfg ##\n\n"
  const END: string := "\n## END of luv.cfg ##"
  const DO_NOT_MODIFY: string := "LUV_BITS_CAN_RUN"
  const TESTS: string := "LUV_TESTS"

  /** The destination names of the options, in upper case. */
  const KEYS: seq<string> :=
    ["FILENAME", "LUV_NETCONSOLE", "PXE_IMAGE_SERVER", "LUV_STORAGE_URL", TESTS, "LUV_REBOOT_TESTS"]

  /** The parsed arguments: each option's value as text ("None" when absent), and the tests to disable. */
  datatype Args = Args(text: map<string, string>, tests: seq<string>)

  predicate Complete(args: Args) {
    forall k :: 0 <= k < |KEYS| ==> KEYS[k] in args.text
  }

  predicate Given(key: string, args: Args) {
    key in args.text && Lower(args.text[key]) != "none"
  }

  /** What becomes of one line of the window. */
  datatype Line = Dropped | Malformed | Kept(text: string)

  predicate IsSet(line: string) {
    |line| >= 3 && line[..3] == "set"
  }

  /** The keyword without its first four characters, "set ". */
  function KeyOf(keyword: string): string {
    if |keyword| < 4 then "" else keyword[4..]
  }

  function NewValue(key: string, keyval: string, args: Args): string
    requires key in args.text
  {
    if !Given(key, args) then Lower(keyval)
    else if key == TESTS then RemoveEach(keyval, args.tests)
    else Lower(args.text[key])
  }

  function NewLine(line: string, args: Args): Line
    requires Complete(args)
  {
    if !IsSet(line) then Dropped else
    match FirstFrom(line, "=", 0)
    case None => Malformed
    case Some(e) =>
      var keyword, keyval := line[..e], line[e + 1..];
      var key := KeyOf(keyword);
      if key in KEYS then Kept(keyword + "=" + NewValue(key, keyval, args))
      else if key == DO_NOT_MODIFY then Kept(line)
      else Dropped
  }

  /** The lines that stay, rewritten; None when a set line has no '='. */
  function NewLines(lines: seq<string>, args: Args): (r: Option<seq<string>>)
    requires Complete(args)
  {
    if |lines| == 0 then Some([]) else
    match NewLines(lines[..|lines| - 1], args)
    case None => None
    case Some(before) =>
      match NewLine(lines[|lines| - 1], args)
      case Malformed => None
      case Dropped => Some(before)
      case Kept(text) => Some(before + [text])
  }

  // ---------------------------------------------------------------- what the options mean for a line

  /** What an absent option reads as, in any spelling. */
  predicate ReadsNone(text: string) {
    |text| == 4 && text[0] in "nN" && text[1] in "oO" && text[2] in "nN" && text[3] in "eE"
  }

  /** The value for a known key: the old one, the old one without the disabled tests, or the option's. */
  ghost predicate ValueFor(key: string, before: string, args: Args, after: string)
    requires key in args.text
  {
    if ReadsNone(args.text[key]) then Lowered(before, after)
    else if key == TESTS then AllTakenOut(before, args.tests, after)
    else Lowered(args.text[key], after)
  }

  /** A set line whose first equals sign is at e. */
  predicate SignAt(line: string, e: nat) {
    |line| >= 3 && line[..3] == "set" && e < |line| && line[e] == '=' && '=' !in line[..e]
  }

  predicate NoSign(line: string) {
    |line| >= 3 && line[..3] == "set" && '=' !in line
  }

  ghost predicate SomeNoSign(lines: seq<string>) {
    exists n :: 0 <= n < |lines| && NoSign(lines[n])
  }

  /** The line sets a known or protected key. */
  ghost predicate Stays(line: string) {
    exists e :: 4 <= e && SignAt(line, e) && (line[4..e] in KEYS || line[4..e] == DO_NOT_MODIFY)
  }

  /** The line, with a known or protected key before the sign, is to read as the text. */
  ghost predicate BecomesAt(line: string, args: Args, e: nat, text: string)
    requires Complete(args) && 4 <= e < |line|
  {
    (line[4..e] in KEYS && e < |text| && text[..e + 1] == line[..e + 1] &&
     ValueFor(line[4..e], line[e + 1..], args, text[e + 1..])) ||
    (line[4..e] == DO_NOT_MODIFY && text == line)
  }

  ghost predicate Becomes(line: string, args: Args, text: string)
    requires Complete(args)
  {
    exists e :: 4 <= e && SignAt(line, e) && BecomesAt(line, args, e, text)
  }

  /** In order: what the lines with a known or protected key become, and nothing else. */
  ghost predicate Rewritten(before: seq<string>, args: Args, after: seq<string>)
    requires Complete(args)
    decreases |before|
  {
    if |before| == 0 then |after| == 0
    else if Stays(before[|before| - 1]) then
      |after| > 0 && Becomes(before[|before| - 1], args, after[|after| - 1]) &&
      Rewritten(before[..|before| - 1], args, after[..|after| - 1])
    else Rewritten(before[..|before| - 1], args, after)
  }

  lemma {:induction false} GivenIff(key: string, args: Args)
    requires key in args.text
    ensures Given(key, args) <==> !ReadsNone(args.text[key])
  {
    var text := args.text[key];
    LowerIff(text, Lower(text));
    assert forall i :: 0 <= i < |text| ==> Lower(text)[i] == LowerChar(text[i]) by {
      forall i | 0 <= i < |text|
        ensures Lower(text)[i] == LowerChar(text[i])
      {
        LowerAt(text, i);
      }
    }
  }

  lemma {:induction false} ValueIff(key: string, before: string, args: Args, after: string)
    requires key in args.text
    ensures ValueFor(key, before, args, after) <==> after == NewValue(key, before, args)
  {
    GivenIff(key, args);
    LowerIff(before, after);
    LowerIff(args.text[key], after);
    RemoveEachIff(before, args.tests, after);
  }

  lemma {:induction false} SignIff(line: string, e: nat)
    requires IsSet(line)
    ensures SignAt(line, e) <==> FirstFrom(line, "=", 0) == Some(e)
  {
    EqualsAt(line, e);
    forall j: nat | j < |line|
      ensures OccursAt(line, "=", j) <==> line[j] == '='
    {
      EqualsAt(line, j);
    }
    if SignAt(line, e) {
      var first := FirstFrom(line, "=", 0);
      assert first.Some? && first.value <= e;
    }
  }

  lemma {:induction false} EqualsAt(line: string, j: nat)
    ensures OccursAt(line, "=", j) <==> j < |line| && line[j] == '='
  {
    if j < |line| {
      assert line[j..j + 1] == [line[j]];
    }
  }

  lemma {:induction false} NoSignIff(line: string)
    requires IsSet(line)
    ensures NoSign(line) <==> FirstFrom(line, "=", 0) == None
  {
    forall j: nat
      ensures OccursAt(line, "=", j) <==> j < |line| && line[j] == '='
    {
      EqualsAt(line, j);
    }
  }

  lemma {:induction false} Parted(line: string, e: nat, value: string, text: string)
    requires e < |line| && line[e] == '='
    ensures text == line[..e] + "=" + value <==> e < |text| && text[..e + 1] == line[..e + 1] && text[e + 1..] == value
  {
    var made := line[..e] + "=" + value;
    assert made[..e + 1] == line[..e + 1] && made[e + 1..] == value;
    if e < |text| && text[..e + 1] == line[..e + 1] && text[e + 1..] == value {
      assert text == text[..e + 1] + text[e + 1..];
    }
  }

  /** The script does to each line what the options mean for it. */
  lemma {:induction false} LineIff(line: string, args: Args, text: string)
    requires Complete(args)
    ensures NewLine(line, args) == Kept(text) <==> Becomes(line, args, text)
    ensures NewLine(line, args).Kept? <==> Stays(line)
    ensures NewLine(line, args) == Malformed <==> NoSign(line)
  {
    if IsSet(line) {
      NoSignIff(line);
      var first := FirstFrom(line, "=", 0);
      if first.Some? {
        OneSign(line, args, first.value, text);
      } else {
        forall e: nat
          ensures !SignAt(line, e)
        {
          SignIff(line, e);
        }
      }
    }
  }

  lemma {:induction false} OneSign(line: string, args: Args, e: nat, text: string)
    requires Complete(args) && IsSet(line) && FirstFrom(line, "=", 0) == Some(e)
    ensures NewLine(line, args) == Kept(text) <==> Becomes(line, args, text)
    ensures NewLine(line, args).Kept? <==> Stays(line)
    ensures NewLine(line, args) != Malformed
  {
    SignIff(line, e);
    forall other: nat
      ensures SignAt(line, other) ==> other == e
    {
      SignIff(line, other);
    }
    SignedLine(line, args, e, text);
  }

  /** With the sign past the fourth character the key lies between them; else there is no key. */
  lemma {:induction false} SignedLine(line: string, args: Args, e: nat, text: string)
    requires Complete(args) && SignAt(line, e) && FirstFrom(line, "=", 0) == Some(e)
    ensures NewLine(line, args) != Malformed
    ensures NewLine(line, args) == Kept(text) <==> 4 <= e && BecomesAt(line, args, e, text)
    ensures NewLine(line, args).Kept? <==> 4 <= e && (line[4..e] in KEYS || line[4..e] == DO_NOT_MODIFY)
  {
    EmptyIsNoKey();
    ProtectedIsNoKey();
    var key := KeyOf(line[..e]);
    if e < 4 {
      assert NewLine(line, args) == Dropped;
    } else {
      assert key == line[4..e];
      if key in KEYS {
        ValueIff(key, line[e + 1..], args, if e < |text| then text[e + 1..] else "");
        Parted(line, e, NewValue(key, line[e + 1..], args), text);
      }
    }
  }

  lemma {:induction false} EmptyIsNoKey()
    ensures "" !in KEYS && "" != DO_NOT_MODIFY
  {}

  /** And to all lines: they are rewritten, or some set line has no equals sign. */
  lemma {:induction false} LinesIff(lines: seq<string>, args: Args, kept: seq<string>)
    requires Complete(args)
    ensures NewLines(lines, args) == None <==> SomeNoSign(lines)
    ensures NewLines(lines, args) != None ==> (NewLines(lines, args) == Some(kept) <==> Rewritten(lines, args, kept))
  {
    if |lines| > 0 {
      var front, last := lines[..|lines| - 1], lines[|lines| - 1];
      var text := if |kept| > 0 then kept[|kept| - 1] else "";
      LineIff(last, args, text);
      LinesIff(front, args, if Stays(last) && |kept| > 0 then kept[..|kept| - 1] else kept);
      BadSplit(lines);
      if NewLines(front, args).Some? && Stays(last) {
        LastOf(NewLines(front, args).value, NewLine(last, args).text, kept);
      }
    }
  }

  lemma {:induction false} BadSplit(lines: seq<string>)
    requires |lines| > 0
    ensures SomeNoSign(lines) <==> SomeNoSign(lines[..|lines| - 1]) || NoSign(lines[|lines| - 1])
  {
    var front := lines[..|lines| - 1];
    assert forall n :: 0 <= n < |front| ==> front[n] == lines[n];
  }

  lemma {:induction false} LastOf(front: seq<string>, last: string, all: seq<string>)
    ensures all == front + [last] <==> |all| > 0 && all[..|all| - 1] == front && all[|all| - 1] == last
  {}

  datatype Outcome = NoMarkers | BadLine | TooLong | Done(file: string)

  /** The text between the markers; with the end marker first, everything from the start marker. */
  function Window(file: string, start: nat, end: nat): string
    requires start <= |file| && end <= |file|
  {
    if start <= end then file[start..end] else file[start..]
  }

  /** The script's whole effect on the file; only Done changes it. */
  function Patch(file: string, args: Args): Outcome
    requires Complete(args)
  {
    var start, end := FirstFrom(file, START, 0), FirstFrom(file, END, 0);
    if start.None? || end.None? then NoMarkers else
    match NewLines(Lines(Window(file, start.value, end.value)), args)
    case None => BadLine
    case Some(lines) =>
      var text := START + Join(lines);
      if |text| > end.value - start.value then TooLong
      else
        Done(file[..start.value] + text + Spaces(end.value - start.value - |text|) + file[end.value..])
  }

  /** The loop over the tests to disable. */
  method DisableTests(keyval: string, tests: seq<string>) returns (luvTests: string)
    ensures luvTests == RemoveEach(keyval, tests)
  {
    luvTests := keyval;
    for d := 0 to |tests|
      invariant luvTests == RemoveEach(keyval, tests[..d])
    {
      luvTests := RemoveAll(luvTests, tests[d]);
      assert tests[..d + 1][..d] == tests[..d];
    }
    assert tests[..|tests|] == tests;
  }

  /** The inner loop over the options; at most one of them has the line's key. */
  method ReplaceValue(keyword: string, keyval: string, args: Args) returns (added: string)
    requires Complete(args)
    ensures var key := KeyOf(keyword);
            added == if key in KEYS then keyword + "=" + NewValue(key, keyval, args) + "\n" else ""
  {
    added := "";
    var key := KeyOf(keyword);
    for a := 0 to |KEYS|
      invariant added == if key in KEYS[..a] then keyword + "=" + NewValue(key, keyval, args) + "\n" else ""
    {
      KeysDistinct(a);
      if key == KEYS[a] {
        var value;
        if Lower(args.text[key]) != "none" {
          if key == TESTS {
            value := DisableTests(keyval, args.tests);
          } else {
            value := Lower(args.text[key]);
          }
        } else {
          value := Lower(keyval);
        }
        added := added + keyword + "=" + value + "\n";
      }
    }
  }

  lemma {:induction false} KeysDistinct(a: nat)
    requires a < |KEYS|
    ensures KEYS[a] !in KEYS[..a]
  {
    assert KEYS[0][0] == 'F' && KEYS[2][0] == 'P';
    assert KEYS[1][4] == 'N' && KEYS[3][4] == 'S' && KEYS[4][4] == 'T' && KEYS[5][4] == 'R';
  }

  /** The body of the loop below: what one line adds. */
  method ReplaceLine(line: string, args: Args) returns (added: Option<string>)
    requires Complete(args)
    ensures added == match NewLine(line, args)
                     case Malformed => None
                     case Dropped => Some("")
                     case Kept(text) => Some(text + "\n")
  {
    added := Some("");
    if IsSet(line) {
      var e := FirstFrom(line, "=", 0);
      if e.None? {
        return None;
      }
      var keyword, keyval := line[..e.value], line[e.value + 1..];
      var replaceStr := ReplaceValue(keyword, keyval, args);
      ProtectedIsNoKey();
      if KeyOf(keyword) == DO_NOT_MODIFY {
        assert replaceStr == "";
        replaceStr := replaceStr + line + "\n";
        assert replaceStr == line + "\n";
      }
      added := Some(replaceStr);
    }
  }

  lemma {:induction false} ProtectedIsNoKey()
    ensures DO_NOT_MODIFY !in KEYS
  {
    assert DO_NOT_MODIFY[4] == 'B';
    assert KEYS[0][0] == 'F' && KEYS[2][0] == 'P';
    assert KEYS[1][4] == 'N' && KEYS[3][4] == 'S' && KEYS[4][4] == 'T' && KEYS[5][4] == 'R';
  }

  lemma {:induction false} OneLineMore(lines: seq<string>, n: nat, args: Args, kept: seq<string>)
    requires Complete(args) && n < |lines| && NewLines(lines[..n], args) == Some(kept)
    ensures NewLines(lines[..n + 1], args) ==
            match NewLine(lines[n], args)
            case Malformed => None
            case Dropped => Some(kept)
            case Kept(text) => Some(kept + [text])
  {
    assert lines[..n + 1][..n] == lines[..n];
  }

  lemma {:induction false} TextMeaning(lines: seq<string>, args: Args, text: Option<string>)
    requires Complete(args)
    requires text == match NewLines(lines, args)
                     case None => None
                     case Some(kept) => Some(START + Join(kept))
    ensures text.None? <==> SomeNoSign(lines)
    ensures text.Some? ==> exists kept :: Rewritten(lines, args, kept) && text.value == START + Join(kept)
  {
    LinesIff(lines, args, if text.Some? then NewLines(lines, args).value else []);
  }

  /** replace_strings. */
  method ReplaceStrings(lines: seq<string>, args: Args) returns (text: Option<string>)
    requires Complete(args)
    ensures text == match NewLines(lines, args)
                    case None => None
                    case Some(kept) => Some(START + Join(kept))
    ensures text.None? <==> SomeNoSign(lines)
    ensures text.Some? ==> exists kept :: Rewritten(lines, args, kept) && text.value == START + Join(kept)
  {
    var newRepStr := START;
    ghost var kept: seq<string> := [];
    for n := 0 to |lines|
      invariant NewLines(lines[..n], args) == Some(kept) && newRepStr == START + Join(kept)
    {
      OneLineMore(lines, n, args, kept);
      var added := ReplaceLine(lines[n], args);
      if added.None? {
        BadLineStays(lines, n + 1, args);
        TextMeaning(lines, args, None);
        return None;
      }
      newRepStr := newRepStr + added.value;
      if NewLine(lines[n], args).Kept? {
        JoinAppend(kept, NewLine(lines[n], args).text);
        kept := kept + [NewLine(lines[n], args).text];
      }
    }
    assert lines[..|lines|] == lines;
    text := Some(newRepStr);
    TextMeaning(lines, args, text);
  }

  lemma {:induction false} BadLineStays(lines: seq<string>, n: nat, args: Args)
    requires Complete(args) && n <= |lines| && NewLines(lines[..n], args) == None
    ensures NewLines(lines, args) == None
    decreases |lines| - n
  {
    if n < |lines| {
      assert lines[..n + 1][..n] == lines[..n];
      BadLineStays(lines, n + 1, args);
    } else {
      assert lines[..n] == lines;
    }
  }

  /** The binary the script is run on. */
  class Image {
    var bytes: string

    constructor (bytes: string)
      ensures this.bytes == bytes
    {
      this.bytes := bytes;
    }

    /** read_luv_cfg, replace_strings and write_to_luv_cfg in a row. */
    method Modify(args: Args) returns (outcome: Outcome)
      requires Complete(args)
      modifies this
      ensures outcome == Patch(old(bytes), args)
      ensures bytes == if outcome.Done? then outcome.file else old(bytes)
    {
      var start, end := FirstFrom(bytes, START, 0), FirstFrom(bytes, END, 0);
      if start.None? || end.None? {
        return NoMarkers;
      }
      var lines := Lines(Window(bytes, start.value, end.value));
      var text := ReplaceStrings(lines, args);
      if text.None? {
        return BadLine;
      }
      if |text.value| > end.value - start.value {
        return TooLong;
      }
      var spaces := end.value - |text.value| - start.value;
      bytes := bytes[..start.value] + text.value + Spaces(spaces) + bytes[end.value..];
      outcome := Done(bytes);
    }
  }
}
