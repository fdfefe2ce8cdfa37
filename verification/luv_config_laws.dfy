/** What a successful run of the configuration patcher leaves alone, and what a second run does. */
module LuvConfigLaws {
  import opened Options
  import opened Text
  import opened LuvConfig

  /** No option value holds a newline. */
  predicate Clean(args: Args)
    requires Complete(args)
  {
    forall k :: 0 <= k < |KEYS| ==> NoNewline(args.text[KEYS[k]])
  }

  /** The option parser only lets known, non-empty test names through. */
  predicate NamedTests(args: Args) {
    forall k :: 0 <= k < |args.tests| ==> args.tests[k] != ""
  }

  /** No disabled test's name reappears in a LUV_TESTS line once the names have been removed. */
  predicate StableLine(line: string, args: Args)
    requires Complete(args)
  {
    var e := FirstFrom(line, "=", 0);
    IsSet(line) && e.Some? && KeyOf(line[..e.value]) == TESTS && Given(TESTS, args) ==>
      !OccursAny(RemoveEach(line[e.value + 1..], args.tests), args.tests)
  }

  lemma {:induction false} TestsIsKey()
    ensures TESTS in KEYS && KEYS[4] == TESTS
  {
  }

  /** The first '=' of keyword=value is where the keyword ends. */
  lemma {:induction false} KeywordFound(line: string, e: nat, value: string)
    requires FirstFrom(line, "=", 0) == Some(e)
    ensures var text := line[..e] + "=" + value;
            FirstFrom(text, "=", 0) == Some(e) && text[..e] == line[..e] && text[e + 1..] == value
  {
    var text := line[..e] + "=" + value;
    assert text[e..e + 1] == "=";
    assert OccursAt(text, "=", e);
    var r := FirstFrom(text, "=", 0);
    if r.Some? && r.value < e {
      assert text[r.value..r.value + 1] == line[r.value..r.value + 1];
      assert OccursAt(line, "=", r.value);
    }
  }

  lemma {:induction false} SetBeforeEquals(line: string, e: nat)
    requires IsSet(line) && FirstFrom(line, "=", 0) == Some(e)
    ensures e >= 3
  {
    assert line[e] == line[e..e + 1][0] == '=';
    assert line[0] == line[..3][0] && line[1] == line[..3][1] && line[2] == line[..3][2];
  }

  /** The value a second run computes from the first run's. */
  lemma {:induction false} ValueTwice(key: string, keyval: string, args: Args)
    requires Complete(args) && NamedTests(args) && key in KEYS
    ensures var value := NewValue(key, keyval, args);
            var again := NewValue(key, value, args);
            |again| <= |value| &&
            (again == value <==>
             (key == TESTS && Given(TESTS, args) ==> !OccursAny(RemoveEach(keyval, args.tests), args.tests)))
  {
    if !Given(key, args) {
      LowerTwice(keyval);
    } else if key == TESTS {
      RemoveEachNothingIff(RemoveEach(keyval, args.tests), args.tests);
    }
  }

  lemma {:induction false} ValueNoNewline(key: string, keyval: string, args: Args)
    requires Complete(args) && Clean(args) && key in KEYS && NoNewline(keyval)
    ensures NoNewline(NewValue(key, keyval, args))
  {
    if !Given(key, args) {
      LowerNoNewline(keyval);
    } else if key == TESTS {
      RemoveEachNoNewline(keyval, args.tests);
    } else {
      LowerNoNewline(args.text[key]);
    }
  }

  /** A kept line is a set line without a newline. */
  lemma {:induction false} KeptIsSet(line: string, args: Args)
    requires Complete(args) && Clean(args) && NoNewline(line) && NewLine(line, args).Kept?
    ensures IsSet(NewLine(line, args).text) && NoNewline(NewLine(line, args).text)
  {
    var e := FirstFrom(line, "=", 0).value;
    var key := KeyOf(line[..e]);
    SetBeforeEquals(line, e);
    if key in KEYS {
      ValueNoNewline(key, line[e + 1..], args);
      var text := line[..e] + "=" + NewValue(key, line[e + 1..], args);
      assert text[..3] == line[..3];
    }
  }

  /** Rewriting a rewritten line: it stays, no longer, and unchanged exactly for a stable line. */
  lemma {:induction false} LineTwice(line: string, args: Args)
    requires Complete(args) && Clean(args) && NamedTests(args) && NoNewline(line) && NewLine(line, args).Kept?
    ensures var text := NewLine(line, args).text;
            var again := NewLine(text, args);
            again.Kept? && |again.text| <= |text| && (again.text == text <==> StableLine(line, args))
  {
    KeptIsSet(line, args);
    var e := FirstFrom(line, "=", 0).value;
    var keyword, keyval := line[..e], line[e + 1..];
    var key := KeyOf(keyword);
    if key in KEYS {
      var value := NewValue(key, keyval, args);
      KeywordFound(line, e, value);
      ValueTwice(key, keyval, args);
      var again := NewValue(key, value, args);
      SamePrefix(keyword + "=", again, value);
    } else {
      TestsIsKey();
    }
  }

  lemma {:induction false} SamePrefix(p: string, a: string, b: string)
    ensures p + a == p + b <==> a == b
  {
    if p + a == p + b {
      assert (p + a)[|p|..] == a && (p + b)[|p|..] == b;
    }
  }

  lemma {:induction false} KeptLinesAreSet(lines: seq<string>, args: Args)
    requires Complete(args) && Clean(args) && NewLines(lines, args).Some?
    requires forall n :: 0 <= n < |lines| ==> NoNewline(lines[n])
    ensures var kept := NewLines(lines, args).value;
            forall n :: 0 <= n < |kept| ==> IsSet(kept[n]) && NoNewline(kept[n])
  {
    if |lines| > 0 {
      var last := lines[|lines| - 1];
      KeptLinesAreSet(lines[..|lines| - 1], args);
      if NewLine(last, args).Kept? {
        KeptIsSet(last, args);
      }
    }
  }

  predicate StableLines(lines: seq<string>, args: Args)
    requires Complete(args)
  {
    forall n :: 0 <= n < |lines| ==> StableLine(lines[n], args)
  }

  lemma {:induction false} DroppedIsStable(line: string, args: Args)
    requires Complete(args) && NewLine(line, args).Dropped?
    ensures StableLine(line, args)
  {
    TestsIsKey();
  }

  /** Rewriting the kept lines again keeps them all, and changes none exactly when all are stable. */
  lemma {:induction false} LinesTwice(lines: seq<string>, args: Args)
    requires Complete(args) && Clean(args) && NamedTests(args) && NewLines(lines, args).Some?
    requires forall n :: 0 <= n < |lines| ==> NoNewline(lines[n])
    ensures var kept := NewLines(lines, args).value;
            var again := NewLines(kept, args);
            again.Some? && |again.value| == |kept| && |Join(again.value)| <= |Join(kept)| &&
            (again.value == kept <==> StableLines(lines, args))
  {
    if |lines| > 0 {
      var front, last := lines[..|lines| - 1], lines[|lines| - 1];
      LinesTwice(front, args);
      StableSplit(lines, args);
      var before := NewLines(front, args).value;
      if NewLine(last, args).Kept? {
        LineTwice(last, args);
        var text := NewLine(last, args).text;
        var again := NewLine(text, args).text;
        assert (before + [text])[..|before|] == before;
        JoinAppend(before, text);
        JoinAppend(NewLines(before, args).value, again);
        SameAppend(NewLines(before, args).value, again, before, text);
      } else {
        DroppedIsStable(last, args);
      }
    }
  }

  lemma {:induction false} SameAppend(a: seq<string>, x: string, b: seq<string>, y: string)
    requires |a| == |b|
    ensures a + [x] == b + [y] <==> a == b && x == y
  {
    if a + [x] == b + [y] {
      assert (a + [x])[..|a|] == a && (b + [y])[..|b|] == b;
      assert (a + [x])[|a|] == x && (b + [y])[|b|] == y;
    }
  }

  lemma {:induction false} StableSplit(lines: seq<string>, args: Args)
    requires Complete(args) && |lines| > 0
    ensures StableLines(lines, args) <==>
            StableLines(lines[..|lines| - 1], args) && StableLine(lines[|lines| - 1], args)
  {
    var front := lines[..|lines| - 1];
    assert forall n :: 0 <= n < |front| ==> front[n] == lines[n];
    if StableLines(front, args) && StableLine(lines[|lines| - 1], args) {
      forall n | 0 <= n < |lines|
        ensures StableLine(lines[n], args)
      {
        if n < |front| {
          assert StableLine(front[n], args);
        }
      }
    }
  }

  // The window and the markers

  const HEAD: string := "## Start of luv.cfg ##"

  /** No '#' follows a newline, and none comes first. */
  predicate NoHash(s: string) {
    (|s| > 0 ==> s[0] != '#') && forall x :: 0 <= x < |s| - 1 && s[x] == '\n' ==> s[x + 1] != '#'
  }

  lemma {:induction false} NoHashLine(line: string, tail: string)
    requires IsSet(line) && NoNewline(line) && NoHash(tail)
    ensures NoHash(line + "\n" + tail)
  {
    var s := line + "\n" + tail;
    assert s[0] == line[..3][0];
    assert forall x :: 0 <= x < |line| ==> s[x] == line[x] && line[x] != '\n';
    forall x | 0 <= x < |s| - 1 && s[x] == '\n'
      ensures s[x + 1] != '#'
    {
      if x > |line| {
        assert s[x] == tail[x - |line| - 1] && s[x + 1] == tail[x - |line|];
      }
    }
  }

  lemma {:induction false} NoHashLines(lines: seq<string>, tail: string)
    requires (forall n :: 0 <= n < |lines| ==> IsSet(lines[n]) && NoNewline(lines[n])) && NoHash(tail)
    ensures NoHash(Join(lines) + tail)
  {
    if |lines| == 0 {
      assert Join(lines) + tail == tail;
    } else {
      NoHashLines(lines[1..], tail);
      NoHashLine(lines[0], Join(lines[1..]) + tail);
      assert Join(lines) + tail == lines[0] + "\n" + (Join(lines[1..]) + tail);
    }
  }

  /** In what is written, up to and with the newline of the end marker, no '#' follows a newline. */
  lemma {:induction false} NoHashInside(lines: seq<string>, n: nat)
    requires forall k :: 0 <= k < |lines| ==> IsSet(lines[k]) && NoNewline(lines[k])
    ensures var s := START + (Join(lines) + (Spaces(n) + "\n"));
            forall x :: 0 <= x < |s| - 1 && s[x] == '\n' ==> s[x + 1] != '#'
  {
    var tail := Spaces(n) + "\n";
    NoHashLines(lines, tail);
    var rest := Join(lines) + tail;
    var s := START + rest;
    assert |START| == 24;
    assert forall x :: 0 <= x < 22 ==> START[x] != '\n' && s[x] == START[x];
    forall x | 0 <= x < |s| - 1 && s[x] == '\n'
      ensures s[x + 1] != '#'
    {
      if x == 22 {
        assert s[23] == START[23];
      } else {
        assert x > 23 ==> s[x] == rest[x - 24];
        assert s[x + 1] == rest[x - 23];
      }
    }
  }

  /** What a successful run wrote where. */
  ghost predicate Ran(file: string, args: Args, patched: string, start: nat, end: nat, kept: seq<string>, pad: nat)
    requires Complete(args)
  {
    FirstFrom(file, START, 0) == Some(start) && FirstFrom(file, END, 0) == Some(end) && start <= end <= |file| &&
    NewLines(Lines(file[start..end]), args) == Some(kept) &&
    |START + Join(kept)| + pad == end - start &&
    patched == file[..start] + (START + Join(kept) + Spaces(pad)) + file[end..]
  }

  lemma {:induction false} DoneMeansRan(file: string, args: Args)
    returns (start: nat, end: nat, kept: seq<string>, pad: nat)
    requires Complete(args) && Patch(file, args).Done?
    ensures Ran(file, args, Patch(file, args).file, start, end, kept, pad)
  {
    start, end := FirstFrom(file, START, 0).value, FirstFrom(file, END, 0).value;
    kept := NewLines(Lines(Window(file, start, end)), args).value;
    pad := end - start - |START + Join(kept)|;
    Regroup(file[..start], START + Join(kept), Spaces(pad), file[end..]);
  }

  lemma {:induction false} Regroup(a: string, b: string, c: string, d: string)
    ensures a + b + c + d == a + (b + c) + d
  {
  }

  /** A successful run changes nothing outside the window, nor the file's length. */
  lemma {:induction false} OutsideUnchanged(file: string, args: Args)
    requires Complete(args) && Patch(file, args).Done?
    ensures var patched := Patch(file, args).file;
            var start, end := FirstFrom(file, START, 0), FirstFrom(file, END, 0);
            start.Some? && end.Some? && start.value + |START| <= end.value <= |file| == |patched| &&
            patched[..start.value + |START|] == file[..start.value + |START|] &&
            patched[end.value..] == file[end.value..]
  {
    var start, end, kept, pad := DoneMeansRan(file, args);
    RanOutside(file, args, Patch(file, args).file, start, end, kept, pad);
  }

  lemma {:induction false} RanOutside(file: string, args: Args, patched: string, start: nat, end: nat,
                                      kept: seq<string>, pad: nat)
    requires Complete(args) && Ran(file, args, patched, start, end, kept, pad)
    ensures start + |START| <= end && |patched| == |file|
    ensures patched[..start + |START|] == file[..start + |START|]
    ensures patched[start..end] == START + Join(kept) + Spaces(pad) && patched[end..] == file[end..]
  {
    assert OccursAt(file, START, start);
    assert file[..start + |START|] == file[..start] + START;
  }

  lemma {:induction false} SameEarly(a: string, b: string, p: string, j: nat, m: nat)
    requires m <= |a| && m <= |b| && a[..m] == b[..m] && j + |p| <= m
    ensures OccursAt(a, p, j) == OccursAt(b, p, j)
  {
    assert a[j..j + |p|] == a[..m][j..j + |p|] && b[j..j + |p|] == b[..m][j..j + |p|];
  }

  lemma {:induction false} FirstIs(s: string, p: string, k: nat)
    requires k <= |s| && OccursAt(s, p, k) && forall j :: 0 <= j < k ==> !OccursAt(s, p, j)
    ensures FirstFrom(s, p, 0) == Some(k)
  {
  }

  lemma {:induction false} EndStartsWith(s: string, j: nat)
    requires OccursAt(s, END, j)
    ensures j + 1 < |s| && s[j] == '\n' && s[j + 1] == '#'
  {
    assert s[j..j + |END|][0] == END[0] && s[j..j + |END|][1] == END[1];
  }

  lemma {:induction false} NoEndInside(s: string, start: nat, end: nat, kept: seq<string>, pad: nat, j: nat)
    requires start <= j < end < |s| && s[end] == '\n' && s[start..end] == START + Join(kept) + Spaces(pad)
    requires forall k :: 0 <= k < |kept| ==> IsSet(kept[k]) && NoNewline(kept[k])
    ensures !OccursAt(s, END, j)
  {
    NoHashInside(kept, pad);
    var w := START + (Join(kept) + (Spaces(pad) + "\n"));
    assert w == s[start..end] + "\n";
    assert s[j] == w[j - start] && s[j + 1] == w[j + 1 - start];
    if OccursAt(s, END, j) {
      EndStartsWith(s, j);
    }
  }

  /** The end marker does not come up earlier than before. */
  lemma {:induction false} NoEarlierEnd(file: string, args: Args, patched: string, start: nat, end: nat,
                                        kept: seq<string>, pad: nat, j: nat)
    requires Complete(args) && Clean(args) && Ran(file, args, patched, start, end, kept, pad) && j < end
    ensures !OccursAt(patched, END, j)
  {
    RanOutside(file, args, patched, start, end, kept, pad);
    if j + |END| <= start + |START| {
      SameEarly(file, patched, END, j, start + |START|);
    } else {
      KeptLinesAreSet(Lines(file[start..end]), args);
      EndStartsWith(file, end);
      assert patched[end] == patched[end..][0] == file[end..][0] == file[end];
      NoEndInside(patched, start, end, kept, pad, j);
    }
  }

  /** Re-reading a patched file finds the markers where they were. */
  lemma {:induction false} MarkersStay(file: string, args: Args)
    requires Complete(args) && Clean(args) && Patch(file, args).Done?
    ensures FirstFrom(Patch(file, args).file, START, 0) == FirstFrom(file, START, 0)
    ensures FirstFrom(Patch(file, args).file, END, 0) == FirstFrom(file, END, 0)
  {
    var patched := Patch(file, args).file;
    var start, end, kept, pad := DoneMeansRan(file, args);
    RanMarkers(file, args, patched, start, end, kept, pad);
  }

  lemma {:induction false} RanMarkers(file: string, args: Args, patched: string, start: nat, end: nat,
                                      kept: seq<string>, pad: nat)
    requires Complete(args) && Clean(args) && Ran(file, args, patched, start, end, kept, pad)
    ensures FirstFrom(patched, START, 0) == Some(start) && FirstFrom(patched, END, 0) == Some(end)
  {
    RanOutside(file, args, patched, start, end, kept, pad);
    forall j | 0 <= j <= start
      ensures OccursAt(patched, START, j) == OccursAt(file, START, j)
    {
      SameEarly(file, patched, START, j, start + |START|);
    }
    FirstIs(patched, START, start);
    assert patched[end..end + |END|] == patched[end..][..|END|] && file[end..end + |END|] == file[end..][..|END|];
    forall j | 0 <= j < end
      ensures !OccursAt(patched, END, j)
    {
      NoEarlierEnd(file, args, patched, start, end, kept, pad, j);
    }
    FirstIs(patched, END, end);
  }

  lemma {:induction false} DropFirst(line: string, lines: seq<string>, args: Args)
    requires Complete(args) && NewLine(line, args).Dropped?
    ensures NewLines([line] + lines, args) == NewLines(lines, args)
  {
    var all := [line] + lines;
    if |lines| > 0 {
      assert all[..|all| - 1] == [line] + lines[..|lines| - 1];
      DropFirst(line, lines[..|lines| - 1], args);
    } else {
      assert all[..0] == [];
      assert NewLines(all[..0], args) == Some([]);
    }
  }

  lemma {:induction false} DropLast(lines: seq<string>, line: string, args: Args)
    requires Complete(args) && NewLine(line, args).Dropped?
    ensures NewLines(lines + [line], args) == NewLines(lines, args)
  {
    assert (lines + [line])[..|lines|] == lines;
  }

  /** The window read back: the marker's two lines, the kept lines, and the padding. */
  lemma {:induction false} ReadBack(kept: seq<string>, pad: nat)
    requires forall n :: 0 <= n < |kept| ==> NoNewline(kept[n])
    ensures Lines(START + Join(kept) + Spaces(pad)) == [HEAD, ""] + kept + [Spaces(pad)]
  {
    var lines := [HEAD, ""] + kept;
    assert lines[1..] == [""] + kept && lines[1..][1..] == kept;
    assert START == HEAD + "\n" + ("" + "\n");
    assert Join(lines) == HEAD + "\n" + ("" + "\n" + Join(kept));
    assert Join(lines) == START + Join(kept);
    LinesOfJoin(lines, Spaces(pad));
    LinesOfOne(Spaces(pad));
  }

  lemma {:induction false} ReadBackNew(kept: seq<string>, pad: nat, args: Args)
    requires Complete(args)
    ensures NewLines([HEAD, ""] + kept + [Spaces(pad)], args) == NewLines(kept, args)
  {
    OuterLinesNotSet(pad);
    DropLast([HEAD, ""] + kept, Spaces(pad), args);
    assert [HEAD, ""] + kept == [HEAD] + ([""] + kept);
    DropFirst(HEAD, [""] + kept, args);
    DropFirst("", kept, args);
  }

  lemma {:induction false} KeptExactly(lines: seq<string>, args: Args, text: string)
    requires Complete(args) && NewLines(lines, args).Some?
    ensures text in NewLines(lines, args).value <==>
            exists n :: 0 <= n < |lines| && NewLine(lines[n], args) == Kept(text)
  {
    if |lines| > 0 {
      var front := lines[..|lines| - 1];
      KeptExactly(front, args, text);
      if n :| 0 <= n < |lines| && NewLine(lines[n], args) == Kept(text) && n < |front| {
        assert front[n] == lines[n];
      }
      if n :| 0 <= n < |front| && NewLine(front[n], args) == Kept(text) {
        assert front[n] == lines[n];
      }
    }
  }

  /**
    The set lines of the patched window are exactly the rewritten known and protected lines of the
    old one: no setting is lost, none is made up, and every other line is gone.
   */
  lemma {:induction false} SetLinesExactly(file: string, args: Args, text: string)
    requires Complete(args) && Clean(args) && Patch(file, args).Done?
    ensures var start, end := FirstFrom(file, START, 0).value, FirstFrom(file, END, 0).value;
            var before := Lines(Window(file, start, end));
            var after := Lines(Window(Patch(file, args).file, start, end));
            text in after && IsSet(text) <==>
            exists n :: 0 <= n < |before| && Becomes(before[n], args, text)
  {
    var patched := Patch(file, args).file;
    var start, end, kept, pad := DoneMeansRan(file, args);
    RanSetLines(file, args, patched, start, end, kept, pad, Lines(file[start..end]), text);
    RanOutside(file, args, patched, start, end, kept, pad);
  }

  // ---------------------------------------------------------------- what a run means, from the options

  /** The lines that begin with set, in order. */
  function SetLines(lines: seq<string>): (sets: seq<string>) {
    if |lines| == 0 then [] else
    SetLines(lines[..|lines| - 1]) + if IsSet(lines[|lines| - 1]) then [lines[|lines| - 1]] else []
  }

  lemma {:induction false} AllSet(lines: seq<string>)
    requires forall n :: 0 <= n < |lines| ==> IsSet(lines[n])
    ensures SetLines(lines) == lines
  {
    if |lines| > 0 {
      AllSet(lines[..|lines| - 1]);
    }
  }

  lemma {:induction false} SetLinesSkip(line: string, lines: seq<string>)
    requires !IsSet(line)
    ensures SetLines([line] + lines) == SetLines(lines) == SetLines(lines + [line])
  {
    assert (lines + [line])[..|lines|] == lines;
    if |lines| > 0 {
      var front := lines[..|lines| - 1];
      SetLinesSkip(line, front);
      assert ([line] + lines)[..|lines|] == [line] + front;
    } else {
      assert [line] + lines == [line] && [line][..0] == [];
    }
  }

  lemma {:induction false} WrittenSetLines(kept: seq<string>, pad: nat)
    requires forall n :: 0 <= n < |kept| ==> IsSet(kept[n])
    ensures SetLines([HEAD, ""] + kept + [Spaces(pad)]) == kept
  {
    OuterLinesNotSet(pad);
    AllSet(kept);
    SetLinesSkip("", kept);
    SetLinesSkip(HEAD, [""] + kept);
    SetLinesSkip(Spaces(pad), [HEAD] + ([""] + kept));
    assert [HEAD, ""] + kept == [HEAD] + ([""] + kept);
  }

  /**
    The set lines read back from a patched file are, in order, the old window's lines with a known
    or protected key, each with the value that the options ask for, and no others.
   */
  lemma {:induction false} SetLinesMeaning(file: string, args: Args)
    requires Complete(args) && Clean(args) && Patch(file, args).Done?
    ensures var start, end := FirstFrom(file, START, 0).value, FirstFrom(file, END, 0).value;
            Rewritten(Lines(Window(file, start, end)), args,
                      SetLines(Lines(Window(Patch(file, args).file, start, end))))
  {
    var patched := Patch(file, args).file;
    var start, end, kept, pad := DoneMeansRan(file, args);
    RanOutside(file, args, patched, start, end, kept, pad);
    var before := Lines(file[start..end]);
    KeptLinesAreSet(before, args);
    LinesIff(before, args, kept);
    ReadBack(kept, pad);
    WrittenSetLines(kept, pad);
  }

  /** When the script gives up and when it succeeds. */
  lemma {:induction false} OutcomeIff(file: string, args: Args)
    requires Complete(args)
    ensures Patch(file, args).NoMarkers? <==> !Occurs(file, START) || !Occurs(file, END)
    ensures Occurs(file, START) && Occurs(file, END) ==>
              var start, end := FirstFrom(file, START, 0).value, FirstFrom(file, END, 0).value;
              var before := Lines(Window(file, start, end));
              (Patch(file, args).BadLine? <==> SomeNoSign(before)) &&
              (Patch(file, args).Done? <==>
               !SomeNoSign(before) &&
               exists kept :: Rewritten(before, args, kept) && |START| + |Join(kept)| <= end - start)
  {
    if FirstFrom(file, START, 0).Some? && FirstFrom(file, END, 0).Some? {
      var start, end := FirstFrom(file, START, 0).value, FirstFrom(file, END, 0).value;
      assert OccursAt(file, START, start) && OccursAt(file, END, end);
      var before := Lines(Window(file, start, end));
      LinesIff(before, args, []);
      if NewLines(before, args).Some? {
        LinesIff(before, args, NewLines(before, args).value);
        forall kept | Rewritten(before, args, kept)
          ensures NewLines(before, args) == Some(kept)
        {
          LinesIff(before, args, kept);
        }
      }
    }
  }

  lemma {:induction false} RanSetLines(file: string, args: Args, patched: string, start: nat, end: nat,
                                       kept: seq<string>, pad: nat, before: seq<string>, text: string)
    requires Complete(args) && Clean(args) && Ran(file, args, patched, start, end, kept, pad)
    requires before == Lines(file[start..end])
    ensures start <= end <= |patched|
    ensures text in Lines(patched[start..end]) && IsSet(text) <==>
            exists n :: 0 <= n < |before| && Becomes(before[n], args, text)
  {
    RanOutside(file, args, patched, start, end, kept, pad);
    KeptLinesAreSet(before, args);
    KeptExactly(before, args, text);
    forall n | 0 <= n < |before|
      ensures NewLine(before[n], args) == Kept(text) <==> Becomes(before[n], args, text)
    {
      LineIff(before[n], args, text);
    }
    ReadBack(kept, pad);
    InnerLines(kept, pad, text);
  }

  lemma {:induction false} InnerLines(kept: seq<string>, pad: nat, text: string)
    requires forall n :: 0 <= n < |kept| ==> IsSet(kept[n])
    ensures text in [HEAD, ""] + kept + [Spaces(pad)] && IsSet(text) <==> text in kept
  {
    OuterLinesNotSet(pad);
  }

  lemma {:induction false} OuterLinesNotSet(pad: nat)
    ensures !IsSet(HEAD) && !IsSet("") && !IsSet(Spaces(pad))
  {
    assert HEAD[..3][0] == '#' && "set"[0] == 's';
    assert pad >= 3 ==> Spaces(pad)[..3][0] == ' ';
  }

  /**
    A second identical run succeeds too, and it leaves the file identical exactly when in no
    LUV_TESTS line a disabled test's name reappears after the removal.
   */
  lemma {:induction false} SecondRunIff(file: string, args: Args)
    requires Complete(args) && Clean(args) && NamedTests(args) && Patch(file, args).Done?
    ensures var patched := Patch(file, args).file;
            var start, end := FirstFrom(file, START, 0).value, FirstFrom(file, END, 0).value;
            Patch(patched, args).Done? &&
            (Patch(patched, args).file == patched <==> StableLines(Lines(Window(file, start, end)), args))
  {
    var patched := Patch(file, args).file;
    var start, end, kept, pad := DoneMeansRan(file, args);
    var twice := RanAgain(file, args, patched, start, end, kept, pad);
  }

  /** A run on a file whose markers and lines are known. */
  lemma {:induction false} RunFrom(file: string, args: Args, start: nat, end: nat, kept: seq<string>, pad: nat)
    requires Complete(args) && start <= end <= |file|
    requires FirstFrom(file, START, 0) == Some(start) && FirstFrom(file, END, 0) == Some(end)
    requires NewLines(Lines(file[start..end]), args) == Some(kept) && |START + Join(kept)| + pad == end - start
    ensures Patch(file, args) == Done(file[..start] + (START + Join(kept)) + Spaces(pad) + file[end..])
  {
  }

  /** Replacing a stretch by an equally long one changes nothing exactly when they are the same. */
  lemma {:induction false} SameStretch(file: string, start: nat, end: nat, text: string, pad: string)
    requires start <= end <= |file| && |text + pad| == end - start
    ensures file[..start] + text + pad + file[end..] == file <==> file[start..end] == text + pad
  {
    var other := file[..start] + text + pad + file[end..];
    assert other[start..end] == text + pad;
    assert file == file[..start] + file[start..end] + file[end..];
    assert other == file[..start] + (text + pad) + file[end..];
  }

  /** The lines the second run keeps. */
  lemma {:induction false} AgainLines(file: string, args: Args, patched: string, start: nat, end: nat,
                                      kept: seq<string>, pad: nat)
    returns (again: seq<string>)
    requires Complete(args) && Clean(args) && NamedTests(args) && Ran(file, args, patched, start, end, kept, pad)
    ensures start <= end <= |patched| && NewLines(Lines(patched[start..end]), args) == Some(again)
    ensures |START + Join(again)| <= |START + Join(kept)| && |again| == |kept|
    ensures again == kept <==> StableLines(Lines(file[start..end]), args)
    ensures forall n :: 0 <= n < |kept| ==> NoNewline(kept[n]) && NoNewline(again[n])
  {
    RanOutside(file, args, patched, start, end, kept, pad);
    var lines := Lines(file[start..end]);
    KeptLinesAreSet(lines, args);
    LinesTwice(lines, args);
    ReadBack(kept, pad);
    ReadBackNew(kept, pad, args);
    KeptLinesAreSet(kept, args);
    again := NewLines(kept, args).value;
  }

  lemma {:induction false} RanAgain(file: string, args: Args, patched: string, start: nat, end: nat,
                                    kept: seq<string>, pad: nat)
    returns (twice: string)
    requires Complete(args) && Clean(args) && NamedTests(args) && Ran(file, args, patched, start, end, kept, pad)
    ensures Patch(patched, args) == Done(twice)
    ensures twice == patched <==> StableLines(Lines(file[start..end]), args)
  {
    RanOutside(file, args, patched, start, end, kept, pad);
    RanMarkers(file, args, patched, start, end, kept, pad);
    var again := AgainLines(file, args, patched, start, end, kept, pad);
    var pad' := end - start - |START + Join(again)|;
    RunFrom(patched, args, start, end, again, pad');
    twice := patched[..start] + (START + Join(again)) + Spaces(pad') + patched[end..];
    SameStretch(patched, start, end, START + Join(again), Spaces(pad'));
    SameWritten(again, pad', kept, pad);
  }

  lemma {:induction false} SameWritten(a: seq<string>, m: nat, b: seq<string>, n: nat)
    requires forall k :: 0 <= k < |a| ==> NoNewline(a[k])
    requires forall k :: 0 <= k < |b| ==> NoNewline(b[k])
    requires |a| == |b| && |START + Join(a)| + m == |START + Join(b)| + n
    ensures START + Join(a) + Spaces(m) == START + Join(b) + Spaces(n) <==> a == b
  {
    ReadBack(a, m);
    ReadBack(b, n);
    var x, y := [HEAD, ""] + a + [Spaces(m)], [HEAD, ""] + b + [Spaces(n)];
    if x == y {
      assert x[2..2 + |a|] == a && y[2..2 + |b|] == b;
    }
  }

  /** A name can reappear: taking fwts out of fwfwtsts leaves fwts. */
  lemma {:induction false} NameReappears()
    ensures RemoveEach("fwfwtsts", ["fwts"]) == "fwts" && OccursAny("fwts", ["fwts"])
  {
    var s, p := "fwfwtsts", "fwts";
    assert s[..4] == "fwfw" && s[1..][..4] == "wfwt" && s[2..][..4] == "fwts";
    assert s[1..][1..] == s[2..] && s[2..][4..] == "ts";
    assert RemoveAll("ts", p) == "ts" && RemoveAll(s[2..], p) == "ts";
    assert RemoveAll(s[1..], p) == "w" + "ts" && RemoveAll(s, p) == "f" + ("w" + "ts");
    assert [p][..0] == [] && RemoveEach(s, [p][..0]) == s;
    assert OccursAt(p, p, 0) && Occurs([p][0], [p][0]);
  }
}
