/** The string operations the configuration patcher uses. */
module Text {
  import opened Options

  predicate OccursAt(s: string, p: string, i: nat) {
    i + |p| <= |s| && s[i..i + |p|] == p
  }

  predicate Occurs(s: string, p: string) {
    exists i: nat :: i <= |s| && OccursAt(s, p, i)
  }

  /** The first position from i on where p occurs. */
  function FirstFrom(s: string, p: string, i: nat): (r: Option<nat>)
    requires i <= |s|
    ensures r.Some? ==> i <= r.value && OccursAt(s, p, r.value) && forall j :: i <= j < r.value ==> !OccursAt(s, p, j)
    ensures r.None? ==> forall j :: i <= j ==> !OccursAt(s, p, j)
    decreases |s| - i
  {
    if OccursAt(s, p, i) then Some(i) else if i == |s| then None else FirstFrom(s, p, i + 1)
  }

  /** s.replace(p, ''): the occurrences found from the left, without overlap, disappear. */
  function RemoveAll(s: string, p: string): (r: string)
    ensures r == s || |r| < |s|
  {
    if p == "" || |s| < |p| then s
    else if s[..|p|] == p then RemoveAll(s[|p|..], p)
    else
      assert s == [s[0]] + s[1..];
      [s[0]] + RemoveAll(s[1..], p)
  }

  /** Removing changes nothing exactly when there is nothing to remove. */
  lemma {:induction false} RemoveNothingIff(s: string, p: string)
    requires p != ""
    ensures RemoveAll(s, p) == s <==> !Occurs(s, p)
  {
    if |s| < |p| {
    } else if s[..|p|] == p {
      assert OccursAt(s, p, 0);
    } else {
      RemoveNothingIff(s[1..], p);
      assert s == [s[0]] + s[1..];
      OccursLater(s, p);
    }
  }

  lemma {:induction false} OccursLater(s: string, p: string)
    requires |s| > 0 && !OccursAt(s, p, 0)
    ensures Occurs(s, p) <==> Occurs(s[1..], p)
  {
    if i: nat :| i <= |s[1..]| && OccursAt(s[1..], p, i) {
      assert OccursAt(s, p, i + 1);
    }
    if i: nat :| i <= |s| && OccursAt(s, p, i) {
      assert OccursAt(s[1..], p, i - 1);
    }
  }

  /** Position k is the first one where p occurs. */
  ghost predicate FirstAt(s: string, p: string, k: nat) {
    OccursAt(s, p, k) && forall j :: 0 <= j < k ==> !OccursAt(s, p, j)
  }

  /** r is s without the occurrences of p, found from the left without overlap; an empty p takes nothing. */
  predicate TakenOut(s: string, p: string, r: string)
    decreases |s|
  {
    var first := FirstFrom(s, p, 0);
    if p == "" || first.None? then r == s
    else
      var k := first.value;
      k <= |r| && r[..k] == s[..k] && TakenOut(s[k + |p|..], p, r[k..])
  }

  lemma {:induction false} OccursShift(s: string, p: string, j: nat)
    requires |s| > 0
    ensures OccursAt(s[1..], p, j) <==> OccursAt(s, p, j + 1)
  {
    if j + |p| <= |s[1..]| {
      assert s[1..][j..j + |p|] == s[j + 1..j + 1 + |p|];
    }
  }

  lemma {:induction false} FirstShift(s: string, p: string, k: nat)
    requires k > 0 && FirstAt(s, p, k)
    ensures FirstAt(s[1..], p, k - 1)
  {
    OccursShift(s, p, k - 1);
    forall j | 0 <= j < k - 1
      ensures !OccursAt(s[1..], p, j)
    {
      OccursShift(s, p, j);
    }
  }

  lemma {:induction false} DropOne(s: string, k: nat, m: nat)
    requires 0 < k <= m <= |s|
    ensures s[1..][m - 1..] == s[m..] && [s[0]] + s[1..][..k - 1] == s[..k]
  {}

  lemma {:induction false} Regroup(a: string, b: string, c: string, front: string)
    requires a + b == front
    ensures a + (b + c) == front + c
  {}

  lemma {:induction false} AtStart(s: string, p: string)
    ensures OccursAt(s, p, 0) <==> |p| <= |s| && s[..|p|] == p
  {}

  lemma {:induction false} RemoveHere(s: string, p: string)
    requires p != "" && OccursAt(s, p, 0)
    ensures RemoveAll(s, p) == RemoveAll(s[|p|..], p)
  {
    AtStart(s, p);
  }

  lemma {:induction false} RemoveLater(s: string, p: string)
    requires p != "" && |s| > 0 && !OccursAt(s, p, 0)
    ensures RemoveAll(s, p) == [s[0]] + RemoveAll(s[1..], p)
  {
    AtStart(s, p);
    assert s == [s[0]] + s[1..];
  }

  /** Up to the first occurrence nothing changes, and what follows it is treated alike. */
  lemma {:induction false} RemoveAllFirst(s: string, p: string, k: nat, rest: string)
    requires p != "" && FirstAt(s, p, k) && rest == s[k + |p|..]
    ensures RemoveAll(s, p) == s[..k] + RemoveAll(rest, p)
    decreases k
  {
    if k == 0 {
      RemoveHere(s, p);
      assert s[..0] == "";
    } else {
      var tail := s[1..];
      RemoveLater(s, p);
      FirstShift(s, p, k);
      DropOne(s, k, k + |p|);
      RemoveAllFirst(tail, p, k - 1, rest);
      Regroup([s[0]], tail[..k - 1], RemoveAll(rest, p), s[..k]);
    }
  }

  lemma {:induction false} FrontAndRest(front: string, rest: string, r: string)
    ensures r == front + rest <==> |front| <= |r| && r[..|front|] == front && r[|front|..] == rest
  {}

  /** str.replace with an empty replacement takes out exactly the occurrences found from the left. */
  lemma {:induction false} RemoveAllIff(s: string, p: string, r: string)
    ensures TakenOut(s, p, r) <==> r == RemoveAll(s, p)
    decreases |s|
  {
    var first := FirstFrom(s, p, 0);
    if p == "" {
    } else if first.None? {
      assert !Occurs(s, p);
      RemoveNothingIff(s, p);
    } else {
      var k := first.value;
      var rest := s[k + |p|..];
      RemoveAllFirst(s, p, k, rest);
      FrontAndRest(s[..k], RemoveAll(rest, p), r);
      if k <= |r| {
        RemoveAllIff(rest, p, r[k..]);
      }
    }
  }

  /** Remove several strings one after the other. */
  function RemoveEach(s: string, ps: seq<string>): (r: string)
    ensures r == s || |r| < |s|
  {
    if |ps| == 0 then s else RemoveAll(RemoveEach(s, ps[..|ps| - 1]), ps[|ps| - 1])
  }

  /** r is what is left of s when the strings have been taken out one after the other. */
  ghost predicate AllTakenOut(s: string, ps: seq<string>, r: string)
    decreases |ps|
  {
    if |ps| == 0 then r == s
    else exists t :: TakenOut(s, ps[0], t) && AllTakenOut(t, ps[1..], r)
  }

  lemma {:induction false} RemoveFirst(s: string, ps: seq<string>)
    requires |ps| > 0
    ensures RemoveEach(s, ps) == RemoveEach(RemoveAll(s, ps[0]), ps[1..])
  {
    var n := |ps| - 1;
    if n > 0 {
      RemoveFirst(s, ps[..n]);
      assert ps[..n][0] == ps[0] && ps[..n][1..] == ps[1..][..n - 1] && ps[1..][n - 1] == ps[n];
    } else {
      assert ps[..0] == [] && ps[1..] == [];
    }
  }

  lemma {:induction false} RemoveEachIff(s: string, ps: seq<string>, r: string)
    ensures AllTakenOut(s, ps, r) <==> r == RemoveEach(s, ps)
    decreases |ps|
  {
    if |ps| > 0 {
      var t := RemoveAll(s, ps[0]);
      RemoveFirst(s, ps);
      RemoveAllIff(s, ps[0], t);
      RemoveEachIff(t, ps[1..], r);
      forall other: string | TakenOut(s, ps[0], other)
        ensures other == t
      {
        RemoveAllIff(s, ps[0], other);
      }
    }
  }

  predicate OccursAny(s: string, ps: seq<string>) {
    exists k :: 0 <= k < |ps| && Occurs(s, ps[k])
  }

  lemma {:induction false} RemoveEachNothingIff(s: string, ps: seq<string>)
    requires forall k :: 0 <= k < |ps| ==> ps[k] != ""
    ensures RemoveEach(s, ps) == s <==> !OccursAny(s, ps)
  {
    if |ps| > 0 {
      var front, last := ps[..|ps| - 1], ps[|ps| - 1];
      RemoveEachNothingIff(s, front);
      RemoveNothingIff(s, last);
      if OccursAny(s, front) {
        var k :| 0 <= k < |front| && Occurs(s, front[k]);
        assert Occurs(s, ps[k]);
      } else {
        assert forall k :: 0 <= k < |ps| && Occurs(s, ps[k]) ==> k == |ps| - 1 || Occurs(s, front[k]);
        assert Occurs(s, ps[|ps| - 1]) ==> OccursAny(s, ps);
      }
    }
  }

  function LowerChar(c: char): char {
    if 'A' <= c <= 'Z' then (c as int + 32) as char else c
  }

  function Lower(s: string): (r: string)
    ensures |r| == |s|
  {
    if |s| == 0 then "" else [LowerChar(s[0])] + Lower(s[1..])
  }

  /** Capital letters become small ones, every other character stays. */
  ghost predicate Lowered(s: string, r: string) {
    |r| == |s| &&
    forall i :: 0 <= i < |s| ==>
                  if 'A' <= s[i] <= 'Z' then r[i] as int - 'a' as int == s[i] as int - 'A' as int else r[i] == s[i]
  }

  lemma {:induction false} LowerAt(s: string, i: nat)
    requires i < |s|
    ensures Lower(s)[i] == LowerChar(s[i])
  {
    if i > 0 {
      LowerAt(s[1..], i - 1);
    }
  }

  lemma {:induction false} LowerIff(s: string, r: string)
    ensures Lowered(s, r) <==> r == Lower(s)
  {
    forall i | 0 <= i < |s|
      ensures Lower(s)[i] == LowerChar(s[i])
    {
      LowerAt(s, i);
    }
  }

  lemma {:induction false} LowerTwice(s: string)
    ensures Lower(Lower(s)) == Lower(s)
  {
    if |s| > 0 {
      LowerTwice(s[1..]);
      assert Lower(s)[1..] == Lower(s[1..]);
    }
  }

  predicate NoNewline(s: string) {
    '\n' !in s
  }

  lemma {:induction false} LowerNoNewline(s: string)
    requires NoNewline(s)
    ensures NoNewline(Lower(s))
  {
    if |s| > 0 {
      LowerNoNewline(s[1..]);
    }
  }

  lemma {:induction false} RemoveAllNoNewline(s: string, p: string)
    requires NoNewline(s)
    ensures NoNewline(RemoveAll(s, p))
  {
    if p == "" || |s| < |p| {
    } else if s[..|p|] == p {
      RemoveAllNoNewline(s[|p|..], p);
    } else {
      RemoveAllNoNewline(s[1..], p);
    }
  }

  lemma {:induction false} RemoveEachNoNewline(s: string, ps: seq<string>)
    requires NoNewline(s)
    ensures NoNewline(RemoveEach(s, ps))
  {
    if |ps| > 0 {
      RemoveEachNoNewline(s, ps[..|ps| - 1]);
      RemoveAllNoNewline(RemoveEach(s, ps[..|ps| - 1]), ps[|ps| - 1]);
    }
  }

  /** s.split('\n'). */
  function Lines(s: string): (lines: seq<string>)
    ensures |lines| > 0 && forall k :: 0 <= k < |lines| ==> NoNewline(lines[k])
  {
    if |s| == 0 then [""]
    else if s[0] == '\n' then [""] + Lines(s[1..])
    else
      var rest := Lines(s[1..]);
      [[s[0]] + rest[0]] + rest[1..]
  }

  /** A line and its end come off the front. */
  lemma {:induction false} LinesOfLine(line: string, tail: string)
    requires NoNewline(line)
    ensures Lines(line + "\n" + tail) == [line] + Lines(tail)
  {
    var s := line + "\n" + tail;
    if |line| == 0 {
      assert s[1..] == tail;
    } else {
      assert s[1..] == line[1..] + "\n" + tail;
      LinesOfLine(line[1..], tail);
      assert [line[0]] + line[1..] == line;
    }
  }

  lemma {:induction false} LinesOfOne(line: string)
    requires NoNewline(line)
    ensures Lines(line) == [line]
  {
    if |line| > 0 {
      LinesOfOne(line[1..]);
      assert [line[0]] + line[1..] == line;
    }
  }

  /** Every line followed by its end. */
  function Join(lines: seq<string>): string {
    if |lines| == 0 then "" else lines[0] + "\n" + Join(lines[1..])
  }

  lemma {:induction false} HeadAndRest(lines: seq<string>, more: seq<string>)
    requires |lines| > 0
    ensures [lines[0]] + (lines[1..] + more) == lines + more
  {
  }

  /** Splitting what was joined, with a tail, gives the lines back. */
  lemma {:induction false} LinesOfJoin(lines: seq<string>, tail: string)
    requires forall k :: 0 <= k < |lines| ==> NoNewline(lines[k])
    ensures Lines(Join(lines) + tail) == lines + Lines(tail)
  {
    if |lines| == 0 {
      assert Join(lines) + tail == tail;
    } else {
      var rest := Join(lines[1..]) + tail;
      assert Join(lines) + tail == lines[0] + "\n" + rest;
      LinesOfLine(lines[0], rest);
      LinesOfJoin(lines[1..], tail);
      HeadAndRest(lines, Lines(tail));
    }
  }

  lemma {:induction false} JoinAppend(lines: seq<string>, line: string)
    ensures Join(lines + [line]) == Join(lines) + line + "\n"
  {
    if |lines| > 0 {
      assert (lines + [line])[1..] == lines[1..] + [line];
      JoinAppend(lines[1..], line);
    }
  }

  function Spaces(n: nat): (s: string)
    ensures |s| == n && forall k :: 0 <= k < n ==> s[k] == ' '
  {
    if n == 0 then "" else Spaces(n - 1) + " "
  }
}
