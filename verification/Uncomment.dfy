/** UncommentCode: removes a comment prefix from the first occurrence of a block of text. */
module Uncomment {
  import opened Common

  const NL: char := '\n'
  const CR: char := '\r'

  // ---------------------------------------------------------------- strings.Index

  predicate OccursAt(text: string, target: string, i: nat) {
    i + |target| <= |text| && text[i..i + |target|] == target
  }

  /** The first occurrence, None when there is none. */
  method Index(text: string, target: string) returns (at: Option<nat>)
    ensures at.Some? ==> OccursAt(text, target, at.value) && forall j: nat | j < at.value :: !OccursAt(text, target, j)
    ensures at.None? ==> forall j: nat :: !OccursAt(text, target, j)
  {
    if |target| > |text| {
      return None;
    }
    for i := 0 to |text| - |target| + 1
      invariant forall j: nat | j < i :: !OccursAt(text, target, j)
    {
      if text[i..i + |target|] == target {
        return Some(i);
      }
    }
    at := None;
  }

  // ---------------------------------------------------------------- bufio.ScanLines

  /** The position of the first newline, the length when there is none. */
  function LineEnd(s: string): (n: nat)
    ensures n <= |s| && NL !in s[..n] && (n < |s| ==> s[n] == NL)
  {
    if s == [] then 0
    else if s[0] == NL then 0
    else
      var n := 1 + LineEnd(s[1..]);
      assert s[..n] == [s[0]] + s[1..][..n - 1];
      n
  }

  function DropCR(line: string): string {
    if line != [] && line[|line| - 1] == CR then line[..|line| - 1] else line
  }

  /** The lines the scanner yields: split at newlines, one trailing carriage return dropped, and no empty
      line after a final newline. */
  function ScanLines(s: string): seq<string>
    decreases |s|
  {
    if s == [] then []
    else
      var n := LineEnd(s);
      [DropCR(s[..n])] + if n < |s| then ScanLines(s[n + 1..]) else []
  }

  function TrimPrefix(line: string, prefix: string): string {
    if prefix <= line then line[|prefix|..] else line
  }

  /** The trimmed lines with newlines between them. */
  function JoinTrimmed(lines: seq<string>, prefix: string): string {
    if lines == [] then []
    else if |lines| == 1 then TrimPrefix(lines[0], prefix)
    else JoinTrimmed(lines[..|lines| - 1], prefix) + [NL] + TrimPrefix(lines[|lines| - 1], prefix)
  }

  /** The rest of the text after its first line. */
  function AfterLine(s: string): string
    requires s != []
  {
    var n := LineEnd(s);
    if n < |s| then s[n + 1..] else []
  }

  function FirstLine(s: string): string {
    DropCR(s[..LineEnd(s)])
  }

  lemma ScanStep(s: string)
    requires s != []
    ensures ScanLines(s) == [FirstLine(s)] + ScanLines(AfterLine(s)) && |AfterLine(s)| < |s|
  {
  }

  lemma JoinTrimmedSnoc(lines: seq<string>, last: string, prefix: string)
    requires lines != []
    ensures JoinTrimmed(lines + [last], prefix) == JoinTrimmed(lines, prefix) + [NL] + TrimPrefix(last, prefix)
  {
    assert (lines + [last])[..|lines|] == lines;
  }

  /** The scanner loop: the trimmed lines of the target with newlines between them. */
  method TrimLines(target: string, prefix: string) returns (out: string)
    requires target != []
    ensures out == JoinTrimmed(ScanLines(target), prefix)
  {
    ScanStep(target);
    var line, rest := FirstLine(target), AfterLine(target);
    ghost var done := [line];
    out := TrimPrefix(line, prefix);
    while rest != []
      invariant done != [] && ScanLines(target) == done + ScanLines(rest)
      invariant out == JoinTrimmed(done, prefix)
      decreases |rest|
    {
      out := out + [NL];
      ScanStep(rest);
      line, rest := FirstLine(rest), AfterLine(rest);
      Associative(done, [line], ScanLines(rest));
      JoinTrimmedSnoc(done, line, prefix);
      out := out + TrimPrefix(line, prefix);
      done := done + [line];
    }
    assert done + [] == done;
  }

  /** What becomes of the file: an error, the file untouched, or the new content. */
  datatype Outcome = NotFound | Untouched | Written(content: string)

  ghost predicate FirstAt(content: string, target: string, idx: nat) {
    OccursAt(content, target, idx) && forall j: nat | j < idx :: !OccursAt(content, target, j)
  }

  /** The outcome: not found, untouched for an empty target, or the first occurrence replaced by its trimmed
      lines and everything around it unchanged. */
  ghost predicate IsOutcome(content: string, target: string, prefix: string, outcome: Outcome) {
    match outcome
    case NotFound => forall j: nat :: !OccursAt(content, target, j)
    case Untouched => target == []
    case Written(out) =>
      target != [] && exists idx: nat ::
        FirstAt(content, target, idx)
        && out == content[..idx] + JoinTrimmed(ScanLines(target), prefix) + content[idx + |target|..]
  }

  method UncommentCode(content: string, target: string, prefix: string) returns (outcome: Outcome)
    ensures IsOutcome(content, target, prefix, outcome)
  {
    var at := Index(content, target);
    if at.None? {
      return NotFound;
    }
    var out := content[..at.value];
    if target == [] {
      return Untouched;
    }
    var trimmed := TrimLines(target, prefix);
    out := out + trimmed + content[at.value + |target|..];
    outcome := Written(out);
    assert FirstAt(content, target, at.value);
  }

  // ---------------------------------------------------------------- the round trip

  /** A block as its lines, joined by newlines. */
  function Join(lines: seq<string>): string {
    if lines == [] then []
    else if |lines| == 1 then lines[0]
    else lines[0] + [NL] + Join(lines[1..])
  }

  /** Commenting puts the prefix in front of every line. */
  function Commented(lines: seq<string>, prefix: string): seq<string> {
    seq(|lines|, i requires 0 <= i < |lines| => prefix + lines[i])
  }

  predicate PlainLine(line: string) {
    NL !in line && (line == [] || line[|line| - 1] != CR)
  }

  lemma {:induction false} LineEndOf(line: string, rest: string)
    requires NL !in line && (rest == [] || rest[0] == NL)
    ensures LineEnd(line + rest) == |line|
    decreases |line|
  {
    if line == [] {
      assert line + rest == rest;
    } else {
      assert (line + rest)[1..] == line[1..] + rest;
      LineEndOf(line[1..], rest);
    }
  }

  lemma ScanOfLine(line: string)
    requires line != [] && NL !in line
    ensures ScanLines(line) == [DropCR(line)]
  {
    assert line + [] == line;
    LineEndOf(line, []);
    assert line[..|line|] == line;
  }

  lemma SplitAtNewline(line: string, rest: string)
    ensures var s := line + ([NL] + rest);
      |s| == |line| + 1 + |rest| && s[..|line|] == line && s[|line| + 1..] == rest
  {
  }

  lemma ScanOfLineAndRest(line: string, rest: string)
    requires NL !in line
    ensures ScanLines(line + ([NL] + rest)) == [DropCR(line)] + ScanLines(rest)
  {
    var s := line + ([NL] + rest);
    SplitAtNewline(line, rest);
    LineEndOf(line, [NL] + rest);
    ScanStep(s);
    assert FirstLine(s) == DropCR(line) && AfterLine(s) == rest;
  }

  lemma JoinHead(line: string, others: seq<string>)
    requires others != []
    ensures Join([line] + others) == line + ([NL] + Join(others))
  {
    assert ([line] + others)[1..] == others;
  }

  lemma ScanJoinedStep(line: string, others: seq<string>)
    requires PlainLine(line) && others != [] && ScanLines(Join(others)) == others
    ensures ScanLines(Join([line] + others)) == [line] + others
  {
    JoinHead(line, others);
    ScanOfLineAndRest(line, Join(others));
  }

  ghost predicate PlainLines(lines: seq<string>) {
    forall l | l in lines :: PlainLine(l)
  }

  lemma PlainHeadAndTail(lines: seq<string>)
    requires PlainLines(lines) && lines != []
    ensures PlainLine(lines[0]) && PlainLines(lines[1..]) && lines == [lines[0]] + lines[1..]
  {
    assert lines[0] in lines;
  }

  /** The scanner splits a joined block into its lines again. */
  lemma {:induction false} ScanJoined(lines: seq<string>)
    requires PlainLines(lines) && (lines != [] ==> lines[|lines| - 1] != [])
    ensures ScanLines(Join(lines)) == lines
    decreases |lines|
  {
    if lines != [] {
      PlainHeadAndTail(lines);
      var line, others := lines[0], lines[1..];
      if others == [] {
        ScanOfLine(line);
      } else {
        ScanJoined(others);
        ScanJoinedStep(line, others);
      }
    }
  }

  lemma {:induction false} JoinSnoc(lines: seq<string>, last: string)
    requires lines != []
    ensures Join(lines + [last]) == Join(lines) + [NL] + last
    decreases |lines|
  {
    if |lines| == 1 {
      assert (lines + [last])[1..] == [last];
    } else {
      JoinSnoc(lines[1..], last);
      assert (lines + [last])[1..] == lines[1..] + [last];
    }
  }

  lemma {:induction false} TrimmedCommented(lines: seq<string>, prefix: string)
    ensures JoinTrimmed(Commented(lines, prefix), prefix) == Join(lines)
    decreases |lines|
  {
    if lines != [] {
      var n := |lines| - 1;
      var init := lines[..n];
      assert Commented(lines, prefix)[..n] == Commented(init, prefix);
      assert TrimPrefix(prefix + lines[n], prefix) == lines[n];
      TrimmedCommented(init, prefix);
      if n > 0 {
        JoinSnoc(init, lines[n]);
        assert init + [lines[n]] == lines;
      }
    }
  }

  lemma CommentedIsPlain(lines: seq<string>, prefix: string)
    requires prefix != [] && NL !in prefix && PlainLines(lines)
    requires prefix[|prefix| - 1] != CR || forall l | l in lines :: l != []
    ensures PlainLines(Commented(lines, prefix))
  {
    forall i | 0 <= i < |lines|
      ensures PlainLine(prefix + lines[i])
    {
      assert lines[i] in lines;
    }
  }

  lemma CommentedScans(lines: seq<string>, prefix: string)
    requires lines != [] && PlainLines(lines)
    requires prefix != [] && NL !in prefix
    requires prefix[|prefix| - 1] != CR || forall l | l in lines :: l != []
    ensures JoinTrimmed(ScanLines(Join(Commented(lines, prefix))), prefix) == Join(lines)
  {
    CommentedIsPlain(lines, prefix);
    ScanJoined(Commented(lines, prefix));
    TrimmedCommented(lines, prefix);
  }

  lemma ThreeParts(before: string, target: string, after: string)
    ensures var content := before + target + after;
      && content[..|before|] == before
      && OccursAt(content, target, |before|)
      && content[|before| + |target|..] == after
  {
  }

  /** Commenting a block and uncommenting it restores the text: when the file reads before + commented block
      + after, and the commented block does not occur earlier, the file becomes before + block + after. */
  lemma UncommentRestores(before: string, lines: seq<string>, after: string, prefix: string, outcome: Outcome)
    requires lines != [] && PlainLines(lines)
    requires prefix != [] && NL !in prefix
    requires prefix[|prefix| - 1] != CR || forall l | l in lines :: l != []
    requires var target := Join(Commented(lines, prefix));
      && (forall j: nat | j < |before| :: !OccursAt(before + target + after, target, j))
      && IsOutcome(before + target + after, target, prefix, outcome)
    ensures outcome == Written(before + Join(lines) + after)
  {
    var target := Join(Commented(lines, prefix));
    var content := before + target + after;
    CommentedScans(lines, prefix);
    CommentedNotEmpty(lines, prefix);
    ThreeParts(before, target, after);
    var idx: nat :| FirstAt(content, target, idx) && outcome.Written?
      && outcome.content == content[..idx] + JoinTrimmed(ScanLines(target), prefix) + content[idx + |target|..];
    assert idx == |before|;
  }

  lemma CommentedNotEmpty(lines: seq<string>, prefix: string)
    requires lines != [] && prefix != []
    ensures Join(Commented(lines, prefix)) != []
  {
    assert Commented(lines, prefix)[0] == prefix + lines[0];
  }

  // ---------------------------------------------------------------- what the scanner loses

  /** The text ends in a newline. */
  predicate EndsInNewline(s: string) {
    s != [] && s[|s| - 1] == NL
  }

  predicate LineEndingCR(s: string, i: nat) {
    i < |s| && s[i] == CR && (i + 1 == |s| || s[i + 1] == NL)
  }

  /** A carriage return stands before a newline or at the end. */
  predicate HasLineEndingCR(s: string) {
    exists i: nat | i < |s| :: LineEndingCR(s, i)
  }

  lemma FirstLineShrinks(s: string)
    ensures var n := LineEnd(s);
      |FirstLine(s)| <= n && (FirstLine(s) == s[..n] <==> n == 0 || s[n - 1] != CR)
  {
  }

  lemma LaterLineEndingCR(s: string, n: nat, i: nat)
    requires n < |s|
    ensures LineEndingCR(s, n + 1 + i) <==> LineEndingCR(s[n + 1..], i)
  {
  }

  lemma EarlierLineEndingCR(s: string, i: nat)
    requires i <= LineEnd(s) < |s|
    ensures LineEndingCR(s, i) <==> i + 1 == LineEnd(s) && s[i] == CR
  {
    var n := LineEnd(s);
    if i + 1 < n {
      assert s[..n][i + 1] == s[i + 1];
    }
  }

  /** Both defects, seen from the first line of a text with more than one. */
  lemma DefectsOfRest(s: string)
    requires LineEnd(s) < |s|
    ensures var n := LineEnd(s); var rest := s[n + 1..];
      && (EndsInNewline(s) <==> rest == [] || EndsInNewline(rest))
      && (HasLineEndingCR(s) <==> (n > 0 && s[n - 1] == CR) || HasLineEndingCR(rest))
  {
    var n := LineEnd(s);
    var rest := s[n + 1..];
    if HasLineEndingCR(rest) {
      var i: nat :| i < |rest| && LineEndingCR(rest, i);
      LaterLineEndingCR(s, n, i);
    }
    if HasLineEndingCR(s) {
      var i: nat :| i < |s| && LineEndingCR(s, i);
      if i > n {
        LaterLineEndingCR(s, n, i - n - 1);
      } else {
        EarlierLineEndingCR(s, i);
      }
    }
    if n > 0 && s[n - 1] == CR {
      EarlierLineEndingCR(s, n - 1);
    }
  }

  lemma DefectsOfLine(s: string)
    requires s != [] && LineEnd(s) == |s|
    ensures !EndsInNewline(s) && (HasLineEndingCR(s) <==> s[|s| - 1] == CR)
  {
    assert s[..|s|] == s;
    if s[|s| - 1] == CR {
      assert LineEndingCR(s, |s| - 1);
    }
  }

  lemma LosslessLine(s: string)
    requires s != [] && LineEnd(s) == |s|
    ensures Join(ScanLines(s)) == FirstLine(s)
    ensures |FirstLine(s)| <= |s| && (FirstLine(s) == s <==> !HasLineEndingCR(s)) && !EndsInNewline(s)
  {
    FirstLineShrinks(s);
    DefectsOfLine(s);
    assert s[..|s|] == s;
    assert ScanLines(s) == [FirstLine(s)];
  }

  lemma ScanNothing(s: string)
    ensures ScanLines(s) == [] <==> s == []
  {
  }

  lemma JoinOfLines(s: string)
    requires s != []
    ensures Join(ScanLines(s)) ==
      if AfterLine(s) == [] then FirstLine(s) else FirstLine(s) + ([NL] + Join(ScanLines(AfterLine(s))))
  {
    ScanStep(s);
    ScanNothing(AfterLine(s));
    if AfterLine(s) != [] {
      JoinHead(FirstLine(s), ScanLines(AfterLine(s)));
    }
  }

  /** Two parts that are not longer than the originals give the original text only when both are unchanged. */
  lemma JoinOfTwo(s: string, line: string, rest: string, n: nat)
    requires n < |s| && s[n] == NL && |line| <= n && |rest| <= |s| - n - 1
    ensures line + ([NL] + rest) == s <==> line == s[..n] && rest == s[n + 1..]
  {
    var all := line + ([NL] + rest);
    if line == s[..n] && rest == s[n + 1..] {
      assert s == s[..n] + ([NL] + s[n + 1..]);
    }
    if all == s {
      SplitAtNewline(line, rest);
    }
  }

  /** Joining the lines again never lengthens a text, and gives it back exactly when it has neither defect. */
  ghost predicate LosslessIff(s: string) {
    && |Join(ScanLines(s))| <= |s|
    && (Join(ScanLines(s)) == s <==> !EndsInNewline(s) && !HasLineEndingCR(s))
  }

  lemma LosslessLastLine(s: string)
    requires LineEnd(s) < |s| && AfterLine(s) == []
    ensures LosslessIff(s)
  {
    FirstLineShrinks(s);
    DefectsOfRest(s);
    JoinOfLines(s);
    assert Join(ScanLines(s)) == FirstLine(s);
  }

  /** Whether the first line is given back, and whether the rest is. */
  lemma RestoredParts(s: string, joined: string)
    requires LineEnd(s) < |s| && |joined| <= |AfterLine(s)|
    ensures var all := FirstLine(s) + ([NL] + joined); var n := LineEnd(s);
      |all| <= |s| && (all == s <==> (n == 0 || s[n - 1] != CR) && joined == AfterLine(s))
  {
    FirstLineShrinks(s);
    JoinOfTwo(s, FirstLine(s), joined, LineEnd(s));
  }

  lemma LosslessMoreLines(s: string)
    requires LineEnd(s) < |s| && AfterLine(s) != [] && LosslessIff(AfterLine(s))
    ensures LosslessIff(s)
  {
    var joined := Join(ScanLines(AfterLine(s)));
    DefectsOfRest(s);
    RestoredParts(s, joined);
    var all := Join(ScanLines(s));
    assert all == FirstLine(s) + ([NL] + joined) by {
      JoinOfLines(s);
    }
  }

  lemma {:induction false} ScanIsLosslessIff(s: string)
    ensures LosslessIff(s)
    decreases |s|
  {
    if s == [] {
    } else if LineEnd(s) == |s| {
      LosslessLine(s);
    } else {
      ScanIsLosslessIff(AfterLine(s));
      if AfterLine(s) == [] {
        LosslessLastLine(s);
      } else {
        LosslessMoreLines(s);
      }
    }
  }

  /** Uncommenting with an empty prefix, that is the scanner's own effect, restores the target exactly when it
      neither ends in a newline nor has a carriage return at its end or directly before a newline. */
  lemma ScannerRestoresIff(s: string)
    ensures JoinTrimmed(ScanLines(s), "") == s <==> !EndsInNewline(s) && !HasLineEndingCR(s)
  {
    var lines := ScanLines(s);
    assert Commented(lines, "") == lines by {
      forall i | 0 <= i < |lines|
        ensures "" + lines[i] == lines[i]
      {
      }
    }
    TrimmedCommented(lines, "");
    ScanIsLosslessIff(s);
  }

  /** The lines that a further newline adds. */
  function AddedLines(s: string): seq<string> {
    if EndsInNewline(s) then [""] else []
  }

  lemma FinalNewlineOfLine(line: string)
    requires NL !in line
    ensures ScanLines(line + [NL]) == [DropCR(line)]
  {
    ScanOfLineAndRest(line, []);
    assert line + ([NL] + []) == line + [NL];
  }

  lemma AppendNewline(line: string, rest: string)
    ensures line + ([NL] + rest) + [NL] == line + ([NL] + (rest + [NL]))
  {
  }

  lemma FinalNewlineOfLines(line: string, rest: string)
    requires NL !in line && rest != [] && ScanLines(rest + [NL]) == ScanLines(rest) + AddedLines(rest)
    ensures var s := line + ([NL] + rest);
      ScanLines(s + [NL]) == ScanLines(s) + AddedLines(rest)
  {
    AppendNewline(line, rest);
    ScanOfLineAndRest(line, rest);
    ScanOfLineAndRest(line, rest + [NL]);
    Associative([DropCR(line)], ScanLines(rest), AddedLines(rest));
  }

  lemma FinalNewlineOfEmptyLine(line: string)
    requires NL !in line
    ensures var s := line + [NL];
      ScanLines(s + [NL]) == ScanLines(s) + [""]
  {
    FinalNewlineOfLine(line);
    FinalNewlineOfLine([]);
    ScanOfLineAndRest(line, [] + [NL]);
    assert line + [NL] + [NL] == line + ([NL] + ([] + [NL]));
  }

  /** A final newline is lost: it adds no line, except an empty one after another newline. */
  lemma {:induction false} FinalNewlineIsLost(s: string)
    requires s != []
    ensures ScanLines(s + [NL]) == ScanLines(s) + AddedLines(s)
    decreases |s|
  {
    var n := LineEnd(s);
    var line := s[..n];
    if n == |s| {
      DefectsOfLine(s);
      assert line == s;
      ScanOfLine(line);
      FinalNewlineOfLine(line);
    } else {
      var rest := s[n + 1..];
      DefectsOfRest(s);
      if rest == [] {
        assert s == line + [NL];
        FinalNewlineOfEmptyLine(line);
      } else {
        assert s == line + ([NL] + rest);
        FinalNewlineIsLost(rest);
        FinalNewlineOfLines(line, rest);
      }
    }
  }

  // ---------------------------------------------------------------- lines without the prefix

  /** The prefix goes once from the start of a line that has it; any other line is kept. */
  lemma PrefixIsTrimmedOnce(line: string, prefix: string)
    ensures prefix <= line ==> prefix + TrimPrefix(line, prefix) == line
    ensures !(prefix <= line) ==> TrimPrefix(line, prefix) == line
  {
  }

  /** A block none of whose lines has the prefix is written as the scanner reads it. */
  lemma {:induction false} OtherLinesAreKept(lines: seq<string>, prefix: string)
    requires forall i | 0 <= i < |lines| :: !(prefix <= lines[i])
    ensures JoinTrimmed(lines, prefix) == Join(lines)
    decreases |lines|
  {
    if lines != [] {
      var init, last := lines[..|lines| - 1], lines[|lines| - 1];
      assert lines == init + [last];
      OtherLinesAreKept(init, prefix);
      if init != [] {
        JoinSnoc(init, last);
      }
    }
  }
}
