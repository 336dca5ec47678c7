/** Reading the segments of an m3u8 playlist and rewriting them in place. */
module Playlist {
  import opened Text

  // ---- Lines ----

  const MAX_TOKEN_SIZE := 65536

  /** The bytes of a character in UTF-8. */
  function Width(c: char): nat {
    if c < '\U{80}' then 1 else if c < '\U{800}' then 2 else if c < '\U{10000}' then 3 else 4
  }

  /** UTF-8 (RFC 3629) has 7 bits for a code point in one byte, 11 in two, 16 in three, and needs four
      for all others. */
  lemma WidthIff(c: char)
    ensures 1 <= Width(c) <= 4
    ensures (Width(c) <= 1 <==> c as int < 128) && (Width(c) <= 2 <==> c as int < 2048) && (Width(c) <= 3 <==> c as int < 65536)
  {
  }

  function Size(s: string): nat {
    if s == "" then 0 else Width(s[0]) + Size(s[1..])
  }

  /** The lines of a text; what follows the last newline is one only if it is not empty. */
  function RawLines(text: string): seq<string> {
    var parts := Split(text, '\n');
    if parts[|parts| - 1] == "" then parts[..|parts| - 1] else parts
  }

  /** How many lines the scanner hands out before it meets one that does not fit its buffer. */
  function Readable(lines: seq<string>): (n: nat)
    ensures n <= |lines|
    ensures forall i | 0 <= i < n :: Size(lines[i]) < MAX_TOKEN_SIZE
    ensures n < |lines| ==> Size(lines[n]) >= MAX_TOKEN_SIZE
  {
    if lines == [] || Size(lines[0]) >= MAX_TOKEN_SIZE then 0 else 1 + Readable(lines[1..])
  }

  function DropCR(line: string): string {
    if line != "" && line[|line| - 1] == '\r' then line[..|line| - 1] else line
  }

  /** The lines that `bufio.Scanner` yields, and whether it then stops with an error. */
  function Scan(text: string): (seq<string>, bool) {
    var raw := RawLines(text);
    var n := Readable(raw);
    (seq(n, i requires 0 <= i < n => DropCR(raw[i])), n < |raw|)
  }

  /** Neither blank nor a tag or comment. */
  predicate IsSegment(line: string) {
    line != "" && !HasPrefix(line, "#")
  }

  /** The segments among some lines, in order. */
  function SegmentsOf(lines: seq<string>): seq<string> {
    if lines == [] then []
    else
      var line := TrimSpace(lines[|lines| - 1]);
      SegmentsOf(lines[..|lines| - 1]) + (if IsSegment(line) then [line] else [])
  }

  // ---- What the lines and segments of a text are ----

  /** Lines end at newlines, and what follows the last one is a line if it is not empty. */
  lemma RawLinesOfText(lines: seq<string>, last: string)
    requires '\n' !in last && forall i | 0 <= i < |lines| :: '\n' !in lines[i]
    ensures RawLines(Join(lines) + last) == lines + if last == "" then [] else [last]
  {
    JoinLines(lines, last);
    SplitWithout(last, '\n');
    var parts := Split(Join(lines) + last, '\n');
    assert parts == lines + [last];
    assert parts[..|parts| - 1] == lines;
  }

  /** One carriage return before the newline belongs to the line's end. */
  lemma CarriageReturns(line: string)
    ensures DropCR(line + "\r") == line
    ensures (line == "" || line[|line| - 1] != '\r') ==> DropCR(line) == line
  {
    assert (line + "\r")[..|line|] == line;
  }

  /** The scanner hands out the lines before the first of 65536 bytes or more, and fails if and only if
      there is one. */
  lemma ScanStopsAt(text: string)
    ensures var raw, (lines, tooLong) := RawLines(text), Scan(text);
            && |lines| <= |raw| && (forall i | 0 <= i < |lines| :: Size(raw[i]) < 65536 && lines[i] == DropCR(raw[i]))
            && (tooLong <==> |lines| < |raw|) && (tooLong ==> Size(raw[|lines|]) >= 65536)
  {
    hide Size, RawLines, DropCR;
  }

  /** Characters of ASCII count one byte. */
  lemma {:induction false} SizeOfAscii(s: string)
    requires forall i | 0 <= i < |s| :: s[i] < '\U{80}'
    ensures Size(s) == |s|
  {
    if s != "" { SizeOfAscii(s[1..]); }
  }

  lemma {:induction false} SizeSum(a: string, b: string)
    ensures Size(a + b) == Size(a) + Size(b)
  {
    if a == "" {
      assert a + b == b;
    } else {
      SizeSum(a[1..], b);
      assert (a + b)[1..] == a[1..] + b;
    }
  }

  /** A line is a segment if and only if, trimmed, it is neither empty nor begins with '#'; then the
      segment is the trimmed line. */
  lemma SegmentOfLine(line: string)
    ensures var text := TrimSpace(line);
            SegmentsOf([line]) == if text != "" && text[0] != '#' then [text] else []
  {
    hide TrimSpace;
    LastSegment([line]);
    assert SegmentsOf([line][..0]) == [];
  }

  lemma {:induction false} SegmentsSum(a: seq<string>, b: seq<string>)
    ensures SegmentsOf(a + b) == SegmentsOf(a) + SegmentsOf(b)
  {
    hide TrimSpace, IsSegment;
    if b == [] {
      assert a + b == a && SegmentsOf(b) == [];
    } else {
      hide SegmentsOf;
      LastSegment(a + b);
      LastSegment(b);
      assert (a + b)[..|a + b| - 1] == a + b[..|b| - 1];
      SegmentsSum(a, b[..|b| - 1]);
    }
  }

  // ---- Reading ----

  datatype Verdict = Continue | Stop | Fail(message: string)

  /** What a callback, which may remember the segments it was shown, lets through: the segments up
      to and including the first at which it does not continue, and its verdict on the last. */
  function Shown(segments: seq<string>, callback: seq<string> -> Verdict): (r: (seq<string>, Verdict))
    ensures r.0 <= segments && (r.1.Continue? ==> r.0 == segments)
  {
    if segments == [] then ([], Continue)
    else
      var (before, verdict) := Shown(segments[..|segments| - 1], callback);
      if verdict.Continue? then (segments, callback(segments)) else (before, verdict)
  }

  lemma SegmentsStep(lines: seq<string>, i: nat)
    requires i < |lines|
    ensures SegmentsOf(lines[..i + 1]) ==
            SegmentsOf(lines[..i]) + (if IsSegment(TrimSpace(lines[i])) then [TrimSpace(lines[i])] else [])
  {
    hide TrimSpace;
    assert lines[..i + 1][..i] == lines[..i];
  }

  lemma ShownStep(segments: seq<string>, line: string, callback: seq<string> -> Verdict)
    requires Shown(segments, callback).1.Continue?
    ensures Shown(segments + [line], callback) == (segments + [line], callback(segments + [line]))
  {
    assert (segments + [line])[..|segments|] == segments;
  }

  method RangeSegments(text: string, callback: seq<string> -> Verdict) returns (shown: seq<string>, r: Result<bool>)
    ensures var segments := SegmentsOf(Scan(text).0);
            && shown == Shown(segments, callback).0
            && (r.Ok? <==> Shown(segments, callback).1.Stop? || (Shown(segments, callback).1.Continue? && !Scan(text).1))
  {
    hide Scan, Shown, SegmentsOf, TrimSpace;
    var (lines, tooLong) := Scan(text);
    shown := [];
    NothingShown(lines, callback);
    for i := 0 to |lines|
      invariant Shown(shown, callback) == (shown, Continue) && shown == SegmentsOf(lines[..i])
    {
      var line := TrimSpace(lines[i]);
      SegmentsStep(lines, i);
      if IsSegment(line) {
        ShownStep(shown, line, callback);
        shown := shown + [line];
        var verdict := callback(shown);
        if !verdict.Continue? {
          ShownStays(lines, i + 1, callback);
          return shown, if verdict.Fail? then Err(verdict.message) else Ok(true);
        }
      }
    }
    assert lines[..|lines|] == lines;
    return shown, if tooLong then Err("token too long") else Ok(true);
  }

  /** The callback is shown the segments up to the first at which it does not continue, and nothing
      after it. */
  lemma {:induction false} ShownMeans(segments: seq<string>, callback: seq<string> -> Verdict)
    ensures var (shown, verdict) := Shown(segments, callback);
            && shown == segments[..|shown|]
            && (forall k | 0 < k < |shown| :: callback(segments[..k]).Continue?)
            && verdict == (if shown == [] then Continue else callback(shown))
            && (|shown| < |segments| ==> shown != [] && !verdict.Continue?)
  {
    if segments != [] {
      var init := segments[..|segments| - 1];
      ShownMeans(init, callback);
      var (shown, verdict) := Shown(init, callback);
      assert forall k | 0 <= k <= |init| :: init[..k] == segments[..k];
      assert segments[..|segments|] == segments;
      assert verdict.Continue? ==> shown == init;
    }
  }

  lemma NothingShown(lines: seq<string>, callback: seq<string> -> Verdict)
    ensures Shown([], callback) == ([], Continue) && SegmentsOf(lines[..0]) == []
  {
  }

  /** Once the callback has stopped, later lines make no difference. */
  lemma {:induction false} ShownStays(lines: seq<string>, i: nat, callback: seq<string> -> Verdict)
    requires i <= |lines| && !Shown(SegmentsOf(lines[..i]), callback).1.Continue?
    ensures Shown(SegmentsOf(lines), callback) == Shown(SegmentsOf(lines[..i]), callback)
    decreases |lines| - i
  {
    hide SegmentsOf, TrimSpace;
    if i == |lines| {
      assert lines[..i] == lines;
    } else {
      SegmentsStep(lines, i);
      var now, next := SegmentsOf(lines[..i]), SegmentsOf(lines[..i + 1]);
      if next != now { assert next[..|next| - 1] == now; }
      ShownStays(lines, i + 1, callback);
    }
  }

  // ---- Rewriting ----

  /** Each line trimmed, with every segment replaced by what the callback answers. */
  function Rewrite(lines: seq<string>, callback: seq<string> -> Result<string>): (r: Result<seq<string>>)
    ensures r.Ok? ==> |r.value| == |lines|
  {
    if lines == [] then Ok([])
    else
      match Rewrite(lines[..|lines| - 1], callback)
      case Err(message) => Err(message)
      case Ok(done) =>
        var line := TrimSpace(lines[|lines| - 1]);
        if IsSegment(line) then
          match callback(SegmentsOf(lines))
          case Err(message) => Err(message)
          case Ok(segment) => Ok(done + [segment])
        else Ok(done + [line])
  }

  /** The lines with a newline after each. */
  function Join(lines: seq<string>): string {
    if lines == [] then "" else Join(lines[..|lines| - 1]) + lines[|lines| - 1] + "\n"
  }

  function Replaced(text: string, callback: seq<string> -> Result<string>): Result<string> {
    var (lines, tooLong) := Scan(text);
    match Rewrite(lines, callback)
    case Err(message) => Err(message)
    case Ok(done) => if tooLong then Err("token too long") else Ok(Join(done))
  }

  lemma RewriteStep(lines: seq<string>, i: nat, callback: seq<string> -> Result<string>)
    requires i < |lines|
    ensures var before, line := Rewrite(lines[..i], callback), TrimSpace(lines[i]);
            Rewrite(lines[..i + 1], callback) ==
            if before.Err? then before
            else if !IsSegment(line) then Ok(before.value + [line])
            else if callback(SegmentsOf(lines[..i + 1])).Err? then Err(callback(SegmentsOf(lines[..i + 1])).message)
            else Ok(before.value + [callback(SegmentsOf(lines[..i + 1])).value])
  {
    hide TrimSpace;
    assert lines[..i + 1][..i] == lines[..i];
  }

  lemma JoinStep(lines: seq<string>, line: string)
    ensures Join(lines + [line]) == Join(lines) + line + "\n"
  {
    assert (lines + [line])[..|lines|] == lines;
  }

  method ReplaceSegments(text: string, callback: seq<string> -> Result<string>) returns (r: Result<string>)
    ensures r == Replaced(text, callback)
  {
    hide Scan, TrimSpace, SegmentsOf, Rewrite, Join;
    var (lines, tooLong) := Scan(text);
    var result := "";
    var shown: seq<string> := [];
    ghost var done: seq<string> := [];
    NothingWritten(lines, callback);
    for i := 0 to |lines|
      invariant shown == SegmentsOf(lines[..i])
      invariant Rewrite(lines[..i], callback) == Ok(done) && result == Join(done)
    {
      var line := TrimSpace(lines[i]);
      SegmentsStep(lines, i);
      RewriteStep(lines, i, callback);
      if IsSegment(line) {
        shown := shown + [line];
        var answer := callback(shown);
        if answer.Err? {
          RewriteFails(lines, i + 1, callback);
          return answer;
        }
        result := result + answer.value;
        JoinStep(done, answer.value);
        done := done + [answer.value];
      } else {
        result := result + line;
        JoinStep(done, line);
        done := done + [line];
      }
      result := result + "\n";
    }
    assert lines[..|lines|] == lines;
    return if tooLong then Err("token too long") else Ok(result);
  }

  lemma NothingWritten(lines: seq<string>, callback: seq<string> -> Result<string>)
    ensures Rewrite(lines[..0], callback) == Ok([]) && SegmentsOf(lines[..0]) == [] && Join([]) == ""
  {
  }

  lemma {:induction false} RewriteFails(lines: seq<string>, i: nat, callback: seq<string> -> Result<string>)
    requires i <= |lines| && Rewrite(lines[..i], callback).Err?
    ensures Rewrite(lines, callback) == Rewrite(lines[..i], callback)
    decreases |lines| - i
  {
    hide Rewrite, SegmentsOf, TrimSpace;
    if i == |lines| {
      assert lines[..i] == lines;
    } else {
      RewriteStep(lines, i, callback);
      RewriteFails(lines, i + 1, callback);
    }
  }

  // ---- Rewriting, then reading ----

  /** A line that reads back as it was written, before the limit on its length. */
  predicate Plain(line: string) {
    Trimmed(line) && '\n' !in line
  }

  /** The callback's answers for the first n segments. */
  ghost function Answers(segments: seq<string>, callback: seq<string> -> Result<string>): seq<string>
    requires forall k | 0 < k <= |segments| :: callback(segments[..k]).Ok?
  {
    seq(|segments|, k requires 0 <= k < |segments| => callback(segments[..k + 1]).value)
  }

  /** The callback accepts every segment and answers a segment in plain form. */
  ghost predicate Wellbehaved(segments: seq<string>, callback: seq<string> -> Result<string>) {
    forall k | 0 < k <= |segments| ::
      callback(segments[..k]).Ok? && Plain(callback(segments[..k]).value) && IsSegment(callback(segments[..k]).value)
  }

  lemma {:induction false} JoinLines(lines: seq<string>, rest: string)
    requires forall i | 0 <= i < |lines| :: '\n' !in lines[i]
    ensures Split(Join(lines) + rest, '\n') == lines + Split(rest, '\n')
    decreases |lines|
  {
    hide Split;
    if lines == [] {
      assert Join(lines) + rest == rest;
    } else {
      var init, last := lines[..|lines| - 1], lines[|lines| - 1];
      JoinLines(init, last + "\n" + rest);
      SplitJoin(last, '\n', rest);
      assert Join(lines) + rest == Join(init) + (last + "\n" + rest);
      assert lines == init + [last];
    }
  }

  /** A rewrite fails if and only if the callback refuses some segment, with the message of the first
      refusal. */
  lemma {:induction false} RewriteFailsIff(lines: seq<string>, callback: seq<string> -> Result<string>)
    ensures Rewrite(lines, callback).Ok? <==> forall k | 0 < k <= |SegmentsOf(lines)| :: callback(SegmentsOf(lines)[..k]).Ok?
    ensures Rewrite(lines, callback).Err? ==>
              exists k | 0 < k <= |SegmentsOf(lines)| ::
                && callback(SegmentsOf(lines)[..k]) == Err(Rewrite(lines, callback).message)
                && forall j | 0 < j < k :: callback(SegmentsOf(lines)[..j]).Ok?
  {
    hide TrimSpace, IsSegment;
    var segments := SegmentsOf(lines);
    if lines != [] {
      var init, line := lines[..|lines| - 1], TrimSpace(lines[|lines| - 1]);
      LastSegment(lines);
      hide SegmentsOf;
      RewriteFailsIff(init, callback);
      var before := SegmentsOf(init);
      assert forall k | 0 <= k <= |before| :: before[..k] == segments[..k];
      assert segments[..|segments|] == segments;
      if Rewrite(init, callback).Err? {
        var k :| 0 < k <= |before| && callback(before[..k]) == Err(Rewrite(init, callback).message)
                 && forall j | 0 < j < k :: callback(before[..j]).Ok?;
        assert callback(segments[..k]) == Err(Rewrite(lines, callback).message);
      }
    }
  }

  /** Joined lines are read back as they were. */
  lemma RawLinesOfJoin(lines: seq<string>)
    requires forall i | 0 <= i < |lines| :: '\n' !in lines[i]
    ensures RawLines(Join(lines)) == lines
  {
    JoinLines(lines, "");
    assert Join(lines) + "" == Join(lines);
    var parts := Split(Join(lines), '\n');
    assert parts == lines + [""];
    assert parts[..|parts| - 1] == lines;
  }

  lemma {:induction false} RawLinesHaveNoNewline(s: string)
    ensures forall i | 0 <= i < |Split(s, '\n')| :: '\n' !in Split(s, '\n')[i]
  {
    if s != "" { RawLinesHaveNoNewline(s[1..]); }
  }

  lemma {:induction false} SizeOfPart(s: string, i: nat, j: nat)
    requires i <= j <= |s|
    ensures Size(s[i..j]) <= Size(s)
  {
    if s != "" {
      if i > 0 {
        SizeOfPart(s[1..], i - 1, j - 1);
        assert s[1..][i - 1..j - 1] == s[i..j];
      } else if j > 0 {
        SizeOfPart(s[1..], 0, j - 1);
        assert s[i..j][1..] == s[1..][0..j - 1];
      }
    }
  }

  lemma TrimIsPart(s: string) returns (i: nat, j: nat)
    ensures i <= j <= |s| && TrimSpace(s) == s[i..j]
  {
    var left := TrimLeft(s);
    i := |s| - |left|;
    j := i + |TrimSpace(s)|;
    assert TrimSpace(s) == left[..|TrimSpace(s)|];
  }

  /** What a scanned line becomes when it is kept: short, trimmed and without a newline. */
  lemma KeptLine(text: string, i: nat)
    requires i < |Scan(text).0|
    ensures Plain(TrimSpace(Scan(text).0[i])) && Size(TrimSpace(Scan(text).0[i])) < MAX_TOKEN_SIZE
  {
    hide Size, Split;
    var raw := RawLines(text)[i];
    var line := Scan(text).0[i];
    assert Size(raw) < MAX_TOKEN_SIZE;
    RawLinesHaveNoNewline(text);
    assert line == raw[0..|line|];
    SizeOfPart(raw, 0, |line|);
    var a, b := TrimIsPart(line);
    SizeOfPart(line, a, b);
  }

  lemma AnswersStep(segments: seq<string>, line: string, callback: seq<string> -> Result<string>)
    requires Wellbehaved(segments + [line], callback)
    ensures Wellbehaved(segments, callback)
    ensures callback(segments + [line]).Ok? && Plain(callback(segments + [line]).value)
    ensures Answers(segments + [line], callback) == Answers(segments, callback) + [callback(segments + [line]).value]
    ensures IsSegment(callback(segments + [line]).value)
  {
    var longer := segments + [line];
    assert longer[..|longer|] == longer;
    forall k | 0 < k <= |segments| ensures segments[..k] == longer[..k] {
    }
  }

  lemma LastSegment(lines: seq<string>)
    requires lines != []
    ensures var init, line := lines[..|lines| - 1], TrimSpace(lines[|lines| - 1]);
            SegmentsOf(lines) == if IsSegment(line) then SegmentsOf(init) + [line] else SegmentsOf(init)
  {
    hide TrimSpace;
    var init := lines[..|lines| - 1];
    assert SegmentsOf(init) + [] == SegmentsOf(init);
  }

  /** The lines of a rewrite keep their places: segments stay segments, the others are trimmed. */
  ghost predicate KeepsPlaces(lines: seq<string>, done: seq<string>) {
    && |done| == |lines|
    && (forall i | 0 <= i < |lines| :: Plain(done[i]) && IsSegment(done[i]) == IsSegment(TrimSpace(lines[i])))
    && (forall i | 0 <= i < |lines| && !IsSegment(TrimSpace(lines[i])) :: done[i] == TrimSpace(lines[i]))
  }

  lemma OneLineMore(lines: seq<string>, done: seq<string>, written: string)
    requires lines != [] && KeepsPlaces(lines[..|lines| - 1], done)
    requires Plain(written) && IsSegment(written) == IsSegment(TrimSpace(lines[|lines| - 1]))
    requires !IsSegment(TrimSpace(lines[|lines| - 1])) ==> written == TrimSpace(lines[|lines| - 1])
    ensures KeepsPlaces(lines, done + [written])
  {
    hide TrimSpace, Plain, IsSegment;
    var init, longer := lines[..|lines| - 1], done + [written];
    assert forall i | 0 <= i < |init| :: longer[i] == done[i] && lines[i] == init[i];
  }

  lemma {:induction false} RewriteKeepsPlaces(lines: seq<string>, callback: seq<string> -> Result<string>)
    requires Wellbehaved(SegmentsOf(lines), callback)
    requires forall i | 0 <= i < |lines| :: Plain(TrimSpace(lines[i]))
    ensures Rewrite(lines, callback).Ok? && KeepsPlaces(lines, Rewrite(lines, callback).value)
    ensures SegmentsOf(Rewrite(lines, callback).value) == Answers(SegmentsOf(lines), callback)
  {
    hide TrimSpace, Plain, IsSegment, SegmentsOf, Answers, Wellbehaved;
    if lines == [] {
      assert SegmentsOf(lines) == [] && Answers([], callback) == [] by { NoLines(callback); }
    } else {
      var init, line := lines[..|lines| - 1], TrimSpace(lines[|lines| - 1]);
      LastSegment(lines);
      if IsSegment(line) { AnswersStep(SegmentsOf(init), line, callback); }
      RewriteKeepsPlaces(init, callback);
      var before := Rewrite(init, callback).value;
      RewriteStep(lines, |lines| - 1, callback);
      assert lines[..|lines|] == lines;
      hide Rewrite, KeepsPlaces;
      var written := if IsSegment(line) then callback(SegmentsOf(lines)).value else line;
      PlainTrims(written);
      OneLineMore(lines, before, written);
      LastSegment(before + [written]);
      assert (before + [written])[..|before|] == before;
    }
  }

  /** What a rewrite yields, line by line: tags and blanks trimmed in place, and the answers where
      the segments were. */
  lemma RewriteShape(lines: seq<string>, callback: seq<string> -> Result<string>)
    requires Wellbehaved(SegmentsOf(lines), callback)
    requires forall i | 0 <= i < |lines| :: Plain(TrimSpace(lines[i]))
    ensures Rewrite(lines, callback).Ok?
    ensures var done := Rewrite(lines, callback).value;
            && SegmentsOf(done) == Answers(SegmentsOf(lines), callback)
            && (forall i | 0 <= i < |lines| :: Plain(done[i]) && IsSegment(done[i]) == IsSegment(TrimSpace(lines[i])))
            && (forall i | 0 <= i < |lines| && !IsSegment(TrimSpace(lines[i])) :: done[i] == TrimSpace(lines[i]))
  {
    hide TrimSpace, Plain, IsSegment, SegmentsOf, Answers, Wellbehaved, Rewrite;
    RewriteKeepsPlaces(lines, callback);
  }

  lemma NoLines(callback: seq<string> -> Result<string>)
    ensures SegmentsOf([]) == [] && Wellbehaved([], callback) && Answers([], callback) == []
  {
  }

  lemma PlainTrims(line: string)
    requires Plain(line)
    ensures TrimSpace(line) == line && DropCR(line) == line
  {
    TrimSpaceTrimmed(line);
  }

  predicate AllShort(lines: seq<string>) {
    forall i | 0 <= i < |lines| :: Size(lines[i]) < MAX_TOKEN_SIZE
  }

  /** Plain lines, joined, are scanned as they were if and only if each fits the buffer. */
  lemma ScanOfJoin(lines: seq<string>)
    requires forall i | 0 <= i < |lines| :: Plain(lines[i])
    ensures Scan(Join(lines)).1 <==> !AllShort(lines)
    ensures AllShort(lines) ==> Scan(Join(lines)).0 == lines
  {
    RawLinesOfJoin(lines);
    forall i | 0 <= i < |lines| ensures DropCR(lines[i]) == lines[i] { PlainTrims(lines[i]); }
  }

  /** Only what the callback wrote can be too long. */
  lemma {:induction false} ShortIff(lines: seq<string>, callback: seq<string> -> Result<string>)
    requires Wellbehaved(SegmentsOf(lines), callback) && Rewrite(lines, callback).Ok?
    requires forall i | 0 <= i < |lines| :: Size(TrimSpace(lines[i])) < MAX_TOKEN_SIZE
    ensures AllShort(Rewrite(lines, callback).value) <==> AllShort(Answers(SegmentsOf(lines), callback))
  {
    hide TrimSpace, Size, Plain;
    if lines != [] {
      var init, line := lines[..|lines| - 1], TrimSpace(lines[|lines| - 1]);
      LastSegment(lines);
      if IsSegment(line) { AnswersStep(SegmentsOf(init), line, callback); }
      ShortIff(init, callback);
      var before, done := Rewrite(init, callback).value, Rewrite(lines, callback).value;
      ShortStep(before, done[|done| - 1]);
      if IsSegment(line) { ShortStep(Answers(SegmentsOf(init), callback), done[|done| - 1]); }
    }
  }

  lemma ShortStep(lines: seq<string>, line: string)
    ensures AllShort(lines + [line]) <==> AllShort(lines) && Size(line) < MAX_TOKEN_SIZE
  {
    var longer := lines + [line];
    assert longer[|lines|] == line;
    forall i | 0 <= i < |lines| ensures longer[i] == lines[i] {
    }
  }

  /** Rewriting commutes with reading: of a readable playlist, the segments of the rewritten text
      are the callback's answers to the segments of the text, on as many lines, with tags and blank
      lines in their places. The rewritten text is readable if and only if the answers are short
      enough for the scanner. */
  lemma ReplaceThenRead(text: string, callback: seq<string> -> Result<string>)
    requires !Scan(text).1 && Wellbehaved(SegmentsOf(Scan(text).0), callback)
    ensures Replaced(text, callback).Ok?
    ensures var lines, out := Scan(text).0, Replaced(text, callback).value;
            var answers := Answers(SegmentsOf(lines), callback);
            && (Scan(out).1 <==> !AllShort(answers))
            && (AllShort(answers) ==>
                  && SegmentsOf(Scan(out).0) == answers
                  && |Scan(out).0| == |lines|
                  && forall i | 0 <= i < |lines| && !IsSegment(TrimSpace(lines[i])) :: Scan(out).0[i] == TrimSpace(lines[i]))
  {
    var lines := Scan(text).0;
    forall i | 0 <= i < |lines| ensures Plain(TrimSpace(lines[i])) && Size(TrimSpace(lines[i])) < MAX_TOKEN_SIZE {
      KeptLine(text, i);
    }
    hide Scan, SegmentsOf, TrimSpace, Size, Plain, Rewrite, Join, Answers, AllShort, IsSegment;
    RewriteShape(lines, callback);
    ShortIff(lines, callback);
    ScanOfJoin(Rewrite(lines, callback).value);
  }
}
