/**
 * The line rewriter of the TOML macro (proc_macros/src/lib.rs, replace_optional_comment).
 * Its inner loop consumes lines from the iterator of the outer loop.
 */
module CommentRewriter {
  import opened Wrappers

  const MARKER := "#:Opt:#"

  /** char::is_whitespace (Unicode White_Space). */
  predicate IsWhitespace(c: char) {
    var n := c as int;
    || 9 <= n <= 13 || n == 0x20 || n == 0x85 || n == 0xA0 || n == 0x1680
    || 0x2000 <= n <= 0x200A || n == 0x2028 || n == 0x2029 || n == 0x202F || n == 0x205F || n == 0x3000
  }

  function TrimStart(s: string): string {
    if s != "" && IsWhitespace(s[0]) then TrimStart(s[1..]) else s
  }

  function TrimEnd(s: string): string {
    if s != "" && IsWhitespace(Last(s)) then TrimEnd(Init(s)) else s
  }

  function Trim(s: string): string {
    TrimEnd(TrimStart(s))
  }

  predicate IsMarker(line: string) {
    MARKER <= Trim(line)
  }

  predicate IsComment(line: string) {
    "#" <= Trim(line)
  }

  /** A line that carries TOML content. */
  predicate IsLive(line: string) {
    Trim(line) != "" && !IsComment(line)
  }

  /******* The automaton *******/

  /** Pending: a marker was seen and its content line has not been reached yet. */
  datatype State = Normal | Pending

  function Next(st: State, line: string): State {
    match st
    case Normal => if IsMarker(line) then Pending else Normal
    case Pending => if IsLive(line) then Normal else Pending
  }

  function Emit(st: State, line: string): seq<string> {
    match st
    case Normal => if IsMarker(line) then ["# Optional"] else [Trim(line)]
    case Pending => if IsComment(line) then [Trim(line)] else if IsLive(line) then ["# " + Trim(line)] else []
  }

  function StateAfter(lines: seq<string>): State {
    if lines == [] then Normal else Next(StateAfter(Init(lines)), Last(lines))
  }

  function Rewritten(lines: seq<string>): seq<string> {
    if lines == [] then [] else Rewritten(Init(lines)) + Emit(StateAfter(Init(lines)), Last(lines))
  }

  lemma NoLines(lines: seq<string>)
    ensures Rewritten(lines[..0]) == [] && StateAfter(lines[..0]) == Normal
  {
  }

  lemma OneMoreLine(lines: seq<string>, at: nat)
    requires at < |lines|
    ensures Rewritten(lines[..at + 1]) == Rewritten(lines[..at]) + Emit(StateAfter(lines[..at]), lines[at])
    ensures StateAfter(lines[..at + 1]) == Next(StateAfter(lines[..at]), lines[at])
  {
    assert Init(lines[..at + 1]) == lines[..at] && Last(lines[..at + 1]) == lines[at];
  }

  /** replace_optional_comment: two nested loops over one shared position. */
  method ReplaceOptionalComment(lines: seq<string>) returns (result: seq<string>)
    ensures result == Rewritten(lines)
  {
    hide Rewritten, StateAfter, Trim;
    var at := 0;
    result := [];
    NoLines(lines);
    while at < |lines|
      invariant 0 <= at <= |lines|
      invariant result == Rewritten(lines[..at])
      invariant at < |lines| ==> StateAfter(lines[..at]) == Normal
    {
      var line := lines[at];
      OneMoreLine(lines, at);
      at := at + 1;
      if IsMarker(line) {
        result := result + ["# Optional"];
        while at < |lines|
          invariant 0 <= at <= |lines|
          invariant result == Rewritten(lines[..at])
          invariant at < |lines| ==> StateAfter(lines[..at]) == Pending
        {
          var trimmed := Trim(lines[at]);
          OneMoreLine(lines, at);
          at := at + 1;
          if "#" <= trimmed {
            result := result + [trimmed];
            continue;
          }
          if trimmed != "" {
            result := result + ["# " + trimmed];
            break;
          }
        }
      } else {
        result := result + [Trim(line)];
      }
    }
    assert lines[..at] == lines;
  }

  /******* What the output means *******/

  /** Line i is the first live line after some marker, with no live line between them. */
  ghost predicate MarkedBy(lines: seq<string>, m: nat, i: nat) {
    && m < i < |lines| && IsMarker(lines[m]) && IsLive(lines[i])
    && forall k :: m < k < i ==> !IsLive(lines[k])
  }

  ghost predicate Marked(lines: seq<string>, i: nat) {
    exists m :: MarkedBy(lines, m, i)
  }

  /** The marker at m is followed by no live line. */
  ghost predicate OpenMarker(lines: seq<string>, m: nat) {
    m < |lines| && IsMarker(lines[m]) && forall k :: m < k < |lines| ==> !IsLive(lines[k])
  }

  lemma OpenMarkerInit(lines: seq<string>, m: nat)
    requires lines != [] && m < |lines| - 1
    ensures OpenMarker(lines, m) <==> OpenMarker(Init(lines), m) && !IsLive(Last(lines))
  {
    hide IsLive, IsMarker;
    var front := Init(lines);
    assert forall k :: 0 <= k < |front| ==> front[k] == lines[k];
    if OpenMarker(front, m) && !IsLive(Last(lines)) {
      forall k | m < k < |lines| ensures !IsLive(lines[k]) {
        assert k < |front| ==> !IsLive(front[k]);
      }
    }
  }

  /** The automaton is pending exactly when some marker is followed by no live line. */
  lemma {:induction false} PendingMeans(lines: seq<string>)
    ensures StateAfter(lines) == Pending <==> exists m: nat :: OpenMarker(lines, m)
  {
    hide IsLive, IsMarker;
    if lines != [] {
      var front := Init(lines);
      PendingMeans(front);
      MarkerIsComment(Last(lines));
      if StateAfter(lines) == Pending {
        if StateAfter(front) == Pending {
          var m: nat :| OpenMarker(front, m);
          OpenMarkerInit(lines, m);
        } else {
          assert OpenMarker(lines, |front|);
        }
      }
      if m: nat :| OpenMarker(lines, m) && m < |front| {
        OpenMarkerInit(lines, m);
      }
    }
  }

  lemma MarkerIsComment(line: string)
    ensures IsMarker(line) ==> IsComment(line) && !IsLive(line)
  {
    assert IsMarker(line) ==> Trim(line)[0] == MARKER[0] == '#';
  }

  /** The live lines of a text, trimmed. */
  function LiveLines(lines: seq<string>): seq<string> {
    if lines == [] then []
    else LiveLines(Init(lines)) + if IsLive(Last(lines)) then [Trim(Last(lines))] else []
  }

  /** The live lines of a text that no marker makes optional, trimmed. */
  ghost function Kept(lines: seq<string>): seq<string> {
    if lines == [] then []
    else Kept(Init(lines)) +
         if IsLive(Last(lines)) && !Marked(lines, |lines| - 1) then [Trim(Last(lines))] else []
  }

  lemma {:induction false} TrimStartFacts(s: string)
    ensures var t := TrimStart(s); t == "" || !IsWhitespace(t[0])
    ensures |TrimStart(s)| <= |s| && TrimStart(s) == s[|s| - |TrimStart(s)|..]
  {
    if s != "" && IsWhitespace(s[0]) {
      TrimStartFacts(s[1..]);
    }
  }

  lemma {:induction false} TrimEndFacts(s: string)
    requires s == "" || !IsWhitespace(s[0])
    ensures var t := TrimEnd(s); t <= s && (t == "" <==> s == "") && (t == "" || !IsWhitespace(Last(t)))
  {
    if s != "" && IsWhitespace(Last(s)) {
      assert |s| > 1;
      TrimEndFacts(Init(s));
    }
  }

  lemma TrimFixed(s: string)
    requires s == "" || (!IsWhitespace(s[0]) && !IsWhitespace(Last(s)))
    ensures Trim(s) == s
  {
  }

  lemma TrimIdempotent(s: string)
    ensures Trim(Trim(s)) == Trim(s)
    ensures Trim(s) == "" || (!IsWhitespace(Trim(s)[0]) && !IsWhitespace(Last(Trim(s))))
  {
    TrimStartFacts(s);
    TrimEndFacts(TrimStart(s));
    TrimFixed(Trim(s));
  }

  predicate AllWhitespace(s: string) {
    forall i :: 0 <= i < |s| ==> IsWhitespace(s[i])
  }

  /** Text t stands in s with nothing but white space on either side, and has none at its own ends. */
  ghost predicate Trims(s: string, before: string, t: string, after: string) {
    && s == before + t + after && AllWhitespace(before) && AllWhitespace(after)
    && (t != "" ==> !IsWhitespace(t[0]) && !IsWhitespace(Last(t)))
  }

  lemma {:induction false} TrimStartBehind(before: string, s: string)
    requires AllWhitespace(before) && (s != "" ==> !IsWhitespace(s[0]))
    ensures TrimStart(before + s) == s
  {
    if before == "" {
      assert before + s == s;
    } else {
      assert (before + s)[1..] == before[1..] + s;
      TrimStartBehind(before[1..], s);
    }
  }

  lemma {:induction false} TrimEndBefore(s: string, after: string)
    requires AllWhitespace(after) && (s != "" ==> !IsWhitespace(Last(s)))
    ensures TrimEnd(s + after) == s
  {
    if after == "" {
      assert s + after == s;
    } else {
      assert Init(s + after) == s + Init(after) && Last(s + after) == Last(after);
      TrimEndBefore(s, Init(after));
    }
  }

  lemma {:induction false} AllTrimmed(s: string)
    requires AllWhitespace(s)
    ensures TrimStart(s) == ""
  {
    if s != "" {
      AllTrimmed(s[1..]);
    }
  }

  /** The trimmed text is the only one that stands so in the line. */
  lemma TrimMeans(s: string, before: string, t: string, after: string)
    requires Trims(s, before, t, after)
    ensures Trim(s) == t
  {
    hide TrimStart, TrimEnd;
    if t == "" {
      assert AllWhitespace(s);
      AllTrimmed(s);
      TrimEndBefore("", "");
      assert "" + "" == "";
    } else {
      assert s == before + (t + after);
      assert (t + after)[0] == t[0];
      TrimStartBehind(before, t + after);
      TrimEndBefore(t, after);
    }
  }

  lemma {:induction false} TrimStartParts(s: string) returns (before: string)
    ensures s == before + TrimStart(s) && AllWhitespace(before)
  {
    before := "";
    if s != "" && IsWhitespace(s[0]) {
      before := TrimStartParts(s[1..]);
      before := [s[0]] + before;
    }
  }

  lemma {:induction false} TrimEndParts(s: string) returns (after: string)
    ensures s == TrimEnd(s) + after && AllWhitespace(after)
  {
    after := "";
    if s != "" && IsWhitespace(Last(s)) {
      after := TrimEndParts(Init(s));
      after := after + [Last(s)];
    }
  }

  /** Every line has such parts, and exactly one text stands so in it. */
  lemma TrimIff(s: string, t: string)
    ensures Trim(s) == t <==> exists before, after :: Trims(s, before, t, after)
  {
    TrimIdempotent(s);
    var before := TrimStartParts(s);
    var after := TrimEndParts(TrimStart(s));
    assert s == before + Trim(s) + after;
    assert Trims(s, before, Trim(s), after);
    if b, a :| Trims(s, b, t, a) {
      TrimMeans(s, b, t, a);
    }
  }

  /** A line commented out by the rewriter is a comment of the output and still shows its text. */
  lemma CommentedOut(line: string)
    ensures IsComment("# " + Trim(line)) || Trim(line) == ""
    ensures IsLive(line) ==> Trim("# " + Trim(line)) == "# " + Trim(line)
  {
    TrimIdempotent(line);
    var t := Trim(line);
    if t != "" {
      assert Last("# " + t) == Last(t);
      TrimFixed("# " + t);
    }
  }

  lemma {:induction false} LiveLinesConcat(a: seq<string>, b: seq<string>)
    ensures LiveLines(a + b) == LiveLines(a) + LiveLines(b)
  {
    if b == [] {
      assert a + b == a;
    } else {
      assert Init(a + b) == a + Init(b) && Last(a + b) == Last(b);
      LiveLinesConcat(a, Init(b));
    }
  }

  lemma MarkedMeansPending(lines: seq<string>)
    requires lines != [] && IsLive(Last(lines))
    ensures Marked(lines, |lines| - 1) <==> StateAfter(Init(lines)) == Pending
  {
    hide IsLive, IsMarker;
    var front := Init(lines);
    PendingMeans(front);
    assert forall k :: 0 <= k < |front| ==> front[k] == lines[k];
    if m: nat :| OpenMarker(front, m) {
      assert MarkedBy(lines, m, |lines| - 1);
    }
    var last := |lines| - 1;
    if m: nat :| MarkedBy(lines, m, last) {
      assert OpenMarker(front, m);
    }
  }

  /**
   * The live lines of the output are, in order, the live lines of the input except the first one
   * after each marker.
   */
  lemma {:induction false} RewriteKeepsUnmarked(lines: seq<string>)
    ensures LiveLines(Rewritten(lines)) == Kept(lines)
  {
    if lines != [] {
      var line := Last(lines);
      var st := StateAfter(Init(lines));
      RewriteKeepsUnmarked(Init(lines));
      LiveLinesConcat(Rewritten(Init(lines)), Emit(st, line));
      EmitLive(st, line);
      if IsLive(line) {
        MarkedMeansPending(lines);
      }
    }
  }

  /** One step passes a live line through in state Normal and hides it in state Pending. */
  lemma EmitLive(st: State, line: string)
    ensures LiveLines(Emit(st, line)) == if IsLive(line) && st == Normal then [Trim(line)] else []
  {
    MarkerIsComment(line);
    TrimIdempotent(line);
    CommentedOut(line);
    var out := Emit(st, line);
    if out != [] {
      assert Init(out) == [] && LiveLines(Init(out)) == [];
      if st == Normal && IsMarker(line) {
        TrimFixed("# Optional");
        assert IsComment("# Optional");
      }
    }
  }

  /**
   * Each live line has its own place in the output, in input order: it stands there unchanged if
   * unmarked and behind a comment sign if marked.
   */
  lemma {:induction false} LiveLinePlaced(lines: seq<string>, i: nat)
    requires i < |lines| && IsLive(lines[i])
    ensures var p := |Rewritten(lines[..i])|;
            && p < |Rewritten(lines[..i + 1])| && Rewritten(lines[..i + 1]) <= Rewritten(lines)
            && Rewritten(lines)[p] == if Marked(lines, i) then "# " + Trim(lines[i]) else Trim(lines[i])
    decreases |lines|
  {
    var front := Init(lines);
    if i < |front| {
      LiveLinePlaced(front, i);
      assert front[..i] == lines[..i] && front[..i + 1] == lines[..i + 1];
      MarkedInPrefix(lines, |front|, i);
      assert lines[..|front|] == front;
    } else {
      assert lines[..i] == front && lines[..i + 1] == lines;
      MarkedMeansPending(lines);
      MarkerIsComment(lines[i]);
    }
  }

  /**
   * What each line adds to the output. Behind a marker that no live line has followed yet, a comment is
   * copied, a blank line dropped and a live line commented out; elsewhere a marker becomes a fixed comment
   * and every other line is copied.
   */
  lemma EveryLine(lines: seq<string>, i: nat)
    requires i < |lines|
    ensures var front, line := lines[..i], lines[i];
            var searching := exists m: nat :: OpenMarker(front, m);
            && (searching && IsComment(line) ==> Rewritten(lines[..i + 1]) == Rewritten(front) + [Trim(line)])
            && (searching && Trim(line) == "" ==> Rewritten(lines[..i + 1]) == Rewritten(front))
            && (searching && IsLive(line) ==> Rewritten(lines[..i + 1]) == Rewritten(front) + ["# " + Trim(line)])
            && (!searching && IsMarker(line) ==> Rewritten(lines[..i + 1]) == Rewritten(front) + ["# Optional"])
            && (!searching && !IsMarker(line) ==> Rewritten(lines[..i + 1]) == Rewritten(front) + [Trim(line)])
  {
    hide Rewritten, StateAfter, Trim, OpenMarker;
    OneMoreLine(lines, i);
    PendingMeans(lines[..i]);
  }

  lemma MarkedInPrefix(lines: seq<string>, n: nat, i: nat)
    requires i < n <= |lines|
    ensures Marked(lines, i) <==> Marked(lines[..n], i)
  {
    if Marked(lines, i) {
      var m: nat :| MarkedBy(lines, m, i);
      assert MarkedBy(lines[..n], m, i);
    }
    if Marked(lines[..n], i) {
      var m: nat :| MarkedBy(lines[..n], m, i);
      assert forall k :: m < k < i ==> lines[k] == lines[..n][k];
      assert MarkedBy(lines, m, i);
    }
  }
}
