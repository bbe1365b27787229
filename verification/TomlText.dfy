/**
 * The text side of the TOML macro (proc_macros/src/lib.rs): splitting into lines, the optional keys read
 * from marker comments, the rewritten text, and the names of the getters.
 */
module TomlText {
  import opened Wrappers
  import opened Strings
  import opened CommentRewriter
  import opened TomlCompiler
  import opened TomlCompilerProofs
  import opened TomlSharedNames

  /******* Lines *******/

  function StripCr(s: string): string {
    if s != "" && Last(s) == '\r' then Init(s) else s
  }

  /** The lines ended by a newline; a carriage return before it belongs to the line end. */
  function Ended(parts: seq<string>): (r: seq<string>)
    ensures |r| == |parts|
  {
    seq(|parts|, i requires 0 <= i < |parts| => StripCr(parts[i]))
  }

  /** str::lines */
  function Lines(text: string): seq<string> {
    var parts := Split(text, '\n');
    Ended(Init(parts)) + if Last(parts) == "" then [] else [Last(parts)]
  }

  /** The lines of a text, one after the other: each ends at a newline, with or without a carriage return. */
  lemma LinesMean(line: string, rest: string)
    requires '\n' !in line
    ensures Lines("") == [] && (line != "" ==> Lines(line) == [line])
    ensures Lines(line + "\r\n" + rest) == [line] + Lines(rest)
    ensures line == "" || Last(line) != '\r' ==> Lines(line + "\n" + rest) == [line] + Lines(rest)
  {
    SplitNone(line, '\n');
    FirstLine(line, rest);
    FirstLine(line + "\r", rest);
    assert line + "\r" + "\n" + rest == line + "\r\n" + rest;
    assert Init(line + "\r") == line;
  }

  lemma FirstLine(line: string, rest: string)
    requires '\n' !in line
    ensures Lines(line + "\n" + rest) == [StripCr(line)] + Lines(rest)
  {
    SplitAt(line, '\n', rest);
    var parts := Split(rest, '\n');
    hide Split;
    assert line + ['\n'] + rest == line + "\n" + rest;
    assert Init([line] + parts) == [line] + Init(parts) && Last([line] + parts) == Last(parts);
    assert Ended([line] + Init(parts)) == [StripCr(line)] + Ended(Init(parts));
  }

  lemma LinesHaveNoNewline(text: string)
    ensures forall i :: 0 <= i < |Lines(text)| ==> '\n' !in Lines(text)[i]
  {
    var parts := Split(text, '\n');
    SplitPieces(text, '\n');
    forall i | 0 <= i < |Lines(text)| ensures '\n' !in Lines(text)[i] {
      assert '\n' !in parts[i];
    }
  }

  /******* The rewritten text *******/

  /** replace_optional_comment on the whole text. */
  method ReplaceInText(orig: string) returns (text: string)
    ensures text == RewrittenText(orig)
  {
    var result := ReplaceOptionalComment(Lines(orig));
    return Join(result, '\n') + "\n";
  }

  function RewrittenText(orig: string): string {
    Join(Rewritten(Lines(orig)), '\n') + "\n"
  }

  /** A line that reads back as itself. */
  predicate Plain(line: string) {
    '\n' !in line && StripCr(line) == line
  }

  lemma {:induction false} TrimStartKeeps(s: string, c: char)
    requires c !in s
    ensures c !in TrimStart(s)
  {
    if s != "" && IsWhitespace(s[0]) {
      TrimStartKeeps(s[1..], c);
    }
  }

  lemma {:induction false} TrimEndKeeps(s: string, c: char)
    requires c !in s
    ensures c !in TrimEnd(s) && (TrimEnd(s) != "" ==> !IsWhitespace(Last(TrimEnd(s))))
  {
    if s != "" && IsWhitespace(Last(s)) {
      TrimEndKeeps(Init(s), c);
    }
  }

  lemma TrimPlain(s: string)
    requires '\n' !in s
    ensures Plain(Trim(s)) && Plain("# " + Trim(s))
  {
    TrimStartKeeps(s, '\n');
    TrimEndKeeps(TrimStart(s), '\n');
    assert IsWhitespace('\r');
    assert Trim(s) != "" ==> Last("# " + Trim(s)) == Last(Trim(s));
  }

  lemma {:induction false} RewrittenPlain(lines: seq<string>)
    requires forall i :: 0 <= i < |lines| ==> '\n' !in lines[i]
    ensures forall i :: 0 <= i < |Rewritten(lines)| ==> Plain(Rewritten(lines)[i])
  {
    if lines != [] {
      RewrittenPlain(Init(lines));
      TrimPlain(Last(lines));
    }
  }

  lemma {:induction false} JoinSnoc(parts: seq<string>, last: string, c: char)
    requires parts != []
    ensures Join(parts + [last], c) == Join(parts, c) + [c] + last
  {
    var all := parts + [last];
    if |parts| == 1 {
      assert all[1..] == [last];
    } else {
      JoinSnoc(parts[1..], last, c);
      assert all[1..] == parts[1..] + [last];
    }
  }

  lemma EndedPlain(lines: seq<string>)
    requires forall i :: 0 <= i < |lines| ==> Plain(lines[i])
    ensures Ended(lines) == lines
  {
  }

  lemma SplitEnded(lines: seq<string>)
    requires lines != [] && forall i :: 0 <= i < |lines| ==> Plain(lines[i])
    ensures Split(Join(lines, '\n') + "\n", '\n') == lines + [""]
  {
    var parts := lines + [""];
    forall i | 0 <= i < |parts| ensures '\n' !in parts[i] {
      assert i < |lines| ==> Plain(lines[i]);
    }
    hide Plain, Split, Join;
    JoinSnoc(lines, "", '\n');
    var text := Join(lines, '\n');
    assert text + ['\n'] + "" == text + "\n";
    SplitJoin(parts, '\n');
  }

  /** Plain lines, each ended by a newline, read back as those lines. */
  lemma LinesJoin(lines: seq<string>)
    requires lines != [] && forall i :: 0 <= i < |lines| ==> Plain(lines[i])
    ensures Lines(Join(lines, '\n') + "\n") == lines
  {
    SplitEnded(lines);
    EndedPlain(lines);
    hide Split, Join, Plain, Ended;
    assert Init(lines + [""]) == lines && Last(lines + [""]) == "";
  }

  /**
   * The live lines of the rewritten text, read back as lines, are those of the original text except the
   * first after each marker.
   */
  lemma RewrittenTextKeepsUnmarked(orig: string)
    ensures LiveLines(Lines(RewrittenText(orig))) == Kept(Lines(orig))
  {
    var lines := Lines(orig);
    LinesHaveNoNewline(orig);
    RewrittenPlain(lines);
    RewriteKeepsUnmarked(lines);
    if Rewritten(lines) != [] {
      LinesJoin(Rewritten(lines));
    } else {
      EmptyText();
    }
  }

  lemma EmptyText()
    ensures LiveLines(Lines("\n")) == [] && Join([], '\n') + "\n" == "\n"
  {
    var text := "\n";
    assert text[1..] == "";
    assert Split(text, '\n') == ["", ""];
    assert Init(["", ""]) == [""] && Last(["", ""]) == "";
    var blank := [""];
    assert Ended(blank) == blank && Lines(text) == blank;
    assert Init(blank) == [] && Last(blank) == "" && Trim("") == "";
    assert LiveLines(Init(blank)) == [];
  }

  /******* Optional keys *******/

  /** What follows the marker on a marker line. */
  function MarkedKey(line: string): string
    requires IsMarker(line)
  {
    Trim(Trim(line)[|MARKER|..])
  }

  /** The line is the marker and a key, with white space around each. */
  ghost predicate MarksKey(line: string, before: string, middle: string, key: string, after: string) {
    && line == before + MARKER + middle + key + after
    && AllWhitespace(before) && AllWhitespace(middle) && AllWhitespace(after)
    && (key != "" ==> !IsWhitespace(key[0]) && !IsWhitespace(Last(key)))
  }

  lemma MarkedKeyMeans(line: string, before: string, middle: string, key: string, after: string)
    requires MarksKey(line, before, middle, key, after)
    ensures IsMarker(line) && MarkedKey(line) == key
  {
    hide Trim, IsWhitespace;
    MarkerEnds();
    if key == "" {
      assert line == before + MARKER + (middle + after) && MARKER[|MARKER|..] == "";
      TrimMeans(line, before, MARKER, middle + after);
      TrimMeans("", "", "", "");
    } else {
      var t := MARKER + middle + key;
      assert line == before + t + after && Last(t) == Last(key) && t[0] == MARKER[0];
      TrimMeans(line, before, t, after);
      assert MARKER <= t && t[|MARKER|..] == middle + key == middle + key + "";
      TrimMeans(middle + key, middle, key, "");
    }
  }

  lemma LastOfBoth(a: string, b: string)
    ensures b != "" ==> a + b != "" && Last(a + b) == Last(b)
  {
  }

  lemma MarkerEnds()
    ensures MARKER != "" && !IsWhitespace(MARKER[0]) && !IsWhitespace(Last(MARKER))
  {
  }

  lemma MarkedKeyParts(line: string)
    requires IsMarker(line)
    ensures exists before, middle, after :: MarksKey(line, before, middle, MarkedKey(line), after)
  {
    hide Trim, IsWhitespace;
    var t, key := Trim(line), MarkedKey(line);
    var rest := t[|MARKER|..];
    TrimIff(line, t);
    TrimIff(rest, key);
    var before, after :| Trims(line, before, t, after);
    var middle, end :| Trims(rest, middle, key, end);
    LastOfBoth(middle + key, end);
    LastOfBoth(MARKER, rest);
    assert t == MARKER + rest;
    assert end == "" && rest == middle + key && t == MARKER + rest;
    assert line == before + MARKER + middle + key + after;
    assert MarksKey(line, before, middle, key, after);
  }

  /** A line marks a key exactly if it is the marker and the key, with white space around each. */
  lemma MarkedKeyIff(line: string, key: string)
    ensures IsMarker(line) && MarkedKey(line) == key <==>
            exists before, middle, after :: MarksKey(line, before, middle, key, after)
  {
    hide IsMarker, MarkedKey, MarksKey;
    if IsMarker(line) {
      MarkedKeyParts(line);
    }
    if before, middle, after :| MarksKey(line, before, middle, key, after) {
      MarkedKeyMeans(line, before, middle, key, after);
    }
  }

  /** extract_optional_keys */
  function ExtractOptionalKeys(root: string, lines: seq<string>): seq<string> {
    if lines == [] then []
    else
      ExtractOptionalKeys(root, Init(lines)) +
      if IsMarker(Last(lines)) then [root + "." + MarkedKey(Last(lines))] else []
  }

  /** Line i marks the field at path: the text after its marker splits at dots into exactly that path. */
  predicate Marks(lines: seq<string>, i: nat, path: seq<string>)
    requires i < |lines|
  {
    IsMarker(lines[i]) && Split(MarkedKey(lines[i]), '.') == path
  }

  lemma {:induction false} ExtractedIff(root: string, lines: seq<string>, key: string)
    ensures root + "." + key in ExtractOptionalKeys(root, lines) <==>
            exists i :: 0 <= i < |lines| && IsMarker(lines[i]) && MarkedKey(lines[i]) == key
  {
    if lines != [] {
      var front, line := Init(lines), Last(lines);
      ExtractedIff(root, front, key);
      hide IsMarker, MarkedKey;
      assert forall i :: 0 <= i < |front| ==> front[i] == lines[i];
      assert line == lines[|lines| - 1];
      if IsMarker(line) {
        assert (root + "." + MarkedKey(line))[|root| + 1..] == MarkedKey(line);
        assert (root + "." + key)[|root| + 1..] == key;
      }
    }
  }

  lemma {:induction false} JoinDotsIsJoin(path: seq<string>)
    ensures JoinDots(path) == Join(path, '.')
  {
    if |path| > 1 {
      JoinDotsCons(path);
      JoinDotsIsJoin(path[1..]);
    }
  }

  /** Dotted paths of dot-free keys are equal only if the paths are. */
  lemma DottedInjective(p: seq<string>, q: seq<string>)
    requires p != [] && q != []
    requires (forall i :: 0 <= i < |p| ==> '.' !in p[i]) && (forall i :: 0 <= i < |q| ==> '.' !in q[i])
    ensures JoinDots(p) == JoinDots(q) <==> p == q
  {
    JoinDotsIsJoin(p);
    JoinDotsIsJoin(q);
    SplitJoin(p, '.');
    SplitJoin(q, '.');
  }

  /** From the text of the file: a field with dot-free keys is optional exactly when some line marks its path. */
  lemma OptionalFromText(root: string, text: string, path: seq<string>)
    requires path != [] && forall i :: 0 <= i < |path| ==> '.' !in path[i]
    ensures OptionalAt(ExtractOptionalKeys(root, Lines(text)), root + ".", path) <==>
            exists i :: 0 <= i < |Lines(text)| && Marks(Lines(text), i, path)
  {
    var lines := Lines(text);
    var key := JoinDots(path);
    ExtractedIff(root, lines, key);
    JoinDotsIsJoin(path);
    SplitJoin(path, '.');
    hide Lines, IsMarker, MarkedKey, Split, Join, JoinDots;
    assert root + "." + key == (root + ".") + key;
    forall i | 0 <= i < |lines| && IsMarker(lines[i])
      ensures MarkedKey(lines[i]) == key <==> Split(MarkedKey(lines[i]), '.') == path
    {
      JoinSplit(MarkedKey(lines[i]), '.');
    }
    if i :| 0 <= i < |lines| && IsMarker(lines[i]) && MarkedKey(lines[i]) == key {
      assert Marks(lines, i, path);
    }
    if i :| 0 <= i < |lines| && Marks(lines, i, path) {
      assert MarkedKey(lines[i]) == key;
    }
  }

  /******* Getter names *******/

  /** The case conversion to_snake_case, which the heck crate supplies. */
  type Snake = string -> string

  function Converted(snake: Snake, path: seq<string>): (r: seq<string>)
    ensures |r| == |path|
  {
    seq(|path|, i requires 0 <= i < |path| => snake(path[i]))
  }

  /** create_getter_name */
  function GetterName(snake: Snake, path: seq<string>): string {
    "get_" + Join(Converted(snake, path), '_')
  }

  /** The words of all keys in order. */
  function Words(snake: Snake, path: seq<string>): seq<string> {
    if path == [] then [] else Split(snake(path[0]), '_') + Words(snake, path[1..])
  }

  lemma {:induction false} NameWords(snake: Snake, path: seq<string>)
    requires path != []
    ensures Split(Join(Converted(snake, path), '_'), '_') == Words(snake, path)
  {
    if |path| == 1 {
      assert Words(snake, path[1..]) == [];
    } else {
      NameWords(snake, path[1..]);
      assert Converted(snake, path)[1..] == Converted(snake, path[1..]);
      SplitConcat(snake(path[0]), '_', Join(Converted(snake, path[1..]), '_'));
    }
  }

  /** The name of a getter is "get" and the words of its keys in order, with underscores between them. */
  lemma GetterNameWords(snake: Snake, path: seq<string>)
    requires path != []
    ensures Split(GetterName(snake, path), '_') == ["get"] + Words(snake, path)
    ensures GetterName(snake, path) == Join(["get"] + Words(snake, path), '_')
  {
    var name := Join(Converted(snake, path), '_');
    NameWords(snake, path);
    SplitAt("get", '_', name);
    assert "get" + ['_'] + name == GetterName(snake, path);
    JoinSplit(GetterName(snake, path), '_');
  }

  /** Two paths get the same getter name exactly when their keys consist of the same words in the same order. */
  lemma NamesCollideIff(snake: Snake, p: seq<string>, q: seq<string>)
    requires p != [] && q != []
    ensures GetterName(snake, p) == GetterName(snake, q) <==> Words(snake, p) == Words(snake, q)
  {
    var a, b := Join(Converted(snake, p), '_'), Join(Converted(snake, q), '_');
    NameWords(snake, p);
    NameWords(snake, q);
    JoinSplit(a, '_');
    JoinSplit(b, '_');
    assert GetterName(snake, p)[4..] == a && GetterName(snake, q)[4..] == b;
  }

  function Paths(gs: seq<Getter>): (r: seq<seq<string>>)
    ensures |r| == |gs|
  {
    seq(|gs|, i requires 0 <= i < |gs| => gs[i].path)
  }

  predicate NamesDistinct(snake: Snake, paths: seq<seq<string>>) {
    forall i, j :: 0 <= i < j < |paths| ==> GetterName(snake, paths[i]) != GetterName(snake, paths[j])
  }

  ghost predicate WordsDistinct(snake: Snake, entries: seq<Entry>) {
    forall p, q :: IsLeaf(entries, p) && IsLeaf(entries, q) && p != q ==> Words(snake, p) != Words(snake, q)
  }

  /** paths lists every leaf once. */
  ghost predicate ListsLeaves(paths: seq<seq<string>>, entries: seq<Entry>) {
    && (forall i :: 0 <= i < |paths| ==> IsLeaf(entries, paths[i]))
    && (forall i, j :: 0 <= i < j < |paths| ==> paths[i] != paths[j])
    && (forall q :: IsLeaf(entries, q) ==> exists i :: 0 <= i < |paths| && paths[i] == q)
  }

  /** The getters of a program have distinct names exactly when no two of its leaves have the same words. */
  lemma GetterNamesDistinctIff(camel: Camel, snake: Snake, opts: seq<string>, entries: seq<Entry>, root: string)
    requires Compiles(camel, Table(entries), root) && IsTable(entries) && root != ""
    ensures NamesDistinct(snake, Paths(Compiled(camel, opts, entries, root)[root].getters)) <==>
            WordsDistinct(snake, entries)
  {
    hide Compiled, NamesDistinct, WordsDistinct, IsLeaf, OnePerLeaf;
    RootGetters(camel, opts, entries, root);
    var gs := Compiled(camel, opts, entries, root)[root].getters;
    LeavesAndGetters(camel, opts, root + ".", gs, entries);
    NamesOfLeaves(snake, Paths(gs), entries);
  }

  lemma NamesOfLeaves(snake: Snake, paths: seq<seq<string>>, entries: seq<Entry>)
    requires ListsLeaves(paths, entries)
    ensures NamesDistinct(snake, paths) <==> WordsDistinct(snake, entries)
  {
    assert forall i :: 0 <= i < |paths| ==> IsLeaf(entries, paths[i]) && paths[i] != [];
    hide GetterName, Words, IsLeaf;
    forall i, j | 0 <= i < j < |paths|
      ensures GetterName(snake, paths[i]) == GetterName(snake, paths[j]) <==>
              Words(snake, paths[i]) == Words(snake, paths[j])
    {
      NamesCollideIff(snake, paths[i], paths[j]);
    }
    if NamesDistinct(snake, paths) {
      forall p, q | IsLeaf(entries, p) && IsLeaf(entries, q) && p != q ensures Words(snake, p) != Words(snake, q) {
        var i :| 0 <= i < |paths| && paths[i] == p;
        var j :| 0 <= j < |paths| && paths[j] == q;
        assert i < j || j < i;
      }
    }
  }

  lemma LeavesAndGetters(camel: Camel, opts: seq<string>, prefix: string, gs: seq<Getter>, entries: seq<Entry>)
    requires OnePerLeaf(camel, opts, prefix, gs, entries, [])
    ensures ListsLeaves(Paths(gs), entries)
  {
    hide IsGetterOf, IsLeaf;
    var paths := Paths(gs);
    forall i | 0 <= i < |gs| ensures IsLeaf(entries, gs[i].path) && paths[i] == gs[i].path {
      LeafOf(camel, opts, prefix, gs[i], entries);
    }
    forall q | IsLeaf(entries, q) ensures exists i :: 0 <= i < |paths| && paths[i] == q {
      var i :| 0 <= i < |gs| && gs[i].path == [] + q;
      assert [] + q == q;
      assert paths[i] == q;
    }
  }

  /** A leaf with an underscore in its key and one below a table can share a name. */
  lemma NamesCollide(snake: Snake, a: string, b: string)
    requires snake(a) == a && snake(b) == b && snake(a + "_" + b) == a + "_" + b
    ensures GetterName(snake, [a + "_" + b]) == GetterName(snake, [a, b])
  {
    SplitConcat(a, '_', b);
    assert Words(snake, [a + "_" + b]) == Split(a + "_" + b, '_') + Words(snake, []);
    assert Words(snake, [b]) == Split(b, '_') + Words(snake, []);
    assert [a, b][1..] == [b];
    assert Words(snake, [a, b]) == Split(a, '_') + Words(snake, [b]);
    NamesCollideIff(snake, [a + "_" + b], [a, b]);
  }
}
