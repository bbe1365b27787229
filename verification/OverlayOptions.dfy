/** The overlayfs mount option string (ssamd/src/mount.rs, escape_overlay_opt and build_overlay_options). */
module OverlayOptions {
  import opened Wrappers
  import Paths

  /** str::replace with a one-character pattern. */
  function Replace(s: string, c: char, with: string): string {
    if s == "" then "" else (if s[0] == c then with else [s[0]]) + Replace(s[1..], c, with)
  }

  /** escape_overlay_opt: three passes, the backslash first. */
  function Escape(path: string): string {
    Replace(Replace(Replace(path, '\\', "\\\\"), ',', "\\,"), ':', "\\:")
  }

  function BuildOptions(lower: string, upper: string, work: string): string {
    "lowerdir=" + Escape(lower) + ",upperdir=" + upper + ",workdir=" + work
  }

  /******* The single-pass form *******/

  predicate Special(c: char) {
    c == '\\' || c == ',' || c == ':'
  }

  function EscapeChar(c: char): string {
    if Special(c) then ['\\', c] else [c]
  }

  function EscapeOnce(path: string): string {
    if path == "" then "" else EscapeChar(path[0]) + EscapeOnce(path[1..])
  }

  lemma {:induction false} ReplaceConcat(a: string, b: string, c: char, with: string)
    ensures Replace(a + b, c, with) == Replace(a, c, with) + Replace(b, c, with)
  {
    if a == "" {
      assert a + b == b;
    } else {
      assert (a + b)[1..] == a[1..] + b;
      ReplaceConcat(a[1..], b, c, with);
      var head := if a[0] == c then with else [a[0]];
      assert head + (Replace(a[1..], c, with) + Replace(b, c, with)) ==
             (head + Replace(a[1..], c, with)) + Replace(b, c, with);
    }
  }

  lemma ReplaceOne(x: char, c: char, with: string)
    ensures Replace([x], c, with) == if x == c then with else [x]
  {
    assert Replace([x][1..], c, with) == "";
  }

  lemma ReplaceTwo(x: char, y: char, c: char, with: string)
    ensures Replace([x, y], c, with) == (if x == c then with else [x]) + (if y == c then with else [y])
  {
    assert [x] + [y] == [x, y];
    ReplaceConcat([x], [y], c, with);
    ReplaceOne(x, c, with);
    ReplaceOne(y, c, with);
  }

  lemma EscapeOneChar(x: char)
    ensures Escape([x]) == EscapeChar(x)
  {
    ReplaceOne(x, '\\', "\\\\");
    if x == '\\' {
      ReplaceTwo('\\', '\\', ',', "\\,");
      ReplaceTwo('\\', '\\', ':', "\\:");
    } else {
      ReplaceOne(x, ',', "\\,");
      if x == ',' {
        ReplaceTwo('\\', ',', ':', "\\:");
      } else {
        ReplaceOne(x, ':', "\\:");
      }
    }
  }

  lemma EscapeConcat(a: string, b: string)
    ensures Escape(a + b) == Escape(a) + Escape(b)
  {
    ReplaceConcat(a, b, '\\', "\\\\");
    var a1, b1 := Replace(a, '\\', "\\\\"), Replace(b, '\\', "\\\\");
    ReplaceConcat(a1, b1, ',', "\\,");
    ReplaceConcat(Replace(a1, ',', "\\,"), Replace(b1, ',', "\\,"), ':', "\\:");
  }

  /** The three passes do not interfere: they equal one pass over the characters. */
  lemma {:induction false} EscapeIsOnePass(path: string)
    ensures Escape(path) == EscapeOnce(path)
  {
    hide Escape;
    if path == "" {
      EscapeEmpty();
    } else {
      assert path == [path[0]] + path[1..];
      EscapeConcat([path[0]], path[1..]);
      EscapeOneChar(path[0]);
      EscapeIsOnePass(path[1..]);
    }
  }

  lemma EscapeEmpty()
    ensures Escape("") == ""
  {
  }

  /******* What the kernel reads *******/

  /** Drops the backslash of each escaped character. */
  function Unescape(s: string): string {
    if s == "" then ""
    else if s[0] == '\\' && |s| > 1 then [s[1]] + Unescape(s[2..])
    else [s[0]] + Unescape(s[1..])
  }

  /** Text put in front of the first piece. */
  function Attach(a: string, pieces: seq<string>): (r: seq<string>)
    requires |pieces| > 0
    ensures |r| == |pieces|
  {
    [a + pieces[0]] + pieces[1..]
  }

  /** Pieces of s between unescaped occurrences of c, escapes kept. */
  function SplitUnescaped(s: string, c: char): (r: seq<string>)
    ensures |r| > 0
    decreases |s|
  {
    if s == "" then [""]
    else if s[0] == '\\' && |s| > 1 then Attach(s[..2], SplitUnescaped(s[2..], c))
    else if s[0] == c then [""] + SplitUnescaped(s[1..], c)
    else Attach([s[0]], SplitUnescaped(s[1..], c))
  }

  lemma AttachTwice(a: string, b: string, pieces: seq<string>)
    requires |pieces| > 0
    ensures Attach(a, Attach(b, pieces)) == Attach(a + b, pieces)
    ensures Attach("", pieces) == pieces
  {
    assert a + (b + pieces[0]) == (a + b) + pieces[0];
    assert "" + pieces[0] == pieces[0];
  }

  lemma {:induction false} UnescapeEscape(path: string)
    ensures Unescape(EscapeOnce(path)) == path
  {
    if path != "" {
      var e := EscapeOnce(path);
      UnescapeEscape(path[1..]);
      if Special(path[0]) {
        assert e[2..] == EscapeOnce(path[1..]);
      } else {
        assert e[1..] == EscapeOnce(path[1..]);
      }
    }
  }

  lemma EscapedCharPrefix(x: char, rest: string, c: char)
    requires c == ',' || c == ':'
    ensures SplitUnescaped(EscapeChar(x) + rest, c) == Attach(EscapeChar(x), SplitUnescaped(rest, c))
  {
    var s := EscapeChar(x) + rest;
    if Special(x) {
      assert s[2..] == rest && s[..2] == EscapeChar(x);
    } else {
      assert s[1..] == rest;
    }
  }

  /** An escaped path in front of more text never splits, and does not change how the text splits. */
  lemma {:induction false} EscapedPrefix(path: string, rest: string, c: char)
    requires c == ',' || c == ':'
    ensures SplitUnescaped(EscapeOnce(path) + rest, c) == Attach(EscapeOnce(path), SplitUnescaped(rest, c))
  {
    hide Attach, EscapeChar;
    if path == "" {
      assert EscapeOnce(path) + rest == rest;
      AttachTwice("", "", SplitUnescaped(rest, c));
    } else {
      var tail := EscapeOnce(path[1..]);
      assert EscapeOnce(path) + rest == EscapeChar(path[0]) + (tail + rest);
      EscapedCharPrefix(path[0], tail + rest, c);
      EscapedPrefix(path[1..], rest, c);
      AttachTwice(EscapeChar(path[0]), tail, SplitUnescaped(rest, c));
    }
  }

  /** The escaped lower directory reads back as exactly one entry of the colon list, equal to the path. */
  lemma LowerdirIsOneEntry(path: string)
    ensures SplitUnescaped(Escape(path), ':') == [Escape(path)]
    ensures Unescape(Escape(path)) == path
  {
    EscapeIsOnePass(path);
    UnescapeEscape(path);
    EscapedPrefix(path, "", ':');
    assert EscapeOnce(path) + "" == EscapeOnce(path);
  }

  /******* Unescaped separators and open ends *******/

  /** Some occurrence of c is not escaped. */
  predicate HasUnescaped(s: string, c: char)
    decreases |s|
  {
    if s == "" then false
    else if s[0] == '\\' && |s| > 1 then HasUnescaped(s[2..], c)
    else s[0] == c || HasUnescaped(s[1..], c)
  }

  /** The text ends with a backslash that escapes whatever is put behind it. */
  predicate Open(s: string)
    decreases |s|
  {
    if s == "" then false
    else if s[0] == '\\' then |s| == 1 || Open(s[2..])
    else Open(s[1..])
  }

  /** How many backslashes the text ends with. */
  function TrailingRun(s: string): (n: nat)
    ensures n <= |s|
  {
    if s != "" && Last(s) == '\\' then TrailingRun(Init(s)) + 1 else 0
  }

  lemma {:induction false} TrailingConcat(a: string, b: string)
    ensures TrailingRun(a + b) == if TrailingRun(b) == |b| then TrailingRun(a) + |b| else TrailingRun(b)
  {
    if b == "" {
      assert a + b == a;
    } else {
      assert Init(a + b) == a + Init(b) && Last(a + b) == Last(b);
      TrailingConcat(a, Init(b));
    }
  }

  /** An end is open exactly if the number of backslashes there is odd. */
  lemma {:induction false} OpenIff(s: string)
    ensures Open(s) <==> TrailingRun(s) % 2 == 1
    decreases |s|
  {
    if s != "" {
      if s[0] == '\\' && |s| > 1 {
        OpenIff(s[2..]);
        TrailingConcat(s[..2], s[2..]);
        assert s == s[..2] + s[2..];
        assert s[..2] == [s[0], s[1]] && Init(s[..2]) == [s[0]] && Init([s[0]]) == "";
      } else {
        OpenIff(s[1..]);
        TrailingConcat([s[0]], s[1..]);
        assert s == [s[0]] + s[1..];
        assert Init([s[0]]) == "";
      }
    }
  }

  lemma {:induction false} SingleIff(s: string, c: char)
    ensures |SplitUnescaped(s, c)| == 1 <==> !HasUnescaped(s, c)
    ensures |SplitUnescaped(s, c)| == 1 ==> SplitUnescaped(s, c) == [s]
    decreases |s|
  {
    if s != "" {
      if s[0] == '\\' && |s| > 1 {
        SingleIff(s[2..], c);
        assert s == s[..2] + s[2..];
      } else {
        SingleIff(s[1..], c);
        assert s == [s[0]] + s[1..];
      }
    }
  }

  lemma AttachConcat(a: string, ps: seq<string>, qs: seq<string>)
    requires |ps| > 0
    ensures Attach(a, ps + qs) == Attach(a, ps) + qs
  {
  }

  /** Behind a closed end, a separator separates. */
  lemma {:induction false} ClosedSplit(a: string, c: char, b: string)
    requires !Open(a) && c != '\\'
    ensures SplitUnescaped(a + [c] + b, c) == SplitUnescaped(a, c) + SplitUnescaped(b, c)
    decreases |a|
  {
    hide Attach;
    var s := a + [c] + b;
    if a == "" {
      assert s[0] == c && s[1..] == b;
    } else if a[0] == '\\' {
      assert s[..2] == a[..2] && s[2..] == a[2..] + [c] + b;
      ClosedSplit(a[2..], c, b);
      AttachConcat(a[..2], SplitUnescaped(a[2..], c), SplitUnescaped(b, c));
    } else {
      assert s[0] == a[0] && s[1..] == a[1..] + [c] + b;
      ClosedSplit(a[1..], c, b);
      AttachConcat([a[0]], SplitUnescaped(a[1..], c), SplitUnescaped(b, c));
      assert [""] + (SplitUnescaped(a[1..], c) + SplitUnescaped(b, c)) ==
             [""] + SplitUnescaped(a[1..], c) + SplitUnescaped(b, c);
    }
  }

  /** Every piece in front of a separator has a closed end. */
  lemma {:induction false} PiecesClosed(s: string, c: char)
    ensures forall i :: 0 <= i < |SplitUnescaped(s, c)| - 1 ==> !Open(SplitUnescaped(s, c)[i])
    decreases |s|
  {
    if s != "" {
      if s[0] == '\\' && |s| > 1 {
        var rest := SplitUnescaped(s[2..], c);
        PiecesClosed(s[2..], c);
        assert (s[..2] + rest[0])[2..] == rest[0];
      } else {
        var rest := SplitUnescaped(s[1..], c);
        PiecesClosed(s[1..], c);
        assert ([s[0]] + rest[0])[1..] == rest[0];
        assert s[0] == '\\' ==> rest == [""];
      }
    }
  }

  /** A plain key in front changes neither. */
  lemma {:induction false} KeyedText(key: string, s: string)
    requires forall i :: 0 <= i < |key| ==> !Special(key[i])
    ensures HasUnescaped(key + s, ',') == HasUnescaped(s, ',') && Open(key + s) == Open(s)
  {
    if key == "" {
      assert key + s == s;
    } else {
      assert !Special(key[0]);
      assert (key + s)[1..] == key[1..] + s;
      KeyedText(key[1..], s);
    }
  }

  /** An escaped path behind a plain key is one option; the rest splits at its own commas. */
  lemma KeyedSplit(key: string, lower: string, tail: string)
    requires forall i :: 0 <= i < |key| ==> !Special(key[i])
    ensures SplitUnescaped(key + Escape(lower) + ([','] + tail), ',') ==
            [key + Escape(lower)] + SplitUnescaped(tail, ',')
  {
    var rest := [','] + tail;
    assert rest[1..] == tail && SplitUnescaped(rest, ',') == [""] + SplitUnescaped(tail, ',');
    hide Escape, SplitUnescaped, EscapeOnce, Special;
    EscapeIsOnePass(lower);
    NothingSpecial(key);
    EscapeOnceConcat(key, lower);
    EscapedPrefix(key + lower, rest, ',');
    var pieces := [""] + SplitUnescaped(tail, ',');
    assert pieces[1..] == SplitUnescaped(tail, ',');
    assert key + Escape(lower) + "" == key + Escape(lower);
  }

  function Tail(upper: string, work: string): string {
    "upperdir=" + upper + [','] + ("workdir=" + work)
  }

  lemma OptionsShape(lower: string, upper: string, work: string)
    ensures BuildOptions(lower, upper, work) == "lowerdir=" + Escape(lower) + ([','] + Tail(upper, work))
  {
    hide Escape;
    var e := Escape(lower);
    assert ",upperdir=" == [','] + "upperdir=" && ",workdir=" == [','] + "workdir=";
    Regroup("lowerdir=" + e, [','], "upperdir=", upper, [','], "workdir=", work);
  }

  lemma Regroup(a: string, b: string, c: string, d: string, e: string, f: string, g: string)
    ensures a + (b + c) + d + (e + f) + g == a + (b + (c + d + e + (f + g)))
  {
  }

  lemma OptionsSplit(lower: string, upper: string, work: string)
    ensures SplitUnescaped(BuildOptions(lower, upper, work), ',') ==
            ["lowerdir=" + Escape(lower)] + SplitUnescaped(Tail(upper, work), ',')
  {
    hide Escape, SplitUnescaped, BuildOptions;
    OptionsShape(lower, upper, work);
    KeyedSplit("lowerdir=", lower, Tail(upper, work));
  }

  /** Two texts around a separator come apart at it, and nowhere else, exactly in this case. */
  lemma PairSplitIff(u: string, w: string)
    ensures SplitUnescaped(u + [','] + w, ',') == [u, w] <==>
            !HasUnescaped(u, ',') && !Open(u) && !HasUnescaped(w, ',')
  {
    hide SplitUnescaped, HasUnescaped, Open;
    SingleIff(u, ',');
    SingleIff(w, ',');
    if Open(u) {
      PiecesClosed(u + [','] + w, ',');
      assert [u, w][0] == u;
    } else {
      ClosedSplit(u, ',', w);
    }
  }

  lemma TailSplitIff(upper: string, work: string)
    ensures SplitUnescaped(Tail(upper, work), ',') == ["upperdir=" + upper, "workdir=" + work] <==>
            !HasUnescaped(upper, ',') && TrailingRun(upper) % 2 == 0 && !HasUnescaped(work, ',')
  {
    hide SplitUnescaped, HasUnescaped, Open, TrailingRun;
    PairSplitIff("upperdir=" + upper, "workdir=" + work);
    KeyedText("upperdir=", upper);
    KeyedText("workdir=", work);
    OpenIff(upper);
  }

  /**
   * The kernel sees exactly the three intended options if and only if neither the upper nor the work
   * directory has an unescaped comma, and the upper directory does not end in an odd number of backslashes,
   * which would escape the comma behind it. The lower directory can be anything.
   */
  lemma ThreeOptionsIff(lower: string, upper: string, work: string)
    ensures SplitUnescaped(BuildOptions(lower, upper, work), ',') ==
              ["lowerdir=" + Escape(lower), "upperdir=" + upper, "workdir=" + work]
            <==> !HasUnescaped(upper, ',') && TrailingRun(upper) % 2 == 0 && !HasUnescaped(work, ',')
  {
    hide Escape, SplitUnescaped, BuildOptions, Tail, HasUnescaped, TrailingRun;
    OptionsSplit(lower, upper, work);
    TailSplitIff(upper, work);
    var pieces := SplitUnescaped(Tail(upper, work), ',');
    var first := "lowerdir=" + Escape(lower);
    assert ([first] + pieces)[1..] == pieces;
    assert [first, "upperdir=" + upper, "workdir=" + work][1..] == ["upperdir=" + upper, "workdir=" + work];
  }

  /** For directories without backslashes this is the absence of commas. */
  lemma {:induction false} PlainHasUnescaped(s: string, c: char)
    requires '\\' !in s
    ensures HasUnescaped(s, c) <==> c in s
    ensures TrailingRun(s) == 0
  {
    if s != "" {
      assert s[0] in s && Last(s) in s && s == [s[0]] + s[1..];
      PlainHasUnescaped(s[1..], c);
    }
  }

  /******* The directories of a package *******/

  /** Path::join of a relative name to a non-empty path. */
  function PathJoin(base: string, name: string): string
    requires base != ""
  {
    if Last(base) == '/' then base + name else base + "/" + name
  }

  function UpperDir(root: string, name: string): string
    requires root != "" && name != ""
  {
    PathJoin(PathJoin(root, name), "upper")
  }

  function WorkDir(root: string, name: string): string
    requires root != "" && name != ""
  {
    PathJoin(PathJoin(root, name), "work")
  }

  lemma BehindSlash(base: string, name: string)
    requires base != "" && name != "" && name != "." && name != ".." && '/' !in name
    ensures Paths.Components(base + "/" + name) == Paths.Components(base) + [Paths.Normal(name)]
    ensures Paths.Components(base + "/") == Paths.Components(base)
    ensures Paths.Components("/" + name) == Paths.Components("/") + [Paths.Normal(name)]
  {
    hide Paths.Components;
    Paths.PlainName(name);
    Paths.ComponentsMean(base, name);
    Paths.ComponentsMean(base, "");
    assert base + "/" + "" == base + "/" && "/" + "" == "/";
    assert [Paths.RootDir][1..] == [];
    assert ([Paths.RootDir] + [Paths.Normal(name)])[1..] == [Paths.Normal(name)];
  }

  /** Joining a plain name adds one component, whether or not the base ends in a slash. */
  lemma JoinedComponents(base: string, name: string)
    requires base != "" && name != "" && name != "." && name != ".." && '/' !in name
    ensures PathJoin(base, name) != ""
    ensures Paths.Components(PathJoin(base, name)) == Paths.Components(base) + [Paths.Normal(name)]
  {
    hide Paths.Components;
    BehindSlash(base, name);
    if Last(base) == '/' && Init(base) != "" {
      var front := Init(base);
      BehindSlash(front, name);
      assert base == front + "/" && base + name == front + "/" + name;
    } else if Last(base) == '/' {
      assert base == "/";
    }
  }

  /** The two directories of a package lie below the configured root, in a directory of the package's name. */
  lemma DirComponents(root: string, name: string)
    requires root != "" && Paths.IsSafePathSegment(name)
    ensures Paths.Components(UpperDir(root, name)) ==
            Paths.Components(root) + [Paths.Normal(name), Paths.Normal("upper")]
    ensures Paths.Components(WorkDir(root, name)) ==
            Paths.Components(root) + [Paths.Normal(name), Paths.Normal("work")]
  {
    Paths.SafeSegmentIff(name);
    hide Paths.Components, Paths.IsSafePathSegment, PathJoin;
    JoinedComponents(root, name);
    JoinedComponents(PathJoin(root, name), "upper");
    JoinedComponents(PathJoin(root, name), "work");
  }

  /** Text without separators and backslashes behind another adds no unescaped separator. */
  lemma {:induction false} PlainBehind(a: string, b: string, c: char)
    requires c != '\\' && c !in b && '\\' !in b
    ensures HasUnescaped(a + b, c) == HasUnescaped(a, c)
    decreases |a|
  {
    var s := a + b;
    if a == "" {
      assert s == b;
      PlainHasUnescaped(b, c);
    } else if a[0] == '\\' && |a| > 1 {
      assert s[2..] == a[2..] + b;
      PlainBehind(a[2..], b, c);
    } else if a[0] == '\\' {
      assert a == "\\";
      if b != "" {
        assert s[2..] == b[1..] && forall x :: x in b[1..] ==> x in b;
        PlainHasUnescaped(b[1..], c);
      }
    } else {
      assert s[1..] == a[1..] + b;
      PlainBehind(a[1..], b, c);
    }
  }

  /** What a package directory adds to the configured root. */
  function Below(root: string, name: string, leaf: string): string
    requires root != ""
  {
    (if Last(root) == '/' then "" else "/") + name + "/" + leaf
  }

  lemma JoinedDir(root: string, name: string, leaf: string)
    requires root != "" && name != "" && Last(name) != '/'
    ensures PathJoin(PathJoin(root, name), leaf) == root + Below(root, name, leaf)
  {
    var base := if Last(root) == '/' then root else root + "/";
    assert PathJoin(root, name) == base + name;
    assert Last(base + name) == Last(name);
    assert PathJoin(base + name, leaf) == base + name + "/" + leaf;
  }

  lemma DirShape(root: string, name: string, leaf: string)
    requires root != "" && Paths.IsSafePathSegment(name) && leaf != "" && ',' !in leaf && '\\' !in leaf
    ensures var dir := PathJoin(PathJoin(root, name), leaf);
            HasUnescaped(dir, ',') == HasUnescaped(root, ',') && TrailingRun(dir) == 0
  {
    Paths.SafeSegmentIff(name);
    assert Last(name) in name;
    JoinedDir(root, name, leaf);
    hide HasUnescaped, PathJoin, Paths.IsSafePathSegment;
    var rest := Below(root, name, leaf);
    assert ',' !in rest && '\\' !in rest;
    PlainBehind(root, rest, ',');
    assert Last(root + rest) == Last(leaf) && Last(leaf) in leaf;
  }

  /**
   * For every accepted package name and any mount point, the kernel sees exactly the three intended options
   * if and only if the configured overlay root has no unescaped comma.
   */
  lemma PackageOptionsIff(lower: string, root: string, name: string)
    requires root != "" && Paths.IsSafePathSegment(name)
    ensures SplitUnescaped(BuildOptions(lower, UpperDir(root, name), WorkDir(root, name)), ',') ==
              ["lowerdir=" + Escape(lower), "upperdir=" + UpperDir(root, name), "workdir=" + WorkDir(root, name)]
            <==> !HasUnescaped(root, ',')
  {
    DirShape(root, name, "upper");
    DirShape(root, name, "work");
    hide Escape, SplitUnescaped, BuildOptions, HasUnescaped, TrailingRun, PathJoin;
    ThreeOptionsIff(lower, UpperDir(root, name), WorkDir(root, name));
  }

  /** Any configured root with a comma and no backslash fails. */
  lemma CommaRootFails(lower: string, root: string, name: string)
    requires ',' in root && '\\' !in root && Paths.IsSafePathSegment(name)
    ensures SplitUnescaped(BuildOptions(lower, UpperDir(root, name), WorkDir(root, name)), ',') !=
              ["lowerdir=" + Escape(lower), "upperdir=" + UpperDir(root, name), "workdir=" + WorkDir(root, name)]
  {
    PlainHasUnescaped(root, ',');
    hide Escape, SplitUnescaped, BuildOptions, HasUnescaped, PathJoin;
    PackageOptionsIff(lower, root, name);
  }

  lemma {:induction false} NothingSpecial(s: string)
    requires forall i :: 0 <= i < |s| ==> !Special(s[i])
    ensures EscapeOnce(s) == s
  {
    if s != "" {
      NothingSpecial(s[1..]);
    }
  }

  lemma {:induction false} EscapeOnceConcat(a: string, b: string)
    ensures EscapeOnce(a + b) == EscapeOnce(a) + EscapeOnce(b)
  {
    if a == "" {
      assert a + b == b;
    } else {
      assert (a + b)[1..] == a[1..] + b;
      EscapeOnceConcat(a[1..], b);
      assert EscapeChar(a[0]) + (EscapeOnce(a[1..]) + EscapeOnce(b)) ==
             (EscapeChar(a[0]) + EscapeOnce(a[1..])) + EscapeOnce(b);
    }
  }
}
