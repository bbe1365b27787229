/** Path safety checks (ssamd/src/utils.rs) over std::path components. */
module Paths {
  import opened Wrappers
  import opened Strings

  datatype Component = RootDir | CurDir | ParentDir | Normal(seg: string)

  const NUL: char := '\0'

  /** What one piece between slashes contributes; "." counts only at the start of a relative path. */
  function Piece(p: string, atStart: bool): seq<Component> {
    if p == "" then []
    else if p == "." then (if atStart then [CurDir] else [])
    else if p == ".." then [ParentDir]
    else [Normal(p)]
  }

  function Pieces(ps: seq<string>, atStart: bool): seq<Component> {
    if ps == [] then [] else Piece(ps[0], atStart) + Pieces(ps[1..], false)
  }

  /** Path::components on Unix. */
  function Components(path: string): seq<Component> {
    var absolute := "/" <= path;
    (if absolute then [RootDir] else []) + Pieces(Split(path, '/'), !absolute)
  }

  predicate AllPlain(cs: seq<Component>) {
    forall i :: 0 <= i < |cs| ==> cs[i].Normal? && NUL !in cs[i].seg
  }

  /** The checks of is_safe_relative_path as one condition. */
  predicate SafeRelative(cs: seq<Component>) {
    cs != [] && AllPlain(cs)
  }

  /** is_safe_relative_path */
  method IsSafeRelativePath(cs: seq<Component>) returns (safe: bool)
    ensures safe == SafeRelative(cs)
  {
    var hasComponent := false;
    for i := 0 to |cs|
      invariant forall k :: 0 <= k < i ==> cs[k].Normal? && NUL !in cs[k].seg
      invariant hasComponent == (i > 0)
    {
      match cs[i]
      case Normal(seg) =>
        if NUL in seg {
          return false;
        }
        hasComponent := true;
      case _ => return false;
    }
    return hasComponent;
  }

  const FORBIDDEN: set<char> := {'/', NUL, ',', '\\'}

  /** is_safe_path_segment */
  predicate IsSafePathSegment(name: string) {
    && name != "" && (forall i :: 0 <= i < |name| ==> name[i] !in FORBIDDEN)
    && var cs := Components(name);
       |cs| == 1 && cs[0].Normal?
  }

  /** A safe segment is any non-empty name without / NUL , and \ other than the two dot names. */
  lemma SafeSegmentIff(name: string)
    ensures IsSafePathSegment(name) <==>
            && name != "" && name != "." && name != ".."
            && '/' !in name && NUL !in name && ',' !in name && '\\' !in name
  {
    if '/' !in name && name != "" {
      SplitNone(name, '/');
      assert !("/" <= name);
      assert Pieces([name], true) == Piece(name, true) + Pieces([], false);
      assert Components(name) == Piece(name, true);
    }
    if forall i :: 0 <= i < |name| ==> name[i] !in FORBIDDEN {
      assert '/' !in name;
    }
  }

  /** A slash-free name other than the two dot names is one plain component. */
  lemma PlainName(name: string)
    requires name != "" && name != "." && name != ".." && '/' !in name
    ensures Components(name) == [Normal(name)]
  {
    SplitNone(name, '/');
    assert Pieces([name], true) == Piece(name, true) + Pieces([], false);
  }

  /** A safe segment denotes exactly itself as a path. */
  lemma SafeSegmentComponents(name: string)
    requires IsSafePathSegment(name)
    ensures Components(name) == [Normal(name)]
  {
    SafeSegmentIff(name);
    PlainName(name);
  }

  /******* The components of a path, from its text *******/

  lemma {:induction false} PiecesConcat(ps: seq<string>, qs: seq<string>, atStart: bool)
    requires ps != []
    ensures Pieces(ps + qs, atStart) == Pieces(ps, atStart) + Pieces(qs, false)
  {
    assert (ps + qs)[1..] == ps[1..] + qs;
    if |ps| == 1 {
      assert ps[1..] == [] && [] + qs == qs;
    } else {
      PiecesConcat(ps[1..], qs, false);
    }
  }

  /** The components of the four shortest paths, and of any two paths around a slash. */
  lemma ComponentsMean(a: string, b: string)
    ensures Components("") == [] && Components("/") == [RootDir]
    ensures Components(".") == [CurDir] && Components("..") == [ParentDir]
    ensures a != "" ==> Components(a + "/" + b) == Components(a) + Components("/" + b)[1..]
    ensures var cs := Components(b);
            Components("/" + b) == [RootDir] + if cs != [] && cs[0] in {RootDir, CurDir} then cs[1..] else cs
  {
    ShortPaths();
    Rooted(b);
    if a != "" {
      Composed(a, b);
    }
    hide Components;
  }

  lemma Composed(a: string, b: string)
    requires a != ""
    ensures Components(a + "/" + b) == Components(a) + Components("/" + b)[1..]
  {
    hide Pieces, Split;
    var first, second := Split(a, '/'), Split(b, '/');
    RootedPieces(b);
    SplitConcat(a, '/', b);
    PiecesConcat(first, second, !("/" <= a));
    var path := a + ['/'] + b;
    assert path == a + "/" + b && path[0] == a[0];
    assert ([RootDir] + Pieces(second, false))[1..] == Pieces(second, false);
  }

  lemma RootedPieces(b: string)
    ensures Components("/" + b) == [RootDir] + Pieces(Split(b, '/'), false)
  {
    hide Pieces, Split;
    SplitAt("", '/', b);
    assert "" + ['/'] + b == "/" + b;
    EmptyFirst(Split(b, '/'));
  }

  lemma EmptyFirst(ps: seq<string>)
    ensures Pieces([""] + ps, false) == Pieces(ps, false)
  {
    assert ([""] + ps)[1..] == ps;
  }

  lemma ShortPaths()
    ensures Components("") == [] && Components("/") == [RootDir]
    ensures Components(".") == [CurDir] && Components("..") == [ParentDir]
  {
    SplitNone(".", '/');
    SplitNone("..", '/');
    SplitAt("", '/', "");
    assert "" + ['/'] + "" == "/";
    assert Pieces(["", ""], false) == Piece("", false) + Pieces([""], false);
    assert Pieces(["."], true) == Piece(".", true) + Pieces([], false);
    assert Pieces([".."], true) == Piece("..", true) + Pieces([], false);
  }

  lemma Rooted(b: string)
    ensures var cs := Components(b);
            Components("/" + b) == [RootDir] + if cs != [] && cs[0] in {RootDir, CurDir} then cs[1..] else cs
  {
    RootedPieces(b);
    var pieces := Split(b, '/');
    if "/" <= b {
      assert Components(b) == [RootDir] + Pieces(pieces, false);
    } else {
      FirstPiece(b);
      assert Components(b) == Piece(pieces[0], true) + Pieces(pieces[1..], false);
      NoRoot(pieces[1..]);
    }
  }

  /** A relative path that is not empty starts with a piece that is not. */
  lemma FirstPiece(s: string)
    requires !("/" <= s)
    ensures Split(s, '/')[0] == "" <==> s == ""
  {
    assert s != "" ==> s[0] != '/';
  }

  lemma {:induction false} NoRoot(ps: seq<string>)
    ensures RootDir !in Pieces(ps, false) && CurDir !in Pieces(ps, false)
  {
    if ps != [] {
      NoRoot(ps[1..]);
    }
  }

  lemma PlainPieceIff(p: string, atStart: bool)
    ensures AllPlain(Piece(p, atStart)) <==> NUL !in p && p != ".." && !(atStart && p == ".")
  {
    var cs := Piece(p, atStart);
    assert NUL !in "." && NUL !in "";
    assert cs != [] ==> (AllPlain(cs) <==> cs[0].Normal? && NUL !in cs[0].seg);
  }

  lemma AllPlainConcat(a: seq<Component>, b: seq<Component>)
    ensures AllPlain(a + b) <==> AllPlain(a) && AllPlain(b)
  {
    var cs := a + b;
    assert forall i :: 0 <= i < |a| ==> cs[i] == a[i];
    forall i | 0 <= i < |b| && AllPlain(cs) ensures b[i].Normal? && NUL !in b[i].seg {
      assert cs[|a| + i] == b[i];
    }
  }

  lemma {:induction false} PlainPiecesIff(ps: seq<string>, atStart: bool)
    ensures AllPlain(Pieces(ps, atStart)) <==>
            && (forall i :: 0 <= i < |ps| ==> NUL !in ps[i]) && ".." !in ps
            && (atStart && ps != [] ==> ps[0] != ".")
  {
    if ps != [] {
      PlainPiecesIff(ps[1..], false);
      PlainPieceIff(ps[0], atStart);
      AllPlainConcat(Piece(ps[0], atStart), Pieces(ps[1..], false));
      hide AllPlain, Piece;
      assert forall i :: 1 <= i < |ps| ==> ps[i] == ps[1..][i - 1];
      assert forall i :: 0 <= i < |ps| - 1 ==> ps[1..][i] == ps[i + 1];
      assert ".." in ps <==> ps[0] == ".." || ".." in ps[1..];
    }
  }

  lemma {:induction false} SomePieceIff(ps: seq<string>)
    ensures Pieces(ps, false) != [] <==> exists i :: 0 <= i < |ps| && ps[i] != "" && ps[i] != "."
  {
    if ps != [] {
      SomePieceIff(ps[1..]);
      assert forall i :: 1 <= i < |ps| ==> ps[i] == ps[1..][i - 1];
      assert forall i :: 0 <= i < |ps| - 1 ==> ps[1..][i] == ps[i + 1];
    }
  }

  lemma PiecesSafeIff(ps: seq<string>, atStart: bool)
    ensures SafeRelative(Pieces(ps, atStart)) <==>
            && (forall i :: 0 <= i < |ps| ==> NUL !in ps[i]) && ".." !in ps
            && (atStart && ps != [] ==> ps[0] != ".")
            && exists i :: 0 <= i < |ps| && ps[i] != "" && ps[i] != "."
  {
    PlainPiecesIff(ps, atStart);
    SomePieceIff(ps);
    if atStart && ps != [] && ps[0] != "." {
      assert Pieces(ps, true) == Pieces(ps, false);
    }
  }

  /** The relative paths that are safe, in terms of the text. */
  lemma SafePathIff(path: string)
    ensures var pieces := Split(path, '/');
            SafeRelative(Components(path)) <==>
            && !("/" <= path) && NUL !in path && ".." !in pieces && pieces[0] != "."
            && exists i :: 0 <= i < |pieces| && pieces[i] != "" && pieces[i] != "."
  {
    if "/" <= path {
      assert Components(path)[0] == RootDir;
    } else {
      assert Components(path) == Pieces(Split(path, '/'), true);
      PiecesSafeIff(Split(path, '/'), true);
      SplitKeeps(path, '/', NUL);
    }
  }

  /******* Lexical resolution *******/

  /** The directory names that remain after resolving "." and ".." textually from the root. */
  function Resolve(cs: seq<Component>): seq<string> {
    if cs == [] then []
    else
      var front := Resolve(Init(cs));
      match Last(cs)
      case RootDir => []
      case CurDir => front
      case ParentDir => if front == [] then [] else Init(front)
      case Normal(seg) => front + [seg]
  }

  function Segments(cs: seq<Component>): seq<string>
    requires forall i :: 0 <= i < |cs| ==> cs[i].Normal?
  {
    seq(|cs|, i requires 0 <= i < |cs| => cs[i].seg)
  }

  /** Plain segments below a root resolve to a place below that root. */
  lemma {:induction false} PlainStaysBelow(root: seq<Component>, cs: seq<Component>)
    requires forall i :: 0 <= i < |cs| ==> cs[i].Normal?
    ensures Resolve(root + cs) == Resolve(root) + Segments(cs)
  {
    if cs == [] {
      assert root + cs == root;
    } else {
      assert Init(root + cs) == root + Init(cs) && Last(root + cs) == Last(cs);
      PlainStaysBelow(root, Init(cs));
      assert Segments(cs) == Segments(Init(cs)) + [Last(cs).seg];
    }
  }
}
