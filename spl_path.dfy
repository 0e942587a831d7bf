/**
 * spl_path.h: lexical path manipulation over C strings, a port of Go's
 * `path` package. Strings are modelled as `string` values without NUL;
 * the buffers the C code writes into are arrays of char holding a
 * NUL-terminated string.
 */
module SplPath {
  import PathLexical
  import opened CString

  /** Size of the buffers spl_path_clean and spl_path_join allocate themselves. */
  const PathBufferSize := 4096

  /** The number of bytes spl_path_clean reads: `len` when positive, otherwise all of them. */
  function Span(path: string, len: int): nat
    requires len <= |path|
  {
    if len > 0 then len else |path|
  }

  /** At index i, p holds a "." or ".." segment, which the cleaning loop consumes. */
  predicate DotElementAt(p: string, i: nat)
    requires i < |p|
  {
    || i + 1 == |p|
    || p[i + 1] == '/'
    || (p[i + 1] == '.' && (i + 2 == |p| || p[i + 2] == '/'))
  }

  /**
   * Every segment that starts with '.' is exactly "." or "..". On any other
   * such segment (".bashrc", "..x") the cleaning loop never advances.
   */
  predicate DotSegmentsOnly(p: string)
  {
    forall i :: 0 <= i < |p| && p[i] == '.' && (i == 0 || p[i - 1] == '/') ==> DotElementAt(p, i)
  }

  /**
   * The read position after the '.' case of spl_path_clean's switch, as
   * written: past a "." or ".." element, and otherwise where it was, since
   * that case breaks out of the switch without copying the element.
   */
  function DotCaseNext(p: string, r: nat): (r': nat)
    requires r < |p| && p[r] == '.'
    ensures r' == r <==> !DotElementAt(p, r)
    ensures r' <= |p|
  {
    if r + 1 == |p| || p[r + 1] == '/' then r + 1
    else if p[r + 1] == '.' && (r + 2 == |p| || p[r + 2] == '/') then r + 2
    else r
  }

  /**
   * On a name such as ".bashrc" the '.' case leaves the read position
   * where it is, so the loop of spl_path_clean never ends; the reference
   * cleaning keeps the name.
   */
  lemma DotNameStalls(x: string)
    requires |x| >= 2 && x[0] == '.' && '/' !in x && x != ".."
    ensures DotCaseNext(x, 0) == 0
    ensures !DotSegmentsOnly(x)
    ensures PathLexical.Clean(x) == x
  {
    assert x[1] in x;
    assert x[1] != '/';
    if x[1] == '.' {
      assert x[2] in x;
    }
    assert !DotElementAt(x, 0);
    if DotSegmentsOnly(x) {
      DotSegmentStart(x, 0);
    }
    PathLexical.CleanOfName(x);
  }

  /** Under DotSegmentsOnly, a '.' that starts a segment starts "." or "..". */
  lemma DotSegmentStart(p: string, r: nat)
    requires DotSegmentsOnly(p)
    requires r < |p| && p[r] == '.' && (r == 0 || p[r - 1] == '/')
    ensures DotElementAt(p, r)
  {
  }

  /**
   * The state of spl_path_clean's loop after reading p[..r]: `out` (the
   * bytes written, w of them) renders the stack st of segments kept so far,
   * whose first dd entries are the permanent ".." run, and dotdot is the
   * length of that run's rendering, the point `..` may not erase past.
   */
  ghost predicate Cursors(p: string, rooted: bool, r: nat, w: nat, dotdot: nat,
                          st: seq<string>, dd: nat, out: string)
  {
    && Positions(p, rooted, r, w, dotdot)
    && StackOf(p, rooted, r, st, dd)
    && |out| == w
    && Written(rooted, st, dd, out, dotdot)
  }

  /**
   * Where the cursors stand: r at a segment boundary, w behind r (and equal
   * to it only before anything but the root was dropped), the boundary
   * dotdot behind w.
   */
  predicate Positions(p: string, rooted: bool, r: nat, w: nat, dotdot: nat)
  {
    var base := if rooted then 1 else 0;
    && base <= dotdot <= w <= r <= |p|
    && (rooted ==> p[0] == '/')
    && (r == 0 || r == |p| || p[r - 1] == '/' || p[r] == '/')
    && (w == r ==> r == base || r == |p| || p[r] == '/')
  }

  /** st is the stack of p[..r], whose first dd entries are the ".." run. */
  ghost predicate StackOf(p: string, rooted: bool, r: nat, st: seq<string>, dd: nat)
  {
    && r <= |p|
    && st == PathLexical.Resolve(rooted, PathLexical.Split(p[..r]))
    && Shape(rooted, st, dd)
  }

  /** Proper names, of which exactly the first dd are "..", none if rooted. */
  ghost predicate Shape(rooted: bool, st: seq<string>, dd: nat)
  {
    && PathLexical.ProperNames(st)
    && dd <= |st| && (rooted ==> dd == 0)
    && (forall i :: 0 <= i < dd ==> st[i] == "..")
    && (forall i :: dd <= i < |st| ==> st[i] != "..")
  }

  /** out renders st, and dotdot is the length of the rendered ".." run. */
  ghost predicate Written(rooted: bool, st: seq<string>, dd: nat, out: string, dotdot: nat)
  {
    && dd <= |st|
    && out == PathLexical.Render(rooted, st)
    && dotdot == |PathLexical.Render(rooted, st[..dd])|
  }

  /** A prefix of a prefix is a prefix of the whole. */
  lemma PrefixOfPrefix(out: string, all: string, w: nat, L: nat)
    requires L <= w <= |all| && out == all[..w]
    ensures out[..L] == all[..L]
  {
  }

  /** The stack after a segment Piece(p, r, e) that starts at a boundary. */
  lemma StackNext(p: string, rooted: bool, r: nat, e: nat, st: seq<string>, dd: nat,
                  st': seq<string>, dd': nat)
    requires StackOf(p, rooted, r, st, dd)
    requires r <= e <= |p| && (r == 0 || p[r - 1] == '/') && '/' !in PathLexical.Piece(p, r, e)
    requires st' == PathLexical.Push(rooted, st, PathLexical.Piece(p, r, e)) && Shape(rooted, st', dd')
    ensures StackOf(p, rooted, e, st', dd')
  {
    PathLexical.ResolveNextSegment(rooted, p, r, e);
  }

  /** ".." erases the last name when it lies past the ".." run. */
  lemma ShapePop(rooted: bool, st: seq<string>, dd: nat)
    requires Shape(rooted, st, dd) && dd < |st|
    ensures PathLexical.Push(rooted, st, "..") == st[..|st| - 1]
    ensures Shape(rooted, st[..|st| - 1], dd)
  {
    assert st[|st| - 1] != "..";
  }

  /** ".." with nothing to erase extends the run of an unrooted stack. */
  lemma ShapeAppend(st: seq<string>, dd: nat)
    requires Shape(false, st, dd) && dd == |st|
    ensures PathLexical.Push(false, st, "..") == st + [".."]
    ensures Shape(false, st + [".."], |st| + 1)
  {
    assert |st| > 0 ==> st[|st| - 1] == "..";
  }

  /** A proper name other than ".." is pushed. */
  lemma ShapeName(rooted: bool, st: seq<string>, dd: nat, seg: string)
    requires Shape(rooted, st, dd)
    requires seg != "" && seg != "." && seg != ".." && '/' !in seg
    ensures PathLexical.Push(rooted, st, seg) == st + [seg]
    ensures Shape(rooted, st + [seg], dd)
  {
  }

  /** Appending a name to the stack appends it to the rendering, after a '/' unless at the root. */
  lemma WrittenSnoc(rooted: bool, st: seq<string>, dd: nat, out: string, dotdot: nat, seg: string)
    requires Written(rooted, st, dd, out, dotdot) && PathLexical.ProperNames(st)
    ensures (|out| != (if rooted then 1 else 0)) == (st != [])
    ensures PathLexical.Render(rooted, st + [seg])
         == out + (if |out| != (if rooted then 1 else 0) then "/" else "") + seg
    ensures (st + [seg])[..dd] == st[..dd]
    ensures Written(rooted, st + [seg], dd, out + (if |out| != (if rooted then 1 else 0) then "/" else "") + seg, dotdot)
  {
    PathLexical.RenderLength(rooted, st);
    PathLexical.RenderSnoc(rooted, st, seg);
  }

  /** The loop starts after the root '/' of a rooted path, else at byte 0. */
  lemma CursorsInit(p: string, rooted: bool)
    requires p != [] && rooted == (p[0] == '/')
    ensures var b := if rooted then 1 else 0;
      Cursors(p, rooted, b, b, b, [], 0, if rooted then "/" else "")
  {
    if rooted {
      PathLexical.ResolveSlash(rooted, p, 0);
      assert p[..0] == [];
    }
  }

  /** Case '/': an empty segment is skipped. */
  lemma CursorsSlash(p: string, rooted: bool, r: nat, w: nat, dotdot: nat,
                     st: seq<string>, dd: nat, out: string)
    requires Cursors(p, rooted, r, w, dotdot, st, dd, out)
    requires r < |p| && p[r] == '/'
    ensures Cursors(p, rooted, r + 1, w, dotdot, st, dd, out)
  {
    PathLexical.ResolveSlash(rooted, p, r);
  }

  /** Case ".": the segment is dropped. */
  lemma CursorsDot(p: string, rooted: bool, r: nat, w: nat, dotdot: nat,
                   st: seq<string>, dd: nat, out: string)
    requires Cursors(p, rooted, r, w, dotdot, st, dd, out)
    requires r < |p| && p[r] == '.' && (r + 1 == |p| || p[r + 1] == '/')
    ensures Cursors(p, rooted, r + 1, w, dotdot, st, dd, out)
  {
    assert PathLexical.Piece(p, r, r + 1) == ".";
    StackNext(p, rooted, r, r + 1, st, dd, st, dd);
  }

  /** A ".." segment at r. */
  predicate DotDotAt(p: string, r: nat)
  {
    r + 1 < |p| && p[r] == '.' && p[r + 1] == '.' && (r + 2 == |p| || p[r + 2] == '/')
  }

  /**
   * Case ".." with w > dotdot: the last segment is erased. Its rendering
   * starts right after the '/' at L (or at the boundary itself), so moving w
   * back to the first '/' or to dotdot lands on L.
   */
  lemma CursorsPop(p: string, rooted: bool, r: nat, w: nat, dotdot: nat,
                   st: seq<string>, dd: nat, out: string) returns (L: nat)
    requires Cursors(p, rooted, r, w, dotdot, st, dd, out)
    requires DotDotAt(p, r) && w > dotdot
    ensures dotdot <= L < w
    ensures forall j :: L < j < w ==> out[j] != '/'
    ensures out[L] == '/' || L == dotdot
    ensures Cursors(p, rooted, r + 2, L, dotdot, st[..|st| - 1], dd, out[..L])
  {
    BacktrackBounds(rooted, st, dd, out, dotdot);
    var pre := st[..|st| - 1];
    L := |PathLexical.Render(rooted, pre)|;
    assert pre[..dd] == st[..dd];
    assert Written(rooted, pre, dd, out[..L], dotdot);
    ShapePop(rooted, st, dd);
    assert PathLexical.Piece(p, r, r + 2) == "..";
    StackNext(p, rooted, r, r + 2, st, dd, pre, dd);
  }

  /** Case ".." at the boundary of a rooted path: the ".." is dropped. */
  lemma CursorsDotDotAtRoot(p: string, rooted: bool, r: nat, w: nat, dotdot: nat,
                            st: seq<string>, dd: nat, out: string)
    requires Cursors(p, rooted, r, w, dotdot, st, dd, out)
    requires DotDotAt(p, r) && w == dotdot && rooted
    ensures Cursors(p, rooted, r + 2, w, dotdot, st, dd, out)
  {
    PathLexical.RenderPrefix(rooted, st, dd);
    PathLexical.RenderLength(rooted, st);
    assert st == [];
    assert PathLexical.Piece(p, r, r + 2) == "..";
    StackNext(p, rooted, r, r + 2, st, dd, st, dd);
  }

  /**
   * Case ".." at the boundary of an unrooted path: ".." is appended (after
   * a '/' unless nothing was written) and becomes the new boundary.
   */
  lemma CursorsDotDotAppend(p: string, rooted: bool, r: nat, w: nat, dotdot: nat,
                            st: seq<string>, dd: nat, out: string)
    requires Cursors(p, rooted, r, w, dotdot, st, dd, out)
    requires DotDotAt(p, r) && w == dotdot && !rooted
    ensures w > 0 ==> w < r
    ensures var out' := out + (if w > 0 then "/" else "") + "..";
      Cursors(p, rooted, r + 2, |out'|, |out'|, st + [".."], |st| + 1, out')
  {
    var sep := if w > 0 then "/" else "";
    var out' := out + sep + "..";
    var st' := st + [".."];
    PathLexical.RenderPrefix(rooted, st, dd);
    assert dd == |st|;
    ShapeAppend(st, dd);
    assert PathLexical.Piece(p, r, r + 2) == "..";
    StackNext(p, rooted, r, r + 2, st, dd, st', |st| + 1);
    WrittenSnoc(rooted, st, dd, out, dotdot, "..");
    assert st'[..|st| + 1] == st';
    assert Written(false, st', |st| + 1, out', |out'|);
    assert Positions(p, false, r + 2, |out'|, |out'|);
  }

  /**
   * Default case: the name Piece(p, r, e) is copied, after a '/' unless w is just
   * past the root (or at 0 for an unrooted path).
   */
  lemma CursorsName(p: string, rooted: bool, r: nat, w: nat, dotdot: nat,
                    st: seq<string>, dd: nat, out: string, e: nat)
    requires Cursors(p, rooted, r, w, dotdot, st, dd, out)
    requires r < e <= |p| && p[r] != '/' && p[r] != '.'
    requires '/' !in PathLexical.Piece(p, r, e) && (e == |p| || p[e] == '/')
    ensures w != (if rooted then 1 else 0) ==> w < r
    ensures var sep := w != (if rooted then 1 else 0);
      Cursors(p, rooted, e, w + (if sep then 1 else 0) + (e - r), dotdot,
              st + [PathLexical.Piece(p, r, e)], dd, out + (if sep then "/" else "") + PathLexical.Piece(p, r, e))
  {
    NameStack(p, rooted, r, e, st, dd);
    WrittenSnoc(rooted, st, dd, out, dotdot, PathLexical.Piece(p, r, e));
    NamePositions(p, rooted, r, w, dotdot, e, st != []);
  }

  /** Where the cursors stand after a name of e - r bytes was copied. */
  lemma NamePositions(p: string, rooted: bool, r: nat, w: nat, dotdot: nat, e: nat, sep: bool)
    requires Positions(p, rooted, r, w, dotdot)
    requires r < e <= |p| && p[r] != '/' && (e == |p| || p[e] == '/')
    requires sep == (w != (if rooted then 1 else 0))
    ensures sep ==> w < r
    ensures Positions(p, rooted, e, w + (if sep then 1 else 0) + (e - r), dotdot)
  {
  }

  /** The stack after a name Piece(p, r, e) read at a boundary. */
  lemma NameStack(p: string, rooted: bool, r: nat, e: nat, st: seq<string>, dd: nat)
    requires StackOf(p, rooted, r, st, dd)
    requires r < e <= |p| && (r == 0 || p[r - 1] == '/')
    requires '/' !in PathLexical.Piece(p, r, e) && p[r] != '.'
    ensures StackOf(p, rooted, e, st + [PathLexical.Piece(p, r, e)], dd)
  {
    var seg := PathLexical.Piece(p, r, e);
    PathLexical.PieceHead(p, r, e);
    ShapeName(rooted, st, dd, seg);
    StackNext(p, rooted, r, e, st, dd, st + [seg], dd);
  }

  /**
   * spl_path_clean: writes the cleaned form of the first Span(path, len)
   * bytes of path into buf as a C string and returns its length. A caller
   * passing NULL gets a fresh buffer of PathBufferSize bytes instead.
   */
  method Clean(path: string, len: int, buf: array<char>) returns (n: nat)
    requires NoNul(path) && len <= |path|
    requires DotSegmentsOnly(path[..Span(path, len)])
    requires Span(path, len) < buf.Length && 2 <= buf.Length
    modifies buf
    ensures n < buf.Length && buf[n] == '\0'
    ensures buf[..n] == PathLexical.Clean(path[..Span(path, len)])
  {
    buf[0] := '\0';
    if |path| == 0 {
      buf[0], buf[1] := '.', '\0';
      return 1;
    }
    var rooted := path[0] == '/';
    var N := if len > 0 then len else |path|;
    ghost var p := path[..N];
    assert DotSegmentsOnly(p);
    var r: nat, w: nat, dotdot: nat := 0, 0, 0;
    // st is the stack of segments kept so far, dd the length of its leading ".." run
    ghost var st: seq<string> := [];
    ghost var dd: nat := 0;
    if rooted {
      buf[w] := '/';
      w, r, dotdot := w + 1, 1, 1;
    }
    CursorsInit(p, rooted);

    while r < N
      invariant |p| == N < buf.Length && w <= N && DotSegmentsOnly(p)
      invariant Cursors(p, rooted, r, w, dotdot, st, dd, buf[..w])
      decreases N - r
    {
      r, w, dotdot, st, dd := CleanStep(path, N, rooted, buf, r, w, dotdot, p, st, dd);
    }
    assert p[..r] == p;
    if w == 0 {
      buf[0], buf[1] := '.', '\0';
      return 1;
    }
    buf[w] := '\0';
    n := w;
  }

  /** One iteration of Clean's loop: the segment (or '/') at r is consumed. */
  method CleanStep(path: string, N: nat, rooted: bool, buf: array<char>,
                   r: nat, w: nat, dotdot: nat,
                   ghost p: string, ghost st: seq<string>, ghost dd: nat)
    returns (r': nat, w': nat, dotdot': nat, ghost st': seq<string>, ghost dd': nat)
    requires N <= |path| && p == path[..N] && N < buf.Length && w <= N
    requires DotSegmentsOnly(p) && r < N
    requires Cursors(p, rooted, r, w, dotdot, st, dd, buf[..w])
    modifies buf
    ensures r < r' <= N && w' <= N
    ensures Cursors(p, rooted, r', w', dotdot', st', dd', buf[..w'])
  {
    r', w', dotdot', st', dd' := r, w, dotdot, st, dd;
    if path[r] == '/' {
      // empty segment
      CursorsSlash(p, rooted, r, w, dotdot, st, dd, buf[..w]);
      r' := r + 1;
    } else if path[r] == '.' {
      r', w', dotdot', st', dd' := CleanDots(path, N, rooted, buf, r, w, dotdot, p, st, dd);
    } else {
      r', w', st' := CleanName(path, N, rooted, buf, r, w, dotdot, p, st, dd);
    }
  }

  /** A segment starting with '.': "." is skipped, ".." erases or is kept. */
  method CleanDots(path: string, N: nat, rooted: bool, buf: array<char>,
                   r: nat, w: nat, dotdot: nat,
                   ghost p: string, ghost st: seq<string>, ghost dd: nat)
    returns (r': nat, w': nat, dotdot': nat, ghost st': seq<string>, ghost dd': nat)
    requires N <= |path| && p == path[..N] && N < buf.Length && w <= N
    requires DotSegmentsOnly(p) && r < N && p[r] == '.'
    requires Cursors(p, rooted, r, w, dotdot, st, dd, buf[..w])
    modifies buf
    ensures r < r' <= N && w' <= N
    ensures Cursors(p, rooted, r', w', dotdot', st', dd', buf[..w'])
  {
    r', w', dotdot', st', dd' := r, w, dotdot, st, dd;
    if r + 1 == N || path[r + 1] == '/' {
      // "." segment
      CursorsDot(p, rooted, r, w, dotdot, st, dd, buf[..w]);
      r' := r + 1;
    } else if path[r + 1] == '.' && (r + 2 == N || path[r + 2] == '/') {
      // ".." segment
      if w > dotdot {
        w', st' := CleanPop(path, N, rooted, buf, r, w, dotdot, p, st, dd);
      } else if !rooted {
        w', st', dd' := CleanAppendDotDot(path, N, buf, r, w, dotdot, p, st, dd);
        dotdot' := w';
      } else {
        CursorsDotDotAtRoot(p, rooted, r, w, dotdot, st, dd, buf[..w]);
      }
      r' := r + 2;
    } else {
      // a segment such as ".bashrc": the source never advances r here
      DotSegmentStart(p, r);
      assert false;
    }
  }

  /** ".." with a segment past dotdot: the last segment written is erased. */
  method CleanPop(path: string, N: nat, rooted: bool, buf: array<char>,
                  r: nat, w: nat, dotdot: nat,
                  ghost p: string, ghost st: seq<string>, ghost dd: nat)
    returns (w': nat, ghost st': seq<string>)
    requires N <= |path| && p == path[..N] && N < buf.Length && w <= N
    requires Cursors(p, rooted, r, w, dotdot, st, dd, buf[..w])
    requires DotDotAt(p, r) && w > dotdot
    ensures w' < w
    ensures Cursors(p, rooted, r + 2, w', dotdot, st', dd, buf[..w'])
  {
    ghost var out := buf[..w];
    ghost var L := CursorsPop(p, rooted, r, w, dotdot, st, dd, out);
    w' := BackToSlash(buf, w, dotdot, L);
    PrefixOfPrefix(out, buf[..], w, L);
    st' := st[..|st| - 1];
  }

  /** ".." at the boundary of an unrooted path: it joins the leading ".." run. */
  method CleanAppendDotDot(path: string, N: nat, buf: array<char>,
                           r: nat, w: nat, dotdot: nat,
                           ghost p: string, ghost st: seq<string>, ghost dd: nat)
    returns (w': nat, ghost st': seq<string>, ghost dd': nat)
    requires N <= |path| && p == path[..N] && N < buf.Length && w <= N
    requires Cursors(p, false, r, w, dotdot, st, dd, buf[..w])
    requires DotDotAt(p, r) && w == dotdot
    modifies buf
    ensures w' <= r + 2
    ensures Cursors(p, false, r + 2, w', w', st', dd', buf[..w'])
  {
    CursorsDotDotAppend(p, false, r, w, dotdot, st, dd, buf[..w]);
    w' := PutDotDot(buf, w);
    st', dd' := st + [".."], |st| + 1;
  }

  /** Writes "..", after a '/' unless w is 0. */
  method PutDotDot(buf: array<char>, w: nat) returns (w': nat)
    requires (if w > 0 then w + 3 else 2) <= buf.Length
    modifies buf
    ensures w' == w + (if w > 0 then 3 else 2)
    ensures buf[..w'] == old(buf[..w]) + (if w > 0 then "/" else "") + ".."
  {
    w' := w;
    if w' > 0 {
      buf[w'] := '/';
      w' := w' + 1;
    }
    buf[w'] := '.';
    buf[w' + 1] := '.';
    w' := w' + 2;
  }

  /**
   * The default case of Clean's loop: a '/' unless w is just past the root,
   * then the bytes of the name up to the next '/' or the end.
   */
  method CleanName(path: string, N: nat, rooted: bool, buf: array<char>,
                   r: nat, w: nat, dotdot: nat,
                   ghost p: string, ghost st: seq<string>, ghost dd: nat)
    returns (r': nat, w': nat, ghost st': seq<string>)
    requires N <= |path| && p == path[..N] && N < buf.Length && w <= N
    requires Cursors(p, rooted, r, w, dotdot, st, dd, buf[..w])
    requires r < N && p[r] != '/' && p[r] != '.'
    modifies buf
    ensures r < r' <= N && w' <= N
    ensures Cursors(p, rooted, r', w', dotdot, st', dd, buf[..w'])
  {
    var sep := (rooted && w != 1) || (!rooted && w != 0);
    r', w' := CopyName(path, N, buf, r, w, sep);
    PathLexical.PieceOfPrefix(path, N, r, r');
    CursorsName(p, rooted, r, w, dotdot, st, dd, old(buf[..w]), r');
    st' := st + [PathLexical.Piece(p, r, r')];
  }

  /**
   * The backtracking loop of the ".." case: w moves back from the end of
   * the last segment to the '/' before it, or to dotdot.
   */
  method BackToSlash(buf: array<char>, w: nat, dotdot: nat, ghost L: nat) returns (w': nat)
    requires dotdot <= L < w <= buf.Length
    requires forall j :: L < j < w ==> buf[j] != '/'
    requires buf[L] == '/' || L == dotdot
    ensures w' == L
  {
    w' := w - 1;
    while w' > dotdot && buf[w'] != '/'
      invariant L <= w' < w
      decreases w'
    {
      w' := w' - 1;
    }
  }

  /**
   * The copying loop of the default case: a '/' when sep is set, then
   * the bytes from r up to the next '/' or position N, written to buf at w.
   */
  method CopyName(path: string, N: nat, buf: array<char>, r: nat, w: nat, sep: bool)
    returns (r': nat, w': nat)
    requires N <= |path| && N < buf.Length && r <= N && (if sep then w < r else w <= r)
    modifies buf
    ensures r <= r' <= N && w' <= r'
    ensures r' == N || path[r'] == '/'
    ensures '/' !in PathLexical.Piece(path, r, r')
    ensures buf[..w'] == old(buf[..w]) + (if sep then "/" else "") + PathLexical.Piece(path, r, r')
  {
    r', w' := r, w;
    if sep {
      buf[w'] := '/';
      w' := w' + 1;
    }
    while r' < N && path[r'] != '/'
      invariant r <= r' <= N && w' == w + (if sep then 1 else 0) + (r' - r) && w' <= r'
      invariant '/' !in PathLexical.Piece(path, r, r')
      invariant buf[..w'] == old(buf[..w]) + (if sep then "/" else "") + PathLexical.Piece(path, r, r')
      decreases N - r'
    {
      buf[w'] := path[r'];
      w' := w' + 1;
      r' := r' + 1;
    }
  }

  /**
   * Facts the backtracking loop of Clean relies on: the last segment of
   * the stack occupies the tail of the written bytes, preceded by a '/'
   * or by the dotdot boundary itself.
   */
  lemma BacktrackBounds(rooted: bool, st: seq<string>, dd: nat, out: string, dotdot: nat)
    requires PathLexical.ProperNames(st)
    requires dd <= |st| && out == PathLexical.Render(rooted, st)
    requires dotdot == |PathLexical.Render(rooted, st[..dd])| < |out|
    ensures dd < |st|
    ensures var L := |PathLexical.Render(rooted, st[..|st| - 1])|;
      && dotdot <= L < |out|
      && out[..L] == PathLexical.Render(rooted, st[..|st| - 1])
      && (forall j :: L < j < |out| ==> out[j] != '/')
      && (out[L] == '/' || L == dotdot)
  {
    PathLexical.RenderPrefix(rooted, st, dd);
    var pre := st[..|st| - 1];
    var x := st[|st| - 1];
    assert st == pre + [x];
    PathLexical.RenderSnoc(rooted, pre, x);
    PathLexical.RenderPrefix(rooted, pre, dd);
    assert pre[..dd] == st[..dd];
    var L := |PathLexical.Render(rooted, pre)|;
    var sep := if pre == [] then "" else "/";
    assert out == PathLexical.Render(rooted, pre) + sep + x;
    forall j | L < j < |out|
      ensures out[j] != '/'
    {
      if sep == "" {
        assert out[j] == x[j - L];
      } else {
        assert out[j] == x[j - L - 1];
      }
    }
  }

  // ---------------------------------------------------------------------
  // last_slash_index
  // ---------------------------------------------------------------------

  /** last_slash_index: scans back from the last byte to the first '/' it meets. */
  method LastSlashIndex(s: string) returns (i: int)
    ensures i == PathLexical.LastSlash(s)
  {
    i := |s| - 1;
    while i >= 0 && s[i] != '/'
      invariant -1 <= i < |s|
      invariant forall j :: i < j < |s| ==> s[j] != '/'
      decreases i + 1
    {
      i := i - 1;
    }
  }

  // ---------------------------------------------------------------------
  // spl_path_join
  // ---------------------------------------------------------------------

  /**
   * The text spl_path_join builds before cleaning: every non-empty
   * fragment, in order, each followed by a '/'.
   */
  function Glue(fragments: seq<string>): string
    decreases |fragments|
  {
    if fragments == [] then ""
    else
      var f := fragments[|fragments| - 1];
      Glue(fragments[..|fragments| - 1]) + (if f == [] then "" else f + "/")
  }

  /** The non-empty fragments, in order. */
  function NonEmpty(fragments: seq<string>): seq<string>
    decreases |fragments|
  {
    if fragments == [] then []
    else
      var f := fragments[|fragments| - 1];
      NonEmpty(fragments[..|fragments| - 1]) + (if f == [] then [] else [f])
  }

  /** The result of spl_path_join: the glued text cleaned, or "" when there is none. */
  function JoinOf(fragments: seq<string>): string
  {
    var g := Glue(fragments);
    if g == [] then "" else PathLexical.Clean(g)
  }

  /**
   * spl_path_join over a sequence of fragments: the non-empty ones are
   * appended to a fresh buffer, each followed by '/', and the whole is
   * cleaned into a second fresh buffer.
   */
  method Join(fragments: seq<string>) returns (res: string)
    requires forall i :: 0 <= i < |fragments| ==> NoNul(fragments[i])
    requires |Glue(fragments)| < PathBufferSize
    requires DotSegmentsOnly(Glue(fragments))
    ensures res == JoinOf(fragments)
  {
    var joined := "";
    var n := 0;
    var k := 0;
    while k < |fragments|
      invariant k <= |fragments|
      invariant joined == Glue(fragments[..k]) && NoNul(joined)
      invariant (n == 0) == (joined == [])
    {
      var f := fragments[k];
      assert fragments[..k + 1][..k] == fragments[..k];
      if f != [] {
        joined := joined + f + "/";
        n := n + 1;
      }
      k := k + 1;
    }
    assert fragments[..k] == fragments;
    if n == 0 {
      return "";
    }
    var buf := new char[PathBufferSize];
    assert joined[..Span(joined, 0)] == joined;
    var m := Clean(joined, 0, buf);
    res := buf[..m];
  }

  /** The glued text is the non-empty fragments joined by '/', plus a trailing '/'. */
  lemma {:induction false} GlueIsJoined(fragments: seq<string>)
    ensures Glue(fragments) ==
      if NonEmpty(fragments) == [] then "" else PathLexical.JoinSegments(NonEmpty(fragments)) + "/"
    decreases |fragments|
  {
    if fragments != [] {
      var init := fragments[..|fragments| - 1];
      var f := fragments[|fragments| - 1];
      GlueIsJoined(init);
      assert Glue(fragments) == Glue(init) + (if f == [] then "" else f + "/");
      assert NonEmpty(fragments) == NonEmpty(init) + (if f == [] then [] else [f]);
      if f != [] {
        PathLexical.JoinSegmentsSnoc(NonEmpty(init), f);
      } else {
        assert NonEmpty(init) + [] == NonEmpty(init);
      }
    }
  }

  /** No fragment survives exactly when every fragment is empty. */
  lemma {:induction false} NonEmptyIsEmpty(fragments: seq<string>)
    ensures NonEmpty(fragments) == [] <==> forall i :: 0 <= i < |fragments| ==> fragments[i] == []
    decreases |fragments|
  {
    if fragments != [] {
      var init := fragments[..|fragments| - 1];
      NonEmptyIsEmpty(init);
      assert forall i :: 0 <= i < |init| ==> init[i] == fragments[i];
    }
  }

  /**
   * Join is the cleaned '/'-joined list of its non-empty fragments, and
   * "" (not ".") exactly when every fragment is empty.
   */
  lemma JoinCleansJoined(fragments: seq<string>)
    ensures JoinOf(fragments) == "" <==> forall i :: 0 <= i < |fragments| ==> fragments[i] == []
    ensures NonEmpty(fragments) != [] ==>
      JoinOf(fragments) == PathLexical.Clean(PathLexical.JoinSegments(NonEmpty(fragments)))
  {
    GlueIsJoined(fragments);
    NonEmptyIsEmpty(fragments);
    var ne := NonEmpty(fragments);
    if ne != [] {
      var j := PathLexical.JoinSegments(ne);
      NonEmptyHasNoEmpty(fragments);
      PathLexical.JoinSegmentsHead(ne);
      PathLexical.CleanTrailingSlash(j);
    }
  }

  /** NonEmpty keeps no empty fragment. */
  lemma {:induction false} NonEmptyHasNoEmpty(fragments: seq<string>)
    ensures forall i :: 0 <= i < |NonEmpty(fragments)| ==> NonEmpty(fragments)[i] != []
    decreases |fragments|
  {
    if fragments != [] {
      NonEmptyHasNoEmpty(fragments[..|fragments| - 1]);
    }
  }

  // ---------------------------------------------------------------------
  // spl_path_dir
  // ---------------------------------------------------------------------

  /**
   * The bytes spl_path_dir hands to clean: the path through its last '/',
   * or the whole path when it has none, because a length of 0 tells clean
   * to read all of it.
   */
  function DirSpan(p: string): (d: string)
    ensures |d| <= |p| && d == p[..|d|]
  {
    var i := PathLexical.LastSlash(p);
    if i >= 0 then p[..i + 1] else p
  }

  /** spl_path_dir: cleans the path through its last '/' into buf. */
  method Dir(path: string, buf: array<char>) returns (n: nat)
    requires NoNul(path) && DotSegmentsOnly(DirSpan(path))
    requires |DirSpan(path)| < buf.Length && 2 <= buf.Length
    modifies buf
    ensures n < buf.Length && buf[n] == '\0'
    ensures buf[..n] == PathLexical.Clean(DirSpan(path))
  {
    var i := LastSlashIndex(path);
    assert path[..Span(path, i + 1)] == DirSpan(path);
    n := Clean(path, i + 1, buf);
  }

  /**
   * The directory of a path as documented: everything through the last
   * '/', cleaned, so "." for a path without '/'.
   */
  function DirOf(p: string): (d: string)
    ensures '/' !in p ==> d == "."
    ensures d != [] && (d[|d| - 1] == '/' ==> d == "/")
    ensures PathLexical.Clean(d) == d
  {
    var x := p[..PathLexical.LastSlash(p) + 1];
    PathLexical.CleanEndsInSlash(x);
    PathLexical.CleanIdempotent(x);
    PathLexical.Clean(x)
  }

  /**
   * A bare name such as "a": spl_path_dir hands back the name itself,
   * where the documented directory is ".".
   */
  lemma DirKeepsBareName(x: string)
    requires x != [] && '/' !in x && x != "." && x != ".."
    ensures PathLexical.Clean(DirSpan(x)) == x
    ensures DirOf(x) == "."
  {
    assert DirSpan(x) == x;
    PathLexical.CleanOfName(x);
  }

  /** Where the path has a '/', spl_path_dir agrees with the documented directory. */
  lemma DirAgrees(p: string)
    requires '/' in p
    ensures PathLexical.Clean(DirSpan(p)) == DirOf(p)
  {
  }

  /** Slashes followed by a slash-free name: the directory is "/". */
  lemma DirOfRootedName(p: string, k: nat)
    requires 0 < k <= |p|
    requires forall i :: 0 <= i < k ==> p[i] == '/'
    requires forall i :: k <= i < |p| ==> p[i] != '/'
    ensures DirOf(p) == "/" && PathLexical.Clean(DirSpan(p)) == "/"
  {
    assert p[k - 1] == '/';
    var i := PathLexical.LastSlash(p);
    assert i == k - 1;
    PathLexical.CleanOfSlashes(p[..k]);
  }

  // ---------------------------------------------------------------------
  // spl_path_base
  // ---------------------------------------------------------------------

  /**
   * The result of spl_path_base: the text after the last '/' of the
   * cleaned path, or "/" when nothing follows it.
   */
  function BaseOf(p: string): string
  {
    var c := PathLexical.Clean(p);
    var t := c[PathLexical.LastSlash(c) + 1..];
    if t == [] then "/" else t
  }

  /**
   * spl_path_base: cleans the whole path into a fresh buffer and returns a
   * copy of what follows its last '/'.
   */
  method Base(path: string) returns (b: string)
    requires NoNul(path) && |path| < PathBufferSize && DotSegmentsOnly(path)
    ensures b == BaseOf(path)
  {
    var buf := new char[PathBufferSize];
    assert path[..Span(path, 0)] == path;
    var n := Clean(path, 0, buf);
    var cleaned := buf[..n];
    var i := LastSlashIndex(cleaned);
    if i >= 0 {
      b := cleaned[i + 1..];
    } else {
      b := cleaned;
    }
    if b == [] {
      b := "/";
    }
  }

  /** The empty path has base ".". */
  lemma BaseOfEmpty()
    ensures BaseOf("") == "."
  {
    assert PathLexical.LastSlash(".") == -1;
  }

  /** A path of slashes only has base "/". */
  lemma BaseOfSlashes(p: string)
    requires p != [] && forall i :: 0 <= i < |p| ==> p[i] == '/'
    ensures BaseOf(p) == "/"
  {
    PathLexical.CleanOfSlashes(p);
    assert PathLexical.LastSlash("/") == 0;
  }

  /**
   * The base is "/" exactly when the path cleans to "/"; otherwise it is
   * the last element of the cleaned path, non-empty and free of '/'.
   */
  lemma BaseIsLastElement(p: string)
    ensures var c := PathLexical.Clean(p); var segs := PathLexical.Split(c);
      && (BaseOf(p) == "/" <==> c == "/")
      && (c != "/" ==> BaseOf(p) == segs[|segs| - 1] && BaseOf(p) != [] && '/' !in BaseOf(p))
  {
    var c := PathLexical.Clean(p);
    var i := PathLexical.LastSlash(c);
    var segs := PathLexical.Split(c);
    PathLexical.SplitLastSegment(c);
    PathLexical.SplitHasNoSlash(c);
    PathLexical.CleanEndsInSlash(p);
    if c == "/" {
      assert i == 0;
    } else {
      var t := c[i + 1..];
      assert t == segs[|segs| - 1];
      assert i < |c| - 1;
      assert t != [];
    }
  }

  // ---------------------------------------------------------------------
  // spl_path_change_base
  // ---------------------------------------------------------------------

  /**
   * What spl_path_change_base leaves in the buffer: the new base alone for
   * a path without '/'; the path through its last '/' followed by the new
   * base when that '/' is past index 0; and the path unchanged when its
   * only... last '/' is at index 0.
   */
  function ChangeBaseAsWritten(s: string, b: string): string
  {
    var n := PathLexical.LastSlash(s);
    if n == -1 then b
    else if n > 0 then s[..n + 1] + b
    else s
  }

  /** The documented change of base: everything through the last '/', then the new base. */
  function ChangeBaseOf(s: string, b: string): (t: string)
    ensures |t| == PathLexical.LastSlash(s) + 1 + |b|
    ensures t[..PathLexical.LastSlash(s) + 1] == s[..PathLexical.LastSlash(s) + 1]
    ensures t[PathLexical.LastSlash(s) + 1..] == b
    ensures '/' !in b ==> PathLexical.LastSlash(t) == PathLexical.LastSlash(s)
  {
    var n := PathLexical.LastSlash(s);
    var t := s[..n + 1] + b;
    assert '/' !in b && n >= 0 ==> PathLexical.LastSlash(t) == n by {
      if '/' !in b && n >= 0 {
        PathLexical.LastSlashAppend(s[..n + 1], b);
      }
    }
    t
  }

  /** Changing the base twice is changing it once, to the second base. */
  lemma ChangeBaseTwice(s: string, b: string, b': string)
    requires '/' !in b
    ensures ChangeBaseOf(ChangeBaseOf(s, b), b') == ChangeBaseOf(s, b')
  {
  }

  /**
   * spl_path_change_base agrees with the documented change of base except
   * when the last '/' is at index 0, where it changes nothing: "/a" keeps
   * its base "a" instead of becoming "/b".
   */
  lemma ChangeBaseAtRoot(s: string, b: string)
    ensures PathLexical.LastSlash(s) != 0 ==> ChangeBaseAsWritten(s, b) == ChangeBaseOf(s, b)
    ensures ChangeBaseAsWritten("/a", "b") == "/a" && ChangeBaseOf("/a", "b") == "/b"
  {
    assert PathLexical.LastSlash("/a") == 0;
  }

  /** spl_path_change_base on the C string s held in path. */
  method ChangeBase(path: array<char>, newBase: string, ghost s: string)
    requires Holds(path, s) && NoNul(newBase)
    requires |ChangeBaseAsWritten(s, newBase)| < path.Length
    modifies path
    ensures Holds(path, ChangeBaseAsWritten(s, newBase))
    ensures forall k :: |ChangeBaseAsWritten(s, newBase)| < k < path.Length ==> path[k] == old(path[k])
  {
    var len := StrLen(path, 0, s);
    var n := LastSlashIndex(path[..len]);
    if n == -1 {
      // strcpy
      CopyString(path, 0, newBase);
      assert path[0..0 + |newBase|] == newBase;
      return;
    }
    if n > 0 {
      n := n + 1;
      path[n] := '\0';
      assert path[0..0 + n] == s[..n];
      // strcat
      var m := StrLen(path, 0, s[..n]);
      CopyString(path, m, newBase);
      HoldsConcat(path, s[..n], newBase);
    } else {
      assert path[0..0 + |s|] == path[..|s|];
    }
  }

  /** Writes src and a terminator into a from index at; nothing else changes. */
  method CopyString(a: array<char>, at: nat, src: string)
    requires at + |src| < a.Length
    modifies a
    ensures a[..at] == old(a[..at])
    ensures a[at..at + |src|] == src && a[at + |src|] == '\0'
    ensures forall k :: at + |src| < k < a.Length ==> a[k] == old(a[k])
  {
    var i := 0;
    while i < |src|
      invariant i <= |src|
      invariant a[..at] == old(a[..at])
      invariant a[at..at + i] == src[..i]
      invariant forall k :: at + i <= k < a.Length ==> a[k] == old(a[k])
    {
      a[at + i] := src[i];
      i := i + 1;
    }
    a[at + |src|] := '\0';
  }
}
