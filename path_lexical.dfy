/**
 * Lexical path names, after Rob Pike's "Lexical File Names in Plan 9":
 * a path is a '/'-separated list of segments; cleaning it drops empty and
 * "." segments, lets each ".." erase the segment before it, drops ".." at
 * the root and keeps the leading ".." run of an unrooted path.
 *
 * Everything here is defined on whole segments, with a stack, and is the
 * reference that the byte-cursor implementation in SplPath is proved against.
 * The functions recurse on the LAST element (snoc style), because the
 * implementation reads its input from left to right.
 */
module PathLexical {

  /** The segments of p: the maximal runs between '/' bytes, empty runs included. */
  function Split(p: string): (segs: seq<string>)
    ensures |segs| >= 1
    decreases |p|
  {
    if p == [] then [""]
    else AddChar(Split(p[..|p| - 1]), p[|p| - 1])
  }

  /** One more byte read: '/' opens a new segment, any other byte extends the last one. */
  function AddChar(segs: seq<string>, c: char): (segs': seq<string>)
    requires segs != []
    ensures |segs'| >= 1
  {
    if c == '/' then segs + [""]
    else segs[..|segs| - 1] + [segs[|segs| - 1] + [c]]
  }

  /** Segments joined back with single '/' separators. */
  function JoinSegments(st: seq<string>): string
    decreases |st|
  {
    if st == [] then ""
    else if |st| == 1 then st[0]
    else JoinSegments(st[..|st| - 1]) + "/" + st[|st| - 1]
  }

  /** The text of a resolved stack: a leading '/' for a rooted path, then the segments. */
  function Render(rooted: bool, st: seq<string>): string
  {
    (if rooted then "/" else "") + JoinSegments(st)
  }

  /** One segment applied to the stack of segments kept so far. */
  function Push(rooted: bool, stack: seq<string>, s: string): seq<string>
  {
    if s == "" || s == "." then stack
    else if s == ".." then
      if |stack| > 0 && stack[|stack| - 1] != ".." then stack[..|stack| - 1]
      else if rooted then stack
      else stack + [".."]
    else stack + [s]
  }

  /** All segments applied in order to an empty stack. */
  function Resolve(rooted: bool, segs: seq<string>): seq<string>
    decreases |segs|
  {
    if segs == [] then []
    else Push(rooted, Resolve(rooted, segs[..|segs| - 1]), segs[|segs| - 1])
  }

  /** The text a list of segments cleans to; "." when nothing is left. */
  function CleanSegments(rooted: bool, segs: seq<string>): (c: string)
    ensures c != []
  {
    var out := Render(rooted, Resolve(rooted, segs));
    if out == [] then "." else out
  }

  /** The shortest lexically equivalent path; "." for the empty path. */
  function Clean(p: string): (c: string)
    ensures c != []
  {
    if p == [] then "." else CleanSegments(p[0] == '/', Split(p))
  }

  /**
   * The bytes p[r..e], built from the right. Stated this way, rather than
   * as a slice, so that facts about a segment read from the start (r = 0)
   * stay cheap for the solver.
   */
  function Piece(p: string, r: nat, e: nat): (s: string)
    requires r <= e <= |p|
    ensures |s| == e - r
    decreases e - r
  {
    if e == r then [] else Piece(p, r, e - 1) + [p[e - 1]]
  }

  lemma {:induction false} PieceIsSlice(p: string, r: nat, e: nat)
    requires r <= e <= |p|
    ensures Piece(p, r, e) == p[r..e]
    decreases e - r
  {
    if e > r {
      PieceIsSlice(p, r, e - 1);
      assert p[r..e] == p[r..e - 1] + [p[e - 1]];
    }
  }

  /** The first byte of a non-empty piece. */
  lemma {:induction false} PieceHead(p: string, r: nat, e: nat)
    requires r < e <= |p|
    ensures Piece(p, r, e)[0] == p[r]
    decreases e - r
  {
    if e > r + 1 {
      PieceHead(p, r, e - 1);
    }
  }

  /** A piece of a prefix is the same piece of the whole. */
  lemma {:induction false} PieceOfPrefix(p: string, n: nat, r: nat, e: nat)
    requires r <= e <= n <= |p|
    ensures Piece(p[..n], r, e) == Piece(p, r, e)
    decreases e - r
  {
    if e > r {
      PieceOfPrefix(p, n, r, e - 1);
    }
  }

  /** All segments but the last one. */
  function AllButLast(segs: seq<string>): seq<string>
    requires segs != []
  {
    segs[..|segs| - 1]
  }

  /** No segment is empty, ".", or holds a '/'. */
  ghost predicate ProperNames(st: seq<string>)
  {
    forall i :: 0 <= i < |st| ==> st[i] != "" && st[i] != "." && '/' !in st[i]
  }

  /**
   * The shape of a resolved stack: proper names, and ".." only in a leading
   * run of an unrooted path.
   */
  ghost predicate Canonical(rooted: bool, st: seq<string>)
  {
    && ProperNames(st)
    && forall i :: 0 <= i < |st| && st[i] == ".." ==>
         !rooted && forall j :: 0 <= j < i ==> st[j] == ".."
  }

  // ---------------------------------------------------------------------
  // Split
  // ---------------------------------------------------------------------

  lemma SplitSnoc(q: string, c: char)
    ensures Split(q + [c]) == AddChar(Split(q), c)
  {
    assert (q + [c])[..|q|] == q;
  }

  /** AddChar only looks at the last segment. */
  lemma AddCharConcat(s: seq<string>, t: seq<string>, c: char)
    requires t != []
    ensures AddChar(s + t, c) == s + AddChar(t, c)
  {
    if c != '/' {
      assert (s + t)[..|s + t| - 1] == s + t[..|t| - 1];
    }
  }

  /** Every segment Split produces is free of '/'. */
  lemma {:induction false} SplitHasNoSlash(p: string)
    ensures forall i :: 0 <= i < |Split(p)| ==> '/' !in Split(p)[i]
    decreases |p|
  {
    if p != [] {
      var q := p[..|p| - 1];
      assert p == q + [p[|p| - 1]];
      SplitHasNoSlash(q);
      SplitSnoc(q, p[|p| - 1]);
    }
  }

  /** A slash-free string is a single segment. */
  lemma {:induction false} SplitNoSlash(x: string)
    requires '/' !in x
    ensures Split(x) == [x]
    decreases |x|
  {
    if x != [] {
      var q := x[..|x| - 1];
      assert x == q + [x[|x| - 1]];
      SplitNoSlash(q);
      SplitSnoc(q, x[|x| - 1]);
    }
  }

  /** Appending slash-free text extends the last segment. */
  lemma {:induction false} SplitAppendNoSlash(p: string, x: string)
    requires '/' !in x
    ensures var s := Split(p); Split(p + x) == s[..|s| - 1] + [s[|s| - 1] + x]
    decreases |x|
  {
    var s := Split(p);
    if x == [] {
      assert p + x == p;
      assert s[|s| - 1] + x == s[|s| - 1];
      assert s[..|s| - 1] + [s[|s| - 1]] == s;
    } else {
      var q := x[..|x| - 1];
      var c := x[|x| - 1];
      assert x == q + [c];
      assert c != '/';
      assert p + x == (p + q) + [c];
      SplitAppendNoSlash(p, q);
      SplitSnoc(p + q, c);
      AddCharConcat(s[..|s| - 1], [s[|s| - 1] + q], c);
      assert s[|s| - 1] + q + [c] == s[|s| - 1] + x;
    }
  }

  /** A '/' between two strings separates their segments. */
  lemma {:induction false} SplitConcat(a: string, b: string)
    ensures Split(a + "/" + b) == Split(a) + Split(b)
    decreases |b|
  {
    if b == [] {
      assert a + "/" + b == a + ['/'];
      SplitSnoc(a, '/');
    } else {
      var q := b[..|b| - 1];
      var c := b[|b| - 1];
      assert b == q + [c];
      assert a + "/" + b == (a + "/" + q) + [c];
      SplitConcat(a, q);
      SplitSnoc(a + "/" + q, c);
      SplitSnoc(q, c);
      AddCharConcat(Split(a), Split(q), c);
    }
  }

  /** Joining segments without '/' and splitting again gives them back. */
  lemma {:induction false} SplitJoin(st: seq<string>)
    requires st != []
    requires forall i :: 0 <= i < |st| ==> '/' !in st[i]
    ensures Split(JoinSegments(st)) == st
    decreases |st|
  {
    if |st| == 1 {
      SplitNoSlash(st[0]);
    } else {
      var init := st[..|st| - 1];
      SplitJoin(init);
      SplitConcat(JoinSegments(init), st[|st| - 1]);
      SplitNoSlash(st[|st| - 1]);
      assert init + [st[|st| - 1]] == st;
    }
  }

  // ---------------------------------------------------------------------
  // JoinSegments and Render
  // ---------------------------------------------------------------------

  lemma JoinSegmentsSnoc(st: seq<string>, x: string)
    ensures JoinSegments(st + [x]) == if st == [] then x else JoinSegments(st) + "/" + x
  {
    assert (st + [x])[..|st|] == st;
  }

  /** Joined non-empty segments start with the first segment's first byte. */
  lemma {:induction false} JoinSegmentsHead(st: seq<string>)
    requires st != [] && st[0] != ""
    ensures JoinSegments(st) != [] && JoinSegments(st)[0] == st[0][0]
    decreases |st|
  {
    if |st| > 1 {
      JoinSegmentsHead(st[..|st| - 1]);
    }
  }

  /** ...and end with the last segment's last byte. */
  lemma JoinSegmentsLast(st: seq<string>)
    requires st != [] && st[|st| - 1] != ""
    ensures var j := JoinSegments(st); j != [] && j[|j| - 1] == st[|st| - 1][|st[|st| - 1]| - 1]
  {
  }

  /** Two or more segments always join to text holding a '/'. */
  lemma JoinSegmentsHasSlash(st: seq<string>)
    requires |st| >= 2
    ensures '/' in JoinSegments(st)
  {
    var init := JoinSegments(st[..|st| - 1]);
    assert JoinSegments(st)[|init|] == '/';
  }

  /** The rendering of a stack that drops its last segment, as text. */
  lemma RenderSnoc(rooted: bool, st: seq<string>, x: string)
    ensures Render(rooted, st + [x]) == Render(rooted, st) + (if st == [] then "" else "/") + x
  {
    JoinSegmentsSnoc(st, x);
  }

  /** Non-empty segments render to text longer than the root part alone. */
  lemma {:induction false} RenderLength(rooted: bool, st: seq<string>)
    requires forall i :: 0 <= i < |st| ==> st[i] != ""
    ensures |Render(rooted, st)| >= (if rooted then 1 else 0) + |st|
    decreases |st|
  {
    if st != [] {
      var init := st[..|st| - 1];
      RenderLength(rooted, init);
      RenderSnoc(rooted, init, st[|st| - 1]);
      assert init + [st[|st| - 1]] == st;
    }
  }

  /**
   * Rendering a prefix of the stack gives a prefix of the rendering, a
   * strictly shorter one when segments are left out.
   */
  lemma {:induction false} RenderPrefix(rooted: bool, st: seq<string>, k: nat)
    requires k <= |st|
    requires forall i :: 0 <= i < |st| ==> st[i] != ""
    ensures var whole := Render(rooted, st); var part := Render(rooted, st[..k]);
      && |part| <= |whole| && whole[..|part|] == part
      && (k < |st| ==> |part| < |whole|) && (k == |st| ==> part == whole)
    decreases |st|
  {
    if k < |st| {
      var init := st[..|st| - 1];
      assert st == init + [st[|st| - 1]];
      assert st[..k] == init[..k];
      RenderSnoc(rooted, init, st[|st| - 1]);
      RenderPrefix(rooted, init, k);
    } else {
      assert st[..k] == st;
    }
  }

  // ---------------------------------------------------------------------
  // Resolve
  // ---------------------------------------------------------------------

  /** Pushing a slash-free segment keeps the stack canonical. */
  lemma PushCanonical(rooted: bool, stack: seq<string>, s: string)
    requires Canonical(rooted, stack)
    requires '/' !in s
    ensures Canonical(rooted, Push(rooted, stack, s))
  {
    var r := Push(rooted, stack, s);
    if s == ".." && !(|stack| > 0 && stack[|stack| - 1] != "..") && !rooted {
      forall i | 0 <= i < |r| && r[i] == ".."
        ensures forall j :: 0 <= j < i ==> r[j] == ".."
      {
        if i == |stack| && |stack| > 0 {
          assert stack[|stack| - 1] == "..";
        }
      }
    }
  }

  /** The stack built from any list of slash-free segments is canonical. */
  lemma {:induction false} ResolveCanonical(rooted: bool, segs: seq<string>)
    requires forall i :: 0 <= i < |segs| ==> '/' !in segs[i]
    ensures Canonical(rooted, Resolve(rooted, segs))
    decreases |segs|
  {
    if segs != [] {
      ResolveCanonical(rooted, segs[..|segs| - 1]);
      PushCanonical(rooted, Resolve(rooted, segs[..|segs| - 1]), segs[|segs| - 1]);
    }
  }

  /** Cleaning's stack for any path is canonical. */
  lemma CleanStackCanonical(rooted: bool, p: string)
    ensures Canonical(rooted, Resolve(rooted, Split(p)))
  {
    SplitHasNoSlash(p);
    ResolveCanonical(rooted, Split(p));
  }

  /** A canonical stack is its own resolution: resolving is idempotent. */
  lemma {:induction false} ResolveOfCanonical(rooted: bool, st: seq<string>)
    requires Canonical(rooted, st)
    ensures Resolve(rooted, st) == st
    decreases |st|
  {
    if st != [] {
      var init := st[..|st| - 1];
      var x := st[|st| - 1];
      assert Canonical(rooted, init);
      ResolveOfCanonical(rooted, init);
      assert init + [x] == st;
      if x == ".." && init != [] {
        assert init[|init| - 1] == "..";
      }
    }
  }

  /** A leading empty segment (the root's) changes nothing. */
  lemma {:induction false} ResolveLeadingEmpty(rooted: bool, segs: seq<string>)
    ensures Resolve(rooted, [""] + segs) == Resolve(rooted, segs)
    decreases |segs|
  {
    if segs == [] {
      assert Resolve(rooted, [""]) == Push(rooted, [], "");
    } else {
      var init := segs[..|segs| - 1];
      var last := segs[|segs| - 1];
      assert [""] + segs == ([""] + init) + [last];
      ResolveSnoc(rooted, [""] + init, last);
      ResolveSnoc(rooted, init, last);
      assert init + [last] == segs;
      ResolveLeadingEmpty(rooted, init);
    }
  }

  /** Right after a '/' (or at the start) the last segment read so far is empty. */
  lemma SplitAtSegmentStart(p: string, r: nat)
    requires r <= |p|
    requires r == 0 || p[r - 1] == '/'
    ensures var s := Split(p[..r]); s[|s| - 1] == "" && s == AllButLast(s) + [""]
  {
    if r > 0 {
      assert p[..r] == p[..r - 1] + ['/'];
      SplitSnoc(p[..r - 1], '/');
    }
  }

  /** Reading a whole slash-free segment from a segment start appends it. */
  lemma SplitNextSegment(p: string, r: nat, e: nat)
    requires r <= e <= |p|
    requires r == 0 || p[r - 1] == '/'
    requires '/' !in p[r..e]
    ensures var s := Split(p[..r]); Split(p[..e]) == AllButLast(s) + [p[r..e]]
  {
    var s := Split(p[..r]);
    SplitAtSegmentStart(p, r);
    assert p[..e] == p[..r] + p[r..e];
    SplitAppendNoSlash(p[..r], p[r..e]);
    assert s[|s| - 1] + p[r..e] == p[r..e];
  }

  lemma ResolveSnoc(rooted: bool, segs: seq<string>, x: string)
    ensures Resolve(rooted, segs + [x]) == Push(rooted, Resolve(rooted, segs), x)
  {
    assert (segs + [x])[..|segs|] == segs;
  }

  /**
   * Reading one more whole segment, starting right after a '/' (or at the
   * very start), pushes that segment onto the stack.
   */
  lemma ResolveNextSegment(rooted: bool, p: string, r: nat, e: nat)
    requires r <= e <= |p|
    requires r == 0 || p[r - 1] == '/'
    requires '/' !in Piece(p, r, e)
    ensures Resolve(rooted, Split(p[..e])) == Push(rooted, Resolve(rooted, Split(p[..r])), Piece(p, r, e))
  {
    PieceIsSlice(p, r, e);
    var s := Split(p[..r]);
    SplitAtSegmentStart(p, r);
    SplitNextSegment(p, r, e);
    ResolveSnoc(rooted, AllButLast(s), p[r..e]);
    ResolveSnoc(rooted, AllButLast(s), "");
  }

  /** A '/' read ends the current segment and changes nothing on the stack. */
  lemma ResolveSlash(rooted: bool, p: string, r: nat)
    requires r < |p| && p[r] == '/'
    ensures Split(p[..r + 1]) == Split(p[..r]) + [""]
    ensures Resolve(rooted, Split(p[..r + 1])) == Resolve(rooted, Split(p[..r]))
  {
    assert p[..r + 1] == p[..r] + ['/'];
    SplitSnoc(p[..r], '/');
    assert (Split(p[..r]) + [""])[..|Split(p[..r])|] == Split(p[..r]);
  }

  // ---------------------------------------------------------------------
  // The last '/'
  // ---------------------------------------------------------------------

  /** The index of the last '/' in s, or -1 when s has none. */
  function LastSlash(s: string): (i: int)
    ensures -1 <= i < |s|
    ensures i >= 0 ==> s[i] == '/'
    ensures forall j :: i < j < |s| ==> s[j] != '/'
    decreases |s|
  {
    if s == [] then -1
    else if s[|s| - 1] == '/' then |s| - 1
    else LastSlash(s[..|s| - 1])
  }

  /** Slash-free text appended after a path ending in '/' leaves its last '/' in place. */
  lemma LastSlashAppend(a: string, b: string)
    requires a != [] && a[|a| - 1] == '/' && '/' !in b
    ensures LastSlash(a + b) == |a| - 1
  {
    var t := a + b;
    var k := LastSlash(t);
    assert t[|a| - 1] == '/';
  }

  /** The last segment of s is the text after its last '/'. */
  lemma {:induction false} SplitLastSegment(s: string)
    ensures var segs := Split(s); segs[|segs| - 1] == s[LastSlash(s) + 1..]
    decreases |s|
  {
    if s != [] {
      var q := s[..|s| - 1];
      var c := s[|s| - 1];
      assert s == q + [c];
      SplitSnoc(q, c);
      if c != '/' {
        SplitLastSegment(q);
        assert LastSlash(s) == LastSlash(q);
        assert s[LastSlash(s) + 1..] == q[LastSlash(q) + 1..] + [c];
      }
    }
  }

  /** The segments of a run of slashes all vanish on a rooted stack. */
  lemma {:induction false} ResolveOfSlashes(p: string)
    requires forall i :: 0 <= i < |p| ==> p[i] == '/'
    ensures Resolve(true, Split(p)) == []
    decreases |p|
  {
    if p == [] {
      assert Resolve(true, [""]) == Push(true, [], "");
    } else {
      var q := p[..|p| - 1];
      assert p == q + ['/'];
      SplitSnoc(q, '/');
      ResolveOfSlashes(q);
      ResolveSnoc(true, Split(q), "");
    }
  }

  // ---------------------------------------------------------------------
  // Properties of Clean
  // ---------------------------------------------------------------------

  /**
   * Clean yields "." exactly for the empty path and for an unrooted path
   * whose segments all cancel out (".", "a/..", "a/b/../..").
   */
  lemma CleanIsDot(p: string)
    ensures Clean(p) == "." <==> p == [] || (p[0] != '/' && Resolve(false, Split(p)) == [])
  {
    if p != [] {
      var rooted := p[0] == '/';
      var st := Resolve(rooted, Split(p));
      CleanStackCanonical(rooted, p);
      if !rooted && |st| == 1 {
        assert JoinSegments(st) == st[0];
      } else if !rooted && |st| >= 2 {
        JoinSegmentsHasSlash(st);
      }
    }
  }

  /**
   * The result starts with '/' exactly when the input does, and a rooted
   * result has a single leading '/'.
   */
  lemma CleanKeepsRoot(p: string)
    ensures var c := Clean(p);
      && (c[0] == '/' <==> p != [] && p[0] == '/')
      && (c[0] == '/' && |c| > 1 ==> c[1] != '/')
  {
    if p != [] {
      var rooted := p[0] == '/';
      var st := Resolve(rooted, Split(p));
      CleanStackCanonical(rooted, p);
      if st != [] {
        JoinSegmentsHead(st);
      }
    }
  }

  /**
   * The cleaned form: "." or "/", or else no trailing '/', and the segments
   * after the optional root '/' are proper names with ".." only as the
   * leading run of an unrooted path.
   */
  lemma CleanIsCanonical(p: string)
    ensures var c := Clean(p);
      var rooted := c[0] == '/';
      var body := if rooted then c[1..] else c;
      c == "." || c == "/" ||
      (c[|c| - 1] != '/' && body != [] && Canonical(rooted, Split(body)) &&
       Split(body) == Resolve(rooted, Split(p)))
  {
    if p != [] {
      var rooted := p[0] == '/';
      var st := Resolve(rooted, Split(p));
      var out := Render(rooted, st);
      CleanUnfold(p);
      assert Clean(p) == if out == [] then "." else out;
      if st != [] {
        CleanStackCanonical(rooted, p);
        RenderedCanonical(rooted, st);
        assert Clean(p) == out;
      } else {
        assert out == (if rooted then "/" else "");
      }
    }
  }

  /** Only the root ends in '/' once cleaned. */
  lemma CleanEndsInSlash(p: string)
    ensures var c := Clean(p); c[|c| - 1] == '/' ==> c == "/"
  {
    CleanIsCanonical(p);
  }

  /** The rendering of a non-empty canonical stack, read back. */
  lemma RenderedCanonical(rooted: bool, st: seq<string>)
    requires Canonical(rooted, st) && st != []
    ensures var c := Render(rooted, st);
      var body := if rooted then c[1..] else c;
      && c != [] && (c[0] == '/' <==> rooted) && c[|c| - 1] != '/'
      && body == JoinSegments(st) && body != [] && Split(body) == st
  {
    var c := Render(rooted, st);
    var j := JoinSegments(st);
    JoinSegmentsHead(st);
    assert st[0][0] in st[0];
    JoinSegmentsLast(st);
    var last := st[|st| - 1];
    assert last[|last| - 1] in last;
    SplitJoin(st);
    if rooted {
      assert c == "/" + j;
      assert c[1..] == j;
    } else {
      assert c == j;
    }
  }

  /** The segments read back from a rendered canonical stack resolve to that stack. */
  lemma ResolveRendered(rooted: bool, st: seq<string>)
    requires Canonical(rooted, st)
    requires rooted || st != []
    ensures var t := Render(rooted, st);
      t != [] && (t[0] == '/' <==> rooted) && Resolve(rooted, Split(t)) == st
  {
    var j := JoinSegments(st);
    if st != [] {
      JoinSegmentsHead(st);
      assert st[0][0] in st[0];
      SplitJoin(st);
      ResolveOfCanonical(rooted, st);
    }
    if rooted {
      SplitConcat("", j);
      assert Render(rooted, st) == "" + "/" + j;
      ResolveLeadingEmpty(true, Split(j));
      if st == [] {
        assert Resolve(true, Split(j)) == Push(true, [], "");
      }
    } else {
      assert Render(rooted, st) == j;
    }
  }

  /** The rendering of a canonical stack is already clean. */
  lemma CleanOfCanonical(rooted: bool, st: seq<string>)
    requires Canonical(rooted, st)
    requires rooted || st != []
    ensures Clean(Render(rooted, st)) == Render(rooted, st)
  {
    ResolveRendered(rooted, st);
    CleanUnfold(Render(rooted, st));
  }

  lemma CleanUnfold(p: string)
    requires p != []
    ensures var out := Render(p[0] == '/', Resolve(p[0] == '/', Split(p)));
      Clean(p) == if out == [] then "." else out
  {
    assert Clean(p) == CleanSegments(p[0] == '/', Split(p));
  }

  /** A single name other than "." and ".." is already clean, even one starting with '.'. */
  lemma CleanOfName(x: string)
    requires x != [] && '/' !in x && x != "." && x != ".."
    ensures Clean(x) == x
  {
    SplitNoSlash(x);
    assert Resolve(false, [x]) == Push(false, Resolve(false, []), x);
    assert Render(false, [x]) == x;
    assert x[0] != '/' by {
      assert x[0] in x;
    }
    CleanUnfold(x);
  }

  /** A path made of slashes only cleans to the root. */
  lemma CleanOfSlashes(p: string)
    requires p != [] && forall i :: 0 <= i < |p| ==> p[i] == '/'
    ensures Clean(p) == "/"
  {
    ResolveOfSlashes(p);
    CleanUnfold(p);
  }

  /** A trailing '/' on a non-empty path changes nothing once cleaned. */
  lemma CleanTrailingSlash(p: string)
    requires p != []
    ensures Clean(p + "/") == Clean(p)
  {
    var rooted := p[0] == '/';
    assert (p + "/")[0] == p[0];
    SplitSnoc(p, '/');
    assert p + "/" == p + ['/'];
    ResolveSnoc(rooted, Split(p), "");
    CleanUnfold(p);
    CleanUnfold(p + "/");
  }

  /** Cleaning a cleaned path changes nothing. */
  lemma CleanIdempotent(p: string)
    ensures Clean(Clean(p)) == Clean(p)
  {
    var c := Clean(p);
    if c == "." {
      SplitNoSlash(".");
      assert Resolve(false, ["."]) == Push(false, [], ".");
    } else {
      var rooted := p[0] == '/';
      CleanStackCanonical(rooted, p);
      CleanOfCanonical(rooted, Resolve(rooted, Split(p)));
    }
  }
}
