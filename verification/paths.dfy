/**
 * Paths as std::path sees them on Unix: a sequence of components.
 *
 * A component is encoded as a string. The root directory component is "/"
 * and the current directory component is "."; a normal component is a
 * non-empty name without '/' that is not ".", so the encoding is unambiguous.
 * A ".." piece (`Component::ParentDir`) is kept as the name "..": it is
 * never resolved, and for prefix and equality tests it behaves as any
 * other single component.
 * With this encoding `Path::starts_with` is sequence prefix (`<=`) and
 * `PartialEq` on paths is sequence equality.
 */
module Paths {

  type Path = seq<string>

  const RootDir: string := "/"
  const CurDir: string := "."
  const Separator: char := '/'

  /** A `Component::Normal` name, or a ".." (`Component::ParentDir`) piece. */
  predicate IsNormal(c: string) {
    c != "" && c != CurDir && Separator !in c
  }

  /** The shape `Path::components` always produces: a leading root or
      current-directory component at most, and normal components after it. */
  predicate WellFormed(p: Path) {
    && (forall i :: 0 < i < |p| ==> IsNormal(p[i]))
    && (|p| > 0 ==> IsNormal(p[0]) || p[0] == RootDir || p[0] == CurDir)
  }

  /** `sep`-separated concatenation of `ws`. */
  function Join(ws: seq<string>, sep: char): string
  {
    if |ws| == 0 then ""
    else if |ws| == 1 then ws[0]
    else ws[0] + [sep] + Join(ws[1..], sep)
  }

  /** The pieces of `s` between occurrences of `sep`; `n` separators give
      `n + 1` pieces, some of them possibly empty. */
  function Split(s: string, sep: char): (r: seq<string>)
    ensures |r| >= 1
    ensures forall i :: 0 <= i < |r| ==> sep !in r[i]
    ensures Join(r, sep) == s
    decreases |s|
  {
    if s == [] then [""]
    else
      var rest := Split(s[1..], sep);
      if s[0] == sep then
        assert [""] + rest == [""] + rest[..1] + rest[1..];
        [""] + rest
      else
        var r := [[s[0]] + rest[0]] + rest[1..];
        assert r[1..] == rest[1..];
        assert s == [s[0]] + s[1..];
        r
  }

  /** The pieces that are normal components: empty pieces (repeated or
      trailing separators) and "." pieces are normalised away. */
  function Normals(pieces: seq<string>): (r: seq<string>)
    ensures forall i :: 0 <= i < |r| ==> IsNormal(r[i])
    ensures forall i :: 0 <= i < |pieces| && IsNormal(pieces[i]) ==> pieces[i] in r
    ensures |r| <= |pieces|
  {
    if pieces == [] then []
    else
      var rest := Normals(pieces[1..]);
      if IsNormal(pieces[0]) then [pieces[0]] + rest else rest
  }

  /** `Path::new(s).components()` on Unix: a leading '/' gives the root
      component, a leading "." piece of a relative path gives the current
      directory component, and every other "." or empty piece is dropped. */
  function Components(s: string): (r: Path)
    ensures WellFormed(r)
    ensures |r| > 0 && r[0] == RootDir <==> |s| > 0 && s[0] == Separator
  {
    var pieces := Split(s, Separator);
    if |s| > 0 && s[0] == Separator then [RootDir] + Normals(pieces[1..])
    else if pieces[0] == CurDir then [CurDir] + Normals(pieces[1..])
    else
      var r := Normals(pieces);
      assert |r| > 0 ==> IsNormal(r[0]);
      r
  }

  /** The textual form of the path collected from components `p`
      (`p.iter().collect::<PathBuf>().display()` on Unix). This is not the
      display of the original text: repeated separators, a trailing '/'
      and interior "." pieces are gone. */
  function Render(p: Path): string
  {
    if |p| > 0 && p[0] == RootDir then [Separator] + Join(p[1..], Separator)
    else Join(p, Separator)
  }

  /** A piece without separator splits into itself. */
  lemma {:induction false} SplitSingle(w: string, sep: char)
    requires sep !in w
    ensures Split(w, sep) == [w]
    decreases |w|
  {
    if w != [] {
      SplitSingle(w[1..], sep);
      assert [w[0]] + w[1..] == w;
    }
  }

  /** Splitting a piece followed by a separator peels off that piece. */
  lemma {:induction false} SplitWord(w: string, sep: char, rest: string)
    requires sep !in w
    ensures Split(w + [sep] + rest, sep) == [w] + Split(rest, sep)
    decreases |w|
  {
    var s := w + [sep] + rest;
    if w == [] {
      assert s == [sep] + rest;
      assert s[1..] == rest;
    } else {
      SplitWord(w[1..], sep, rest);
      assert s[0] == w[0] && s[1..] == w[1..] + [sep] + rest;
      var tail := Split(s[1..], sep);
      assert tail == [w[1..]] + Split(rest, sep);
      assert tail[0] == w[1..] && tail[1..] == Split(rest, sep);
      assert [w[0]] + w[1..] == w;
    }
  }

  /** Splitting undoes joining when no piece contains the separator. */
  lemma {:induction false} SplitJoin(ws: seq<string>, sep: char)
    requires |ws| >= 1
    requires forall i :: 0 <= i < |ws| ==> sep !in ws[i]
    ensures Split(Join(ws, sep), sep) == ws
    decreases |ws|
  {
    if |ws| == 1 {
      SplitSingle(ws[0], sep);
    } else {
      SplitJoin(ws[1..], sep);
      SplitWord(ws[0], sep, Join(ws[1..], sep));
      assert ws == [ws[0]] + ws[1..];
    }
  }

  lemma {:induction false} NormalsOfNormals(ws: seq<string>)
    requires forall i :: 0 <= i < |ws| ==> IsNormal(ws[i])
    ensures Normals(ws) == ws
    decreases |ws|
  {
    if ws != [] {
      NormalsOfNormals(ws[1..]);
      assert ws == [ws[0]] + ws[1..];
    }
  }

  lemma RoundTripAbsolute(p: Path)
    requires WellFormed(p) && |p| > 0 && p[0] == RootDir
    ensures Components(Render(p)) == p
  {
    var tail := p[1..];
    var s := Render(p);
    if |tail| == 0 {
      assert s == [Separator];
      assert Split(s, Separator) == ["", ""];
    } else {
      SplitJoin(tail, Separator);
      SplitWord("", Separator, Join(tail, Separator));
      assert s == "" + [Separator] + Join(tail, Separator);
      assert Split(s, Separator)[1..] == tail;
      NormalsOfNormals(tail);
    }
    assert p == [RootDir] + tail;
  }

  lemma RoundTripCurDir(p: Path)
    requires WellFormed(p) && |p| > 0 && p[0] == CurDir
    ensures Components(Render(p)) == p
  {
    var s := Join(p, Separator);
    assert Render(p) == s;
    SplitJoin(p, Separator);
    NormalsOfNormals(p[1..]);
    JoinStartsWithFirst(p, Separator);
    assert s[0] == '.';
    assert Components(s) == [CurDir] + Normals(p[1..]);
    assert p == [CurDir] + p[1..];
  }

  lemma JoinStartsWithFirst(ws: seq<string>, sep: char)
    requires |ws| >= 1
    ensures ws[0] <= Join(ws, sep)
  {
    if |ws| > 1 {
      assert Join(ws, sep) == ws[0] + ([sep] + Join(ws[1..], sep));
    }
  }

  lemma RoundTripRelative(p: Path)
    requires WellFormed(p) && |p| > 0 && IsNormal(p[0])
    ensures Components(Render(p)) == p
  {
    var s := Join(p, Separator);
    assert Render(p) == s;
    SplitJoin(p, Separator);
    NormalsOfNormals(p);
    JoinStartsWithFirst(p, Separator);
    assert s[0] == p[0][0] && p[0][0] != Separator;
    assert Split(s, Separator)[0] != CurDir;
  }

  /** Rendering a well-formed path and reading it back gives the same
      components: `PathBuf::from(p.display())` has the components of `p`. */
  lemma RenderRoundTrip(p: Path)
    requires WellFormed(p)
    ensures Components(Render(p)) == p
  {
    if |p| == 0 {
      assert Render(p) == "";
    } else if p[0] == RootDir {
      RoundTripAbsolute(p);
    } else if p[0] == CurDir {
      RoundTripCurDir(p);
    } else {
      RoundTripRelative(p);
    }
  }

  /** Parsing is a normal form: reading a path back from its own rendering
      changes nothing. */
  lemma ComponentsIdempotent(s: string)
    ensures Components(Render(Components(s))) == Components(s)
  {
    RenderRoundTrip(Components(s));
  }
}
