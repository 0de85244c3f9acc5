/**
 * The mount-table reading of `filesystems` in src/fs.rs: the text of the
 * mount table is split into lines, and each line contributes its second
 * whitespace-separated field as a mount-point path. Reading the file itself
 * is left to the caller; the text is a parameter.
 */
module Mounts {
  import opened Wrappers
  import opened Paths

  /** `u8::is_ascii_whitespace`: space, tab, line feed, form feed and
      carriage return (vertical tab is not included). */
  predicate IsAsciiWhitespace(c: char) {
    c == ' ' || c == '\t' || c == '\n' || c == '\r' || c as int == 0x0C
  }

  predicate NoWhitespace(s: string) {
    forall i :: 0 <= i < |s| ==> !IsAsciiWhitespace(s[i])
  }

  /** A field as `split_ascii_whitespace` yields it. */
  predicate IsWord(s: string) {
    |s| > 0 && NoWhitespace(s)
  }

  /** Length of the leading run of non-whitespace characters of `s`. */
  function WordLength(s: string): (n: nat)
    ensures n <= |s|
    ensures NoWhitespace(s[..n])
    ensures n < |s| ==> IsAsciiWhitespace(s[n])
  {
    if s == [] || IsAsciiWhitespace(s[0]) then 0
    else
      var n := 1 + WordLength(s[1..]);
      assert s[..n] == [s[0]] + s[1..][..n - 1];
      n
  }

  /** `str::split_ascii_whitespace`: the maximal runs of non-whitespace
      characters, in order. */
  function Fields(s: string): (r: seq<string>)
    ensures forall i :: 0 <= i < |r| ==> IsWord(r[i])
    decreases |s|
  {
    if s == [] then []
    else if IsAsciiWhitespace(s[0]) then Fields(s[1..])
    else
      var n := WordLength(s);
      [s[..n]] + Fields(s[n..])
  }

  /** Length of the text before the first line feed of `s`, or `|s|`. */
  function LineLength(s: string): (n: nat)
    ensures n <= |s|
    ensures '\n' !in s[..n]
    ensures n < |s| ==> s[n] == '\n'
  {
    if s == [] || s[0] == '\n' then 0
    else
      var n := 1 + LineLength(s[1..]);
      assert s[..n] == [s[0]] + s[1..][..n - 1];
      n
  }

  /** A line ended by "\r\n" loses its carriage return. */
  function StripCarriageReturn(line: string): string {
    if |line| > 0 && line[|line| - 1] == '\r' then line[..|line| - 1] else line
  }

  /** `str::lines`: the text split at line feeds; a terminated line loses a
      trailing carriage return, an unterminated last line is kept as it is,
      and a final line feed does not start an empty line. */
  function Lines(s: string): (r: seq<string>)
    ensures forall i :: 0 <= i < |r| ==> '\n' !in r[i]
    ensures |r| <= |s|
    decreases |s|
  {
    if s == [] then []
    else
      var n := LineLength(s);
      if n == |s| then [s]
      else [StripCarriageReturn(s[..n])] + Lines(s[n + 1..])
  }

  /** The line has a second field: `nth(1)` is `Some`. */
  predicate HasMountPoint(line: string) {
    |Fields(line)| >= 2
  }

  /** The mount points of the given lines: the second field of each line,
      read as a path. The first line with fewer than two fields is reported
      by its index; the source unwraps the missing field there and panics. */
  function MountPoints(lines: seq<string>): (r: Result<seq<Path>, nat>)
    ensures r.Success? <==> forall i :: 0 <= i < |lines| ==> HasMountPoint(lines[i])
    ensures r.Success? ==> |r.value| == |lines|
    ensures r.Success? ==> forall i :: 0 <= i < |lines| ==> r.value[i] == Components(Fields(lines[i])[1])
    ensures r.Failure? ==> r.error < |lines| && !HasMountPoint(lines[r.error])
    ensures r.Failure? ==> forall j :: 0 <= j < r.error ==> HasMountPoint(lines[j])
  {
    if lines == [] then Success([])
    else
      var fields := Fields(lines[0]);
      if !HasMountPoint(lines[0]) then Failure(0)
      else
        match MountPoints(lines[1..])
        case Success(rest) => Success([Components(fields[1])] + rest)
        case Failure(i) => Failure(i + 1)
  }

  /** Lines 22-26 of src/fs.rs: one mount point per line of the mount
      table, or the index of the line that makes the source panic. */
  function ParseMounts(text: string): (r: Result<seq<Path>, nat>)
    ensures r.Success? ==> |r.value| == |Lines(text)|
    ensures r.Success? ==> forall i :: 0 <= i < |Lines(text)| ==> HasMountPoint(Lines(text)[i])
    ensures (forall i :: 0 <= i < |Lines(text)| ==> HasMountPoint(Lines(text)[i])) ==> r.Success?
    ensures r.Success? ==> forall i :: 0 <= i < |Lines(text)| ==> r.value[i] == Components(Fields(Lines(text)[i])[1])
    ensures r.Failure? ==> r.error < |Lines(text)| && !HasMountPoint(Lines(text)[r.error])
    ensures r.Failure? ==> forall j :: 0 <= j < r.error ==> HasMountPoint(Lines(text)[j])
  {
    var lines := Lines(text);
    var r := MountPoints(lines);
    assert r.Success? <==> forall i :: 0 <= i < |lines| ==> HasMountPoint(lines[i]);
    r
  }

  /** One line of a mount table: the mounted source, the mount point, and
      the remaining fields (type, options, dump and pass numbers). */
  datatype MountRecord = MountRecord(source: string, dir: Path, rest: seq<string>)

  /** A record that can be written as one line: every field is a word and
      the mount point is a well-formed path whose text is a word. */
  predicate WritableRecord(m: MountRecord) {
    && IsWord(m.source)
    && (forall i :: 0 <= i < |m.rest| ==> IsWord(m.rest[i]))
    && WellFormed(m.dir) && |m.dir| > 0
    && (forall i :: 0 <= i < |m.dir| ==> NoWhitespace(m.dir[i]))
  }

  function RecordLine(m: MountRecord): string {
    Join([m.source, Render(m.dir)] + m.rest, ' ')
  }

  /** Each line followed by a line feed. */
  function Unlines(lines: seq<string>): string {
    if lines == [] then "" else lines[0] + "\n" + Unlines(lines[1..])
  }

  function RecordLines(ms: seq<MountRecord>): seq<string> {
    if ms == [] then [] else [RecordLine(ms[0])] + RecordLines(ms[1..])
  }

  /** A mount table listing the records, one line each. */
  function MountTable(ms: seq<MountRecord>): string {
    Unlines(RecordLines(ms))
  }

  function MountDirs(ms: seq<MountRecord>): seq<Path> {
    if ms == [] then [] else [ms[0].dir] + MountDirs(ms[1..])
  }

  lemma {:induction false} WordThenSpace(w: string, rest: string)
    requires IsWord(w)
    ensures Fields(w + [' '] + rest) == [w] + Fields(rest)
    ensures Fields(w) == [w]
  {
    WordPrefixLength(w, [' '] + rest);
    WordPrefixLength(w, []);
    assert w + [' '] + rest == w + ([' '] + rest);
    assert (w + [' '] + rest)[..|w|] == w;
    assert (w + [' '] + rest)[|w|..] == [' '] + rest;
    assert ([' '] + rest)[1..] == rest;
    assert w + [] == w;
  }

  lemma {:induction false} WordPrefixLength(w: string, tail: string)
    requires IsWord(w)
    requires tail == [] || IsAsciiWhitespace(tail[0])
    ensures WordLength(w + tail) == |w|
    decreases |w|
  {
    if |w| > 1 {
      WordPrefixLength(w[1..], tail);
      assert (w + tail)[1..] == w[1..] + tail;
    } else {
      assert (w + tail)[1..] == tail;
    }
  }

  /** Splitting at whitespace undoes joining words with single spaces. */
  lemma {:induction false} FieldsOfJoin(ws: seq<string>)
    requires forall i :: 0 <= i < |ws| ==> IsWord(ws[i])
    ensures Fields(Join(ws, ' ')) == ws
    decreases |ws|
  {
    if |ws| == 1 {
      WordThenSpace(ws[0], "");
    } else if |ws| > 1 {
      FieldsOfJoin(ws[1..]);
      WordThenSpace(ws[0], Join(ws[1..], ' '));
      assert ws == [ws[0]] + ws[1..];
    }
  }

  lemma {:induction false} JoinNoWhitespace(ws: seq<string>, sep: char)
    requires !IsAsciiWhitespace(sep)
    requires forall i :: 0 <= i < |ws| ==> NoWhitespace(ws[i])
    ensures NoWhitespace(Join(ws, sep))
    decreases |ws|
  {
    if |ws| > 1 {
      JoinNoWhitespace(ws[1..], sep);
      var s := Join(ws, sep);
      assert s == ws[0] + [sep] + Join(ws[1..], sep);
      forall i | 0 <= i < |s| ensures !IsAsciiWhitespace(s[i]) {
        if i < |ws[0]| {
          assert s[i] == ws[0][i];
        } else if i > |ws[0]| {
          assert s[i] == Join(ws[1..], sep)[i - |ws[0]| - 1];
        }
      }
    }
  }

  lemma {:induction false} JoinAvoids(ws: seq<string>, sep: char, c: char)
    requires c != sep
    requires forall i :: 0 <= i < |ws| ==> c !in ws[i]
    ensures c !in Join(ws, sep)
    decreases |ws|
  {
    if |ws| > 1 {
      JoinAvoids(ws[1..], sep, c);
      assert Join(ws, sep) == ws[0] + [sep] + Join(ws[1..], sep);
    }
  }

  /** The mount point of a writable record is written as one field. */
  lemma RenderedDirIsWord(p: Path)
    requires WellFormed(p) && |p| > 0
    requires forall i :: 0 <= i < |p| ==> NoWhitespace(p[i])
    ensures IsWord(Render(p))
  {
    if p[0] == RootDir {
      JoinNoWhitespace(p[1..], Separator);
      var s := Render(p);
      assert s == [Separator] + Join(p[1..], Separator);
      forall i | 0 <= i < |s| ensures !IsAsciiWhitespace(s[i]) {
        if i > 0 { assert s[i] == Join(p[1..], Separator)[i - 1]; }
      }
    } else {
      JoinNoWhitespace(p, Separator);
      if |p| > 1 {
        assert Render(p) == p[0] + ([Separator] + Join(p[1..], Separator));
      }
    }
  }

  lemma {:induction false} LinesOfUnlines(lines: seq<string>)
    requires forall i :: 0 <= i < |lines| ==> '\n' !in lines[i]
    requires forall i :: 0 <= i < |lines| ==> StripCarriageReturn(lines[i]) == lines[i]
    ensures Lines(Unlines(lines)) == lines
    decreases |lines|
  {
    if lines != [] {
      var l := lines[0];
      var tail := Unlines(lines[1..]);
      var s := Unlines(lines);
      assert s == l + ("\n" + tail);
      LineBreakAt(l, tail);
      assert LineLength(s) == |l| < |s|;
      assert s[..|l|] == l;
      assert s[|l| + 1..] == tail;
      assert Lines(s) == [StripCarriageReturn(l)] + Lines(tail);
      LinesOfUnlines(lines[1..]);
      assert lines == [l] + lines[1..];
    }
  }

  lemma {:induction false} LineBreakAt(l: string, rest: string)
    requires '\n' !in l
    ensures LineLength(l + ("\n" + rest)) == |l|
    decreases |l|
  {
    if l != [] {
      LineBreakAt(l[1..], rest);
      assert (l + ("\n" + rest))[1..] == l[1..] + ("\n" + rest);
    }
  }

  lemma RecordLineFields(m: MountRecord)
    requires WritableRecord(m)
    ensures Fields(RecordLine(m)) == [m.source, Render(m.dir)] + m.rest
    ensures '\n' !in RecordLine(m) && StripCarriageReturn(RecordLine(m)) == RecordLine(m)
  {
    RenderedDirIsWord(m.dir);
    var ws := [m.source, Render(m.dir)] + m.rest;
    assert forall k :: 0 <= k < |ws| ==> IsWord(ws[k]);
    FieldsOfJoin(ws);
    forall k | 0 <= k < |ws| ensures '\n' !in ws[k] && '\r' !in ws[k] {
      assert forall j :: 0 <= j < |ws[k]| ==> !IsAsciiWhitespace(ws[k][j]);
    }
    JoinAvoids(ws, ' ', '\n');
    JoinAvoids(ws, ' ', '\r');
    var line := RecordLine(m);
    if |line| > 0 {
      assert line[|line| - 1] in line;
    }
  }

  lemma {:induction false} RecordLinesAreLines(ms: seq<MountRecord>)
    requires forall i :: 0 <= i < |ms| ==> WritableRecord(ms[i])
    ensures forall i :: 0 <= i < |RecordLines(ms)| ==> '\n' !in RecordLines(ms)[i]
    ensures forall i :: 0 <= i < |RecordLines(ms)| ==> StripCarriageReturn(RecordLines(ms)[i]) == RecordLines(ms)[i]
    decreases |ms|
  {
    if ms != [] {
      RecordLineFields(ms[0]);
      RecordLinesAreLines(ms[1..]);
      var ls := RecordLines(ms);
      assert forall i :: 1 <= i < |ls| ==> ls[i] == RecordLines(ms[1..])[i - 1];
    }
  }

  lemma {:induction false} MountPointsOfRecords(ms: seq<MountRecord>)
    requires forall i :: 0 <= i < |ms| ==> WritableRecord(ms[i])
    ensures MountPoints(RecordLines(ms)) == Success(MountDirs(ms))
    decreases |ms|
  {
    if ms != [] {
      RecordLineFields(ms[0]);
      RenderRoundTrip(ms[0].dir);
      MountPointsOfRecords(ms[1..]);
      var ls := RecordLines(ms);
      assert ls[0] == RecordLine(ms[0]) && ls[1..] == RecordLines(ms[1..]);
      assert Fields(ls[0])[1] == Render(ms[0].dir);
    }
  }

  /** Writing well-formed records as a mount table and parsing it back
      yields their mount points, in order. */
  lemma MountTableRoundTrip(ms: seq<MountRecord>)
    requires forall i :: 0 <= i < |ms| ==> WritableRecord(ms[i])
    ensures ParseMounts(MountTable(ms)) == Success(MountDirs(ms))
  {
    RecordLinesAreLines(ms);
    LinesOfUnlines(RecordLines(ms));
    MountPointsOfRecords(ms);
  }
}
