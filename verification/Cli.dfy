/** The pure parts of main.py: the default output name, the saved text, palette inversion. */
module Cli {
  import opened Errors
  import opened Data
  import opened Processing

  // ---------------------------------------------------------------------------
  // Python string helpers: str.split(sep), sep.join(pieces), ''.join(pieces)
  // ---------------------------------------------------------------------------

  /** `s.split(sep)`: the pieces between separators, always at least one. */
  function Split(s: string, sep: char): (pieces: seq<string>)
    ensures |pieces| > 0
  {
    if s == [] then [[]]
    else
      var init := Split(s[..|s| - 1], sep);
      var c := s[|s| - 1];
      if c == sep then init + [[]]
      else ExtendLast(init, [c])
  }

  /** The pieces with `x` appended to the last one. */
  function ExtendLast(pieces: seq<string>, x: string): (r: seq<string>)
    requires |pieces| > 0
    ensures |r| == |pieces|
  {
    pieces[..|pieces| - 1] + [pieces[|pieces| - 1] + x]
  }

  /** Extending the last piece twice is extending it once by both texts. */
  lemma ExtendLastTwice(pieces: seq<string>, x: string, y: string)
    requires |pieces| > 0
    ensures ExtendLast(ExtendLast(pieces, x), y) == ExtendLast(pieces, x + y)
  {
    var once := ExtendLast(pieces, x);
    assert once[..|once| - 1] == pieces[..|pieces| - 1];
    assert once[|once| - 1] + y == pieces[|pieces| - 1] + (x + y);
  }

  /** `sep.join(pieces)`. */
  function JoinWith(pieces: seq<string>, sep: char): (r: string)
  {
    if pieces == [] then []
    else if |pieces| == 1 then pieces[0]
    else JoinWith(pieces[..|pieces| - 1], sep) + [sep] + pieces[|pieces| - 1]
  }

  /** `''.join(pieces)`. */
  function Concat(pieces: seq<string>): (r: string)
  {
    if pieces == [] then [] else Concat(pieces[..|pieces| - 1]) + pieces[|pieces| - 1]
  }

  /** The string with every occurrence of `c` removed. */
  function Without(s: string, c: char): (r: string)
    ensures c !in r
  {
    if s == [] then []
    else Without(s[..|s| - 1], c) + (if s[|s| - 1] == c then [] else [s[|s| - 1]])
  }

  /** Appending a character other than the separator extends the last piece. */
  lemma SplitAppendChar(s: string, c: char, sep: char)
    requires c != sep
    ensures Split(s + [c], sep) == ExtendLast(Split(s, sep), [c])
  {
    assert (s + [c])[..|s|] == s;
  }

  /** Appending text without a separator extends the last piece. */
  lemma {:induction false} SplitAppendPlain(s: string, t: string, sep: char)
    requires sep !in t
    ensures Split(s + t, sep) == ExtendLast(Split(s, sep), t)
    decreases |t|
  {
    var p := Split(s, sep);
    if t == [] {
      assert s + t == s;
      assert p[|p| - 1] + t == p[|p| - 1];
      assert p[..|p| - 1] + [p[|p| - 1]] == p;
    } else {
      var u, c := t[..|t| - 1], t[|t| - 1];
      assert t == u + [c];
      SplitAppendPlain(s, u, sep);
      SplitAppendChar(s + u, c, sep);
      ExtendLastTwice(p, u, [c]);
      assert s + t == (s + u) + [c];
    }
  }

  /** Appending a separator starts a new, empty piece. */
  lemma SplitAppendSep(s: string, sep: char)
    ensures Split(s + [sep], sep) == Split(s, sep) + [[]]
  {
    assert (s + [sep])[..|s|] == s;
  }

  /** Text after the last separator becomes the last piece. */
  lemma SplitAfterSep(s: string, t: string, sep: char)
    requires sep !in t
    ensures Split(s + [sep] + t, sep) == Split(s, sep) + [t]
  {
    SplitAppendSep(s, sep);
    SplitAppendPlain(s + [sep], t, sep);
    var p := Split(s, sep);
    assert (p + [[]])[..|p|] == p;
    assert [] + t == t;
  }

  /** Text without a separator is a single piece. */
  lemma SplitPlain(t: string, sep: char)
    requires sep !in t
    ensures Split(t, sep) == [t]
  {
    SplitAppendPlain([], t, sep);
    assert [] + t == t;
  }

  /** Extending the last piece extends the joined text. */
  lemma JoinWithExtendLast(p: seq<string>, x: string, sep: char)
    requires |p| > 0
    ensures JoinWith(p[..|p| - 1] + [p[|p| - 1] + x], sep) == JoinWith(p, sep) + x
  {
    var q := p[..|p| - 1] + [p[|p| - 1] + x];
    assert q[..|q| - 1] == p[..|p| - 1];
  }

  /** `sep.join` undoes `split(sep)`. */
  lemma {:induction false} JoinSplit(s: string, sep: char)
    ensures JoinWith(Split(s, sep), sep) == s
    decreases |s|
  {
    if s != [] {
      var u := s[..|s| - 1];
      var c := s[|s| - 1];
      JoinSplit(u, sep);
      var p := Split(u, sep);
      assert u + [c] == s;
      if c == sep {
        SplitAppendSep(u, sep);
        assert (p + [[]])[..|p|] == p;
      } else {
        SplitAppendPlain(u, [c], sep);
        JoinWithExtendLast(p, [c], sep);
      }
    }
  }

  /** `split(sep)` undoes `sep.join` when no piece contains the separator. */
  lemma {:induction false} SplitJoin(pieces: seq<string>, sep: char)
    requires |pieces| > 0
    requires forall k :: 0 <= k < |pieces| ==> sep !in pieces[k]
    ensures Split(JoinWith(pieces, sep), sep) == pieces
  {
    var last := pieces[|pieces| - 1];
    if |pieces| == 1 {
      SplitPlain(last, sep);
    } else {
      var init := pieces[..|pieces| - 1];
      SplitJoin(init, sep);
      SplitAfterSep(JoinWith(init, sep), last, sep);
      assert init + [last] == pieces;
    }
  }

  /** Concatenating the pieces of a split removes the separators. */
  lemma {:induction false} ConcatSplit(s: string, sep: char)
    ensures Concat(Split(s, sep)) == Without(s, sep)
    decreases |s|
  {
    if s != [] {
      var u := s[..|s| - 1];
      var c := s[|s| - 1];
      ConcatSplit(u, sep);
      var p := Split(u, sep);
      assert u + [c] == s;
      if c == sep {
        SplitAppendSep(u, sep);
        assert (p + [[]])[..|p|] == p;
      } else {
        SplitAppendPlain(u, [c], sep);
        var q := Split(s, sep);
        assert q[..|q| - 1] == p[..|p| - 1];
        assert Concat(p) == Concat(p[..|p| - 1]) + p[|p| - 1];
      }
    }
  }

  /** No piece of a split contains the separator. */
  lemma {:induction false} SplitPiecesLackSep(s: string, sep: char)
    ensures forall k :: 0 <= k < |Split(s, sep)| ==> sep !in Split(s, sep)[k]
    decreases |s|
  {
    if s != [] {
      SplitPiecesLackSep(s[..|s| - 1], sep);
    }
  }

  /** A character absent from the string is absent from every piece of its split. */
  lemma {:induction false} SplitKeepsOut(s: string, sep: char, x: char)
    requires x !in s
    ensures forall k :: 0 <= k < |Split(s, sep)| ==> x !in Split(s, sep)[k]
    decreases |s|
  {
    if s != [] {
      SplitKeepsOut(s[..|s| - 1], sep, x);
    }
  }

  /** A character absent from every piece is absent from their concatenation. */
  lemma {:induction false} ConcatKeepsOut(pieces: seq<string>, x: char)
    requires forall k :: 0 <= k < |pieces| ==> x !in pieces[k]
    ensures x !in Concat(pieces)
  {
    if pieces != [] {
      ConcatKeepsOut(pieces[..|pieces| - 1], x);
    }
  }

  // ---------------------------------------------------------------------------
  // default_output_name
  // ---------------------------------------------------------------------------

  /** `path.name`: the last '/'-separated component of the path. */
  function Name(path: string): (name: string)
    ensures '/' !in name
  {
    var parts := Split(path, '/');
    SplitPiecesLackSep(path, '/');
    parts[|parts| - 1]
  }

  /** `''.join(name.split('.')[:-1])`: every dot-separated piece but the last, dots dropped. */
  function Stem(name: string): (r: string)
  {
    var pieces := Split(name, '.');
    Concat(pieces[..|pieces| - 1])
  }

  const SUFFIX: string := "_ascii.txt"

  /** default_output_name: `f"{stem}_ascii.txt"` for the file name of the path. */
  function DefaultOutputName(path: string): (r: string)
  {
    Stem(Name(path)) + SUFFIX
  }

  /** The output name always ends in "_ascii.txt", and what precedes it holds neither a dot
      nor a directory separator. */
  lemma DefaultOutputNameShape(path: string)
    ensures var r := DefaultOutputName(path);
      |r| >= |SUFFIX| && r[|r| - |SUFFIX|..] == SUFFIX &&
      '.' !in r[..|r| - |SUFFIX|] && '/' !in r[..|r| - |SUFFIX|]
  {
    var name := Name(path);
    var pieces := Split(name, '.');
    SplitKeepsOut(name, '.', '/');
    SplitPiecesLackSep(name, '.');
    ConcatKeepsOut(pieces[..|pieces| - 1], '.');
    ConcatKeepsOut(pieces[..|pieces| - 1], '/');
    var r := DefaultOutputName(path);
    assert r[..|r| - |SUFFIX|] == Stem(name);
  }

  /** The stem is the file name up to its last dot, with the remaining dots removed. */
  lemma StemUpToLastDot(before: string, after: string)
    requires '.' !in after
    ensures Stem(before + "." + after) == Without(before, '.')
  {
    SplitAfterSep(before, after, '.');
    var p := Split(before, '.');
    assert (p + [after])[..|p|] == p;
    ConcatSplit(before, '.');
  }

  /** A file name without a dot has an empty stem. */
  lemma StemWithoutDot(name: string)
    requires '.' !in name
    ensures Stem(name) == ""
  {
    SplitPlain(name, '.');
  }

  /** Only the last path component matters: directories never reach the output name. */
  lemma DefaultOutputNameIgnoresDirectories(dir: string, file: string)
    requires '/' !in file
    ensures Name(dir + "/" + file) == file && Name(file) == file
    ensures DefaultOutputName(dir + "/" + file) == DefaultOutputName(file)
  {
    SplitAfterSep(dir, file, '/');
    SplitPlain(file, '/');
  }

  /** Removing a character distributes over concatenation. */
  lemma {:induction false} WithoutAppend(x: string, y: string, c: char)
    ensures Without(x + y, c) == Without(x, c) + Without(y, c)
    decreases |y|
  {
    if y == [] {
      assert x + y == x;
    } else {
      var u := y[..|y| - 1];
      WithoutAppend(x, u, c);
      assert (x + y)[..|x + y| - 1] == x + u;
    }
  }

  /** Removing a character that does not occur changes nothing. */
  lemma {:induction false} WithoutAbsent(x: string, c: char)
    requires c !in x
    ensures Without(x, c) == x
    decreases |x|
  {
    if x != [] {
      WithoutAbsent(x[..|x| - 1], c);
      assert x[..|x| - 1] + [x[|x| - 1]] == x;
    }
  }

  /** The stem of "a.b.png" is "ab". */
  lemma StemTwoDots(a: string, b: string, ext: string)
    requires '.' !in a && '.' !in b && '.' !in ext
    ensures Stem(a + "." + b + "." + ext) == a + b
  {
    var x := a + ".";
    var y := x + b;
    StemUpToLastDot(y, ext);
    assert Without(y, '.') == a + b by {
      WithoutAppend(x, b, '.');
      WithoutAbsent(b, '.');
      assert Without(x, '.') == a by {
        WithoutAppend(a, ".", '.');
        WithoutAbsent(a, '.');
        assert Without(".", '.') == "";
        assert a + "" == a;
      }
    }
  }

  /** A name such as "a.b.png" becomes "ab_ascii.txt": the pieces before the extension are
      joined with their dots dropped. */
  lemma DefaultOutputNameTwoDots(a: string, b: string, ext: string)
    requires '.' !in a && '.' !in b && '.' !in ext
    requires '/' !in a && '/' !in b && '/' !in ext
    ensures DefaultOutputName(a + "." + b + "." + ext) == a + b + SUFFIX
  {
    SplitPlain(a + "." + b + "." + ext, '/');
    StemTwoDots(a, b, ext);
  }

  /** A name without a dot becomes "_ascii.txt". */
  lemma DefaultOutputNameUndotted(name: string)
    requires '.' !in name && '/' !in name
    ensures DefaultOutputName(name) == SUFFIX
  {
    SplitPlain(name, '/');
    StemWithoutDot(name);
  }

  // ---------------------------------------------------------------------------
  // save_image: the text written to the output file
  // ---------------------------------------------------------------------------

  /** `'\n'.join([''.join(row) for row in image])`; a row's ''.join is the row's characters. */
  function SaveText(image: AsciiImage): (r: string)
  {
    JoinWith(image, '\n')
  }

  /** The number of glyphs in the grid. */
  function Cells(image: AsciiImage): (r: nat)
  {
    if image == [] then 0 else Cells(image[..|image| - 1]) + |image[|image| - 1]|
  }

  /** Splitting the saved text on newlines gives back the rows, provided no glyph is a newline. */
  lemma SaveTextRoundTrip(image: AsciiImage)
    requires |image| > 0
    requires forall i :: 0 <= i < |image| ==> '\n' !in image[i]
    ensures Split(SaveText(image), '\n') == image
  {
    SplitJoin(image, '\n');
  }

  /** The saved text holds every glyph plus one newline between consecutive rows. */
  lemma {:induction false} SaveTextLength(image: AsciiImage)
    requires |image| > 0
    ensures |SaveText(image)| == Cells(image) + |image| - 1
  {
    if |image| > 1 {
      SaveTextLength(image[..|image| - 1]);
    } else {
      assert image[..0] == [];
    }
  }

  /** An empty grid is saved as the empty text. */
  lemma SaveTextEmpty()
    ensures SaveText([]) == ""
  {
  }

  // ---------------------------------------------------------------------------
  // --invert: `''.join(reversed(self.ascii_map))`
  // ---------------------------------------------------------------------------

  function Reverse(s: string): (r: string)
    ensures |r| == |s|
  {
    if s == [] then [] else Reverse(s[1..]) + [s[0]]
  }

  /** Position i of the reversed palette holds position n - 1 - i of the original. */
  lemma {:induction false} ReverseAt(s: string, i: nat)
    requires i < |s|
    ensures Reverse(s)[i] == s[|s| - 1 - i]
  {
    if i < |s| - 1 {
      ReverseAt(s[1..], i);
    }
  }

  /** Inverting twice restores the palette. */
  lemma ReverseInvolution(s: string)
    ensures Reverse(Reverse(s)) == s
  {
    forall i | 0 <= i < |s|
      ensures Reverse(Reverse(s))[i] == s[i]
    {
      ReverseAt(Reverse(s), i);
      ReverseAt(s, |s| - 1 - i);
    }
  }

  /** Under the inverted palette a brightness picks the mirror glyph: where the palette gave
      `p[k]`, the inverted one gives `p[n - 1 - k]`, since the index depends only on the length. */
  lemma InvertedGlyph(b: real, palette: string)
    requires 0.0 <= b <= MAX_PIXEL_VALUE as real && |palette| > 0
    ensures var k := AsciiIndex(b, |palette|);
      0 <= k < |palette| &&
      AsciiChar(b, palette) == Ok(palette[k]) &&
      AsciiChar(b, Reverse(palette)) == Ok(palette[|palette| - 1 - k])
  {
    AsciiCharInRange(b, palette);
    AsciiCharInRange(b, Reverse(palette));
    ReverseAt(palette, AsciiIndex(b, |palette|));
  }

  /** Mapping a grid of brightnesses in [0, 255] with the inverted palette fails exactly when
      mapping it with the palette does. */
  lemma AsciifyInvertedSucceeds(m: BrightnessArray, palette: string)
    requires forall i, j :: 0 <= i < |m| && 0 <= j < |m[i]| ==> 0.0 <= m[i][j] <= MAX_PIXEL_VALUE as real
    ensures Asciify(m, Reverse(palette)).Ok? <==> Asciify(m, palette).Ok?
  {
    var rev := Reverse(palette);
    forall i, j | 0 <= i < |m| && 0 <= j < |m[i]|
      ensures AsciiChar(m[i][j], rev).Ok? <==> AsciiChar(m[i][j], palette).Ok?
    {
      if |palette| == 0 {
        AsciiCharEmptyPalette(m[i][j]);
      } else {
        InvertedGlyph(m[i][j], palette);
      }
    }
  }

  /** Mapping a grid of brightnesses in [0, 255] with the inverted palette succeeds exactly when
      mapping it with the palette does, and turns every glyph `p[k]` into `p[n - 1 - k]`. */
  lemma AsciifyInverted(m: BrightnessArray, palette: string)
    requires forall i, j :: 0 <= i < |m| && 0 <= j < |m[i]| ==> 0.0 <= m[i][j] <= MAX_PIXEL_VALUE as real
    ensures Asciify(m, Reverse(palette)).Ok? <==> Asciify(m, palette).Ok?
    ensures Asciify(m, palette).Ok? ==>
      var plain, inverted := Asciify(m, palette).value, Asciify(m, Reverse(palette)).value;
      SameShape(plain, inverted) &&
      forall i, j :: 0 <= i < |m| && 0 <= j < |m[i]| ==>
        var k := AsciiIndex(m[i][j], |palette|);
        0 <= k < |palette| && plain[i][j] == palette[k] && inverted[i][j] == palette[|palette| - 1 - k]
  {
    var rev := Reverse(palette);
    AsciifyInvertedSucceeds(m, palette);
    if Asciify(m, palette).Ok? {
      var plain, inverted := Asciify(m, palette).value, Asciify(m, rev).value;
      forall i, j | 0 <= i < |m| && 0 <= j < |m[i]|
        ensures var k := AsciiIndex(m[i][j], |palette|);
          0 <= k < |palette| && plain[i][j] == palette[k] && inverted[i][j] == palette[|palette| - 1 - k]
      {
        AsciifyCell(m, palette, i, j);
        AsciifyCell(m, rev, i, j);
        ReverseAt(palette, AsciiIndex(m[i][j], |palette|));
      }
    }
  }

  /** Converting with the inverted palette succeeds exactly when converting with the palette does,
      and turns every glyph `p[k]` into `p[n - 1 - k]`. */
  lemma ConvertInverted(palette: string, image: ImageArray)
    ensures Convert(Reverse(palette), image).Ok? <==> Convert(palette, image).Ok?
    ensures Convert(palette, image).Ok? ==>
      var n := Normalize(BrightnessMatrix(image)).value;
      var plain := Convert(palette, image).value;
      var inverted := Convert(Reverse(palette), image).value;
      SameShape(plain, inverted) &&
      forall i, j :: 0 <= i < |plain| && 0 <= j < |plain[i]| ==>
        var k := AsciiIndex(n[i][j], |palette|);
        0 <= k < |palette| && plain[i][j] == palette[k] && inverted[i][j] == palette[|palette| - 1 - k]
  {
    var g := BrightnessMatrix(image);
    var r := Normalize(g);
    if r.Ok? {
      assert Convert(palette, image) == Asciify(r.value, palette);
      assert Convert(Reverse(palette), image) == Asciify(r.value, Reverse(palette));
      AsciifyInverted(r.value, palette);
    }
  }

  /** The command-line front end; its palette is the one state it keeps. */
  class Cli {
    var asciiMap: string

    constructor ()
      ensures asciiMap == ASCII_CHARS
    {
      asciiMap := ASCII_CHARS;
    }

    /** The `--invert` step of parse_args: replace the palette by its reverse. */
    method ApplyInvert(invert: bool)
      modifies this
      ensures asciiMap == if invert then Reverse(old(asciiMap)) else old(asciiMap)
    {
      if invert {
        asciiMap := Reverse(asciiMap);
      }
    }
  }
}
