/** The raster readers that load the land-cover grids, and the one-off
    recoding of the tree raster into a two-valued mask. A file is given as
    the list of its lines, each with its trailing newline, as `readlines`
    returns them. The raster's body is read bottom row first, so that row 0
    of the result is the last line of the file. */
module Raster {
  import opened PyCommon

  /** A raster as `readASCII` returns it: the cell tokens row by row, and
      the width and height parsed from the header. */
  datatype Grid = Grid(cells: seq<seq<string>>, width: int, height: int)

  /** `readCSV`: one row of comma-separated fields per line. Each row joins
      back to its line. */
  method ReadCsv(lines: seq<string>) returns (cells: seq<seq<string>>)
    ensures |cells| == |lines|
    ensures forall i :: 0 <= i < |lines| ==> cells[i] == Split(lines[i], ',') && Join(cells[i], ',') == lines[i]
  {
    cells := [];
    for i := 0 to |lines|
      invariant |cells| == i
      invariant forall k :: 0 <= k < i ==> cells[k] == Split(lines[k], ',') && Join(cells[k], ',') == lines[k]
    {
      JoinSplit(lines[i], ',');
      cells := cells + [Split(lines[i], ',')];
    }
  }

  predicate KnownVersion(version: string) {
    version == "new" || version == "old"
  }

  /** Lines of header before the body: seven in the new layout, six in the
      old one. */
  function HeaderLines(version: string): (n: nat)
    requires KnownVersion(version)
    ensures n == 6 || n == 7
  {
    if version == "new" then 7 else 6
  }

  /** The width field: three characters before the newline in the new
      layout, the last four characters in the old one. */
  function WidthField(line: string, version: string): (f: string)
    requires KnownVersion(version)
    ensures version == "new" ==> |f| <= 3 && (|line| >= 4 ==> f == line[|line| - 4..|line| - 1])
    ensures version == "old" ==> |f| <= 4 && |f| <= |line| && f == line[|line| - |f|..] && (|line| >= 4 ==> |f| == 4)
  {
    if version == "new" then Slice(line, -4, -1) else SliceFrom(line, -4)
  }

  /** The height field: four characters before the newline in the new
      layout, the last five characters in the old one. */
  function HeightField(line: string, version: string): (f: string)
    requires KnownVersion(version)
    ensures version == "new" ==> |f| <= 4 && (|line| >= 5 ==> f == line[|line| - 5..|line| - 1])
    ensures version == "old" ==> |f| <= 5 && |f| <= |line| && f == line[|line| - |f|..] && (|line| >= 5 ==> |f| == 5)
  {
    if version == "new" then Slice(line, -5, -1) else SliceFrom(line, -5)
  }

  /** The tokens of one body line: the new layout drops newlines first; the
      old one keeps the newline on the last token. */
  function RowCells(line: string, version: string): (r: seq<string>)
    requires KnownVersion(version)
    ensures |r| >= 1
    ensures version == "new" ==> forall k :: 0 <= k < |r| ==> '\n' !in r[k] && ' ' !in r[k]
  {
    if version == "new" then
      var t := Split(RemoveAll(line, '\n'), ' ');
      assert forall k :: 0 <= k < |t| ==> '\n' !in t[k] by {
        SplitKeepsOut(RemoveAll(line, '\n'), ' ', '\n');
      }
      t
    else Split(line, ' ')
  }

  /** Splitting never brings in a character the string did not hold. */
  lemma {:induction false} SplitKeepsOut(s: string, sep: char, c: char)
    requires c !in s
    ensures forall k :: 0 <= k < |Split(s, sep)| ==> c !in Split(s, sep)[k]
  {
    if s != [] {
      assert c !in s[1..];
      SplitKeepsOut(s[1..], sep, c);
    }
  }

  /** `readASCII`: ValueError for an unknown layout; IndexError when the
      file has fewer than two lines; otherwise the body rows, last line
      first, and the header fields parsed by `int()`, width first, so that a
      malformed field raises ValueError. */
  method ReadAscii(lines: seq<string>, version: string) returns (r: Result<Grid>)
    ensures !KnownVersion(version) ==> r == Err(ValueError)
    ensures KnownVersion(version) && |lines| < 2 ==> r == Err(IndexError)
    ensures KnownVersion(version) && |lines| >= 2 ==>
      var w := ParseInt(WidthField(lines[0], version));
      var h := ParseInt(HeightField(lines[1], version));
      && (r.Ok? <==> w.Ok? && h.Ok?)
      && (r.Err? ==> r.error == ValueError)
      && (r.Ok? ==> r.value.width == w.value && r.value.height == h.value)
    ensures r.Ok? ==>
      && |r.value.cells| == (if |lines| < HeaderLines(version) then 0 else |lines| - HeaderLines(version))
      && forall i :: 0 <= i < |r.value.cells| ==> r.value.cells[i] == RowCells(lines[|lines| - 1 - i], version)
  {
    if !KnownVersion(version) {
      return Err(ValueError);
    }
    if |lines| < 2 {
      return Err(IndexError);
    }
    var width := WidthField(lines[0], version);
    var height := HeightField(lines[1], version);
    var body := SliceFrom(lines, HeaderLines(version));
    assert |body| == (if |lines| < HeaderLines(version) then 0 else |lines| - HeaderLines(version));
    var cells: seq<seq<string>> := [];
    for j := 0 to |body|
      invariant |cells| == j
      invariant forall i :: 0 <= i < j ==> cells[i] == RowCells(body[|body| - 1 - i], version)
    {
      cells := cells + [RowCells(body[|body| - 1 - j], version)];
    }
    assert body == lines[|lines| - |body|..];
    var w := ParseInt(width);
    if w.Err? {
      return Err(ValueError);
    }
    var h := ParseInt(height);
    if h.Err? {
      return Err(ValueError);
    }
    r := Ok(Grid(cells, w.value, h.value));
  }

  /** In the new layout each row joins back, with single spaces, to its line
      with the newline removed. */
  lemma NewRowJoinsBack(line: string)
    ensures Join(RowCells(line, "new"), ' ') == RemoveAll(line, '\n')
  {
    JoinSplit(RemoveAll(line, '\n'), ' ');
  }

  function Spaces(n: nat): (s: string)
    ensures |s| == n && forall i :: 0 <= i < n ==> s[i] == ' '
  {
    if n == 0 then [] else Spaces(n - 1) + " "
  }

  /** `n` written right-aligned in a field of `k` characters. */
  function RightAligned(n: nat, k: nat): (s: string)
    requires |NatToString(n)| <= k
    ensures |s| == k
  {
    Spaces(k - |NatToString(n)|) + NatToString(n)
  }

  /** A header line that ends in a field of `k` characters and a newline:
      the slice the new layout cuts out of it is that field. */
  lemma NewFieldIsNumber(prefix: string, field: string)
    ensures Slice(prefix + field + "\n", -(|field| + 1), -1) == field
  {
    var line := prefix + field + "\n";
    assert line[|prefix|..|line| - 1] == field;
  }

  /** `int()` skips the padding in front of the digits. */
  lemma {:induction false} ParsePadded(n: nat, k: nat)
    requires |NatToString(n)| <= k
    ensures ParseInt(RightAligned(n, k)) == Ok(n)
  {
    var digits := NatToString(n);
    var pad := k - |digits|;
    ParseNatToString(n);
    NoSpaceStrip(digits);
    StripLeftSpaces(pad, digits);
    assert StripLeft(Spaces(pad) + digits) == digits;
    assert StripRight(digits) == digits;
  }

  lemma {:induction false} StripLeftSpaces(pad: nat, s: string)
    requires s == [] || !IsSpace(s[0])
    ensures StripLeft(Spaces(pad) + s) == StripLeft(s)
  {
    if pad > 0 {
      assert (Spaces(pad) + s)[0] == ' ';
      assert (Spaces(pad) + s)[1..] == Spaces(pad - 1) + s by {
        assert Spaces(pad) == " " + Spaces(pad - 1) by {
          SpacesFront(pad);
        }
      }
      StripLeftSpaces(pad - 1, s);
    }
  }

  lemma SpacesFront(n: nat)
    requires n > 0
    ensures Spaces(n) == " " + Spaces(n - 1)
  {
  }

  /** The new layout reads back a width of up to three digits written
      right-aligned at the end of the first header line. */
  lemma NewWidthReadsBack(prefix: string, w: nat)
    requires |NatToString(w)| <= 3
    ensures ParseInt(WidthField(prefix + RightAligned(w, 3) + "\n", "new")) == Ok(w)
  {
    var field := RightAligned(w, 3);
    NewFieldIsNumber(prefix, field);
    assert WidthField(prefix + field + "\n", "new") == field;
    ParsePadded(w, 3);
  }

  /** The new layout reads back a height of up to four digits written
      right-aligned at the end of the second header line. */
  lemma NewHeightReadsBack(prefix: string, h: nat)
    requires |NatToString(h)| <= 4
    ensures ParseInt(HeightField(prefix + RightAligned(h, 4) + "\n", "new")) == Ok(h)
  {
    var field := RightAligned(h, 4);
    NewFieldIsNumber(prefix, field);
    assert HeightField(prefix + field + "\n", "new") == field;
    ParsePadded(h, 4);
  }

  /** The value the recoding marks: the float32 no-data value as the tree
      raster writes it. */
  const NoData: string := "-3.4028234663852885981e+38"

  /** The recoded token: `2` for no-data, `0` for anything else. */
  function Recode(token: string): (r: string)
    ensures r == "2" <==> token == NoData
    ensures r == "0" <==> token != NoData
  {
    if token == NoData then "2" else "0"
  }

  /** The pieces written for some tokens: each recoded token followed by a
      space. */
  function RecodedTokens(tokens: seq<string>): (p: seq<string>)
    ensures |p| == 2 * |tokens|
    ensures forall k :: 0 <= k < |tokens| ==> p[2 * k] == Recode(tokens[k]) && p[2 * k + 1] == " "
  {
    if tokens == [] then []
    else RecodedTokens(tokens[..|tokens| - 1]) + [Recode(tokens[|tokens| - 1]), " "]
  }

  /** The pieces `fix_data` writes for one body line: the recoded tokens of
      its space-split, then a newline. */
  function FixedLine(line: string): (p: seq<string>)
    ensures |p| == 2 * |Split(line, ' ')| + 1 && p[|p| - 1] == "\n"
  {
    RecodedTokens(Split(line, ' ')) + ["\n"]
  }

  /** The inner loop of `fix_data`: the pieces written for one line. */
  method FixLine(line: string) returns (thelinenew: seq<string>)
    ensures thelinenew == FixedLine(line)
  {
    var theline := Split(line, ' ');
    thelinenew := [];
    for i := 0 to |theline|
      invariant thelinenew == RecodedTokens(theline[..i])
    {
      assert theline[..i + 1] == theline[..i] + [theline[i]];
      assert theline[..i + 1][..i] == theline[..i];
      ghost var before := thelinenew;
      if theline[i] == NoData {
        thelinenew := thelinenew + ["2", " "];
      } else {
        thelinenew := thelinenew + ["0", " "];
      }
      assert thelinenew == before + [Recode(theline[i]), " "];
    }
    assert theline[..|theline|] == theline;
    thelinenew := thelinenew + ["\n"];
  }

  /** `fix_data`: the body of the tree raster, last line first, each line
      recoded; IndexError when the file has fewer than two lines. */
  method FixData(lines: seq<string>) returns (r: Result<seq<seq<string>>>)
    ensures |lines| < 2 <==> r.Err?
    ensures r.Err? ==> r.error == IndexError
    ensures r.Ok? ==>
      && |r.value| == (if |lines| < 7 then 0 else |lines| - 7)
      && forall i :: 0 <= i < |r.value| ==> r.value[i] == FixedLine(lines[|lines| - 1 - i])
  {
    if |lines| < 2 {
      return Err(IndexError);
    }
    var body := SliceFrom(lines, 7);
    var out: seq<seq<string>> := [];
    for j := 0 to |body|
      invariant |out| == j
      invariant forall i :: 0 <= i < j ==> out[i] == FixedLine(body[|body| - 1 - i])
    {
      var thelinenew := FixLine(body[|body| - 1 - j]);
      out := out + [thelinenew];
    }
    assert body == lines[|lines| - |body|..];
    r := Ok(out);
  }

  /** The text of written pieces. */
  function Concat(pieces: seq<string>): string {
    if pieces == [] then [] else Concat(pieces[..|pieces| - 1]) + pieces[|pieces| - 1]
  }

  predicate MaskChar(c: char) { c == '0' || c == '2' || c == ' ' }

  /** The recoded tokens hold only mask characters. */
  lemma {:induction false} RecodedTokensText(tokens: seq<string>)
    ensures forall c :: c in Concat(RecodedTokens(tokens)) ==> MaskChar(c)
  {
    if tokens != [] {
      var front := tokens[..|tokens| - 1];
      RecodedTokensText(front);
      var q := RecodedTokens(front);
      var last := Recode(tokens[|tokens| - 1]);
      var p := q + [last, " "];
      assert p[..|p| - 1] == q + [last];
      assert (q + [last])[..|q|] == q;
      assert Concat(p) == Concat(q) + last + " ";
      assert last == "0" || last == "2";
    }
  }

  /** Each body line becomes exactly one line of the mask: its text is made
      of `0`, `2` and spaces, and its only newline is the last character. */
  lemma FixedLineIsOneMaskLine(line: string)
    ensures var t := Concat(FixedLine(line));
      && |t| >= 1 && t[|t| - 1] == '\n'
      && forall i :: 0 <= i < |t| - 1 ==> MaskChar(t[i])
  {
    var tokens := Split(line, ' ');
    RecodedTokensText(tokens);
    var p := FixedLine(line);
    assert p[..|p| - 1] == RecodedTokens(tokens);
    var t := Concat(p);
    assert t == Concat(RecodedTokens(tokens)) + "\n";
  }

  /** The recoding reads the line as `readlines` gives it, newline included,
      so a no-data value in the last column becomes `0`. */
  lemma LastColumnKeepsNewline(prefix: string)
    requires ' ' !in prefix
    ensures var t := Split(prefix + " " + NoData + "\n", ' ');
      t[|t| - 1] == NoData + "\n" && Recode(t[|t| - 1]) == "0"
  {
    var last := NoData + "\n";
    assert ' ' !in last;
    assert prefix + " " + NoData + "\n" == prefix + [' '] + last;
    SplitPrefix(prefix, last, ' ');
    SplitPlain(last, ' ');
    assert |last| != |NoData|;
  }
}
